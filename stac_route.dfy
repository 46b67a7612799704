/**
 * `GET /:date`: validate the date, search the catalog, take the second asset
 * of the first item, sign it, download and decode the raster, and sample the
 * West Virginia window. The three network exchanges and the decoder are
 * inputs (their responses); the handler reports the requests it sends, in
 * order, so what is NOT sent on an early exit is part of its contract.
 */
module StacRoute {
  import opened Wrappers
  import opened DateParam
  import opened RasterWindow
  import opened Sampling

  const Collection: string := "noaa-nclimgrid-monthly"
  const InvalidDateMessage: string := "Invalid date format"
  const NoDataMessage: string := "No data"

  /** A JSON value, as far as JavaScript's truthiness is concerned. */
  datatype JsValue = Undefined | Null | Bool(b: bool) | Number(n: real) | Str(s: string) | Object

  /** `!!v` (NaN, which is also falsy, is not modelled). */
  predicate Truthy(v: JsValue)
  {
    match v
    case Undefined => false
    case Null => false
    case Bool(b) => b
    case Number(n) => n != 0.0
    case Str(s) => s != ""
    case Object => true
  }

  /** `res.ok` of a fetch response. */
  predicate IsOk(status: int)
  {
    200 <= status <= 299
  }

  // ---------------------------------------------------------------- signHref

  /** The parsed body of the signing service's answer: its `href` field. */
  datatype SignBody = SignBody(href: JsValue)

  /** The signing service's answer: status, body text, and the body as JSON (`None` when it does not parse). */
  datatype SignResponse = SignResponse(status: int, text: string, json: Option<SignBody>)

  /** Why `signHref` throws: a non-OK answer (its text is the message), a body that is not JSON, or a falsy `href`. */
  datatype SignError = SignHttpError(text: string) | SignBodyNotJson | NoHrefField

  /**
   * `signHref`: throws unless the answer is OK, parses, and carries a truthy
   * `href`; otherwise returns exactly that `href`.
   */
  function SignHref(res: SignResponse): (r: Result<JsValue, SignError>)
    ensures r.Ok? <==> IsOk(res.status) && res.json.Some? && Truthy(res.json.value.href)
    ensures r.Ok? ==> r.value == res.json.value.href && Truthy(r.value)
    ensures !IsOk(res.status) ==> r == Err(SignHttpError(res.text))
    ensures IsOk(res.status) && res.json.Some? && !Truthy(res.json.value.href) ==> r == Err(NoHrefField)
  {
    if !IsOk(res.status) then Err(SignHttpError(res.text))
    else if res.json.None? then Err(SignBodyNotJson)
    else if !Truthy(res.json.value.href) then Err(NoHrefField)
    else Ok(res.json.value.href)
  }

  // ---------------------------------------------------------- catalog search

  /** One entry of an item's `assets` object. */
  datatype Asset = Asset(key: string, href: string)

  /** A returned item; `assets` lists the entries in `Object.keys` order. */
  datatype Feature = Feature(assets: seq<Asset>)

  /** The search body: `features`, `None` when it is absent or null. */
  datatype SearchBody = SearchBody(features: Option<seq<Feature>>)

  /** The search answer: its status and its body, `None` when it does not parse as JSON. */
  datatype SearchResponse = SearchResponse(status: int, json: Option<SearchBody>)

  /** The JSON sent to the catalog search. */
  datatype SearchPayload = SearchPayload(collections: seq<string>, bbox: BBox, datetime: string)

  function Payload(date: string): SearchPayload
  {
    SearchPayload([Collection], WestVirginia, SearchDatetime(date))
  }

  /** The response body of the route. */
  datatype Body = ErrorBody(error: string) | PointsBody(points: seq<Point>)

  /** An exception the handler does not catch. */
  datatype Crash = SearchBodyNotJson | NoSecondAsset | SignFailed(error: SignError) | DownloadFailed

  datatype Reply = Reply(status: int, body: Body) | Unhandled(cause: Crash)

  /** The outbound requests of the handler. */
  datatype Call = SearchCall(payload: SearchPayload) | SignCall(href: string) | DownloadCall(url: JsValue)

  /** `stacRes.status || 404`. */
  function NoDataStatus(status: int): int
  {
    if status == 0 then 404 else status
  }

  /**
   * The outcome of the search: the first feature, or the reply the handler
   * stops with. The body is parsed before `ok` is looked at, so a body that is
   * not JSON throws even on a failed search.
   */
  function SearchResult(res: SearchResponse): (r: Result<Feature, Reply>)
    ensures r.Ok? <==>
      IsOk(res.status) && res.json.Some? && res.json.value.features.Some? &&
      |res.json.value.features.value| > 0
    ensures r.Ok? ==> r.value == res.json.value.features.value[0]
    ensures res.json.None? ==> r == Err(Unhandled(SearchBodyNotJson))
    ensures res.json.Some? && r.Err? ==> r.error == Reply(NoDataStatus(res.status), ErrorBody(NoDataMessage))
  {
    match res.json
    case None => Err(Unhandled(SearchBodyNotJson))
    case Some(body) =>
      if !IsOk(res.status) || body.features.None? || |body.features.value| == 0 then
        Err(Reply(NoDataStatus(res.status), ErrorBody(NoDataMessage)))
      else
        Ok(body.features.value[0])
  }

  /** A search that succeeds but finds nothing answers with its own 2xx status, not 404. */
  lemma OkButEmptyKeepsStatus(res: SearchResponse)
    requires IsOk(res.status) && res.json.Some?
    requires res.json.value.features.None? || res.json.value.features.value == []
    ensures SearchResult(res) == Err(Reply(res.status, ErrorBody(NoDataMessage)))
    ensures 200 <= SearchResult(res).error.status <= 299
  {
  }

  /** `item.assets[key]`: the href of the entry with that key. */
  function Lookup(assets: seq<Asset>, key: string): (r: Option<string>)
    ensures r.Some? <==> exists i :: 0 <= i < |assets| && assets[i].key == key
    ensures forall i :: 0 <= i < |assets| && assets[i].key == key ==>
      (forall j :: 0 <= j < i ==> assets[j].key != key) ==> r == Some(assets[i].href)
  {
    if assets == [] then None
    else if assets[0].key == key then Some(assets[0].href)
    else
      var r := Lookup(assets[1..], key);
      KeyInTail(assets, key);
      assert forall i :: 1 <= i < |assets| ==> assets[i] == assets[1..][i - 1];
      r
  }

  lemma KeyInTail(assets: seq<Asset>, key: string)
    requires assets != [] && assets[0].key != key
    ensures (exists i :: 0 <= i < |assets| && assets[i].key == key) <==>
      exists i :: 0 <= i < |assets[1..]| && assets[1..][i].key == key
  {
    if i :| 0 <= i < |assets| && assets[i].key == key {
      assert assets[1..][i - 1].key == key;
    }
    if i :| 0 <= i < |assets[1..]| && assets[1..][i].key == key {
      assert assets[i + 1].key == key;
    }
  }

  /**
   * `item.assets[Object.keys(item.assets)[1]].href`. With fewer than two keys
   * the index is `undefined`, which as a property name reads the key
   * `"undefined"`; `None` when nothing is found, where reading `.href` of
   * undefined throws.
   */
  function SecondAssetHref(f: Feature): (r: Option<string>)
    ensures r.Some? <==> |f.assets| >= 2 || (|f.assets| == 1 && f.assets[0].key == "undefined")
  {
    if |f.assets| < 2 then Lookup(f.assets, "undefined") else Lookup(f.assets, f.assets[1].key)
  }

  predicate DistinctKeys(assets: seq<Asset>)
  {
    forall i, j :: 0 <= i < j < |assets| ==> assets[i].key != assets[j].key
  }

  /** With distinct keys (as in any JSON object) the asset used is the second one listed. */
  lemma SecondAssetIsSecond(f: Feature)
    requires |f.assets| >= 2 && DistinctKeys(f.assets)
    ensures SecondAssetHref(f) == Some(f.assets[1].href)
  {
  }

  /** An item whose only asset is keyed `"undefined"` still has that asset signed. */
  lemma UndefinedKeyIsFound(href: string)
    ensures SecondAssetHref(Feature([Asset("undefined", href)])) == Some(href)
  {
  }

  // ----------------------------------------------------------------- handler

  /**
   * The route handler. `search`, `sign` and `download` are what the catalog,
   * the signing service and the raster download plus `parseGeoraster` give
   * back (`None`: the download or the decoding threw).
   */
  method GetTemperatures(date: string, search: SearchResponse, sign: SignResponse, download: Option<Raster>)
    returns (reply: Reply, calls: seq<Call>)
    requires download.Some? ==> WellFormed(download.value)
    ensures !IsValidDate(date) ==> reply == Reply(400, ErrorBody(InvalidDateMessage)) && calls == []
    ensures IsValidDate(date) ==> 1 <= |calls| && calls[0] == SearchCall(Payload(date))
    ensures IsValidDate(date) && SearchResult(search).Err? ==>
      reply == SearchResult(search).error && |calls| == 1
    ensures IsValidDate(date) && SearchResult(search).Ok? ==>
      match SecondAssetHref(SearchResult(search).value)
      case None => reply == Unhandled(NoSecondAsset) && |calls| == 1
      case Some(href) =>
        match SignHref(sign)
        case Err(e) =>
          && reply == Unhandled(SignFailed(e))
          && calls == [SearchCall(Payload(date)), SignCall(href)]
        case Ok(url) =>
          && calls == [SearchCall(Payload(date)), SignCall(href), DownloadCall(url)]
          && reply == match download
                      case None => Unhandled(DownloadFailed)
                      case Some(g) => Reply(200, PointsBody(RoutePoints(g)))
  {
    if !IsValidDate(date) {
      return Reply(400, ErrorBody(InvalidDateMessage)), [];
    }

    calls := [SearchCall(Payload(date))];
    var found := SearchResult(search);
    if found.Err? {
      return found.error, calls;
    }

    var href := SecondAssetHref(found.value);
    if href.None? {
      return Unhandled(NoSecondAsset), calls;
    }

    calls := calls + [SignCall(href.value)];
    var signed := SignHref(sign);
    if signed.Err? {
      return Unhandled(SignFailed(signed.error)), calls;
    }

    calls := calls + [DownloadCall(signed.value)];
    if download.None? {
      return Unhandled(DownloadFailed), calls;
    }

    var points := SampleWestVirginia(download.value);
    reply := Reply(200, PointsBody(points));
  }

  /** Steps 4 and 5 of the route: the pixel window of the West Virginia box, then the sampling loops over it. */
  method SampleWestVirginia(georaster: Raster) returns (points: seq<Point>)
    requires WellFormed(georaster)
    ensures points == RoutePoints(georaster)
  {
    var window := PixelWindow(georaster, WestVirginia);
    points := SampleWindow(georaster, window);
  }

  /** The cells behind a successful reply: the data cells of the West Virginia window, the first 10,000 of them. */
  function RouteCells(g: Raster): seq<Cell>
    requires g.pixelWidth > 0.0 && g.pixelHeight > 0.0
  {
    Cap(WindowCells(g, PixelWindow(g, WestVirginia)), MaxPoints)
  }

  /** The points of a successful reply. */
  function RoutePoints(g: Raster): seq<Point>
    requires g.pixelWidth > 0.0 && g.pixelHeight > 0.0
  {
    PointsOf(g, RouteCells(g))
  }

  /**
   * A successful reply has at most 10,000 points; the k-th comes from the k-th
   * cell the route keeps, a data cell of the raster, by the route's formulas.
   */
  lemma RoutePointsFromCells(g: Raster)
    requires WellFormed(g)
    ensures |RoutePoints(g)| == |RouteCells(g)| <= MaxPoints
    ensures forall k :: 0 <= k < |RoutePoints(g)| ==> EmittedFrom(g, RoutePoints(g)[k], RouteCells(g)[k])
  {
    SampledPoints(g, PixelWindow(g, WestVirginia));
  }

  /** Every point of a successful reply lies within one cell of the West Virginia box. */
  lemma RoutePointsNearBox(g: Raster)
    requires WellFormed(g)
    ensures forall k :: 0 <= k < |RoutePoints(g)| ==>
      && WestVirginia.west - g.pixelWidth < RoutePoints(g)[k].lon < WestVirginia.east + g.pixelWidth
      && WestVirginia.south - g.pixelHeight < RoutePoints(g)[k].lat < WestVirginia.north + g.pixelHeight
  {
    var w := PixelWindow(g, WestVirginia);
    SampledPoints(g, w);
    var cells := RouteCells(g);
    forall k | 0 <= k < |cells|
      ensures && WestVirginia.west - g.pixelWidth < RoutePoints(g)[k].lon < WestVirginia.east + g.pixelWidth
              && WestVirginia.south - g.pixelHeight < RoutePoints(g)[k].lat < WestVirginia.north + g.pixelHeight
    {
      WindowNearBox(g, WestVirginia, cells[k].ix, cells[k].iy);
    }
  }

  /**
   * A raster west or north of the box, or at least one full cell east or south
   * of it, yields an empty list of points, not an error. The margin is needed:
   * the end indices are `Math.ceil`s, so a raster less than a cell east (or
   * south) of the box keeps column 0 (or row 0) (see `NearMissRasterKeepsEdge`).
   */
  lemma OutsideRasterNoPoints(g: Raster)
    requires WellFormed(g)
    requires || WestVirginia.west >= Lon(g, g.width) || WestVirginia.east <= Lon(g, -1)
             || WestVirginia.north <= Lat(g, g.height) || WestVirginia.south >= Lat(g, -1)
    ensures RoutePoints(g) == []
  {
    OutsideBoxEmptyWindow(g, WestVirginia);
    EmptyWindowNoPoints(g, PixelWindow(g, WestVirginia));
  }

  /**
   * A raster with origin (-83, 41) and 0.1° cells, 100 × 100: the window is
   * columns 3..53 and rows 3..38, and cell (5, 3) at 20 °C becomes the point
   * lon -82.5, lat 40.7, tavg 68.
   */
  lemma WorkedExample(g: Raster)
    requires g.xmin == -83.0 && g.ymax == 41.0 && g.pixelWidth == 0.1 && g.pixelHeight == 0.1
    requires g.width == 100 && g.height == 100
    ensures PixelWindow(g, WestVirginia) == Window(3, 53, 3, 38)
    ensures ToPoint(g, Cell(5, 3, 20.0)) == Point(40.7, -82.5, 68.0)
  {
  }

  /**
   * A raster with origin (-77.7, 41) and 0.1° cells, 10 × 100, begins east of
   * the box's east edge (-77.719519) by less than one cell: the end column is
   * `Math.ceil(-0.19519) == 0`, so column 0 is kept, and every point of the
   * reply, of which there is at least one when cell (0, 3) holds data, lies
   * east of the box.
   */
  lemma NearMissRasterKeepsEdge(g: Raster, t: real)
    requires WellFormed(g)
    requires g.xmin == -77.7 && g.ymax == 41.0 && g.pixelWidth == 0.1 && g.pixelHeight == 0.1
    requires g.width == 10 && g.height == 100
    requires g.values[0][3][0] == Some(t)
    ensures WestVirginia.east < g.xmin
    ensures PixelWindow(g, WestVirginia) == Window(0, 0, 3, 38)
    ensures ToPoint(g, Cell(0, 3, t)) in RoutePoints(g)
    ensures forall k :: 0 <= k < |RoutePoints(g)| ==> RoutePoints(g)[k].lon > WestVirginia.east
  {
    NearMissCells(g);
    var all := RouteCells(g);
    WindowCellsExactly(g, Window(0, 0, 3, 38));
    assert IsDataCell(g, Cell(0, 3, t));
    var k :| 0 <= k < |all| && all[k] == Cell(0, 3, t);
    NearMissPoints(g, all, k);
  }

  /** The window of the near-miss raster of `NearMissRasterKeepsEdge`, and the cells it keeps: one column of 36 rows, under the cap. */
  lemma NearMissCells(g: Raster)
    requires g.xmin == -77.7 && g.ymax == 41.0 && g.pixelWidth == 0.1 && g.pixelHeight == 0.1
    requires g.width == 10 && g.height == 100
    ensures PixelWindow(g, WestVirginia) == Window(0, 0, 3, 38)
    ensures RouteCells(g) == WindowCells(g, Window(0, 0, 3, 38))
  {
    var w := Window(0, 0, 3, 38);
    assert PixelWindow(g, WestVirginia) == w;
    CellsBeforeStep(g, w, 0);
    ColumnCellsLength(g, 0, 3, 39);
  }

  /** Points built from cells of column 0 of the near-miss raster lie east of the box. */
  lemma NearMissPoints(g: Raster, cells: seq<Cell>, k: int)
    requires g.xmin == -77.7 && g.pixelWidth == 0.1 && g.pixelHeight == 0.1
    requires forall c :: c in cells ==> c.ix == 0
    requires 0 <= k < |cells|
    ensures ToPoint(g, cells[k]) in PointsOf(g, cells)
    ensures forall j :: 0 <= j < |cells| ==> PointsOf(g, cells)[j].lon > WestVirginia.east
  {
    var points := PointsOf(g, cells);
    assert points[k] == ToPoint(g, cells[k]);
    forall j | 0 <= j < |cells|
      ensures points[j].lon > WestVirginia.east
    {
      assert cells[j] in cells;
    }
  }
}
