# xPostForecast temperature route — a Dafny model

This project models the one algorithmic part of xPostForecast: the backend route `GET /:date`. The route
turns a `YYYY-MM-DD` date into a list of `{lat, lon, tavg}` points for West Virginia, taken from the NOAA
nClimGrid monthly raster in the Microsoft Planetary Computer catalog. It also models two small frontend
pieces: the month/year picker, whose dates feed the route, and the marker colour classifier.

The route does the following, in order:

1. It checks the date against `^\d{4}-\d{2}-\d{2}$`. On failure it answers 400 `Invalid date format`.
2. It searches the catalog with the datetime `YYYY-MM-15T00:00:00Z`. On a failed or empty search it answers `No data`.
3. It takes the second asset key of the first item (with fewer than two keys, the key `"undefined"`), looks that asset up and signs its URL.
4. It downloads and decodes the GeoTIFF.
5. It computes the pixel window of the fixed West Virginia box.
6. It walks that window, columns outer and rows inner. It skips no-data cells, converts Celsius to
   Fahrenheit, and stops at 10,000 points.

The sprint-3 and sprint-4 copies of `routes/stac.js` hold the same code; they differ only in comments,
layout and an unused `geoblaze` import (sprint-4 line 5). One model covers both. The sprint-3 lines map to the sprint-4 lines as follows:
`c2f` 58-60 → 13-15, `signHref` 70-86 → 17-25, validation 107-109 → 29-31, datetime 116-120 → 34-38,
search and asset 129-138 → 44-53, window 145-152 → 60-66, loop 155-177 → 69-87.

Modules (one file each):

- `Wrappers` defines `Option` and `Result`.
- `Digits` defines decimal digits, `String(n)` and `padStart`.
- `DateParam` holds the date check and the search datetime. The check is written position by position.
  It is proved equal to an anchored template matcher, which is a second, independent reading of the
  pattern. The datetime is built with `split`, `slice` and `join`.
- `Units` holds `c2f`.
- `RasterWindow` holds the decoded raster, `Math.floor`/`Math.ceil`, and the pixel window. The window is
  proved equal to a geometric description of which column and row each bound lands in.
- `Sampling` holds the nested loop as a method. It is proved to return exactly the first 10,000 data cells
  of the window in column-major order, each converted to a point.
- `StacRoute` holds the handler. The search answer, the signing answer and the decoded raster are its
  inputs. It returns the reply and the outbound requests it made, in order.
- `DateSelector` holds the option lists and a class with the two state fields and the two change handlers.
- `MarkerColor` holds `getColor`. It is proved equal to an arithmetic band index that is monotone.

The model follows what the code does, including these points where it does less than, or other
than, a reader of the route might expect:

- The date check looks only at the shape of the string, so `2024-13-01` is accepted; no month range is
  checked (`DateParam.ShapeOnlyAccepts`).
- `ixStart`/`iyStart` are clamped only from below and `ixEnd`/`iyEnd` only from above. An empty window
  shows up as a start that lies past its end.
- The end indices are `Math.ceil`s. A raster that begins less than one cell east of the box's east edge
  (or less than one cell south of its south edge) still keeps column 0 (or row 0), so points outside
  the box are returned (`StacRoute.NearMissRasterKeepsEdge`). Only a full cell of margin on those sides
  gives an empty reply (`StacRoute.OutsideRasterNoPoints`).
- `lat = ymax - iy * pixelHeight`, with georaster's positive `pixelHeight`. This is the same value as
  `originY + iy * pixelHeight` written with a negative (north-up) height.
- `lon`/`lat` are the west and north edges of a cell, `xmin + ix * pixelWidth` and
  `ymax - iy * pixelHeight`. The comment at sprint-3 `stac.js` line 13 speaks of cell centres; no
  half-cell offset is added.
- A search that succeeds with no features answers with the search's own status (a 2xx), not 404. The 404
  applies only when the status is falsy (`StacRoute.OkButEmptyKeepsStatus`).
- The errors of the signing, download and decode steps are uncaught exceptions. They are modelled as
  `Unhandled`, not as typed error replies.
- For a raster with origin −83/41, 0.1° cells and 100 × 100 cells, the window is columns 3..53 and rows
  3..38; it does not start at column 0. The cell (5, 3) at 20 °C is emitted as lon −82.5, lat 40.7,
  tavg 68 (`StacRoute.WorkedExample`).

## Model

| member | source | states |
|---|---|---|
| `DateParam.ValidDateIffPattern` | sprint3-api-integration/backend/routes/stac.js:107-109 | the route's check (length 10, digits at 0-3, 5-6 and 8-9, `-` at 4 and 7) accepts exactly the strings that match the anchored pattern `\d{4}-\d{2}-\d{2}` |
| `DateParam.ShapeOnlyAccepts` | sprint4-cloud-deployment/backend/routes/stac.js:29-31 | the check and the pattern both accept `2024-13-01`, a month 13 |
| `DateParam.ShapeOnlyRejects` | sprint4-cloud-deployment/backend/routes/stac.js:29-31 | the check and the pattern both reject `abc` and `2024-1-1` |
| `DateParam.MatchesPointwise` | sprint3-api-integration/backend/routes/stac.js:107 | an anchored template match holds iff the lengths are equal and every character matches its template position |
| `DateParam.Split` | sprint3-api-integration/backend/routes/stac.js:119 | `split('-')` yields at least one piece, and no piece contains the separator |
| `DateParam.JoinSplit` | sprint3-api-integration/backend/routes/stac.js:119 | joining the pieces of a split with the separator gives back the original string |
| `DateParam.SearchDatetimeOfValidDate` | sprint3-api-integration/backend/routes/stac.js:116-120 | for an accepted date, the search datetime is its first 7 characters followed by `-15T00:00:00Z` |
| `DateParam.DayIsIgnored` | sprint4-cloud-deployment/backend/routes/stac.js:34-38 | two accepted dates of the same year and month search with the same datetime |
| `Units.CelsiusToFahrenheit` | sprint3-api-integration/backend/routes/stac.js:58-60 | `c2f`; `(f - 32) * 5 / 9` recovers the Celsius value |
| `Units.FixedPoints` | sprint3-api-integration/backend/routes/stac.js:58-60 | 0 °C ↦ 32 °F, 100 °C ↦ 212 °F, −40 ↦ −40 |
| `Units.StrictlyIncreasing` | sprint4-cloud-deployment/backend/routes/stac.js:13-15 | `a < b` iff `c2f(a) < c2f(b)` |
| `StacRoute.SignHref` | sprint3-api-integration/backend/routes/stac.js:70-86 | `signHref` fails iff the answer is not OK, its body is not JSON, or `href` is falsy; otherwise it returns exactly `json.href` |
| `StacRoute.SearchResult` | sprint3-api-integration/backend/routes/stac.js:129-132 | a non-JSON search body throws; a failed or empty search stops with `No data` and status `status \|\| 404`; otherwise the first feature is used |
| `StacRoute.OkButEmptyKeepsStatus` | sprint3-api-integration/backend/routes/stac.js:131 | an OK search with no features answers with its own 2xx status, not 404 |
| `StacRoute.Lookup` | sprint3-api-integration/backend/routes/stac.js:137 | `assets[key]` is found iff some entry has that key, and it is that entry's href (keys being distinct, as in a JSON object) |
| `StacRoute.SecondAssetHref` | sprint3-api-integration/backend/routes/stac.js:135-137 | an href is picked iff the item has at least two asset keys, or its only key is `"undefined"` (the name an `undefined` index reads) |
| `StacRoute.UndefinedKeyIsFound` | sprint3-api-integration/backend/routes/stac.js:136-138 | an item whose only asset key is `"undefined"` has that asset's href signed |
| `StacRoute.SecondAssetIsSecond` | sprint4-cloud-deployment/backend/routes/stac.js:50-52 | with distinct keys, the asset signed is the second one in key order |
| `StacRoute.GetTemperatures` | sprint3-api-integration/backend/routes/stac.js:103-181 | rejected date: 400 and no request; otherwise the search request carries `Payload(date)`; after a search failure nothing is signed; after a sign failure nothing is downloaded; on success the reply is 200 with `RoutePoints` of the decoded raster |
| `StacRoute.SampleWestVirginia` | sprint3-api-integration/backend/routes/stac.js:145-177 | the points of a decoded raster are those of its West Virginia window, sampled as the route does (`RoutePoints`) |
| `StacRoute.RoutePointsFromCells` | sprint4-cloud-deployment/backend/routes/stac.js:69-87 | a successful reply has at most 10,000 points; point k comes from kept data cell k with `lat = ymax - iy*pixelHeight`, `lon = xmin + ix*pixelWidth`, `tavg = c*9/5+32` |
| `StacRoute.RoutePointsNearBox` | sprint4-cloud-deployment/backend/routes/stac.js:63-78 | every point lies within one cell of the West Virginia box |
| `StacRoute.OutsideRasterNoPoints` | sprint4-cloud-deployment/backend/routes/stac.js:63-74 | a raster west or north of the box, or at least one full cell east or south of it, yields an empty point list, not an error |
| `StacRoute.NearMissRasterKeepsEdge` | sprint4-cloud-deployment/backend/routes/stac.js:60-75 | a raster starting at −77.7 (east of the box's east edge −77.719519 by less than one 0.1° cell) gets window columns 0..0, rows 3..38; a data cell (0, 3) is emitted, and every point lies east of the box |
| `StacRoute.WorkedExample` | sprint3-api-integration/backend/routes/stac.js:145-175 | origin −83/41 with 0.1° cells: window columns 3..53 and rows 3..38; cell (5,3) at 20 °C becomes (40.7, −82.5, 68) |
| `RasterWindow.Floor` | sprint3-api-integration/backend/routes/stac.js:148 | `Math.floor(x)` is the integer n with n ≤ x < n + 1 |
| `RasterWindow.Ceil` | sprint3-api-integration/backend/routes/stac.js:149 | `Math.ceil(x)` is the integer n with n − 1 < x ≤ n |
| `RasterWindow.PixelWindow` | sprint3-api-integration/backend/routes/stac.js:145-152 | starts ≥ 0, `ixEnd ≤ width-1`, `iyEnd ≤ height-1`; each bound is the column or row in which its box edge lands, or the clamp value |
| `RasterWindow.WindowNearBox` | sprint4-cloud-deployment/backend/routes/stac.js:63-66 | every cell of the window has `west - pixelWidth < lon < east + pixelWidth` and `south - pixelHeight < lat < north + pixelHeight` |
| `RasterWindow.OutsideBoxEmptyWindow` | sprint3-api-integration/backend/routes/stac.js:148-152 | a box east or south of the grid, or at least one full cell west or north of it, gives a start past its end |
| `RasterWindow.WindowIgnoresCells` | sprint4-cloud-deployment/backend/routes/stac.js:61-66 | the window depends only on the grid metadata and the box, not on cell values |
| `Sampling.WindowCellsExactly` | sprint3-api-integration/backend/routes/stac.js:158-163 | the visited list holds exactly the window's non-null cells, in column-major order |
| `Sampling.SampleWindow` | sprint3-api-integration/backend/routes/stac.js:155-177 | the nested loops read only in-bounds cells and return the first `MAX_POINTS` data cells of the window as points |
| `Sampling.SampleCount` | sprint3-api-integration/backend/routes/stac.js:156-175 | the number of points is `min(10000, number of data cells in the window)` |
| `Sampling.SampledPoints` | sprint3-api-integration/backend/routes/stac.js:162-175 | point k is built from visited cell k, which lies in the window and holds data, by the exact lat/lon/tavg formulas |
| `Sampling.UnderCapAllEmitted` | sprint4-cloud-deployment/backend/routes/stac.js:72-75 | with at most 10,000 data cells, every data cell of the window is emitted |
| `Sampling.EmptyWindowNoPoints` | sprint4-cloud-deployment/backend/routes/stac.js:72-73 | a start past its end yields no points |
| `DateSelector.MonthOptionsExactly` | sprint3-deploy-frontend/frontend/src/components/DateSelector.jsx:57-58 | there are twelve month values; value i has two digits and denotes i + 1 (`"01"`..`"12"`) |
| `DateSelector.YearOptionsExactly` | sprint3-deploy-frontend/frontend/src/components/DateSelector.jsx:68-69 | there are 72 year values; value i has four digits and denotes 1951 + i |
| `DateSelector.EmittedDateAccepted` | sprint3-deploy-frontend/frontend/src/components/DateSelector.jsx:36 | `year-month-01` built from options passes the route's date check, with year 1951..2022 and month 1..12 |
| `DateSelector.DateSelectorState.constructor` | sprint3-deploy-frontend/frontend/src/components/DateSelector.jsx:20-21 | both fields start empty |
| `DateSelector.DateSelectorState.HandleMonthChange` | sprint3-deploy-frontend/frontend/src/components/DateSelector.jsx:34-37 | sets `month` and leaves `year`; emits `year-value-01` iff a year is set; keeps the state valid and emits only accepted dates |
| `DateSelector.DateSelectorState.HandleYearChange` | sprint3-deploy-frontend/frontend/src/components/DateSelector.jsx:46-49 | sets `year` and leaves `month`; emits `value-month-01` iff a month is set; keeps the state valid and emits only accepted dates |
| `Digits.DecimalRoundTrip` | sprint3-deploy-frontend/frontend/src/components/DateSelector.jsx:69 | the decimal rendering of n reads back as n |
| `Digits.PadStart` | sprint3-deploy-frontend/frontend/src/components/DateSelector.jsx:58 | `padStart` keeps the string as a suffix, fills the front with the pad character, and reaches the target length |
| `MarkerColor.GetColor` | sprint2-login-backend/frontend/src/components/MapComponent.jsx:40-48 | the result is always one of the seven colours |
| `MarkerColor.Band` | sprint2-login-backend/frontend/src/components/MapComponent.jsx:40-48 | band 0 iff t < 0; band 6 iff t ≥ 100; band b in 1..5 iff 20(b−1) ≤ t < 20b |
| `MarkerColor.ColorOfBand` | sprint2-login-backend/frontend/src/components/MapComponent.jsx:41-47 | `getColor(t)` is the palette entry of the band of t |
| `MarkerColor.BandMonotone` | sprint2-login-backend/frontend/src/components/MapComponent.jsx:40-48 | a ≤ b implies band(a) ≤ band(b) |
| `MarkerColor.PaletteDistinct` | sprint2-login-backend/frontend/src/components/MapComponent.jsx:41-47 | the seven colours are distinct |
| `MarkerColor.BoundariesGoUp` | sprint2-login-backend/frontend/src/components/MapComponent.jsx:42-46 | each threshold (0, 20, …, 100) gets the colour of the band above it |

## Left out

- The HTTP requests to the catalog search, the signing endpoint and the raster URL are left out. So are
  `parseGeoraster` and the GeoTIFF format. Their answers are inputs of `StacRoute.GetTemperatures`:
  a search answer, a signing answer, and a decoded raster (`None` when download or decoding throws).
  A transport failure of the search or sign request is not distinguished from such an answer.
- `StacRoute.GetTemperatures` requires the decoded raster to be well formed: positive cell sizes and
  dimensions, and every band of `height` rows of `width` cells. This is georaster's output, not something
  the route checks.
- Object key order is not modelled. An item's assets are given as a list already in `Object.keys` order.
  That includes JavaScript's rule that integer-like keys come first. The list is taken to have distinct
  keys (`StacRoute.DistinctKeys`), as any parsed JSON object does; `GetTemperatures` does not demand it,
  and on a list with a repeated key it would pick an asset no JSON text can produce.
- JSON values are reduced to what the route inspects. The sign body is modelled only through `href` and
  its truthiness, the search body only through `features`. A sign body that is JSON `null`, `features`
  that is not an array, a 2xx search body that is JSON `null` (reading `features` of it throws), a first
  feature without `assets` (`Object.keys(undefined)` throws) and an asset without `href` (the string
  `"undefined"` is then signed) are not modelled.
- IEEE floating point is not modelled. Coordinates and temperatures are exact reals, and a null or NaN
  cell is `None`. `StacRoute.Truthy` therefore has no NaN case, and `MarkerColor.GetColor` has no
  NaN/undefined input (in the source such an input falls through every comparison to `#B22222`).
- `console.log`, Express routing, `res.status().json()` plumbing, and the unused `geoblaze` import of the
  sprint-4 file are not part of this model.
- The `onDateChange` callback is modelled as the value the handlers return. The option labels
  (`toLocaleString` month names) and the Fetch button are rendering only.
- The chroma-js colour scale of the sprint-3 map component, the auth routes and middleware, the database
  pool, the React pages, the app routing and the axios client are outside this model.
