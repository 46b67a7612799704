/** `getColor` of the map component: the marker colour of a temperature in °F. */
module MarkerColor {

  /** The seven colours, coldest band first. */
  const Palette: seq<string> := ["#002366", "#4169E1", "#87CEEB", "#FFFF66", "#FFD700", "#FF4500", "#B22222"]

  /** `getColor(tavg)`: the first threshold `tavg` is below decides the colour. */
  function GetColor(tavg: real): (color: string)
    ensures color in Palette
  {
    if tavg < 0.0 then "#002366"
    else if tavg < 20.0 then "#4169E1"
    else if tavg < 40.0 then "#87CEEB"
    else if tavg < 60.0 then "#FFFF66"
    else if tavg < 80.0 then "#FFD700"
    else if tavg < 100.0 then "#FF4500"
    else "#B22222"
  }

  /**
   * The band of a temperature, computed arithmetically: 0 below zero, 6 from
   * 100 on, and in between one band per 20 degrees, lower bound included.
   */
  function Band(tavg: real): (b: nat)
    ensures b < |Palette|
    ensures b == 0 <==> tavg < 0.0
    ensures b == 6 <==> tavg >= 100.0
    ensures 0 < b < 6 ==> 20.0 * (b - 1) as real <= tavg < 20.0 * b as real
  {
    if tavg < 0.0 then 0
    else if tavg >= 100.0 then 6
    else (tavg / 20.0).Floor + 1
  }

  /** The colour is the palette entry of the temperature's band. */
  lemma ColorOfBand(tavg: real)
    ensures GetColor(tavg) == Palette[Band(tavg)]
  {
    var b := Band(tavg);
    if 0 < b < 6 {
      assert 20.0 * (b - 1) as real <= tavg < 20.0 * b as real;
    }
  }

  /** The seven colours are distinct, so the colour determines the band. */
  lemma PaletteDistinct()
    ensures forall i, j :: 0 <= i < j < |Palette| ==> Palette[i] != Palette[j]
  {
  }

  /** A warmer temperature never gets a colder band. */
  lemma BandMonotone(a: real, b: real)
    requires a <= b
    ensures Band(a) <= Band(b)
  {
  }

  /** Thresholds belong to the band above them. */
  lemma BoundariesGoUp()
    ensures GetColor(0.0) == "#4169E1" && GetColor(20.0) == "#87CEEB" && GetColor(40.0) == "#FFFF66"
    ensures GetColor(60.0) == "#FFD700" && GetColor(80.0) == "#FF4500" && GetColor(100.0) == "#B22222"
  {
  }
}
