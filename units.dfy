/** `c2f`: the Celsius to Fahrenheit conversion applied to every sampled cell. */
module Units {

  /** `c * 9 / 5 + 32`, in exact arithmetic. */
  function CelsiusToFahrenheit(c: real): (f: real)
    ensures (f - 32.0) * 5.0 / 9.0 == c
  {
    c * 9.0 / 5.0 + 32.0
  }

  /** Water freezes at 32 °F and boils at 212 °F. */
  lemma FixedPoints()
    ensures CelsiusToFahrenheit(0.0) == 32.0
    ensures CelsiusToFahrenheit(100.0) == 212.0
    ensures CelsiusToFahrenheit(-40.0) == -40.0
  {
  }

  /** The conversion is strictly increasing, hence order-preserving and one-to-one. */
  lemma StrictlyIncreasing(a: real, b: real)
    ensures a < b <==> CelsiusToFahrenheit(a) < CelsiusToFahrenheit(b)
  {
  }
}
