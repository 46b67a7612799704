/**
 * The month/year picker of the map page. Its two handlers set one field of
 * the component's state each and pass `YYYY-MM-01` to `onDateChange` once the
 * other field is already chosen; the call is modelled as the returned value.
 */
module DateSelector {
  import opened Wrappers
  import opened Digits
  import DateParam

  /** The nClimGrid monthly product covers 1951 to 2022. */
  const StartYear: nat := 1951
  const EndYear: nat := 2022

  /** The month option values: `String(i + 1).padStart(2, '0')` for `i` in 0..11. */
  function MonthOptions(): seq<string>
  {
    seq(12, i requires 0 <= i < 12 => PadStart(DecimalString(i + 1), 2, '0'))
  }

  /** The year option values: `startYear + i` for `i` below `endYear - startYear + 1`, as the DOM renders them. */
  function YearOptions(): seq<string>
  {
    seq(EndYear - StartYear + 1, i requires 0 <= i < EndYear - StartYear + 1 => DecimalString(StartYear + i))
  }

  /** Twelve month values, `"01"` to `"12"`: two digits each, the i-th denoting i + 1. */
  lemma MonthOptionsExactly()
    ensures |MonthOptions()| == 12
    ensures forall i :: 0 <= i < 12 ==>
      |MonthOptions()[i]| == 2 && AllDigits(MonthOptions()[i]) && DecimalValue(MonthOptions()[i]) == i + 1
  {
    forall i | 0 <= i < 12
      ensures |MonthOptions()[i]| == 2 && AllDigits(MonthOptions()[i]) && DecimalValue(MonthOptions()[i]) == i + 1
    {
      var d := DecimalString(i + 1);
      DecimalLength(i + 1);
      DecimalRoundTrip(i + 1);
      if i + 1 < 10 {
        LeadingZeros(1, d);
        assert MonthOptions()[i] == seq(1, _ => '0') + d;
      }
    }
  }

  /** 72 year values, 1951 to 2022: four digits each, the i-th denoting 1951 + i. */
  lemma YearOptionsExactly()
    ensures |YearOptions()| == 72
    ensures forall i :: 0 <= i < 72 ==>
      |YearOptions()[i]| == 4 && AllDigits(YearOptions()[i]) && DecimalValue(YearOptions()[i]) == StartYear + i
  {
    forall i | 0 <= i < 72
      ensures |YearOptions()[i]| == 4 && AllDigits(YearOptions()[i]) && DecimalValue(YearOptions()[i]) == StartYear + i
    {
      DecimalLength(StartYear + i);
      DecimalRoundTrip(StartYear + i);
    }
  }

  /** The string handed to `onDateChange`. */
  function DateString(year: string, month: string): string
  {
    year + "-" + month + "-01"
  }

  /**
   * A date built from a year option and a month option passes the route's
   * `^\d{4}-\d{2}-\d{2}$` check, and its year and month read back as
   * 1951..2022 and 1..12.
   */
  lemma EmittedDateAccepted(year: string, month: string)
    requires year in YearOptions() && month in MonthOptions()
    ensures DateParam.IsValidDate(DateString(year, month))
    ensures var s := DateString(year, month);
      && AllDigits(s[..4]) && StartYear <= DecimalValue(s[..4]) <= EndYear
      && AllDigits(s[5..7]) && 1 <= DecimalValue(s[5..7]) <= 12
  {
    YearOptionsExactly();
    MonthOptionsExactly();
    var s := DateString(year, month);
    assert s[..4] == year;
    assert s[5..7] == month;
    assert s[4] == '-' && s[7] == '-' && s[8] == '0' && s[9] == '1';
    assert forall i :: 0 <= i < 4 ==> s[i] == year[i];
    assert forall i :: 0 <= i < 2 ==> s[5 + i] == month[i];
  }

  /** The component's state: the chosen `month` and `year`, `""` while unchosen. */
  class DateSelectorState {
    var month: string
    var year: string

    /** Both fields hold either nothing or one of their options. */
    ghost predicate Valid()
      reads this
    {
      (month == "" || month in MonthOptions()) && (year == "" || year in YearOptions())
    }

    /** `useState('')` for both fields. */
    constructor ()
      ensures month == "" && year == "" && Valid()
    {
      month, year := "", "";
    }

    /**
     * `handleMonthChange`: sets `month`; emits `year-value-01` only when a year
     * is already chosen. A month option keeps the state valid and makes any
     * emitted date one the route accepts.
     */
    method HandleMonthChange(value: string) returns (emitted: Option<string>)
      modifies this
      ensures month == value && year == old(year)
      ensures emitted == if old(year) != "" then Some(DateString(old(year), value)) else None
      ensures old(Valid()) && value in MonthOptions() ==>
        Valid() && (emitted.Some? ==> DateParam.IsValidDate(emitted.value))
    {
      month := value;
      emitted := None;
      if year != "" {
        emitted := Some(DateString(year, value));
      }
      if value in MonthOptions() && year != "" && year in YearOptions() {
        EmittedDateAccepted(year, value);
      }
    }

    /**
     * `handleYearChange`: sets `year`; emits `value-month-01` only when a month
     * is already chosen. A year option keeps the state valid and makes any
     * emitted date one the route accepts.
     */
    method HandleYearChange(value: string) returns (emitted: Option<string>)
      modifies this
      ensures year == value && month == old(month)
      ensures emitted == if old(month) != "" then Some(DateString(value, old(month))) else None
      ensures old(Valid()) && value in YearOptions() ==>
        Valid() && (emitted.Some? ==> DateParam.IsValidDate(emitted.value))
    {
      year := value;
      emitted := None;
      if month != "" {
        emitted := Some(DateString(value, month));
      }
      if value in YearOptions() && month != "" && month in MonthOptions() {
        EmittedDateAccepted(value, month);
      }
    }
  }
}
