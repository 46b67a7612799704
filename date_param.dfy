/**
 * The `:date` path parameter of `GET /:date`: the shape check done by the
 * pattern `^\d{4}-\d{2}-\d{2}$`, and the catalog-search datetime built from
 * `date.split('-').slice(0, 2).join('-')` followed by `-15T00:00:00Z`.
 */
module DateParam {
  import opened Digits

  /**
   * `/^\d{4}-\d{2}-\d{2}$/.test(date)`, position by position: ten
   * characters, ASCII digits at 0-3, 5-6 and 8-9, `-` at 4 and 7. Nothing
   * about the values: any two digits pass as a month or a day.
   */
  predicate IsValidDate(date: string)
  {
    && |date| == 10
    && IsDigit(date[0]) && IsDigit(date[1]) && IsDigit(date[2]) && IsDigit(date[3])
    && date[4] == '-'
    && IsDigit(date[5]) && IsDigit(date[6])
    && date[7] == '-'
    && IsDigit(date[8]) && IsDigit(date[9])
  }

  /**
   * The same pattern read as a template, an independent reading of it: `d`
   * stands for `\d`, every other character for itself, and the match is
   * anchored at both ends.
   */
  const DatePattern: string := "dddd-dd-dd"

  predicate CharMatches(c: char, p: char)
  {
    if p == 'd' then IsDigit(c) else c == p
  }

  /** Anchored match of `s` against a template, one character at a time. */
  function Matches(s: string, pattern: string): bool
    decreases |pattern|
  {
    if pattern == [] then s == []
    else s != [] && CharMatches(s[0], pattern[0]) && Matches(s[1..], pattern[1..])
  }

  /** An anchored match is a character-by-character match of equal lengths. */
  lemma {:induction false} MatchesPointwise(s: string, pattern: string)
    ensures Matches(s, pattern) <==>
      |s| == |pattern| && forall i :: 0 <= i < |s| ==> CharMatches(s[i], pattern[i])
    decreases |pattern|
  {
    if pattern != [] && s != [] {
      MatchesPointwise(s[1..], pattern[1..]);
      if |s| == |pattern| && forall i :: 0 <= i < |s| ==> CharMatches(s[i], pattern[i]) {
        forall i | 0 <= i < |s| - 1 ensures CharMatches(s[1..][i], pattern[1..][i]) {
          assert CharMatches(s[i + 1], pattern[i + 1]);
        }
      }
      if Matches(s, pattern) {
        forall i | 0 <= i < |s| ensures CharMatches(s[i], pattern[i]) {
          if i > 0 {
            assert s[i] == s[1..][i - 1];
          }
        }
      }
    }
  }

  /** The positional check and the anchored template match accept the same strings. */
  lemma ValidDateIffPattern(s: string)
    ensures IsValidDate(s) <==> Matches(s, DatePattern)
  {
    MatchesPointwise(s, DatePattern);
    if IsValidDate(s) {
      forall i | 0 <= i < |s| ensures CharMatches(s[i], DatePattern[i]) {
      }
    }
  }

  /** The check is about shape only: a month 13 passes. */
  lemma ShapeOnlyAccepts()
    ensures IsValidDate("2024-13-01") && Matches("2024-13-01", DatePattern)
  {
    ValidDateIffPattern("2024-13-01");
  }

  /** A one-digit month or day, or a string that is no date at all, is refused. */
  lemma ShapeOnlyRejects()
    ensures !IsValidDate("abc") && !Matches("abc", DatePattern)
    ensures !IsValidDate("2024-1-1") && !Matches("2024-1-1", DatePattern)
  {
    ValidDateIffPattern("abc");
    ValidDateIffPattern("2024-1-1");
  }

  /** Index of the first occurrence of `c` in `s`. */
  function IndexOf(s: string, c: char): (i: nat)
    requires c in s
    ensures i < |s| && s[i] == c && c !in s[..i]
  {
    if s[0] == c then 0 else 1 + IndexOf(s[1..], c)
  }

  /** `s.split(sep)` for a one-character separator. */
  function Split(s: string, sep: char): (parts: seq<string>)
    ensures |parts| >= 1
    ensures forall k :: 0 <= k < |parts| ==> sep !in parts[k]
    decreases |s|
  {
    if sep in s then
      var i := IndexOf(s, sep);
      [s[..i]] + Split(s[i + 1..], sep)
    else
      [s]
  }

  /** `parts.join(sep)`. */
  function Join(parts: seq<string>, sep: string): string
  {
    if |parts| == 0 then ""
    else if |parts| == 1 then parts[0]
    else parts[0] + sep + Join(parts[1..], sep)
  }

  /** `parts.slice(0, n)`. */
  function Slice(parts: seq<string>, n: nat): (r: seq<string>)
    ensures |r| == if |parts| < n then |parts| else n
    ensures r <= parts
  {
    if |parts| < n then parts else parts[..n]
  }

  /** Joining the pieces of a split with the same separator gives back the string. */
  lemma {:induction false} JoinSplit(s: string, sep: char)
    ensures Join(Split(s, sep), [sep]) == s
    decreases |s|
  {
    if sep in s {
      var i := IndexOf(s, sep);
      var rest := Split(s[i + 1..], sep);
      var parts := Split(s, sep);
      assert parts == [s[..i]] + rest;
      assert |parts| >= 2 && parts[0] == s[..i] && parts[1..] == rest;
      assert Join(parts, [sep]) == s[..i] + [sep] + Join(rest, [sep]);
      JoinSplit(s[i + 1..], sep);
      assert s == s[..i] + [sep] + s[i + 1..];
    } else {
      assert Split(s, sep) == [s];
    }
  }

  const MidMonthSuffix: string := "-15T00:00:00Z"

  /** The search `datetime`: year and month of `date`, then the 15th at midnight UTC. */
  function SearchDatetime(date: string): string
  {
    Join(Slice(Split(date, '-'), 2), "-") + MidMonthSuffix
  }

  /**
   * For an accepted date the search datetime is its first seven characters
   * (`YYYY-MM`) followed by `-15T00:00:00Z`: the day is ignored.
   */
  lemma SearchDatetimeOfValidDate(date: string)
    requires IsValidDate(date)
    ensures SearchDatetime(date) == date[..7] + MidMonthSuffix
  {
    assert '-' !in date[..4];
    assert IndexOf(date, '-') == 4;
    var rest := date[5..];
    assert '-' !in rest[..2] && rest[2] == '-';
    assert IndexOf(rest, '-') == 2;
    var last := rest[3..];
    assert '-' !in last;
    assert Split(last, '-') == [last];
    assert Split(rest, '-') == [rest[..2]] + Split(last, '-');
    assert Split(date, '-') == [date[..4]] + Split(rest, '-');
    assert rest[..2] == date[5..7];
    var parts := Split(date, '-');
    assert parts == [date[..4], date[5..7], last];
    assert Slice(parts, 2) == [date[..4], date[5..7]];
    assert Join(Slice(parts, 2), "-") == date[..4] + "-" + date[5..7];
    assert date[..7] == date[..4] + "-" + date[5..7];
  }

  /** Two accepted dates of the same month query the catalog with the same datetime. */
  lemma DayIsIgnored(d1: string, d2: string)
    requires IsValidDate(d1) && IsValidDate(d2) && d1[..7] == d2[..7]
    ensures SearchDatetime(d1) == SearchDatetime(d2)
  {
    SearchDatetimeOfValidDate(d1);
    SearchDatetimeOfValidDate(d2);
  }
}
