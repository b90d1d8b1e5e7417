/** The two date regular expressions of the upload and read routes,
    `/^\d{4}$/` and `/^(0[1-9]|1[0-2])$/`, as terms of a small regular-expression
    language. Both are anchored at both ends and carry no flags, so `test`
    succeeds exactly when the whole string matches. */
module Regex {
  import opened Strings

  datatype Regex =
    | Eps                         // the empty string
    | Class(lo: char, hi: char)   // one character in lo..hi: `\d`, `[1-9]`, or a literal
    | Cat(left: Regex, right: Regex)
    | Alt(left: Regex, right: Regex)

  /** A literal character. */
  function Lit(c: char): Regex {
    Class(c, c)
  }

  /** The quantifier `r{n}`. */
  function Times(r: Regex, n: nat): Regex {
    if n == 0 then Eps else Cat(r, Times(r, n - 1))
  }

  /** Whether the whole of `s` matches `r`. */
  predicate Matches(r: Regex, s: string) {
    match r
    case Eps => s == []
    case Class(lo, hi) => |s| == 1 && lo <= s[0] <= hi
    case Cat(a, b) => exists k | 0 <= k <= |s| :: Matches(a, s[..k]) && Matches(b, s[k..])
    case Alt(a, b) => Matches(a, s) || Matches(b, s)
  }

  /** `/^\d{4}$/` (index.js:34 and index.js:108). */
  const YearRegex: Regex := Times(Class('0', '9'), 4)

  /** `/^(0[1-9]|1[0-2])$/` (index.js:35 and index.js:109). */
  const MonthRegex: Regex := Alt(Cat(Lit('0'), Class('1', '9')), Cat(Lit('1'), Class('0', '2')))

  /** Reference meaning of a well-formed year: exactly four ASCII digits. */
  predicate FourDigits(s: string) {
    |s| == 4 && AllDigits(s)
  }

  /** Reference meaning of a well-formed month: one of the twelve two-digit month numbers. */
  const Months: seq<string> :=
    ["01", "02", "03", "04", "05", "06", "07", "08", "09", "10", "11", "12"]

  lemma {:induction false} TimesClass(lo: char, hi: char, n: nat, s: string)
    ensures Matches(Times(Class(lo, hi), n), s)
        <==> |s| == n && forall i :: 0 <= i < |s| ==> lo <= s[i] <= hi
  {
    if n > 0 {
      var c, rest := Class(lo, hi), Times(Class(lo, hi), n - 1);
      assert Times(Class(lo, hi), n) == Cat(c, rest);
      if s != [] {
        TimesClass(lo, hi, n - 1, s[1..]);
        assert forall i :: 0 <= i < |s| - 1 ==> s[1..][i] == s[i + 1];
      }
      if Matches(Cat(c, rest), s) {
        var k :| 0 <= k <= |s| && Matches(c, s[..k]) && Matches(rest, s[k..]);
        assert k == 1 && lo <= s[0] <= hi;
      }
      if |s| == n && forall i :: 0 <= i < |s| ==> lo <= s[i] <= hi {
        assert Matches(c, s[..1]);
        assert Matches(rest, s[1..]);
      }
    }
  }

  lemma PairOfClasses(a: char, b: char, c: char, d: char, s: string)
    ensures Matches(Cat(Class(a, b), Class(c, d)), s)
        <==> |s| == 2 && a <= s[0] <= b && c <= s[1] <= d
  {
    if |s| == 2 && a <= s[0] <= b && c <= s[1] <= d {
      assert Matches(Class(a, b), s[..1]) && Matches(Class(c, d), s[1..]);
    }
  }

  /** The year test accepts exactly the strings of four ASCII digits. */
  lemma YearRegexSpec(s: string)
    ensures Matches(YearRegex, s) <==> FourDigits(s)
  {
    TimesClass('0', '9', 4, s);
  }

  /** The month test accepts exactly "01" .. "12". */
  lemma MonthRegexSpec(s: string)
    ensures Matches(MonthRegex, s) <==> s in Months
  {
    PairOfClasses('0', '0', '1', '9', s);
    PairOfClasses('1', '1', '0', '2', s);
    if |s| == 2 {
      assert s == [s[0], s[1]];
    }
  }

  /** Near misses the month test rejects: any length but two (so "1" and
      "001"), "00", and "13" .. "19". */
  lemma MonthRegexRejects(s: string)
    ensures |s| != 2 ==> !Matches(MonthRegex, s)
    ensures |s| == 2 && s[0] == '0' && s[1] == '0' ==> !Matches(MonthRegex, s)
    ensures |s| == 2 && s[0] == '1' && '3' <= s[1] <= '9' ==> !Matches(MonthRegex, s)
  {
    PairOfClasses('0', '0', '1', '9', s);
    PairOfClasses('1', '1', '0', '2', s);
  }

  /** A string either test accepts is made of digits only, so it carries no
      separator and no dot into a path. */
  lemma DateSegmentsAreDigits(s: string)
    requires Matches(YearRegex, s) || Matches(MonthRegex, s)
    ensures AllDigits(s) && 2 <= |s| <= 4
  {
    if Matches(YearRegex, s) {
      YearRegexSpec(s);
    } else {
      MonthRegexSpec(s);
      MonthsAreDigits(s);
    }
  }

  lemma MonthsAreDigits(s: string)
    requires s in Months
    ensures AllDigits(s) && |s| == 2
  {
  }
}
