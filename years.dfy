/**
 * The year encoded in a raster's file name, as the scripts read it:
 *
 *  - `parse_year_from_name`: the leftmost match of `(19|20)\d{2}`;
 *  - the validation scripts: the leftmost match of `(\d{4})`;
 *  - the sample script: the first `_`-separated token of the stem made of
 *    exactly four digits.
 *
 * Digits are the ASCII digits '0'..'9'.
 */
module Years {
  import opened Grids

  predicate IsDigit(c: char) {
    '0' <= c <= '9'
  }

  function DigitValue(c: char): (d: nat)
    requires IsDigit(c)
    ensures d <= 9
  {
    c as int - '0' as int
  }

  /** `int(s)` for a string of four digits. */
  function FourDigitValue(s: string): (v: nat)
    requires |s| == 4 && forall t | 0 <= t < 4 :: IsDigit(s[t])
    ensures v <= 9999
  {
    1000 * DigitValue(s[0]) + 100 * DigitValue(s[1]) + 10 * DigitValue(s[2]) + DigitValue(s[3])
  }

  // ---------------------------------------------------------------------
  // Leftmost position satisfying a property (what `re.search` returns)
  // ---------------------------------------------------------------------

  /** The first position in `[k, n)` where `at` holds, if any. */
  function FirstIndex(n: nat, k: nat, at: nat -> bool): (r: Option<nat>)
    requires k <= n
    ensures r.Some? ==> k <= r.value < n && at(r.value) && forall t | k <= t < r.value :: !at(t)
    ensures r.None? <==> forall t | k <= t < n :: !at(t)
    decreases n - k
  {
    if k == n then None
    else if at(k) then Some(k)
    else FirstIndex(n, k + 1, at)
  }

  /** A position where `at` holds, with no earlier one from `j` on, is the first from `j`. */
  lemma {:induction false} FirstIndexFrom(n: nat, j: nat, at: nat -> bool, k: nat)
    requires j <= k < n && at(k) && forall t | j <= t < k :: !at(t)
    ensures FirstIndex(n, j, at) == Some(k)
    decreases k - j
  {
    if j < k {
      FirstIndexFrom(n, j + 1, at, k);
    }
  }

  /** A position where `at` holds, with no earlier one, is the first. */
  lemma FirstIndexAt(n: nat, at: nat -> bool, k: nat)
    requires k < n && at(k) && forall t | 0 <= t < k :: !at(t)
    ensures FirstIndex(n, 0, at) == Some(k)
  {
    FirstIndexFrom(n, 0, at, k);
  }

  /** `\d{4}` matches the four characters from position `k`. */
  predicate FourDigitsAt(s: string, k: nat) {
    k + 4 <= |s| && forall t | k <= t < k + 4 :: IsDigit(s[t])
  }

  /** The value of the four digits from position `k`, as `int(m.group(0))` reads them. */
  function ValueAt(s: string, k: nat): (v: nat)
    requires FourDigitsAt(s, k)
    ensures v == 1000 * DigitValue(s[k]) + 100 * DigitValue(s[k + 1]) + 10 * DigitValue(s[k + 2]) + DigitValue(s[k + 3])
  {
    var w := s[k..k + 4];
    assert w[0] == s[k] && w[1] == s[k + 1] && w[2] == s[k + 2] && w[3] == s[k + 3];
    FourDigitValue(w)
  }

  // ---------------------------------------------------------------------
  // parse_year_from_name: (19|20)\d{2}
  // ---------------------------------------------------------------------

  /** `(19|20)\d{2}` matches the four characters from position `k`. */
  predicate CenturyYearAt(s: string, k: nat) {
    k + 4 <= |s| && ((s[k] == '1' && s[k + 1] == '9') || (s[k] == '2' && s[k + 1] == '0'))
    && IsDigit(s[k + 2]) && IsDigit(s[k + 3])
  }

  /**
   * `parse_year_from_name`: the leftmost `(19|20)\d{2}` anywhere in the
   * name, as an integer; None when the name holds none.
   */
  function ParseYearFromName(name: string): (year: Option<int>)
    ensures year.Some? ==> 1900 <= year.value <= 2099
    ensures year.None? <==> forall k | 0 <= k < |name| :: !CenturyYearAt(name, k)
  {
    var at := (k: nat) => CenturyYearAt(name, k);
    assert forall k: nat :: at(k) == CenturyYearAt(name, k);
    match FirstIndex(|name|, 0, at)
    case None => None
    case Some(k) =>
      assert FourDigitsAt(name, k);
      Some(ValueAt(name, k))
  }

  /** The match is the leftmost one, wherever it is in the name. */
  lemma ParseYearLeftmost(name: string, k: nat)
    requires CenturyYearAt(name, k) && forall t | 0 <= t < k :: !CenturyYearAt(name, t)
    ensures ParseYearFromName(name) == Some(ValueAt(name, k))
  {
    FirstIndexAt(|name|, (t: nat) => CenturyYearAt(name, t), k);
  }

  /** `VIIRS_DNB_2012_05.tif` is read as 2012. */
  lemma ParseYearExample()
    ensures ParseYearFromName("VIIRS_DNB_2012_05.tif") == Some(2012)
  {
    ParseYearLeftmost("VIIRS_DNB_2012_05.tif", 10);
  }

  /** The match is unanchored, and `1899` is not a year: `x1899y20315` is read as 2031. */
  lemma ParseYearUnanchored()
    ensures ParseYearFromName("x1899y20315") == Some(2031)
  {
    ParseYearLeftmost("x1899y20315", 6);
  }

  // ---------------------------------------------------------------------
  // The validation scripts: (\d{4})
  // ---------------------------------------------------------------------

  /** `re.search(r'(\d{4})', name)` as an integer; None without a match. */
  function FirstFourDigits(name: string): (year: Option<int>)
    ensures year.Some? ==> 0 <= year.value <= 9999
    ensures year.None? <==> forall k | 0 <= k < |name| :: !FourDigitsAt(name, k)
  {
    var at := (k: nat) => FourDigitsAt(name, k);
    assert forall k: nat :: at(k) == FourDigitsAt(name, k);
    match FirstIndex(|name|, 0, at)
    case None => None
    case Some(k) => Some(ValueAt(name, k))
  }

  /** The leftmost run of four digits is the one read. */
  lemma FirstFourDigitsLeftmost(name: string, k: nat)
    requires FourDigitsAt(name, k) && forall t | 0 <= t < k :: !FourDigitsAt(name, t)
    ensures FirstFourDigits(name) == Some(ValueAt(name, k))
  {
    FirstIndexAt(|name|, (t: nat) => FourDigitsAt(name, t), k);
  }

  /** A name `parse_year_from_name` reads a year from has a four-digit run too. */
  lemma CenturyYearIsFourDigits(name: string)
    requires ParseYearFromName(name).Some?
    ensures FirstFourDigits(name).Some?
  {
    var k := FirstIndex(|name|, 0, (k: nat) => CenturyYearAt(name, k)).value;
    assert FourDigitsAt(name, k);
  }

  /** The year of the visualisation script: the first four-digit run, 2023 without one. */
  function YearOrDefault(name: string): (year: int)
    ensures FirstFourDigits(name).Some? ==> year == FirstFourDigits(name).value
    ensures FirstFourDigits(name).None? ==> year == 2023
  {
    match FirstFourDigits(name)
    case Some(y) => y
    case None => 2023
  }

  // ---------------------------------------------------------------------
  // The sample script: the first four-digit `_` token of the stem
  // ---------------------------------------------------------------------

  /** `s.split(sep)`: the pieces between separators, empty ones included. */
  function Split(s: string, sep: char): (parts: seq<string>)
    ensures |parts| >= 1
    decreases |s|
  {
    if |s| == 0 then [""]
    else
      var rest := Split(s[1..], sep);
      if s[0] == sep then [""] + rest else [[s[0]] + rest[0]] + rest[1..]
  }

  /** `sep.join(parts)`. */
  function Join(parts: seq<string>, sep: char): string
    requires |parts| >= 1
    decreases |parts|
  {
    if |parts| == 1 then parts[0] else parts[0] + [sep] + Join(parts[1..], sep)
  }

  /** Joining the pieces gives the string back, and no piece holds the separator. */
  lemma {:induction false} SplitJoin(s: string, sep: char)
    ensures Join(Split(s, sep), sep) == s
    ensures forall k | 0 <= k < |Split(s, sep)| :: sep !in Split(s, sep)[k]
    decreases |s|
  {
    if |s| > 0 {
      var rest := Split(s[1..], sep);
      SplitJoin(s[1..], sep);
      if s[0] == sep {
        assert Split(s, sep)[1..] == rest;
      } else {
        var parts := Split(s, sep);
        assert parts[0] == [s[0]] + rest[0];
        assert parts[1..] == rest[1..];
        if |rest| > 1 {
          assert rest[0] + [sep] + Join(rest[1..], sep) == s[1..];
        }
        forall k | 0 <= k < |parts| ensures sep !in parts[k] {
          if k > 0 { assert parts[k] == rest[k]; }
        }
      }
    }
  }

  /** A piece without the separator followed by the separator splits off as the first piece. */
  lemma {:induction false} SplitAfterPiece(a: string, b: string, sep: char)
    requires sep !in a
    ensures Split(a + [sep] + b, sep) == [a] + Split(b, sep)
    ensures Split(a, sep) == [a]
    decreases |a|
  {
    if |a| > 0 {
      SplitAfterPiece(a[1..], b, sep);
      assert (a + [sep] + b)[1..] == a[1..] + [sep] + b;
      assert [a[0]] + a[1..] == a;
    } else {
      assert a + [sep] + b == [sep] + b;
    }
  }

  /** Splitting joined pieces that hold no separator gives the pieces back. */
  lemma {:induction false} JoinSplit(parts: seq<string>, sep: char)
    requires |parts| >= 1 && forall k | 0 <= k < |parts| :: sep !in parts[k]
    ensures Split(Join(parts, sep), sep) == parts
    decreases |parts|
  {
    if |parts| == 1 {
      SplitAfterPiece(parts[0], "", sep);
    } else {
      JoinSplit(parts[1..], sep);
      SplitAfterPiece(parts[0], Join(parts[1..], sep), sep);
      assert [parts[0]] + parts[1..] == parts;
    }
  }

  /** `p.isdigit() and len(p) == 4`. */
  predicate YearToken(p: string) {
    |p| == 4 && forall t | 0 <= t < 4 :: IsDigit(p[t])
  }

  /** The year of the first four-digit token; None when no token is one. */
  function TokenYearOf(parts: seq<string>): (year: Option<int>)
    ensures year.Some? ==> 0 <= year.value <= 9999
    ensures year.None? <==> forall k | 0 <= k < |parts| :: !YearToken(parts[k])
  {
    var at := (k: nat) => k < |parts| && YearToken(parts[k]);
    assert forall k: nat | k < |parts| :: at(k) == YearToken(parts[k]);
    match FirstIndex(|parts|, 0, at)
    case None => None
    case Some(k) => Some(FourDigitValue(parts[k]))
  }

  /** The first four-digit token is the one read, whatever follows it. */
  lemma TokenYearFirst(parts: seq<string>, k: nat)
    requires k < |parts| && YearToken(parts[k]) && forall t | 0 <= t < k :: !YearToken(parts[t])
    ensures TokenYearOf(parts) == Some(FourDigitValue(parts[k]))
  {
    FirstIndexAt(|parts|, (t: nat) => t < |parts| && YearToken(parts[t]), k);
  }

  /**
   * The token loop of the sample script: the year of the first token that
   * is four digits, then `break`; None when no token is.
   */
  method TokenYear(stem: string) returns (year: Option<int>)
    ensures year == TokenYearOf(Split(stem, '_'))
  {
    var parts := Split(stem, '_');
    year := None;
    var k := 0;
    while k < |parts|
      invariant 0 <= k <= |parts|
      invariant forall t | 0 <= t < k :: !YearToken(parts[t])
    {
      if YearToken(parts[k]) {
        year := Some(FourDigitValue(parts[k]));
        TokenYearFirst(parts, k);
        return;
      }
      k := k + 1;
    }
  }

  /** Only the first year token counts: `VIIRS_DNB_2012_05_mask` gives 2012; `05` is too short. */
  lemma TokenYearExample()
    ensures TokenYearOf(["VIIRS", "DNB", "2012", "05", "mask"]) == Some(2012)
    ensures TokenYearOf(["VIIRS", "DNB", "2012", "2013", "mask"]) == Some(2012)
    ensures TokenYearOf(["VIIRS", "DNB", "05", "mask"]) == None
  {
    var p := ["VIIRS", "DNB", "2012", "05", "mask"];
    assert !YearToken(p[0]) && !YearToken(p[1]) && YearToken(p[2]);
    FirstIndexAt(|p|, (t: nat) => t < |p| && YearToken(p[t]), 2);
    var q := ["VIIRS", "DNB", "2012", "2013", "mask"];
    assert !YearToken(q[0]) && !YearToken(q[1]) && YearToken(q[2]);
    FirstIndexAt(|q|, (t: nat) => t < |q| && YearToken(q[t]), 2);
    var r := ["VIIRS", "DNB", "05", "mask"];
    assert r[3][0] == 'm';
    assert !YearToken(r[0]) && !YearToken(r[1]) && !YearToken(r[2]) && !YearToken(r[3]);
  }
}
