/** `looks_date_like`: the gate deciding whether a column is worth trying to parse as dates. */
module DateLike {
  import opened Wrappers
  import opened Text
  import opened Frame

  /** At most this many present values are sampled (`.head(200)`). */
  const SampleLimit: nat := 200

  /** `dropna()`: the present values of a column, in column order. */
  function Present(cells: seq<Option<string>>): (r: seq<string>)
    ensures |r| <= |cells|
  {
    if |cells| == 0 then []
    else (match cells[0] case None => [] case Some(v) => [v]) + Present(cells[1..])
  }

  /** Dropping missing cells distributes over concatenation: it keeps present values in order. */
  lemma {:induction false} PresentAppend(a: seq<Option<string>>, b: seq<Option<string>>)
    ensures Present(a + b) == Present(a) + Present(b)
  {
    if |a| == 0 {
      assert a + b == b;
    } else {
      assert (a + b)[1..] == a[1..] + b;
      PresentAppend(a[1..], b);
    }
  }

  /** `dropna().astype(str).head(200)`: the first present values, at most `SampleLimit` of them. */
  function Sample(cells: seq<Option<string>>): (r: seq<string>)
    ensures |r| == if |Present(cells)| < SampleLimit then |Present(cells)| else SampleLimit
    ensures r == Present(cells)[..|r|]
  {
    var p := Present(cells);
    if |p| <= SampleLimit then p else p[..SampleLimit]
  }

  /** Once 200 present values have been seen, later cells do not affect the sample. */
  lemma SampleIgnoresLaterCells(a: seq<Option<string>>, b: seq<Option<string>>)
    requires |Present(a)| >= SampleLimit
    ensures Sample(a + b) == Sample(a)
  {
    PresentAppend(a, b);
    assert (Present(a) + Present(b))[..SampleLimit] == Present(a)[..SampleLimit];
  }

  predicate IsDateSep(c: char) {
    c == '-' || c == '/' || c == '.'
  }

  predicate OneOrTwoDigits(t: string) {
    1 <= |t| <= 2 && AllDigits(t)
  }

  /** `t` matches the regular expression `\d{4}[-/.]\d{1,2}([-/.]\d{1,2})?` as a whole. */
  ghost predicate NumericDateToken(t: string) {
    && |t| >= 6 && AllDigits(t[..4]) && IsDateSep(t[4])
    && (|| OneOrTwoDigits(t[5..])
        || exists m :: 6 <= m < |t| && OneOrTwoDigits(t[5..m]) && IsDateSep(t[m]) && OneOrTwoDigits(t[m + 1..]))
  }

  /** `re.search` of that expression: some substring of `s` is a numeric date token. */
  ghost predicate ContainsNumericDate(s: string) {
    exists i, j :: 0 <= i <= j <= |s| && NumericDateToken(s[i..j])
  }

  /** Four digits, a separator and a digit start at position `i`. */
  predicate YearSepDigitAt(s: string, i: nat) {
    i + 6 <= |s| && AllDigits(s[i..i + 4]) && IsDateSep(s[i + 4]) && IsDigit(s[i + 5])
  }

  /** The scan the search amounts to. */
  predicate HasYearSepDigit(s: string) {
    exists i :: 0 <= i < |s| && YearSepDigitAt(s, i)
  }

  /** Searching for the numeric date expression succeeds exactly when the short scan does. */
  lemma NumericDateSearchIff(s: string)
    ensures ContainsNumericDate(s) <==> HasYearSepDigit(s)
  {
    if ContainsNumericDate(s) {
      var i, j :| 0 <= i <= j <= |s| && NumericDateToken(s[i..j]);
      var t := s[i..j];
      assert t[..4] == s[i..i + 4];
      assert IsDigit(t[5]) by {
        if !OneOrTwoDigits(t[5..]) {
          var m :| 6 <= m < |t| && OneOrTwoDigits(t[5..m]) && IsDateSep(t[m]) && OneOrTwoDigits(t[m + 1..]);
          assert t[5..m][0] == t[5];
        } else {
          assert t[5..][0] == t[5];
        }
      }
      assert YearSepDigitAt(s, i);
    }
    if HasYearSepDigit(s) {
      var i :| 0 <= i < |s| && YearSepDigitAt(s, i);
      var t := s[i..i + 6];
      assert t[..4] == s[i..i + 4];
      assert t[5..] == [s[i + 5]];
      assert NumericDateToken(t);
    }
  }

  /** `re.fullmatch(r"\d{8}", v)`. */
  predicate EightDigits(s: string) {
    |s| == 8 && AllDigits(s)
  }

  /** The Korean date unit markers for year, month and day. */
  const YearMark: char := '\U{B144}'
  const MonthMark: char := '\U{C6D4}'
  const DayMark: char := '\U{C77C}'

  /** `re.search(r"(년|월|일)", v)`. */
  predicate HasDateUnit(s: string) {
    YearMark in s || MonthMark in s || DayMark in s
  }

  /** A sampled value counts as a hit when any of the three patterns matches. */
  predicate IsHit(v: string) {
    HasYearSepDigit(v) || EightDigits(v) || HasDateUnit(v)
  }

  /** The number of hits in a sample. */
  function Hits(sample: seq<string>): (h: nat)
    ensures h <= |sample|
    ensures h == 0 <==> forall k :: 0 <= k < |sample| ==> !IsHit(sample[k])
    ensures h == |sample| <==> forall k :: 0 <= k < |sample| ==> IsHit(sample[k])
  {
    if |sample| == 0 then 0
    else (if IsHit(sample[0]) then 1 else 0) + Hits(sample[1..])
  }

  /** The hit count is additive over any split of the sample. */
  lemma {:induction false} HitsAppend(a: seq<string>, b: seq<string>)
    ensures Hits(a + b) == Hits(a) + Hits(b)
  {
    if |a| > 0 {
      assert (a + b)[1..] == a[1..] + b;
      HitsAppend(a[1..], b);
    } else {
      assert a + b == b;
    }
  }

  /** A single value counts one exactly when it is a hit: with `HitsAppend`, `Hits` counts the hits. */
  lemma HitsOne(v: string)
    ensures Hits([v]) == if IsHit(v) then 1 else 0
  {
    assert [v][1..] == [];
  }

  /**
   * `looks_date_like`: false for a column that is not of object dtype and for one with no
   * present value; otherwise at least 30% of the sample must be hits.
   */
  predicate LooksDateLike(col: Column): (b: bool)
    ensures b ==> col.values.Text? && Present(col.values.cells) != []
    ensures b ==> Hits(Sample(col.values.cells)) > 0
  {
    match col.values
    case Text(cells) =>
      var sample := Sample(cells);
      |sample| > 0 && 10 * Hits(sample) >= 3 * |sample|
    case _ => false
  }

  /** The integer gate is the source's `hits / len(sample) >= 0.3`, computed exactly. */
  lemma GateIsRatio(h: nat, n: nat)
    requires n > 0
    ensures 10 * h >= 3 * n <==> (h as real) / (n as real) >= 0.3
  {
    var q := (h as real) / (n as real);
    assert q * (n as real) == h as real;
    if 10 * h >= 3 * n {
      assert (h as real) >= 0.3 * (n as real);
    } else {
      assert (h as real) < 0.3 * (n as real);
    }
  }

  /** The gate's cases, stated on the source's terms. */
  lemma LooksDateLikeCases(col: Column)
    ensures !col.values.Text? ==> !LooksDateLike(col)
    ensures col.values.Text? && Present(col.values.cells) == [] ==> !LooksDateLike(col)
    ensures col.values.Text? && Present(col.values.cells) != [] ==>
      var sample := Sample(col.values.cells);
      (LooksDateLike(col) <==> (Hits(sample) as real) / (|sample| as real) >= 0.3)
  {
    if col.values.Text? && Present(col.values.cells) != [] {
      var sample := Sample(col.values.cells);
      GateIsRatio(Hits(sample), |sample|);
    }
  }

  /** A sample without a single hit never passes; one made only of hits always does. */
  lemma GateExtremes(col: Column)
    requires col.values.Text?
    ensures (forall k :: 0 <= k < |Sample(col.values.cells)| ==> !IsHit(Sample(col.values.cells)[k]))
      ==> !LooksDateLike(col)
    ensures Present(col.values.cells) != [] &&
      (forall k :: 0 <= k < |Sample(col.values.cells)| ==> IsHit(Sample(col.values.cells)[k]))
      ==> LooksDateLike(col)
  {
  }
}
