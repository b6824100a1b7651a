/**
 * `coerce_datetimes`: which columns are tried, which date format is chosen for each, and when
 * a column is replaced by parsed timestamps. Parsing itself is an oracle.
 */
module Coerce {
  import opened Wrappers
  import opened Frame
  import opened DateLike
  import Candidates

  /** A `strftime` pattern passed as `format=`, or free-form parsing with no format. */
  datatype Format = Strftime(pattern: string) | FreeForm

  /**
   * What the date parser makes of one string: a timestamp, a recognised not-a-time marker
   * (NaT, with no error), or a rejection (an error under `errors="raise"`, NaT under
   * `errors="coerce"`).
   */
  datatype ParseOutcome = Parsed(date: Date) | NotATime | Rejected

  /** The date parser, left uninterpreted. */
  type Parser = (Format, string) -> ParseOutcome

  /** The fixed formats, in the order they are tried. */
  const CommonFormats: seq<Format> := [
    Strftime("%Y-%m-%d"), Strftime("%Y/%m/%d"), Strftime("%Y.%m.%d"), Strftime("%Y%m%d"),
    Strftime("%d/%m/%Y"), Strftime("%m/%d/%Y"), Strftime("%Y-%m"), Strftime("%Y/%m")
  ]

  /** A success threshold `num / den`, kept exact. */
  datatype Ratio = Ratio(num: int, den: int)

  type Threshold = r: Ratio | r.den > 0 witness Ratio(4, 5)

  /** The defaults of `coerce_datetimes`: 30 columns, threshold 0.8. */
  const DefaultMaxTry: int := 30
  const DefaultThreshold: Threshold := Ratio(4, 5)

  /** `astype(str)` on an object column: a missing cell becomes the string "nan". */
  function Stringify(cell: Option<string>): string {
    match cell
    case None => "nan"
    case Some(v) => v
  }

  /** The stored cell for one parse under `errors="coerce"`: anything but a timestamp is NaT. */
  function AsStamp(p: ParseOutcome): (r: Option<Date>)
    ensures r.Some? <==> p.Parsed?
  {
    match p
    case Parsed(d) => Some(d)
    case _ => None
  }

  /**
   * `pd.to_datetime(series_str, format=fmt, errors="coerce")`, cell by cell: each stored cell is
   * the timestamp its own string parses to, and NaT otherwise.
   */
  function Converted(cells: seq<Option<string>>, parse: Parser, fmt: Format): (r: seq<Option<Date>>)
    ensures |r| == |cells|
    ensures forall i :: 0 <= i < |cells| ==> r[i] == AsStamp(parse(fmt, Stringify(cells[i])))
  {
    seq(|cells|, i requires 0 <= i < |cells| => AsStamp(parse(fmt, Stringify(cells[i]))))
  }

  /** `(parsed.notna() & s.notna()).sum()`: rows holding a timestamp whose original cell was present. */
  function BothPresent(cells: seq<Option<string>>, stamps: seq<Option<Date>>): (n: nat)
    requires |cells| == |stamps|
    ensures n <= |Present(cells)|
  {
    if |cells| == 0 then 0
    else (if cells[0].Some? && stamps[0].Some? then 1 else 0) + BothPresent(cells[1..], stamps[1..])
  }

  /** The count is additive over any split of the rows, so it counts row by row. */
  lemma {:induction false} BothPresentAppend(c1: seq<Option<string>>, s1: seq<Option<Date>>,
                                             c2: seq<Option<string>>, s2: seq<Option<Date>>)
    requires |c1| == |s1| && |c2| == |s2|
    ensures BothPresent(c1 + c2, s1 + s2) == BothPresent(c1, s1) + BothPresent(c2, s2)
  {
    if |c1| > 0 {
      assert (c1 + c2)[1..] == c1[1..] + c2;
      assert (s1 + s2)[1..] == s1[1..] + s2;
      BothPresentAppend(c1[1..], s1[1..], c2, s2);
    } else {
      assert c1 + c2 == c2 && s1 + s2 == s2;
    }
  }

  /** A single row counts exactly when its cell was present and its timestamp is not NaT. */
  lemma BothPresentOneRow(cell: Option<string>, stamp: Option<Date>)
    ensures BothPresent([cell], [stamp]) == if cell.Some? && stamp.Some? then 1 else 0
  {
    assert [cell][1..] == [] && [stamp][1..] == [];
  }

  /** `mean() >= success_threshold`; the mean over zero rows is NaN, which fails every comparison. */
  predicate MeetsThreshold(count: nat, rows: nat, thr: Threshold) {
    rows > 0 && count * thr.den >= thr.num * rows
  }

  /** The integer test is the exact comparison of the two fractions. */
  lemma MeetsThresholdIsRatio(count: nat, rows: nat, thr: Threshold)
    ensures MeetsThreshold(count, rows, thr) <==>
      rows > 0 && (count as real) / (rows as real) >= (thr.num as real) / (thr.den as real)
  {
    if rows > 0 {
      var c, n, a, b := count as real, rows as real, thr.num as real, thr.den as real;
      assert (c / n) * n == c;
      assert (a / b) * b == a;
      if c * b >= a * n {
        assert c / n >= a / b by {
          assert c / n - a / b == (c * b - a * n) / (n * b);
        }
      } else {
        assert c / n < a / b by {
          assert c / n - a / b == (c * b - a * n) / (n * b);
        }
      }
    }
  }

  /** A strict parse (`errors="raise"`) of every stringified cell goes through. */
  predicate StrictParses(cells: seq<Option<string>>, parse: Parser, fmt: Format) {
    forall i :: 0 <= i < |cells| ==> !parse(fmt, Stringify(cells[i])).Rejected?
  }

  /** Share of all rows, missing ones included, that parsed from a present cell. */
  predicate ParsedEnough(cells: seq<Option<string>>, parse: Parser, thr: Threshold, fmt: Format) {
    MeetsThreshold(BothPresent(cells, Converted(cells, parse, fmt)), |cells|, thr)
  }

  /** A fixed format is accepted when the strict parse raises nothing and enough rows parsed. */
  predicate Accepts(cells: seq<Option<string>>, parse: Parser, thr: Threshold, fmt: Format) {
    StrictParses(cells, parse, fmt) && ParsedEnough(cells, parse, thr, fmt)
  }

  /** What the format loop and its fallback decide for one column. */
  datatype Choice = UseFormat(index: nat) | UseFreeForm | KeepText

  /**
   * The formats are tried in list order and the first accepted one is used; free-form parsing
   * is used only when none is accepted and it parses enough rows; otherwise the column stays.
   */
  function Choose(cells: seq<Option<string>>, formats: seq<Format>, parse: Parser, thr: Threshold): (c: Choice)
    ensures c.UseFormat? ==> c.index < |formats| && Accepts(cells, parse, thr, formats[c.index])
    ensures c.UseFormat? ==> forall j :: 0 <= j < c.index ==> !Accepts(cells, parse, thr, formats[j])
    ensures !c.UseFormat? ==> forall j :: 0 <= j < |formats| ==> !Accepts(cells, parse, thr, formats[j])
    ensures c.UseFreeForm? ==> ParsedEnough(cells, parse, thr, FreeForm)
    ensures c.KeepText? ==> !ParsedEnough(cells, parse, thr, FreeForm)
  {
    match Candidates.FirstAccepted(formats, f => Accepts(cells, parse, thr, f))
    case Some(k) => UseFormat(k)
    case None => if ParsedEnough(cells, parse, thr, FreeForm) then UseFreeForm else KeepText
  }

  /**
   * One examined column of `coerce_datetimes`: left alone unless it looks date-like and some
   * candidate is accepted, in which case it becomes the coerced timestamps of that candidate.
   */
  function CoerceColumn(col: Column, parse: Parser, thr: Threshold): (r: Column)
    ensures r.name == col.name
    ensures Rows(r.values) == Rows(col.values)
    ensures !LooksDateLike(col) ==> r == col
    ensures r != col ==> col.values.Text? && r.values.Dates? && LooksDateLike(col)
    ensures r != col ==> MeetsThreshold(BothPresent(col.values.cells, r.values.stamps), Rows(col.values), thr)
    ensures LooksDateLike(col) && col.values.Text? ==>
      match Choose(col.values.cells, CommonFormats, parse, thr)
      case UseFormat(k) => k < |CommonFormats| &&
        r == Column(col.name, Dates(Converted(col.values.cells, parse, CommonFormats[k])))
      case UseFreeForm => r == Column(col.name, Dates(Converted(col.values.cells, parse, FreeForm)))
      case KeepText => r == col
  {
    if !LooksDateLike(col) then col
    else
      var cells := col.values.cells;
      match Choose(cells, CommonFormats, parse, thr)
      case UseFormat(k) => Column(col.name, Dates(Converted(cells, parse, CommonFormats[k])))
      case UseFreeForm => Column(col.name, Dates(Converted(cells, parse, FreeForm)))
      case KeepText => col
  }

  /**
   * Python's `columns[:m]`: how many leading columns a slice with stop `m` keeps. A stop at or
   * past the end keeps everything; a negative stop drops that many columns from the end.
   */
  function SliceEnd(m: int, n: nat): (e: nat)
    ensures e <= n
    ensures m >= n ==> e == n
    ensures 0 <= m <= n ==> e == m
    ensures m < 0 && -m <= n ==> e + -m == n
    ensures m < 0 && -m > n ==> e == 0
  {
    if m >= 0 then (if m < n then m else n)
    else if n + m > 0 then n + m else 0
  }

  /** Selecting `df[col]` by a label that several columns share yields a frame, not a series. */
  datatype CoerceError = AmbiguousLabel(name: string)

  /** Two different columns of `t` carry the label `name`. */
  predicate LabelRepeated(t: Table, name: string) {
    exists i, j :: 0 <= i < j < |t.columns| && t.columns[i].name == name && t.columns[j].name == name
  }

  /** Column `k` is among the first `end` columns, its label is shared, and no earlier one's is. */
  predicate FirstSharedAt(t: Table, end: nat, k: nat) {
    && k < end <= |t.columns|
    && LabelRepeated(t, t.columns[k].name)
    && forall j :: 0 <= j < k ==> !LabelRepeated(t, t.columns[j].name)
  }

  /** The first examined column whose label is shared, if any: the column whose selection raises. */
  function FirstShared(t: Table, end: nat): (k: Option<nat>)
    requires end <= |t.columns|
    ensures k.Some? ==> FirstSharedAt(t, end, k.value)
    ensures k.None? <==> forall i :: 0 <= i < end ==> !LabelRepeated(t, t.columns[i].name)
  {
    var examined := t.columns[..end];
    match Candidates.FirstAccepted(examined, (c: Column) => LabelRepeated(t, c.name))
    case Some(k) =>
      assert FirstSharedAt(t, end, k);
      Some(k)
    case None => None
  }

  /** The loop of `coerce_datetimes` once no examined label is shared: the first `end` columns go through `CoerceColumn`. */
  function CoerceExamined(t: Table, end: nat, parse: Parser, thr: Threshold): (r: Table)
    requires end <= |t.columns|
    ensures |r.columns| == |t.columns|
    ensures forall i :: 0 <= i < end ==> r.columns[i] == CoerceColumn(t.columns[i], parse, thr)
    ensures forall i :: end <= i < |t.columns| ==> r.columns[i] == t.columns[i]
    ensures Names(r) == Names(t)
    ensures forall i :: 0 <= i < |t.columns| ==> Rows(r.columns[i].values) == Rows(t.columns[i].values)
    ensures forall i :: 0 <= i < |t.columns| && !LooksDateLike(t.columns[i]) ==> r.columns[i] == t.columns[i]
    ensures forall i :: 0 <= i < |t.columns| && r.columns[i] != t.columns[i] ==>
      && i < end
      && LooksDateLike(t.columns[i])
      && t.columns[i].values.Text?
      && r.columns[i].values.Dates?
      && |r.columns[i].values.stamps| == |t.columns[i].values.cells|
      && MeetsThreshold(BothPresent(t.columns[i].values.cells, r.columns[i].values.stamps),
                        Rows(t.columns[i].values), thr)
  {
    Table(seq(|t.columns|, i requires 0 <= i < |t.columns| =>
      if i < end then CoerceColumn(t.columns[i], parse, thr) else t.columns[i]))
  }

  /**
   * `coerce_datetimes`: examines the columns `columns[:maxTry]` in order. Selecting an examined
   * column whose label is shared raises (the selection is a frame, which has no single dtype);
   * otherwise each examined column goes through `CoerceColumn` and every other one is kept.
   */
  function CoerceDatetimes(t: Table, maxTry: int, thr: Threshold, parse: Parser): (r: Result<Table, CoerceError>)
    ensures r.Failure? <==>
      exists i :: 0 <= i < SliceEnd(maxTry, |t.columns|) && LabelRepeated(t, t.columns[i].name)
    ensures r.Failure? ==> LabelRepeated(t, r.error.name)
    ensures r.Failure? ==>
      (exists k: nat :: FirstSharedAt(t, SliceEnd(maxTry, |t.columns|), k) && r.error.name == t.columns[k].name)
    ensures r.Success? ==> |r.value.columns| == |t.columns|
    ensures r.Success? ==> forall i :: 0 <= i < SliceEnd(maxTry, |t.columns|) ==>
      r.value.columns[i] == CoerceColumn(t.columns[i], parse, thr)
    ensures r.Success? ==> Names(r.value) == Names(t)
    ensures r.Success? ==> forall i :: 0 <= i < |t.columns| ==>
      Rows(r.value.columns[i].values) == Rows(t.columns[i].values)
    ensures r.Success? ==> forall i :: SliceEnd(maxTry, |t.columns|) <= i < |t.columns| ==>
      r.value.columns[i] == t.columns[i]
    ensures r.Success? ==> forall i :: 0 <= i < |t.columns| && !LooksDateLike(t.columns[i]) ==>
      r.value.columns[i] == t.columns[i]
    ensures r.Success? ==> forall i :: 0 <= i < |t.columns| && r.value.columns[i] != t.columns[i] ==>
      && i < SliceEnd(maxTry, |t.columns|)
      && LooksDateLike(t.columns[i])
      && t.columns[i].values.Text?
      && r.value.columns[i].values.Dates?
      && |r.value.columns[i].values.stamps| == |t.columns[i].values.cells|
      && MeetsThreshold(BothPresent(t.columns[i].values.cells, r.value.columns[i].values.stamps),
                        Rows(t.columns[i].values), thr)
  {
    var end := SliceEnd(maxTry, |t.columns|);
    match FirstShared(t, end)
    case Some(k) => Failure(AmbiguousLabel(t.columns[k].name))
    case None => Success(CoerceExamined(t, end, parse, thr))
  }

  /**
   * A date-like column whose first accepted fixed format is `k` is converted with that format,
   * stated through acceptance alone.
   */
  lemma CoerceColumnFirstAccepted(col: Column, parse: Parser, thr: Threshold, k: nat)
    requires LooksDateLike(col) && col.values.Text?
    requires k < |CommonFormats| && Accepts(col.values.cells, parse, thr, CommonFormats[k])
    requires forall j :: 0 <= j < k ==> !Accepts(col.values.cells, parse, thr, CommonFormats[j])
    ensures CoerceColumn(col, parse, thr) == Column(col.name, Dates(Converted(col.values.cells, parse, CommonFormats[k])))
  {
    var c := Choose(col.values.cells, CommonFormats, parse, thr);
    assert c.UseFormat?;
    assert c.index == k;
  }

  /**
   * A date-like column that no fixed format accepts is converted by free-form parsing when that
   * parses enough rows, and kept as it was otherwise.
   */
  lemma CoerceColumnNoneAccepted(col: Column, parse: Parser, thr: Threshold)
    requires LooksDateLike(col) && col.values.Text?
    requires forall j :: 0 <= j < |CommonFormats| ==> !Accepts(col.values.cells, parse, thr, CommonFormats[j])
    ensures ParsedEnough(col.values.cells, parse, thr, FreeForm) ==>
      CoerceColumn(col, parse, thr) == Column(col.name, Dates(Converted(col.values.cells, parse, FreeForm)))
    ensures !ParsedEnough(col.values.cells, parse, thr, FreeForm) ==> CoerceColumn(col, parse, thr) == col
  {
  }

  /** A missing cell is parsed as the string "nan"; a format that rejects it is never accepted. */
  lemma MissingCellBlocksFormat(cells: seq<Option<string>>, parse: Parser, thr: Threshold, fmt: Format, i: nat)
    requires i < |cells| && cells[i].None?
    requires parse(fmt, "nan").Rejected?
    ensures !Accepts(cells, parse, thr, fmt)
  {
    assert Stringify(cells[i]) == "nan";
  }

  /** Rows whose present cell parsed, when every present cell parsed, are all the present rows. */
  lemma {:induction false} BothPresentWhenAllParsed(cells: seq<Option<string>>, stamps: seq<Option<Date>>)
    requires |cells| == |stamps|
    requires forall i :: 0 <= i < |cells| && cells[i].Some? ==> stamps[i].Some?
    ensures BothPresent(cells, stamps) == |Present(cells)|
  {
    if |cells| > 0 {
      BothPresentWhenAllParsed(cells[1..], stamps[1..]);
    }
  }

  /**
   * A date-like column whose present values all parse under the first format, whose "nan"
   * marker is read as not-a-time, and whose present share meets the threshold is converted with
   * the first format; its missing cells stay missing.
   */
  lemma FirstFormatConverts(col: Column, parse: Parser, thr: Threshold)
    requires col.values.Text? && LooksDateLike(col)
    requires forall i :: 0 <= i < |col.values.cells| && col.values.cells[i].Some? ==>
      parse(CommonFormats[0], col.values.cells[i].value).Parsed?
    requires parse(CommonFormats[0], "nan").NotATime?
    requires MeetsThreshold(|Present(col.values.cells)|, |col.values.cells|, thr)
    ensures CoerceColumn(col, parse, thr) == Column(col.name, Dates(Converted(col.values.cells, parse, CommonFormats[0])))
    ensures forall i :: 0 <= i < |col.values.cells| && col.values.cells[i].None? ==>
      CoerceColumn(col, parse, thr).values.stamps[i].None?
  {
    var cells := col.values.cells;
    var fmt := CommonFormats[0];
    assert StrictParses(cells, parse, fmt) by {
      forall i | 0 <= i < |cells|
        ensures !parse(fmt, Stringify(cells[i])).Rejected?
      {
      }
    }
    BothPresentWhenAllParsed(cells, Converted(cells, parse, fmt));
    assert Accepts(cells, parse, thr, fmt);
    var c := Choose(cells, CommonFormats, parse, thr);
    assert c == UseFormat(0);
  }

  /**
   * When the parser reads "nan" as something other than a timestamp, as pandas does, a missing
   * cell of a converted column is still missing afterwards.
   */
  lemma MissingStaysMissing(col: Column, parse: Parser, thr: Threshold)
    requires forall f :: !parse(f, "nan").Parsed?
    ensures var r := CoerceColumn(col, parse, thr);
      r != col ==> forall i :: 0 <= i < |col.values.cells| && col.values.cells[i].None? ==> r.values.stamps[i].None?
  {
  }
}
