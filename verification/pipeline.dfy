/** The analysis steps run once a file is chosen: load, clean the header, convert date columns. */
module Pipeline {
  import opened Wrappers
  import opened Frame
  import opened ColumnNames
  import opened Coerce
  import opened Loader

  /** Where the preparation ends: no readable encoding, a prepared table, or a raised selection error. */
  datatype Outcome = Unreadable | Prepared(encoding: string, table: Table) | Raised(error: CoerceError)

  /** `clean_column_names` applied to a table: the same columns under the normalized labels. */
  function CleanColumns(t: Table): (r: Table)
    ensures Names(r) == Normalize(Names(t))
    ensures |r.columns| == |t.columns|
    ensures forall i :: 0 <= i < |t.columns| ==> r.columns[i].values == t.columns[i].values
  {
    Relabel(t, Normalize(Names(t)))
  }

  /** Load, then `clean_column_names`, then `coerce_datetimes` with its defaults. */
  function Prepare(read: Reader, parse: Parser): (o: Outcome)
    ensures o.Unreadable? <==> forall k :: 0 <= k < |Encodings| ==> read(Encodings[k]).None?
    ensures o.Prepared? ==> exists t :: read(o.encoding) == Some(t) && Names(o.table) == Normalize(Names(t))
    ensures !o.Unreadable? ==> SmartReadCsv(read).Some?
    ensures o.Prepared? ==> o.encoding == SmartReadCsv(read).value.encoding
    ensures o.Prepared? <==>
      (SmartReadCsv(read).Some? &&
       CoerceDatetimes(CleanColumns(SmartReadCsv(read).value.table), DefaultMaxTry, DefaultThreshold, parse).Success?)
    ensures o.Prepared? ==>
      Success(o.table) == CoerceDatetimes(CleanColumns(SmartReadCsv(read).value.table), DefaultMaxTry, DefaultThreshold, parse)
    ensures o.Raised? ==>
      Failure(o.error) == CoerceDatetimes(CleanColumns(SmartReadCsv(read).value.table), DefaultMaxTry, DefaultThreshold, parse)
  {
    match SmartReadCsv(read)
    case None => Unreadable
    case Some(loaded) =>
      match CoerceDatetimes(CleanColumns(loaded.table), DefaultMaxTry, DefaultThreshold, parse)
      case Success(t) => Prepared(loaded.encoding, t)
      case Failure(e) => Raised(e)
  }

  /** A table whose labels are pairwise distinct never makes `coerce_datetimes` raise. */
  lemma DistinctLabelsNeverRaise(t: Table, maxTry: int, thr: Threshold, parse: Parser)
    requires Distinct(Names(t))
    ensures CoerceDatetimes(t, maxTry, thr, parse).Success?
  {
  }

  /**
   * When the normalized labels are distinct (for instance when no cleaned header is another
   * cleaned header followed by `_k`), a readable file is always prepared, keeping every column.
   */
  lemma ReadableDistinctIsPrepared(read: Reader, parse: Parser)
    requires SmartReadCsv(read).Some?
    requires Distinct(Normalize(Names(SmartReadCsv(read).value.table)))
    ensures Prepare(read, parse).Prepared?
    ensures |Prepare(read, parse).table.columns| == |SmartReadCsv(read).value.table.columns|
  {
    var t := CleanColumns(SmartReadCsv(read).value.table);
    DistinctLabelsNeverRaise(t, DefaultMaxTry, DefaultThreshold, parse);
  }

  /** A table labelled `A, A_1, A_1` makes `coerce_datetimes` raise on `A_1` once two columns are examined. */
  lemma SharedLabelRaises(c: Table, maxTry: int, thr: Threshold, parse: Parser)
    requires Names(c) == ["A", "A_1", "A_1"]
    requires maxTry >= 2
    ensures CoerceDatetimes(c, maxTry, thr, parse) == Failure(AmbiguousLabel("A_1"))
  {
    assert c.columns[0].name == "A" && c.columns[1].name == "A_1" && c.columns[2].name == "A_1";
    assert LabelRepeated(c, "A_1");
    assert !LabelRepeated(c, "A");
  }

  /**
   * A file whose header reads as `A`, ` A`, `A_1` (labels pandas keeps as they are, since they
   * differ) is normalized to `A, A_1, A_1`, and `coerce_datetimes` then raises on `A_1`.
   */
  lemma CollidingHeaderRaises(read: Reader, parse: Parser, t: Table)
    requires read(Encodings[0]) == Some(t)
    requires Names(t) == ["A", " A", "A_1"]
    ensures Prepare(read, parse) == Raised(AmbiguousLabel("A_1"))
  {
    assert SmartReadCsv(read) == Some(Loaded("utf-8", t));
    PaddedCollisionExample();
    SharedLabelRaises(CleanColumns(t), DefaultMaxTry, DefaultThreshold, parse);
  }
}
