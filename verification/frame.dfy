/** The tabular data the pipeline works on: a pandas DataFrame reduced to what the core looks at. */
module Frame {
  import opened Wrappers

  /** A parsed timestamp; its representation is left to the parsing library. */
  datatype Date = Date(instant: int)

  /** The contents of one column, by dtype. */
  datatype Values =
      /** `object` dtype, as text columns are assumed to be read: strings, with `None` for a missing cell (NaN). */
    | Text(cells: seq<Option<string>>)
      /** `datetime64` dtype, with `None` for NaT. */
    | Dates(stamps: seq<Option<Date>>)
      /** Any other dtype (integer, float, bool); the core never looks inside these. */
    | Other(dtype: string, rows: nat)

  datatype Column = Column(name: string, values: Values)

  datatype Table = Table(columns: seq<Column>)

  /** The number of rows a column holds. */
  function Rows(v: Values): nat {
    match v
    case Text(cells) => |cells|
    case Dates(stamps) => |stamps|
    case Other(_, rows) => rows
  }

  /** The header of a table, in column order. */
  function Names(t: Table): (r: seq<string>)
    ensures |r| == |t.columns|
    ensures forall i :: 0 <= i < |r| ==> r[i] == t.columns[i].name
  {
    seq(|t.columns|, i requires 0 <= i < |t.columns| => t.columns[i].name)
  }

  /** `df.columns = names`: the same columns under new labels. */
  function Relabel(t: Table, names: seq<string>): (r: Table)
    requires |names| == |t.columns|
    ensures Names(r) == names
    ensures |r.columns| == |t.columns|
    ensures forall i :: 0 <= i < |t.columns| ==> r.columns[i].values == t.columns[i].values
  {
    Table(seq(|t.columns|, i requires 0 <= i < |t.columns| => Column(names[i], t.columns[i].values)))
  }
}
