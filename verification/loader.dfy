/** `smart_read_csv`: read the file under each candidate encoding in turn and keep the first success. */
module Loader {
  import opened Wrappers
  import opened Frame
  import Candidates

  /** The encodings tried, in order. */
  const Encodings: seq<string> := ["utf-8", "cp949", "euc-kr"]

  /** `pd.read_csv(path, encoding=enc)` for a fixed file: a table, or `None` when it raises. */
  type Reader = string -> Option<Table>

  /** A successful load and the encoding it used. */
  datatype Loaded = Loaded(encoding: string, table: Table)

  /** Encoding `k` is the first of the list under which the file reads. */
  predicate FirstReadable(read: Reader, k: nat) {
    k < |Encodings| && read(Encodings[k]).Some? && forall j :: 0 <= j < k ==> read(Encodings[j]).None?
  }

  /** `loaded` is what reading under encoding `k` gives, reported with that encoding. */
  predicate LoadedWith(read: Reader, k: nat, loaded: Loaded) {
    k < |Encodings| && loaded.encoding == Encodings[k] && read(Encodings[k]) == Some(loaded.table)
  }

  /**
   * The first encoding under which the file reads, with its table; `None` only when every
   * encoding fails. No partially read table is ever returned.
   */
  function SmartReadCsv(read: Reader): (r: Option<Loaded>)
    ensures r.None? <==> forall k :: 0 <= k < |Encodings| ==> read(Encodings[k]).None?
    ensures r.Some? ==> exists k :: FirstReadable(read, k) && LoadedWith(read, k, r.value)
  {
    match Candidates.FirstAccepted(Encodings, e => read(e).Some?)
    case None => None
    case Some(k) =>
      var loaded := Loaded(Encodings[k], read(Encodings[k]).value);
      assert FirstReadable(read, k) && LoadedWith(read, k, loaded);
      Some(loaded)
  }
}
