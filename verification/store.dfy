/**
 The data file as the controller sees it: `load_data` at start-up and
 `save_data` after every add and delete. JSON text is not modelled; a
 readable JSON document is assumed to be an array of records.
 */
module Store {
  import opened Records

  /** The state of the data file. */
  datatype Document =
    | Stored(records: seq<Beer>)  // a JSON array of records
    | Absent                      // no file at the data path
    | Damaged                     // a file that cannot be read or is not valid JSON

  /** How one `save_data` call ended. */
  datatype Write =
    | Written     // the list was dumped completely
    | OpenFailed  // opening the file for writing raised; the file was not touched
    | DumpFailed  // the file was truncated by the open, then the dump raised part-way

  /** What `load_data` hands back: the records, and whether an error dialog was shown. */
  datatype Loaded = Loaded(records: seq<Beer>, warned: bool)

  /**
   `load_data`: a stored list is read back as it is; a missing file gives an
   empty list silently, and an unreadable or non-JSON one an empty list with an error dialog.
   */
  function Load(doc: Document): (r: Loaded)
    ensures doc.Stored? ==> r.records == doc.records && !r.warned
    ensures !doc.Stored? ==> r.records == []
    ensures r.warned <==> doc.Damaged?
  {
    match doc
    case Stored(bs) => Loaded(bs, false)
    case Absent => Loaded([], false)
    case Damaged => Loaded([], true)
  }

  /**
   `save_data`: the document after trying to write `bs` over `old_doc`.
   Opening with mode "w" truncates the file first, so a dump that fails
   leaves a partial text behind.
   */
  function Persist(old_doc: Document, bs: seq<Beer>, w: Write): (r: Document)
    ensures w == Written ==> Load(r) == Loaded(bs, false)
    ensures w == OpenFailed ==> r == old_doc
    ensures w == DumpFailed ==> Load(r).warned && Load(r).records == []
  {
    match w
    case Written => Stored(bs)
    case OpenFailed => old_doc
    case DumpFailed => Damaged
  }

  /** Whatever the file held before, a complete write followed by a load gives the written list back. */
  lemma SaveLoadRoundTrip(old_doc: Document, bs: seq<Beer>)
    ensures Load(Persist(old_doc, bs, Written)).records == bs
  {
  }
}
