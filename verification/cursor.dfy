/**
 * The resume cursor: the in-memory `_sequenceID` together with the text of the
 * cursor file. A file that is missing or cannot be read is `None`.
 */
module CursorStore {
  import opened Wrappers
  import opened Decimal

  datatype Store = Store(file: Option<string>, cursor: Int32)

  /**
   * `LoadSequenceID`: the number the file holds, or the previous cursor when the
   * file is missing or its text does not parse. The file itself is not touched.
   */
  function Load(s: Store): (r: Store)
    ensures r.file == s.file
    ensures r.cursor != s.cursor ==> s.file.Some? && Parse(s.file.value) == Some(r.cursor)
    ensures s.file.None? ==> r == s
    ensures s.file.Some? && Parse(s.file.value).Some? ==> r.cursor == Parse(s.file.value).value
    ensures s.file.Some? && Parse(s.file.value).None? ==> r == s
  {
    match s.file
    case None => s
    case Some(text) =>
      match Parse(text)
      case None => s
      case Some(n) => s.(cursor := n)
  }

  /**
   * `SaveSequenceID`: on a successful write the file holds the decimal text of
   * `n` and only then does the in-memory cursor become `n`; a failed write throws
   * before the cursor is assigned and is modelled as leaving both unchanged.
   */
  function Save(s: Store, n: Int32, writeOk: bool): (r: Store)
    ensures writeOk ==> r.cursor == n && r.file.Some? && Parse(r.file.value) == Some(n)
    ensures !writeOk ==> r == s
  {
    ParseRender(n);
    if writeOk then Store(Some(Render(n)), n) else s
  }

  /** The store right after start-up: the cursor starts at 0 and is then loaded. */
  function Startup(file: Option<string>): (r: Store)
    ensures r.file == file
    ensures file.None? || Parse(file.value).None? ==> r.cursor == 0
    ensures file.Some? && Parse(file.value).Some? ==> r.cursor == Parse(file.value).value
  {
    Load(Store(file, 0))
  }

  /** A restart would resume from the cursor held in memory. */
  predicate Durable(s: Store) {
    Startup(s.file).cursor == s.cursor
  }

  /** Whatever the file holds, the freshly started store is durable. */
  lemma StartupDurable(file: Option<string>)
    ensures Durable(Startup(file))
  {
  }

  /** Loading what a successful save wrote yields the saved number, whatever the cursor was before. */
  lemma {:induction false} LoadAfterSave(s: Store, n: Int32, prior: Int32)
    ensures Load(Save(s, n, true).(cursor := prior)).cursor == n
  {
  }

  /** Saving keeps a durable store durable, whether or not the write succeeds. */
  lemma SaveDurable(s: Store, n: Int32, writeOk: bool)
    requires Durable(s)
    ensures Durable(Save(s, n, writeOk))
  {
  }
}
