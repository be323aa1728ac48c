/**
 * Applying one decoded server message to the local mirror and the cursor
 * (`Process`), and applying a run of them in arrival order.
 *
 * The JSON library is not modelled: a message arrives already decoded, `None`
 * when `DynamicJson.Parse` throws, and each field is `None` when reading or
 * casting it throws. Every failure is caught inside `Process`; what it has done
 * by then stays done.
 */
module Events {
  import opened Wrappers
  import opened Decimal
  import opened Keys
  import opened CursorStore

  /** The key → JSON dictionary the client keeps in step with the server. */
  type Mirror = map<Key, string>

  /** Everything the event-application path owns. */
  datatype Client = Client(mirror: Mirror, store: Store)

  /** One decoded message; `data` is the re-serialised JSON of its `data` member. */
  datatype Message = Message(
    data: Option<string>,
    key: Option<string>,
    kind: Option<string>,
    version: Option<Int32>,
    deleted: Option<bool>,
    sequenceId: Option<Int32>)

  /** What the fields read before any mutation amount to. */
  datatype Change = Change(key: Key, data: string, deleted: bool)

  /** A completed message as `Process` meets it, with the outcome of its cursor-file write. */
  datatype Arrival = Arrival(decoded: Option<Message>, writeOk: bool)

  /** `m` and `m'` agree at `k`: both lack it or both map it to the same text. */
  predicate SameAt(m: Mirror, m': Mirror, k: Key) {
    (k !in m && k !in m') || (k in m && k in m' && m[k] == m'[k])
  }

  /** `AddOrUpdate(key, data, ...)`: `k` now maps to `v`, every other entry is as before. */
  function Upsert(m: Mirror, k: Key, v: string): (r: Mirror)
    ensures k in r && r[k] == v
    ensures forall k' :: k' != k ==> SameAt(m, r, k')
  {
    m[k := v]
  }

  /** `TryRemove(key, out _)`: `k` is absent, every other entry is as before; no error when absent. */
  function Remove(m: Mirror, k: Key): (r: Mirror)
    ensures k !in r
    ensures forall k' :: k' != k ==> SameAt(m, r, k')
    ensures k !in m ==> r == m
  {
    m - {k}
  }

  /** The reads of `data`, `key`, `type`, `version` and `deleted`; `None` if any throws. */
  function Fields(m: Message): (r: Option<Change>)
    ensures r.Some? <==> m.data.Some? && m.key.Some? && m.kind.Some? && m.version.Some? && m.deleted.Some?
    ensures r.Some? ==> r.value.key.kind == m.kind.value && r.value.key.name == m.key.value
                        && r.value.key.version == m.version.value
                        && r.value.data == m.data.value && r.value.deleted == m.deleted.value
  {
    if m.data.None? || m.key.None? || m.kind.None? || m.version.None? || m.deleted.None? then None
    else Some(Change(Key(m.kind.value, m.key.value, m.version.value), m.data.value, m.deleted.value))
  }

  /** The mirror mutation: none for a keepalive, else delete or upsert the key. */
  function Mutate(mirror: Mirror, c: Change): (r: Mirror)
    ensures c.key.kind == Keepalive ==> r == mirror
    ensures forall k :: k != c.key ==> SameAt(mirror, r, k)
  {
    if c.key.kind == Keepalive then mirror
    else if c.deleted then Remove(mirror, c.key)
    else Upsert(mirror, c.key, c.data)
  }

  /** The key a message names, when all the fields read before the mutation are present. */
  function Target(a: Arrival): Option<Key> {
    if a.decoded.None? then None
    else match Fields(a.decoded.value)
      case None => None
      case Some(c) => Some(c.key)
  }

  /** The message decodes, every field is present and the cursor file is written. */
  predicate Succeeds(a: Arrival) {
    a.decoded.Some? && Fields(a.decoded.value).Some? && a.decoded.value.sequenceId.Some? && a.writeOk
  }

  /**
   * `Process`: read the fields, mutate the mirror unless it is a keepalive,
   * then read `seq` and save it. A throw stops the remaining steps.
   */
  function Process(st: Client, a: Arrival): (r: Client)
    ensures forall k :: Target(a) != Some(k) ==> SameAt(st.mirror, r.mirror, k)
    ensures r.store.cursor != st.store.cursor ==> Succeeds(a) && a.decoded.value.sequenceId == Some(r.store.cursor)
    ensures Durable(st.store) ==> Durable(r.store)
  {
    match a.decoded
    case None => st
    case Some(m) =>
      match Fields(m)
      case None => st
      case Some(c) =>
        var mutated := st.(mirror := Mutate(st.mirror, c));
        match m.sequenceId
        case None => mutated
        case Some(n) =>
          mutated.(store := Save(st.store, n, a.writeOk))
  }

  /** A keepalive never creates, updates or removes an entry, whatever its `deleted` and `key`. */
  lemma KeepaliveKeepsMirror(st: Client, a: Arrival)
    requires a.decoded.Some? && a.decoded.value.kind == Some(Keepalive)
    ensures Process(st, a).mirror == st.mirror
  {
  }

  /** A non-keepalive upsert maps its key to the data, overwriting, and leaves every other entry alone. */
  lemma UpsertEffect(st: Client, a: Arrival, k: Key, data: string)
    requires a.decoded.Some? && Fields(a.decoded.value) == Some(Change(k, data, false))
    requires k.kind != Keepalive
    ensures k in Process(st, a).mirror && Process(st, a).mirror[k] == data
    ensures forall k' :: k' != k ==> SameAt(st.mirror, Process(st, a).mirror, k')
  {
  }

  /** A non-keepalive delete leaves its key absent and every other entry alone; absent stays a no-op. */
  lemma DeleteEffect(st: Client, a: Arrival, k: Key)
    requires a.decoded.Some? && Fields(a.decoded.value).Some?
    requires Fields(a.decoded.value).value.key == k && Fields(a.decoded.value).value.deleted
    requires k.kind != Keepalive
    ensures k !in Process(st, a).mirror
    ensures forall k' :: k' != k ==> SameAt(st.mirror, Process(st, a).mirror, k')
    ensures k !in st.mirror ==> Process(st, a).mirror == st.mirror
  {
  }

  /** After a fully successful `Process` the cursor is the message's `seq`, smaller or not, keepalives included. */
  lemma SuccessSetsCursor(st: Client, a: Arrival)
    requires Succeeds(a)
    ensures Process(st, a).store.cursor == a.decoded.value.sequenceId.value
    ensures Load(Process(st, a).store.(cursor := 0)).cursor == a.decoded.value.sequenceId.value
  {
  }

  /** A failure in the parse or in any field read before the mutation changes nothing. */
  lemma EarlyFailureChangesNothing(st: Client, a: Arrival)
    requires a.decoded.None? || Fields(a.decoded.value).None?
    ensures Process(st, a) == st
  {
  }

  /** A missing `seq` or a failed write keeps the mutation but not the cursor or the file. */
  lemma LateFailureKeepsMutation(st: Client, a: Arrival)
    requires a.decoded.Some? && Fields(a.decoded.value).Some?
    requires a.decoded.value.sequenceId.None? || !a.writeOk
    ensures Process(st, a).mirror == Mutate(st.mirror, Fields(a.decoded.value).value)
    ensures Process(st, a).store == st.store
  {
  }

  /** Applying the same message twice gives the same state as applying it once. */
  lemma ProcessIdempotent(st: Client, a: Arrival)
    ensures Process(Process(st, a), a) == Process(st, a)
  {
  }

  /** There is no monotonic guard: a later message with a smaller `seq` moves the cursor back. */
  lemma CursorCanMoveBackwards()
    ensures
      var st := Client(map[], Store(Some("10"), 10));
      var m := Message(Some("{}"), Some("k"), Some(Keepalive), Some(1), Some(false), Some(3));
      Process(st, Arrival(Some(m), true)).store.cursor == 3
  {
  }

  /** The messages applied one at a time, in arrival order. */
  function ApplyAll(st: Client, arrivals: seq<Arrival>): (r: Client)
    ensures Durable(st.store) ==> Durable(r.store)
    decreases |arrivals|
  {
    if arrivals == [] then st else ApplyAll(Process(st, arrivals[0]), arrivals[1..])
  }

  /** Applying `xs + ys` is applying `xs` and then `ys`. */
  lemma {:induction false} ApplyAllAppend(st: Client, xs: seq<Arrival>, ys: seq<Arrival>)
    ensures ApplyAll(st, xs + ys) == ApplyAll(ApplyAll(st, xs), ys)
    decreases |xs|
  {
    if xs != [] {
      assert (xs + ys)[1..] == xs[1..] + ys;
      ApplyAllAppend(Process(st, xs[0]), xs[1..], ys);
    } else {
      assert xs + ys == ys;
    }
  }

  /** A malformed message between others is dropped without disturbing them. */
  lemma {:induction false} MalformedIsSkipped(st: Client, xs: seq<Arrival>, bad: Arrival, ys: seq<Arrival>)
    requires bad.decoded.None? || Fields(bad.decoded.value).None?
    ensures ApplyAll(st, xs + [bad] + ys) == ApplyAll(st, xs + ys)
  {
    ApplyAllAppend(st, xs + [bad], ys);
    ApplyAllAppend(st, xs, [bad]);
    ApplyAllAppend(st, xs, ys);
    assert ApplyAll(ApplyAll(st, xs), [bad]) == ApplyAll(st, xs);
  }

  /** When the last message fully succeeds, the cursor ends at its `seq`. */
  lemma {:induction false} LastSuccessIsCursor(st: Client, xs: seq<Arrival>, last: Arrival)
    requires Succeeds(last)
    ensures ApplyAll(st, xs + [last]).store.cursor == last.decoded.value.sequenceId.value
  {
    ApplyAllAppend(st, xs, [last]);
    SuccessSetsCursor(ApplyAll(st, xs), last);
  }

  /** The same, for a non-empty run of arrivals whose last one fully succeeds. */
  lemma FinalSuccessIsCursor(st: Client, arrivals: seq<Arrival>)
    requires arrivals != [] && Succeeds(arrivals[|arrivals| - 1])
    ensures ApplyAll(st, arrivals).store.cursor == arrivals[|arrivals| - 1].decoded.value.sequenceId.value
  {
    var last := arrivals[|arrivals| - 1];
    assert arrivals == arrivals[..|arrivals| - 1] + [last];
    LastSuccessIsCursor(st, arrivals[..|arrivals| - 1], last);
  }
}
