/**
 * The outer loop of `Start`: load the cursor once, then open session after
 * session, each with a URL that carries the in-memory cursor of that moment and
 * each with a fresh, empty buffer. A run is modelled as the finite list of
 * connection attempts made so far; a failed connect is an attempt that
 * received no fragments.
 */
module Supervisor {
  import opened Wrappers
  import opened Decimal
  import opened CursorStore
  import opened Events
  import opened Session

  /** The configured access key, empty as shipped. */
  const AccessKey: string := ""

  /** Everything of the URL before the cursor. */
  const UrlPrefix: string := "wss://data.campoints.net/?accessKey=" + AccessKey + "&seq="

  /** The URL of a connection attempt made while the cursor is `cursor`. */
  function Url(cursor: Int32): (u: string)
    ensures |u| > |UrlPrefix| && u[..|UrlPrefix|] == UrlPrefix
  {
    UrlPrefix + Render(cursor)
  }

  /** The `seq` parameter as the server reads it back from a URL. */
  function ResumePoint(url: string): Option<Int32> {
    if |url| >= |UrlPrefix| && url[..|UrlPrefix|] == UrlPrefix then Parse(url[|UrlPrefix|..]) else None
  }

  /** The server sees exactly the cursor the client held when it connected. */
  lemma UrlCarriesCursor(cursor: Int32)
    ensures ResumePoint(Url(cursor)) == Some(cursor)
  {
    assert Url(cursor)[|UrlPrefix|..] == Render(cursor);
    ParseRender(cursor);
  }

  /** One connection attempt: the fragments it received, and how its cursor-file writes fare. */
  datatype Attempt = Attempt(fragments: seq<Fragment>, writeOk: nat -> bool)

  /** The state after a run of attempts, and the URL each attempt connected to. */
  datatype Run = Run(final: Client, urls: seq<string>)

  /**
   * Process start: an empty mirror and the cursor loaded from the file, 0 if that
   * fails. A load failure whose logging itself throws is not modelled.
   */
  function Start(file: Option<string>): (c: Client)
    ensures c.mirror == map[]
    ensures c.store.file == file
    ensures Durable(c.store)
  {
    StartupDurable(file);
    Client(map[], Startup(file))
  }

  /** The reconnect loop over the given attempts. */
  function Supervise(st: Client, attempts: seq<Attempt>, decode: string -> Option<Message>): (r: Run)
    ensures |r.urls| == |attempts|
    ensures Durable(st.store) ==> Durable(r.final.store)
    decreases |attempts|
  {
    if attempts == [] then Run(st, [])
    else
      var next := RunSession(st, "", attempts[0].fragments, decode, attempts[0].writeOk, 0);
      var rest := Supervise(next, attempts[1..], decode);
      Run(rest.final, [Url(st.store.cursor)] + rest.urls)
  }

  /** Running `xs + ys` is running `xs` and then `ys` from where it stopped. */
  lemma {:induction false} SuperviseAppend(st: Client, xs: seq<Attempt>, ys: seq<Attempt>,
                                          decode: string -> Option<Message>)
    ensures
      var a := Supervise(st, xs, decode);
      var b := Supervise(a.final, ys, decode);
      Supervise(st, xs + ys, decode) == Run(b.final, a.urls + b.urls)
    decreases |xs|
  {
    if xs == [] {
      assert xs + ys == ys;
    } else {
      assert (xs + ys)[0] == xs[0];
      assert (xs + ys)[1..] == xs[1..] + ys;
      var next := RunSession(st, "", xs[0].fragments, decode, xs[0].writeOk, 0);
      SuperviseAppend(next, xs[1..], ys, decode);
      var a' := Supervise(next, xs[1..], decode);
      var b := Supervise(a'.final, ys, decode);
      assert [Url(st.store.cursor)] + (a'.urls + b.urls) == ([Url(st.store.cursor)] + a'.urls) + b.urls;
    }
  }

  /**
   * Attempt `i` connects with the cursor left by the attempts before it, and
   * runs its session from that state with an empty buffer.
   */
  lemma AttemptUsesCurrentCursor(st: Client, attempts: seq<Attempt>, decode: string -> Option<Message>, i: nat)
    requires i < |attempts|
    ensures
      var before := Supervise(st, attempts[..i], decode).final;
      && Supervise(st, attempts, decode).urls[i] == Url(before.store.cursor)
      && Supervise(st, attempts[..i + 1], decode).final
         == RunSession(before, "", attempts[i].fragments, decode, attempts[i].writeOk, 0)
  {
    var before := Supervise(st, attempts[..i], decode);
    assert attempts == attempts[..i] + attempts[i..];
    SuperviseAppend(st, attempts[..i], attempts[i..], decode);
    assert attempts[..i + 1] == attempts[..i] + [attempts[i]];
    SuperviseAppend(st, attempts[..i], [attempts[i]], decode);
    assert [attempts[i]][1..] == [];
    assert (before.urls + Supervise(before.final, attempts[i..], decode).urls)[i]
        == Supervise(before.final, attempts[i..], decode).urls[0];
  }

  /**
   * Whatever happens on the wire, and provided a failed cursor write leaves the
   * file as it was, restarting the process after a run resumes from the cursor
   * the run held in memory.
   */
  lemma RestartResumesAtCursor(file: Option<string>, attempts: seq<Attempt>, decode: string -> Option<Message>)
    ensures
      var r := Supervise(Start(file), attempts, decode);
      Start(r.final.store.file).store.cursor == r.final.store.cursor
  {
  }

  /** The messages a session completes, paired with their write outcomes. */
  function SessionArrivals(a: Attempt, decode: string -> Option<Message>): (arr: seq<Arrival>)
    ensures |arr| == EomCount(Received(a.fragments))
  {
    Arrivals(Reassemble("", Received(a.fragments)).messages, decode, a.writeOk, 0)
  }

  /** A session whose last completed message fully succeeds ends with that message's `seq` as cursor. */
  lemma SessionEndsAtLastSuccess(st: Client, a: Attempt, decode: string -> Option<Message>)
    requires SessionArrivals(a, decode) != []
    requires Succeeds(SessionArrivals(a, decode)[|SessionArrivals(a, decode)| - 1])
    ensures
      var arr := SessionArrivals(a, decode);
      Some(RunSession(st, "", a.fragments, decode, a.writeOk, 0).store.cursor)
        == arr[|arr| - 1].decoded.value.sequenceId
  {
    SessionIsFold(st, "", a.fragments, decode, a.writeOk, 0);
    FinalSuccessIsCursor(st, SessionArrivals(a, decode));
  }

  /** Attempt `i + 1` connects with the cursor attempt `i` ended its session with. */
  lemma NextUrlFollowsSession(st: Client, attempts: seq<Attempt>, decode: string -> Option<Message>, i: nat)
    requires i + 1 < |attempts|
    ensures
      var before := Supervise(st, attempts[..i], decode).final;
      Supervise(st, attempts, decode).urls[i + 1]
        == Url(RunSession(before, "", attempts[i].fragments, decode, attempts[i].writeOk, 0).store.cursor)
  {
    AttemptUsesCurrentCursor(st, attempts, decode, i);
    AttemptUsesCurrentCursor(st, attempts, decode, i + 1);
  }

  /**
   * When the last message an attempt completes is fully processed, the next
   * attempt asks the server to resume from that message's `seq`.
   */
  lemma ResumeAfterSuccess(st: Client, attempts: seq<Attempt>, decode: string -> Option<Message>, i: nat)
    requires i + 1 < |attempts|
    requires SessionArrivals(attempts[i], decode) != []
    requires Succeeds(SessionArrivals(attempts[i], decode)[|SessionArrivals(attempts[i], decode)| - 1])
    ensures
      var arr := SessionArrivals(attempts[i], decode);
      ResumePoint(Supervise(st, attempts, decode).urls[i + 1]) == arr[|arr| - 1].decoded.value.sequenceId
  {
    var before := Supervise(st, attempts[..i], decode).final;
    var after := RunSession(before, "", attempts[i].fragments, decode, attempts[i].writeOk, 0);
    NextUrlFollowsSession(st, attempts, decode, i);
    SessionEndsAtLastSuccess(before, attempts[i], decode);
    UrlCarriesCursor(after.store.cursor);
  }
}
