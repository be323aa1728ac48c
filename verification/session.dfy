/**
 * One connection attempt (the inner receive loop of `Start`): fragments are
 * appended to a buffer that starts empty; on an end-of-message flag the buffer
 * is handed to `Process` and cleared; after that the socket state is checked and
 * the loop ends once it is no longer open. A receive that throws ends the
 * session too, so a session is modelled as the list of fragments it received.
 */
module Session {
  import opened Wrappers
  import opened Events
  import opened CursorStore

  /** One `ReceiveAsync` result: its decoded text, its end-of-message flag, and whether the socket is still open after it. */
  datatype Fragment = Fragment(text: string, endOfMessage: bool, openAfter: bool)

  /** The complete messages cut out of a fragment stream, and the text still buffered. */
  datatype Assembly = Assembly(messages: seq<string>, pending: string)

  /** All fragment texts, in order. */
  function Texts(fs: seq<Fragment>): string
    decreases |fs|
  {
    if fs == [] then "" else fs[0].text + Texts(fs[1..])
  }

  /** All messages joined back together. */
  function Concat(ms: seq<string>): string
    decreases |ms|
  {
    if ms == [] then "" else ms[0] + Concat(ms[1..])
  }

  /** Number of fragments flagged end-of-message. */
  function EomCount(fs: seq<Fragment>): (c: nat)
    ensures c <= |fs|
    ensures c == 0 <==> forall i :: 0 <= i < |fs| ==> !fs[i].endOfMessage
    decreases |fs|
  {
    if fs == [] then 0
    else (if fs[0].endOfMessage then 1 else 0) + EomCount(fs[1..])
  }

  /**
   * The fragments the loop actually reads: everything up to and including the
   * first one after which the socket is no longer open.
   */
  function Received(fs: seq<Fragment>): (r: seq<Fragment>)
    ensures |r| <= |fs| && r == fs[..|r|]
    ensures forall i :: 0 <= i < |r| - 1 ==> r[i].openAfter
    ensures |r| < |fs| ==> |r| > 0 && !r[|r| - 1].openAfter
    ensures (forall i :: 0 <= i < |fs| ==> fs[i].openAfter) ==> r == fs
    decreases |fs|
  {
    if fs == [] then []
    else if !fs[0].openAfter then [fs[0]]
    else [fs[0]] + Received(fs[1..])
  }

  /** The buffer handling of the receive loop as a fold: `buf` is the text buffered so far. */
  function Reassemble(buf: string, fs: seq<Fragment>): (r: Assembly)
    ensures |r.messages| == EomCount(fs)
    decreases |fs|
  {
    if fs == [] then Assembly([], buf)
    else
      var text := buf + fs[0].text;
      if fs[0].endOfMessage then
        var rest := Reassemble("", fs[1..]);
        Assembly([text] + rest.messages, rest.pending)
      else
        Reassemble(text, fs[1..])
  }

  lemma ConcatCons(m: string, ms: seq<string>)
    ensures Concat([m] + ms) == m + Concat(ms)
  {
    assert ([m] + ms)[1..] == ms;
  }

  /** No text is lost or duplicated: the messages and the buffer together are the buffer and all fragments. */
  lemma {:induction false} ReassembleConserves(buf: string, fs: seq<Fragment>)
    ensures Concat(Reassemble(buf, fs).messages) + Reassemble(buf, fs).pending == buf + Texts(fs)
    decreases |fs|
  {
    if fs != [] {
      var text := buf + fs[0].text;
      assert buf + Texts(fs) == text + Texts(fs[1..]);
      if fs[0].endOfMessage {
        var rest := Reassemble("", fs[1..]);
        ReassembleConserves("", fs[1..]);
        assert Concat(rest.messages) + rest.pending == Texts(fs[1..]);
        ConcatCons(text, rest.messages);
        assert Reassemble(buf, fs) == Assembly([text] + rest.messages, rest.pending);
        assert text + Concat(rest.messages) + rest.pending == text + (Concat(rest.messages) + rest.pending);
      } else {
        ReassembleConserves(text, fs[1..]);
      }
    }
  }

  /** Reassembling `xs + ys` is reassembling `xs` and carrying its buffer into `ys`. */
  lemma {:induction false} ReassembleAppend(buf: string, xs: seq<Fragment>, ys: seq<Fragment>)
    ensures
      var a := Reassemble(buf, xs);
      var b := Reassemble(a.pending, ys);
      Reassemble(buf, xs + ys) == Assembly(a.messages + b.messages, b.pending)
    decreases |xs|
  {
    if xs == [] {
      assert xs + ys == ys;
    } else {
      var zs := xs + ys;
      assert zs[0] == xs[0];
      assert zs[1..] == xs[1..] + ys;
      var text := buf + xs[0].text;
      if xs[0].endOfMessage {
        ReassembleAppend("", xs[1..], ys);
        var a' := Reassemble("", xs[1..]);
        var b := Reassemble(a'.pending, ys);
        assert [text] + (a'.messages + b.messages) == ([text] + a'.messages) + b.messages;
      } else {
        ReassembleAppend(text, xs[1..], ys);
        assert Reassemble(buf, xs) == Reassemble(text, xs[1..]);
        assert Reassemble(buf, zs) == Reassemble(text, zs[1..]);
      }
    }
  }

  /** Right after an end-of-message fragment the buffer is empty. */
  lemma {:induction false} BufferClearedAtBoundary(buf: string, fs: seq<Fragment>)
    requires fs != [] && fs[|fs| - 1].endOfMessage
    ensures Reassemble(buf, fs).pending == ""
    decreases |fs|
  {
    if |fs| > 1 {
      var text := buf + fs[0].text;
      if fs[0].endOfMessage {
        BufferClearedAtBoundary("", fs[1..]);
      } else {
        BufferClearedAtBoundary(text, fs[1..]);
      }
    }
  }

  /** A run of fragments whose only end-of-message flag is on the last one makes exactly one message. */
  lemma {:induction false} OneMessage(buf: string, seg: seq<Fragment>)
    requires seg != [] && seg[|seg| - 1].endOfMessage
    requires forall j :: 0 <= j < |seg| - 1 ==> !seg[j].endOfMessage
    ensures Reassemble(buf, seg) == Assembly([buf + Texts(seg)], "")
    decreases |seg|
  {
    var text := buf + seg[0].text;
    if |seg| == 1 {
      assert Texts(seg) == seg[0].text;
    } else {
      OneMessage(text, seg[1..]);
      assert buf + Texts(seg) == text + Texts(seg[1..]);
    }
  }

  lemma {:induction false} EomCountAppend(xs: seq<Fragment>, ys: seq<Fragment>)
    ensures EomCount(xs + ys) == EomCount(xs) + EomCount(ys)
    decreases |xs|
  {
    if xs == [] {
      assert xs + ys == ys;
    } else {
      assert (xs + ys)[1..] == xs[1..] + ys;
      EomCountAppend(xs[1..], ys);
    }
  }

  /** Fragments `p..i` carry no end-of-message flag, so `fs[..i]` completes as many messages as `fs[..p]`. */
  lemma CountUpTo(fs: seq<Fragment>, p: nat, i: nat)
    requires p <= i <= |fs|
    requires forall j :: p <= j < i ==> !fs[j].endOfMessage
    ensures EomCount(fs[..i]) == EomCount(fs[..p])
  {
    assert fs[..i] == fs[..p] + fs[p..i];
    EomCountAppend(fs[..p], fs[p..i]);
    var mid := fs[p..i];
    forall j | 0 <= j < |mid|
      ensures !mid[j].endOfMessage
    {
      assert mid[j] == fs[p + j];
    }
  }

  /** A session prefix that ends at a boundary, followed by one complete message. */
  lemma BoundaryThenMessage(front: seq<Fragment>, seg: seq<Fragment>)
    requires front == [] || front[|front| - 1].endOfMessage
    requires seg != [] && seg[|seg| - 1].endOfMessage
    requires forall j :: 0 <= j < |seg| - 1 ==> !seg[j].endOfMessage
    ensures Reassemble("", front + seg)
         == Assembly(Reassemble("", front).messages + [Texts(seg)], "")
  {
    var a := Reassemble("", front);
    if front != [] {
      BufferClearedAtBoundary("", front);
    }
    OneMessage("", seg);
    assert "" + Texts(seg) == Texts(seg);
    ReassembleAppend("", front, seg);
  }

  /**
   * The message completed by end-of-message fragment `i` is number
   * `EomCount(fs[..i])`, and it is exactly the concatenation of the fragments
   * received since the previous end-of-message fragment `p - 1` (or since the
   * start of the session).
   */
  lemma MessageSinceLastBoundary(fs: seq<Fragment>, p: nat, i: nat)
    requires p <= i < |fs| && fs[i].endOfMessage
    requires p == 0 || fs[p - 1].endOfMessage
    requires forall j :: p <= j < i ==> !fs[j].endOfMessage
    ensures EomCount(fs[..i]) < |Reassemble("", fs).messages|
    ensures Reassemble("", fs).messages[EomCount(fs[..i])] == Texts(fs[p..i + 1])
  {
    var front, seg, back := fs[..p], fs[p..i + 1], fs[i + 1..];
    assert fs == (front + seg) + back;
    forall j | 0 <= j < |seg| - 1
      ensures !seg[j].endOfMessage
    {
      assert seg[j] == fs[p + j];
    }
    assert seg[|seg| - 1] == fs[i];
    BoundaryThenMessage(front, seg);
    ReassembleAppend("", front + seg, back);
    var ms := Reassemble("", front).messages + [Texts(seg)];
    assert Reassemble("", fs).messages == ms + Reassemble("", back).messages;
    CountUpTo(fs, p, i);
    assert EomCount(fs[..i]) == |ms| - 1;
  }

  /** The per-message write outcomes the file system gives, numbered within the session from `n`. */
  function Arrivals(ms: seq<string>, decode: string -> Option<Message>, writeOk: nat -> bool, n: nat): (r: seq<Arrival>)
    ensures |r| == |ms|
    ensures forall i :: 0 <= i < |ms| ==> r[i] == Arrival(decode(ms[i]), writeOk(n + i))
    decreases |ms|
  {
    if ms == [] then [] else [Arrival(decode(ms[0]), writeOk(n))] + Arrivals(ms[1..], decode, writeOk, n + 1)
  }

  /**
   * The receive loop as written: `buf` is the `StringBuilder`, `n` the number of
   * messages already processed. A fragment is appended, processed on an
   * end-of-message flag, and only then is the open state checked.
   */
  function RunSession(st: Client, buf: string, fs: seq<Fragment>,
                      decode: string -> Option<Message>, writeOk: nat -> bool, n: nat): (r: Client)
    ensures Durable(st.store) ==> Durable(r.store)
    decreases |fs|
  {
    if fs == [] then st
    else
      var text := buf + fs[0].text;
      var st' := if fs[0].endOfMessage then Process(st, Arrival(decode(text), writeOk(n))) else st;
      if !fs[0].openAfter then st'
      else if fs[0].endOfMessage then RunSession(st', "", fs[1..], decode, writeOk, n + 1)
      else RunSession(st', text, fs[1..], decode, writeOk, n)
  }

  /**
   * The loop processes, in order, exactly the messages reassembled from the
   * fragments it received; whatever is left in the buffer is dropped.
   */
  lemma {:induction false} SessionIsFold(st: Client, buf: string, fs: seq<Fragment>,
                                        decode: string -> Option<Message>, writeOk: nat -> bool, n: nat)
    ensures RunSession(st, buf, fs, decode, writeOk, n)
         == ApplyAll(st, Arrivals(Reassemble(buf, Received(fs)).messages, decode, writeOk, n))
    decreases |fs|
  {
    if fs != [] {
      var f := fs[0];
      var text := buf + f.text;
      var tail := if f.openAfter then Received(fs[1..]) else [];
      assert Received(fs) == [f] + tail;
      assert ([f] + tail)[1..] == tail;
      if f.endOfMessage {
        var st' := Process(st, Arrival(decode(text), writeOk(n)));
        var ms := Reassemble("", tail).messages;
        assert Reassemble(buf, Received(fs)).messages == [text] + ms;
        assert ([text] + ms)[1..] == ms;
        var arr := Arrivals([text] + ms, decode, writeOk, n);
        assert arr == [Arrival(decode(text), writeOk(n))] + Arrivals(ms, decode, writeOk, n + 1);
        assert arr[1..] == Arrivals(ms, decode, writeOk, n + 1);
        if f.openAfter {
          SessionIsFold(st', "", fs[1..], decode, writeOk, n + 1);
        } else {
          assert ms == [];
        }
      } else {
        if f.openAfter {
          SessionIsFold(st, text, fs[1..], decode, writeOk, n);
        } else {
          assert Reassemble(buf, Received(fs)).messages == [];
        }
      }
    }
  }

  /** Fragments with no end-of-message flag never reach `Process`. */
  lemma {:induction false} NoBoundaryNoEffect(st: Client, buf: string, fs: seq<Fragment>,
                                             decode: string -> Option<Message>, writeOk: nat -> bool, n: nat)
    requires forall i :: 0 <= i < |fs| ==> !fs[i].endOfMessage
    ensures RunSession(st, buf, fs, decode, writeOk, n) == st
    decreases |fs|
  {
    if fs != [] && fs[0].openAfter {
      NoBoundaryNoEffect(st, buf + fs[0].text, fs[1..], decode, writeOk, n);
    }
  }

  /**
   * Fragments after the last end-of-message flag of a session are never
   * processed: extending a session by such a tail changes nothing.
   */
  lemma {:induction false} UnfinishedTailIgnored(st: Client, buf: string, fs: seq<Fragment>, tail: seq<Fragment>,
                                                decode: string -> Option<Message>, writeOk: nat -> bool, n: nat)
    requires forall i :: 0 <= i < |tail| ==> !tail[i].endOfMessage
    ensures RunSession(st, buf, fs + tail, decode, writeOk, n) == RunSession(st, buf, fs, decode, writeOk, n)
    decreases |fs|
  {
    if fs == [] {
      assert fs + tail == tail;
      NoBoundaryNoEffect(st, buf, tail, decode, writeOk, n);
    } else {
      assert (fs + tail)[0] == fs[0];
      assert (fs + tail)[1..] == fs[1..] + tail;
      var text := buf + fs[0].text;
      if fs[0].openAfter {
        if fs[0].endOfMessage {
          UnfinishedTailIgnored(Process(st, Arrival(decode(text), writeOk(n))), "", fs[1..], tail, decode, writeOk, n + 1);
        } else {
          UnfinishedTailIgnored(st, text, fs[1..], tail, decode, writeOk, n);
        }
      }
    }
  }
}
