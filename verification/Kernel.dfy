/** The system calls the host makes, and what a trace of them says about the kernel:
    which descriptors are open, which are known to be readable, who was sent what. */
module Kernel {
  import opened Integers

  datatype Received = Data(bytes: seq<byte>) | HungUp | Failed

  datatype Call =
    | Poll(polled: set<int>, reported: set<int>)
    | Accept(listener: int, fd: int)
    | Recv(fd: int, result: Received)
    | Send(fd: int, bytes: seq<byte>, ok: bool)
    | Close(fd: int)

  type Trace = seq<Call>

  /** The sockets open after a trace that starts with only the listener open. */
  function Open(listener: int, t: Trace): set<int> {
    if t == [] then {listener} else OpenAfter(Open(listener, t[..|t| - 1]), t[|t| - 1])
  }

  function OpenAfter(open: set<int>, call: Call): set<int> {
    match call
    case Accept(_, fd) => if fd >= 0 then open + {fd} else open
    case Close(fd) => open - {fd}
    case _ => open
  }

  /** The sockets reported readable by `poll` since they were last read, accepted on or closed. */
  function Ready(t: Trace): set<int> {
    if t == [] then {} else ReadyAfter(Ready(t[..|t| - 1]), t[|t| - 1])
  }

  function ReadyAfter(ready: set<int>, call: Call): set<int> {
    match call
    case Poll(polled, reported) => (ready - polled) + reported
    case Accept(listener, _) => ready - {listener}
    case Recv(fd, _) => ready - {fd}
    case Close(fd) => ready - {fd}
    case Send(_, _, _) => ready
  }

  /** Position of the latest `recv`; -1 if there was none. */
  function LastRecv(t: Trace): (k: int)
    ensures -1 <= k < |t|
    ensures k >= 0 ==> t[k].Recv?
    ensures forall j :: k < j < |t| ==> !t[j].Recv?
  {
    if t == [] then -1
    else if t[|t| - 1].Recv? then |t| - 1
    else LastRecv(t[..|t| - 1])
  }

  /** What a call must satisfy given the calls before it. A descriptor is read or closed
      only while it is open, so nothing is closed twice. A send repeats the latest chunk
      received, goes neither to its sender nor to the listener, and to each socket once;
      a hole's descriptor -1 may be tried, in vain, any number of times. */
  ghost predicate CallOk(listener: int, before: Trace, call: Call) {
    var open := Open(listener, before);
    match call
    case Poll(polled, reported) =>
      reported <= polled <= open && polled * Ready(before) <= reported
    case Accept(on, fd) => on == listener && (fd == -1 || (fd >= 0 && fd !in open))
    case Recv(fd, _) => fd in open && fd >= 0 && fd != listener
    case Close(fd) => fd in open && fd >= 0 && fd != listener
    case Send(fd, bytes, ok) =>
      && fd != listener
      && (fd in open || (fd == -1 && !ok))
      && RepeatsLatestChunk(before, fd, bytes)
  }

  ghost predicate RepeatsLatestChunk(before: Trace, fd: int, bytes: seq<byte>) {
    var k := LastRecv(before);
    && k >= 0
    && before[k].result == Data(bytes)
    && before[k].fd != fd
    && forall j :: k < j < |before| ==> before[j].Send? && (before[j].fd == fd ==> fd == -1)
  }

  ghost predicate Sound(listener: int, t: Trace) {
    forall i :: 0 <= i < |t| ==> CallOk(listener, t[..i], t[i])
  }

  /** Nothing is read, and no connection accepted, that an unconsumed report does not
      vouch for: neither `recv` nor `accept` waits. */
  ghost predicate NeverWaits(t: Trace) {
    forall i :: 0 <= i < |t| ==> CallPrompt(t[..i], t[i])
  }

  ghost predicate CallPrompt(before: Trace, call: Call) {
    && (call.Recv? ==> call.fd in Ready(before))
    && (call.Accept? ==> call.listener in Ready(before))
  }

  lemma SoundAppend(listener: int, t: Trace, call: Call)
    requires Sound(listener, t) && CallOk(listener, t, call)
    ensures Sound(listener, t + [call])
  {
    forall i | 0 <= i < |t + [call]| ensures CallOk(listener, (t + [call])[..i], (t + [call])[i]) {
      assert (t + [call])[..i] == t[..i];
      assert i == |t| ==> t[..i] == t;
    }
  }

  lemma NeverWaitsAppend(t: Trace, call: Call)
    ensures NeverWaits(t + [call]) <==> NeverWaits(t) && CallPrompt(t, call)
  {
    forall i | 0 <= i <= |t| ensures (t + [call])[..i] == t[..i] {
    }
    assert t[..|t|] == t;
    if NeverWaits(t + [call]) {
      forall i | 0 <= i < |t| ensures CallPrompt(t[..i], t[i]) {
        assert (t + [call])[i] == t[i];
      }
      assert (t + [call])[|t|] == call;
    }
  }

  lemma AppendCall(listener: int, t: Trace, call: Call)
    ensures (t + [call])[..|t + [call]| - 1] == t && (t + [call])[|t + [call]| - 1] == call
    ensures Open(listener, t + [call]) == OpenAfter(Open(listener, t), call)
    ensures Ready(t + [call]) == ReadyAfter(Ready(t), call)
    ensures LastRecv(t + [call]) == if call.Recv? then |t| else LastRecv(t)
  {
    assert (t + [call])[..|t|] == t;
  }

  // ---------------------------------------------------------------------- sessions

  /** A session is named by the position of the `accept` that opened it, since
      descriptors are reused. It lives until its descriptor is next closed. */
  ghost predicate Alive(t: Trace, a: nat) {
    && a < |t|
    && t[a].Accept? && t[a].fd >= 0
    && forall j :: a < j < |t| ==> t[j] != Close(t[a].fd)
  }

  /** The chunks that reached session `a`, each named by the position of the `recv` it came from. */
  ghost function Inbox(t: Trace, a: nat): seq<int> {
    if |t| <= a + 1 then []
    else
      var before, last := t[..|t| - 1], t[|t| - 1];
      if Alive(before, a) && last.Send? && last.fd == t[a].fd && last.ok
      then Inbox(before, a) + [LastRecv(before)]
      else Inbox(before, a)
  }

  /** The log of chunks received from others while session `a` lived. */
  ghost function OthersLog(t: Trace, a: nat): seq<int> {
    if |t| <= a + 1 then []
    else
      var before, last := t[..|t| - 1], t[|t| - 1];
      if Alive(before, a) && last.Recv? && last.result.Data? && last.fd != t[a].fd
      then OthersLog(before, a) + [|t| - 1]
      else OthersLog(before, a)
  }

  ghost predicate Increasing(s: seq<int>) {
    forall i, j :: 0 <= i < j < |s| ==> s[i] < s[j]
  }

  lemma AliveBefore(t: Trace, a: nat, k: nat)
    requires Alive(t, a) && a < k <= |t|
    ensures Alive(t[..k], a)
  {
    assert t[..k][a] == t[a];
    assert forall j :: a < j < k ==> t[..k][j] == t[j];
  }

  lemma IncreasingAppend(s: seq<int>, x: int)
    requires Increasing(s) && forall k :: k in s ==> k < x
    ensures Increasing(s + [x])
  {
    forall i | 0 <= i < |s| ensures s[i] < x {
      assert s[i] in s;
    }
  }

  /** Position `k` received a chunk from somebody else while session `a` lived. */
  ghost predicate OthersChunk(t: Trace, a: nat, k: int) {
    && a < k < |t|
    && t[k].Recv? && t[k].result.Data?
    && t[a].Accept? && t[k].fd != t[a].fd
    && Alive(t[..k], a)
  }

  lemma OthersChunkBefore(t: Trace, a: nat, k: int)
    requires t != [] && k < |t| - 1
    ensures OthersChunk(t[..|t| - 1], a, k) <==> OthersChunk(t, a, k)
  {
    if a < k {
      assert t[..|t| - 1][..k] == t[..k];
    }
  }

  lemma {:induction false} OthersLogIncreasing(t: Trace, a: nat)
    ensures Increasing(OthersLog(t, a)) && forall k :: k in OthersLog(t, a) ==> k < |t|
  {
    if |t| > a + 1 {
      OthersLogIncreasing(t[..|t| - 1], a);
      IncreasingAppend(OthersLog(t[..|t| - 1], a), |t| - 1);
    }
  }

  lemma {:induction false} OthersLogComplete(t: Trace, a: nat, k: int)
    ensures k in OthersLog(t, a) <==> OthersChunk(t, a, k)
  {
    if |t| > a + 1 {
      OthersLogComplete(t[..|t| - 1], a, k);
      if k < |t| - 1 {
        OthersChunkBefore(t, a, k);
      }
      OthersLogIncreasing(t[..|t| - 1], a);
    }
  }

  lemma SoundBefore(listener: int, t: Trace)
    requires Sound(listener, t) && t != []
    ensures Sound(listener, t[..|t| - 1]) && CallOk(listener, t[..|t| - 1], t[|t| - 1])
  {
    var before := t[..|t| - 1];
    forall k | 0 <= k < |before| ensures CallOk(listener, before[..k], before[k]) {
      assert before[..k] == t[..k];
    }
  }

  /** Session `a` has been sent something since the latest `recv`. */
  ghost predicate ServedSinceRecv(t: Trace, a: nat) {
    a < |t| && t[a].Accept? && exists j :: LastRecv(t) < j < |t| && t[j].Send? && t[j].fd == t[a].fd
  }

  lemma {:induction false} InboxProgress(listener: int, t: Trace, a: nat)
    requires Sound(listener, t)
    ensures Increasing(Inbox(t, a))
    ensures forall k :: k in Inbox(t, a) ==> k <= LastRecv(t) && OthersChunk(t, a, k)
    ensures LastRecv(t) in Inbox(t, a) ==> ServedSinceRecv(t, a)
  {
    if |t| > a + 1 {
      var before, last := t[..|t| - 1], t[|t| - 1];
      SoundBefore(listener, t);
      InboxProgress(listener, before, a);
      forall k | k in Inbox(before, a) ensures OthersChunk(t, a, k) {
        OthersChunkBefore(t, a, k);
      }
      if Alive(before, a) && last.Send? && last.fd == t[a].fd && last.ok {
        NewestChunk(listener, before, a, last);
        OthersChunkBefore(t, a, LastRecv(before));
        IncreasingAppend(Inbox(before, a), LastRecv(before));
        assert t[|t| - 1].Send?;
      } else if LastRecv(t) in Inbox(before, a) {
        var j :| LastRecv(before) < j < |before| && before[j].Send? && before[j].fd == before[a].fd;
        assert t[j] == before[j];
      }
    }
  }

  /** A send to a live session carries a chunk newer than all it was sent before. */
  lemma NewestChunk(listener: int, t: Trace, a: nat, call: Call)
    requires CallOk(listener, t, call) && Alive(t, a)
    requires call.Send? && call.fd == t[a].fd
    requires forall k :: k in Inbox(t, a) ==> k <= LastRecv(t)
    requires LastRecv(t) in Inbox(t, a) ==> ServedSinceRecv(t, a)
    ensures OthersChunk(t, a, LastRecv(t))
    ensures forall k :: k in Inbox(t, a) ==> k < LastRecv(t)
  {
    var k := LastRecv(t);
    assert RepeatsLatestChunk(t, call.fd, call.bytes);
    assert t[a].Accept?;
    AliveBefore(t, a, k);
  }

  /** On every sound trace a session is sent, in order and without repetition, chunks
      of the log of what others said during its lifetime. */
  lemma InboxWithinLog(listener: int, t: Trace, a: nat)
    requires Sound(listener, t)
    ensures Increasing(Inbox(t, a)) && Increasing(OthersLog(t, a))
    ensures forall k :: k in Inbox(t, a) ==> k in OthersLog(t, a)
  {
    InboxProgress(listener, t, a);
    OthersLogIncreasing(t, a);
    forall k | k in Inbox(t, a) ensures k in OthersLog(t, a) {
      OthersLogComplete(t, a, k);
    }
  }

  /** A live session's descriptor is open. */
  lemma {:induction false} AliveIsOpen(listener: int, t: Trace, a: nat)
    requires Alive(t, a)
    ensures t[a].fd in Open(listener, t)
  {
    if |t| > a + 1 {
      AliveBefore(t, a, |t| - 1);
      AliveIsOpen(listener, t[..|t| - 1], a);
      assert t[|t| - 1] != Close(t[a].fd);
    }
  }

  /** The bytes that were handed to `send` for each entry of the inbox. */
  ghost function InboxBytes(t: Trace, a: nat): seq<seq<byte>> {
    if |t| <= a + 1 then []
    else
      var before, last := t[..|t| - 1], t[|t| - 1];
      if Alive(before, a) && last.Send? && last.fd == t[a].fd && last.ok
      then InboxBytes(before, a) + [last.bytes]
      else InboxBytes(before, a)
  }

  /** What a session is sent is byte for byte what the named `recv` returned. */
  lemma {:induction false} InboxRepeatsChunks(listener: int, t: Trace, a: nat)
    requires Sound(listener, t)
    ensures |InboxBytes(t, a)| == |Inbox(t, a)|
    ensures forall i :: 0 <= i < |Inbox(t, a)| ==> ChunkAt(t, Inbox(t, a)[i], InboxBytes(t, a)[i])
  {
    if |t| > a + 1 {
      SoundBefore(listener, t);
      var before, last := t[..|t| - 1], t[|t| - 1];
      InboxRepeatsChunks(listener, before, a);
      forall k, bytes | ChunkAt(before, k, bytes) ensures ChunkAt(t, k, bytes) {
      }
      if Alive(before, a) && last.Send? {
        assert RepeatsLatestChunk(before, last.fd, last.bytes);
        assert ChunkAt(before, LastRecv(before), last.bytes);
      }
    }
  }

  ghost predicate ChunkAt(t: Trace, k: int, bytes: seq<byte>) {
    0 <= k < |t| && t[k].Recv? && t[k].result == Data(bytes)
  }

  // -------------------------------------------------------------------- counting calls

  datatype CallKind = Accepting | Receiving | Closing

  predicate IsKind(call: Call, kind: CallKind) {
    match kind
    case Accepting => call.Accept?
    case Receiving => call.Recv?
    case Closing => call.Close?
  }

  function Calls(t: Trace, kind: CallKind): nat {
    if t == [] then 0 else Calls(t[..|t| - 1], kind) + if IsKind(t[|t| - 1], kind) then 1 else 0
  }

  lemma CallsAppend(t: Trace, call: Call, kind: CallKind)
    ensures Calls(t + [call], kind) == Calls(t, kind) + if IsKind(call, kind) then 1 else 0
  {
    assert (t + [call])[..|t|] == t;
  }

  ghost predicate OnlySends(calls: Trace) {
    forall i :: 0 <= i < |calls| ==> calls[i].Send?
  }

  lemma {:induction false} SendsNotCounted(t: Trace, calls: Trace, kind: CallKind)
    requires OnlySends(calls)
    ensures Calls(t + calls, kind) == Calls(t, kind)
    decreases |calls|
  {
    if calls == [] {
      assert t + calls == t;
    } else {
      assert (t + calls)[..|t + calls| - 1] == t + calls[..|calls| - 1];
      SendsNotCounted(t, calls[..|calls| - 1], kind);
    }
  }

  // ------------------------------------------------------------------ conservation

  function Accepts(t: Trace, fd: int): nat {
    if t == [] then 0
    else Accepts(t[..|t| - 1], fd) + if t[|t| - 1].Accept? && t[|t| - 1].fd == fd then 1 else 0
  }

  function Closes(t: Trace, fd: int): nat {
    if t == [] then 0
    else Closes(t[..|t| - 1], fd) + if t[|t| - 1] == Close(fd) then 1 else 0
  }

  /** Accepts and closes of each descriptor alternate: it has been accepted once more
      than closed while it is open, and equally often otherwise. */
  lemma {:induction false} AcceptsMatchCloses(listener: int, t: Trace, fd: int)
    requires Sound(listener, t) && fd >= 0 && fd != listener
    ensures Accepts(t, fd) == Closes(t, fd) + if fd in Open(listener, t) then 1 else 0
  {
    if t != [] {
      SoundBefore(listener, t);
      AcceptsMatchCloses(listener, t[..|t| - 1], fd);
    }
  }

  /** The listener is never closed. */
  lemma {:induction false} ListenerStaysOpen(listener: int, t: Trace)
    requires Sound(listener, t)
    ensures listener in Open(listener, t) && Closes(t, listener) == 0
  {
    if t != [] {
      SoundBefore(listener, t);
      ListenerStaysOpen(listener, t[..|t| - 1]);
    }
  }
}
