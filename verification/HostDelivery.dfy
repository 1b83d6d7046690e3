/** Who hears what: how far one broadcast reaches, and what each connection is sent
    over its whole life. */
module HostDelivery {
  import opened Integers
  import opened Pools
  import opened Kernel
  import opened HostModel
  import opened HostInvariant

  // ------------------------------------------------------------------ one broadcast

  function SendsTo(calls: Trace, fd: int): nat {
    if calls == [] then 0
    else SendsTo(calls[..|calls| - 1], fd) + if calls[|calls| - 1].Send? && calls[|calls| - 1].fd == fd then 1 else 0
  }

  function SlotsWith(pfds: seq<PollFd>, fd: int): nat {
    if pfds == [] then 0
    else SlotsWith(pfds[..|pfds| - 1], fd) + if pfds[|pfds| - 1].fd == fd then 1 else 0
  }

  /** A broadcast tries each descriptor as often as the walked prefix stores it. */
  lemma {:induction false} BroadcastCounts(pfds: seq<PollFd>, sender: int, listener: int, bytes: seq<byte>, refused: set<nat>, fd: int)
    requires fd != sender && fd != listener
    ensures SendsTo(Broadcast(pfds, sender, listener, bytes, refused), fd) == SlotsWith(pfds, fd)
  {
    if pfds != [] {
      var last := |pfds| - 1;
      var earlier := Broadcast(pfds[..last], sender, listener, bytes, refused);
      BroadcastCounts(pfds[..last], sender, listener, bytes, refused, fd);
      var calls := Broadcast(pfds, sender, listener, bytes, refused);
      if pfds[last].fd != sender && pfds[last].fd != listener {
        assert calls[..|calls| - 1] == earlier;
      } else {
        assert calls == earlier;
      }
    }
  }

  lemma {:induction false} DistinctSlotCount(p: Pool, k: nat, c: nat)
    requires p.Shape() && p.Distinct() && k <= p.max && c < p.max && p.pfds[c].fd >= 0
    ensures SlotsWith(p.pfds[..k], p.pfds[c].fd) == if c < k then 1 else 0
  {
    if k > 0 {
      assert p.pfds[..k][..k - 1] == p.pfds[..k - 1];
      DistinctSlotCount(p, k - 1, c);
    }
  }

  lemma {:induction false} HoleCount(p: Pool, k: nat)
    requires p.Consistent() && k <= p.max
    ensures SlotsWith(p.pfds[..k], -1) == k - CountConnected(p.clients[..k])
  {
    if k > 0 {
      assert p.pfds[..k][..k - 1] == p.pfds[..k - 1];
      assert p.clients[..k][..k - 1] == p.clients[..k - 1];
      assert p.SlotOk(k - 1);
      HoleCount(p, k - 1);
    }
  }

  /** The broadcast made when the visited slot yields a chunk. */
  function BroadcastOf(s: Host, a: Answers): Trace
    requires WellFormed(s) && s.slot < s.pool.n && a.received.Data?
  {
    Broadcast(s.pool.pfds[..s.pool.n], s.pool.pfds[s.slot].fd, s.listener, a.received.bytes, a.refused)
  }

  ghost predicate HearsChunk(s: Host, a: Answers) {
    && Inv(s) && Enabled(s, VisitStep(a)) && a.received.Data?
    && s.pool.pfds[s.slot].revents != 0 && s.pool.pfds[s.slot].fd != s.listener
  }

  /** Sends wasted on descriptor -1 are exactly as many as the connected clients missed. */
  lemma WastedSendsEqualMissedClients(s: Host, a: Answers)
    requires HearsChunk(s, a)
    ensures SendsTo(BroadcastOf(s, a), -1) == CountConnected(s.pool.clients[s.pool.n..])
  {
    ReportedSlotIsConnected(s, s.slot);
    BroadcastCounts(s.pool.pfds[..s.pool.n], s.pool.pfds[s.slot].fd, s.listener, a.received.bytes, a.refused, -1);
    HoleCount(s.pool, s.pool.n);
    StrandedEqualsHoles(s.pool);
  }

  /** A client other than the sender is sent the chunk once if its slot lies inside the
      counted prefix, and not at all otherwise. */
  lemma ReachedIffInsidePrefix(s: Host, a: Answers, c: nat)
    requires HearsChunk(s, a) && 1 <= c < s.pool.max && c != s.slot && s.pool.clients[c].isConnected
    ensures SendsTo(BroadcastOf(s, a), s.pool.pfds[c].fd) == if c < s.pool.n then 1 else 0
  {
    SlotFacts(s, c);
    ListenerOnlyInSlotZero(s, c);
    BroadcastCounts(s.pool.pfds[..s.pool.n], s.pool.pfds[s.slot].fd, s.listener, a.received.bytes, a.refused, s.pool.pfds[c].fd);
    DistinctSlotCount(s.pool, s.pool.n, c);
  }

  /** A broadcast reaches everybody but its sender and the listener if and only if the pool is compact. */
  lemma ReachesAllIffCompact(s: Host, a: Answers)
    requires HearsChunk(s, a)
    ensures (forall c :: 1 <= c < s.pool.max && c != s.slot && s.pool.clients[c].isConnected ==>
               SendsTo(BroadcastOf(s, a), s.pool.pfds[c].fd) == 1)
       <==> s.pool.Compact()
  {
    forall c: nat | 1 <= c < s.pool.max && c != s.slot && s.pool.clients[c].isConnected
      ensures SendsTo(BroadcastOf(s, a), s.pool.pfds[c].fd) == if c < s.pool.n then 1 else 0
    {
      ReachedIffInsidePrefix(s, a, c);
    }
    CompactIffPrefixFull(s.pool);
    SlotFacts(s, 0);
    if !s.pool.Compact() {
      CountBounds(s.pool.clients[s.pool.n..]);
      var i :| 0 <= i < |s.pool.clients[s.pool.n..]| && s.pool.clients[s.pool.n..][i].isConnected;
      var c := s.pool.n + i;
      assert s.pool.clients[c].isConnected;
      assert SendsTo(BroadcastOf(s, a), s.pool.pfds[c].fd) == 0;
    }
  }

  // ------------------------------------------------------------- sessions and chunks

  lemma AliveAppend(t: Trace, call: Call, a: nat)
    requires a < |t|
    ensures Alive(t + [call], a) <==> Alive(t, a) && call != Close(t[a].fd)
  {
    if Alive(t, a) && call != Close(t[a].fd) {
      assert forall j :: a < j < |t| ==> (t + [call])[j] == t[j];
    }
    if Alive(t + [call], a) {
      AliveBefore(t + [call], a, |t|);
      if a < |t| {
        assert (t + [call])[..|t|] == t;
        assert (t + [call])[|t|] == call;
      }
    }
  }

  /** What one more call adds to a session's inbox and to the log of the others' chunks. */
  lemma RecordCall(t: Trace, call: Call, a: nat)
    ensures Inbox(t + [call], a) == Inbox(t, a) +
              if Alive(t, a) && call.Send? && call.fd == t[a].fd && call.ok then [LastRecv(t)] else []
    ensures OthersLog(t + [call], a) == OthersLog(t, a) +
              if Alive(t, a) && call.Recv? && call.result.Data? && call.fd != t[a].fd then [|t|] else []
  {
    assert (t + [call])[..|t|] == t;
  }

  lemma {:induction false} RecordSends(t: Trace, calls: Trace, a: nat)
    requires OnlySends(calls)
    ensures OthersLog(t + calls, a) == OthersLog(t, a)
    ensures a < |t| ==> (Alive(t + calls, a) <==> Alive(t, a))
    ensures a < |t| && !Alive(t, a) ==> Inbox(t + calls, a) == Inbox(t, a)
    ensures |t| <= a ==> Inbox(t + calls, a) == []
    decreases |calls|
  {
    if calls == [] {
      assert t + calls == t;
    } else {
      var last := |calls| - 1;
      RecordSends(t, calls[..last], a);
      assert t + calls == (t + calls[..last]) + [calls[last]];
      RecordCall(t + calls[..last], calls[last], a);
      if a < |t| {
        AliveAppend(t + calls[..last], calls[last], a);
      }
      assert forall i :: |t| <= i < |t| + last ==> (t + calls[..last])[i] == calls[i - |t|];
    }
  }

  /** How many of the calls are successful sends to `fd`. */
  function Delivered(calls: Trace, fd: int): nat {
    if calls == [] then 0
    else
      var last := calls[|calls| - 1];
      Delivered(calls[..|calls| - 1], fd) + if last.Send? && last.fd == fd && last.ok then 1 else 0
  }

  lemma {:induction false} RecordDelivered(listener: int, t: Trace, calls: Trace, a: nat)
    requires OnlySends(calls) && Alive(t, a)
    ensures Delivered(calls, t[a].fd) == 0 ==> Inbox(t + calls, a) == Inbox(t, a)
    ensures Delivered(calls, t[a].fd) == 1 ==> Inbox(t + calls, a) == Inbox(t, a) + [LastRecv(t)]
    decreases |calls|
  {
    if calls == [] {
      assert t + calls == t;
    } else {
      var last := |calls| - 1;
      RecordDelivered(listener, t, calls[..last], a);
      RecordSends(t, calls[..last], a);
      SendsChangeNothing(listener, t, calls[..last]);
      assert t + calls == (t + calls[..last]) + [calls[last]];
      RecordCall(t + calls[..last], calls[last], a);
    }
  }

  lemma {:induction false} BroadcastDelivers(p: Pool, k: nat, c: nat, sender: int, listener: int,
                                             bytes: seq<byte>, refused: set<nat>)
    requires p.Shape() && p.Distinct() && k <= p.max && c < p.max && p.pfds[c].fd >= 0 && p.pfds[c].fd != listener
    ensures Delivered(Broadcast(p.pfds[..k], sender, listener, bytes, refused), p.pfds[c].fd)
         == if p.pfds[c].fd != sender && c < k && c !in refused then 1 else 0
  {
    if k > 0 {
      var d := k - 1;
      var earlier := Broadcast(p.pfds[..d], sender, listener, bytes, refused);
      var attempt := Attempt(d, p.pfds[d].fd, sender, listener, bytes, refused);
      BroadcastDelivers(p, d, c, sender, listener, bytes, refused);
      BroadcastSnoc(p.pfds, d, sender, listener, bytes, refused);
      assert p.pfds[d].fd == p.pfds[c].fd ==> c == d;
      if attempt == [] {
        assert earlier + attempt == earlier;
      } else {
        assert (earlier + attempt)[..|earlier|] == earlier;
      }
    }
  }

  /** The slot of a live session. */
  lemma SessionSlot(s: Host, a: nat) returns (c: nat)
    requires Inv(s) && Alive(s.trace, a)
    ensures 1 <= c < s.pool.max && s.pool.clients[c].isConnected && s.pool.pfds[c].fd == s.trace[a].fd
  {
    AliveIsOpen(s.listener, s.trace, a);
    assert s.pool.Holds(s.trace[a].fd);
    c :| 0 <= c < s.pool.max && s.pool.pfds[c].fd == s.trace[a].fd;
    assert s.pool.SlotOk(c);
    assert s.trace[a].fd != s.listener by {
      assert CallOk(s.listener, s.trace[..a], s.trace[a]);
      SoundPrefix(s.listener, s.trace, a);
      ListenerStaysOpen(s.listener, s.trace[..a]);
    }
  }

  lemma SoundPrefix(listener: int, t: Trace, k: nat)
    requires Sound(listener, t) && k <= |t|
    ensures Sound(listener, t[..k])
  {
    forall i | 0 <= i < k ensures CallOk(listener, t[..k][..i], t[..k][i]) {
      assert t[..k][..i] == t[..i];
    }
  }

  /** What one chunk adds for a live session, exactly: nothing for the sender; for
      anyone else the others' log grows, and the inbox grows with it if and only if the
      session's slot lies inside the counted prefix and its send is not refused. */
  lemma ChunkDelivery(s: Host, v: Answers, a: nat, c: nat)
    requires HearsChunk(s, v) && Alive(s.trace, a)
    requires 1 <= c < s.pool.max && s.pool.pfds[c].fd == s.trace[a].fd
    ensures var t := Next(s, VisitStep(v)).trace;
            && OthersLog(t, a) == OthersLog(s.trace, a) + (if c != s.slot then [|s.trace|] else [])
            && Inbox(t, a) == Inbox(s.trace, a) +
                 (if c != s.slot && c < s.pool.n && c !in v.refused then [|s.trace|] else [])
  {
    var sender := s.pool.pfds[s.slot].fd;
    var recv := Recv(sender, v.received);
    var heard := s.trace + [recv];
    ReportedSlotIsConnected(s, s.slot);
    ListenerOnlyInSlotZero(s, c);
    RecordCall(s.trace, recv, a);
    AliveAppend(s.trace, recv, a);
    AppendCall(s.listener, s.trace, recv);
    BroadcastSends(s.pool.pfds[..s.pool.n], sender, s.listener, v.received.bytes, v.refused);
    RecordSends(heard, BroadcastOf(s, v), a);
    BroadcastDelivers(s.pool, s.pool.n, c, sender, s.listener, v.received.bytes, v.refused);
    RecordDelivered(s.listener, heard, BroadcastOf(s, v), a);
    assert c != s.slot <==> s.pool.pfds[c].fd != sender;
  }

  /** A step that does not hear a chunk leaves every inbox and log as they were. */
  lemma NoChunkNoDelivery(s: Host, step: Step, a: nat)
    requires Inv(s) && Enabled(s, step)
    requires step.VisitStep? ==> !HearsChunk(s, step.answers)
    ensures Inbox(Next(s, step).trace, a) == Inbox(s.trace, a)
    ensures OthersLog(Next(s, step).trace, a) == OthersLog(s.trace, a)
  {
    match step {
      case PollStep(revents) =>
        RecordCall(s.trace, Poll(Polled(s.pool), Reported(s.pool, revents)), a);
      case VisitStep(v) =>
        var entry := s.pool.pfds[s.slot];
        if entry.revents != 0 {
          if entry.fd == s.listener {
            var call := Accept(s.listener, v.accepted);
            RecordCall(s.trace, call, a);
            RecordCall(s.trace + [call], Close(v.accepted), a);
          } else {
            var call := Recv(entry.fd, v.received);
            RecordCall(s.trace, call, a);
            RecordCall(s.trace + [call], Close(entry.fd), a);
          }
        }
    }
  }

  /** The step hears a chunk from somebody else while session `a` lives, and the session
      is not sent it: its slot lies past the counter, or the send is refused. */
  ghost predicate Misses(s: Host, step: Step, a: nat) {
    && step.VisitStep? && HearsChunk(s, step.answers) && Alive(s.trace, a)
    && s.pool.pfds[s.slot].fd != s.trace[a].fd
    && var c := SlotOf(s.pool.pfds, s.trace[a].fd);
       c >= s.pool.n || c in step.answers.refused
  }

  ghost function MissCount(s: Host, steps: seq<Step>, a: nat): nat
    requires Run(s, steps)
    decreases |steps|
  {
    if steps == [] then 0
    else (if Misses(s, steps[0], a) then 1 else 0) + MissCount(Next(s, steps[0]), steps[1..], a)
  }

  /** Session `a` has been sent all of the others' log but `n` chunks. */
  ghost predicate Behind(t: Trace, a: nat, n: int) {
    && |OthersLog(t, a)| == |Inbox(t, a)| + n
    && (n == 0 ==> Inbox(t, a) == OthersLog(t, a))
  }

  lemma DeadSessionStep(s: Host, v: Answers, a: nat)
    requires HearsChunk(s, v) && !Alive(s.trace, a)
    ensures var t := Next(s, VisitStep(v)).trace;
            Inbox(t, a) == Inbox(s.trace, a) && OthersLog(t, a) == OthersLog(s.trace, a)
  {
    var recv := Recv(s.pool.pfds[s.slot].fd, v.received);
    RecordCall(s.trace, recv, a);
    BroadcastSends(s.pool.pfds[..s.pool.n], recv.fd, s.listener, v.received.bytes, v.refused);
    RecordSends(s.trace + [recv], BroadcastOf(s, v), a);
    if a < |s.trace| {
      AliveAppend(s.trace, recv, a);
    }
  }

  lemma StepFallsBehind(s: Host, step: Step, a: nat, n: nat)
    requires Inv(s) && Enabled(s, step) && Behind(s.trace, a, n)
    ensures Behind(Next(s, step).trace, a, n + if Misses(s, step, a) then 1 else 0)
  {
    if step.VisitStep? && HearsChunk(s, step.answers) {
      if Alive(s.trace, a) {
        var c := SessionSlot(s, a);
        assert SlotOf(s.pool.pfds, s.trace[a].fd) == c;
        ChunkDelivery(s, step.answers, a, c);
      } else {
        DeadSessionStep(s, step.answers, a);
      }
    } else {
      NoChunkNoDelivery(s, step, a);
    }
  }

  lemma {:induction false} RunFallsBehind(s: Host, steps: seq<Step>, a: nat, n: nat)
    requires Inv(s) && Run(s, steps) && Behind(s.trace, a, n)
    ensures Behind(After(s, steps).trace, a, n + MissCount(s, steps, a))
    decreases |steps|
  {
    if steps != [] {
      StepFallsBehind(s, steps[0], a, n);
      StepKeepsInv(s, steps[0]);
      RunFallsBehind(Next(s, steps[0]), steps[1..], a, n + if Misses(s, steps[0], a) then 1 else 0);
    }
  }

  /** In every run each session is sent, in order and at most once each, chunks that
      others sent during its lifetime, byte for byte. */
  lemma SessionsHearOthersInOrder(max: nat, listener: int, revents: seq<int>, steps: seq<Step>, a: nat)
    requires |revents| == max > 0 && listener >= 0 && Run(Start(max, listener, revents), steps)
    ensures var t := After(Start(max, listener, revents), steps).trace;
            && Sound(listener, t)
            && Increasing(Inbox(t, a))
            && (forall k :: k in Inbox(t, a) ==> k in OthersLog(t, a) && OthersChunk(t, a, k))
            && |InboxBytes(t, a)| == |Inbox(t, a)|
            && (forall i :: 0 <= i < |Inbox(t, a)| ==> ChunkAt(t, Inbox(t, a)[i], InboxBytes(t, a)[i]))
  {
    StartInv(max, listener, revents);
    RunKeepsInv(Start(max, listener, revents), steps);
    var t := After(Start(max, listener, revents), steps).trace;
    InboxProgress(listener, t, a);
    InboxWithinLog(listener, t, a);
    InboxRepeatsChunks(listener, t, a);
  }

  /** In every run a session has been sent all that others sent during its lifetime but
      for one chunk each time its slot lay past the counter or its send was refused; so
      it has been sent everything if and only if that never happened. */
  lemma SessionHearsEverythingIff(max: nat, listener: int, revents: seq<int>, steps: seq<Step>, a: nat)
    requires |revents| == max > 0 && listener >= 0 && Run(Start(max, listener, revents), steps)
    ensures var t := After(Start(max, listener, revents), steps).trace;
            var misses := MissCount(Start(max, listener, revents), steps, a);
            && |OthersLog(t, a)| == |Inbox(t, a)| + misses
            && (Inbox(t, a) == OthersLog(t, a) <==> misses == 0)
  {
    StartInv(max, listener, revents);
    RunFallsBehind(Start(max, listener, revents), steps, a, 0);
  }

  /** While session `a` lives the pool is compact and no send to it is refused. */
  ghost predicate Undisturbed(s: Host, steps: seq<Step>, a: nat)
    requires Run(s, steps)
    decreases |steps|
  {
    steps == [] || (
      && (Alive(s.trace, a) ==>
            && s.pool.Compact()
            && (steps[0].VisitStep? ==> SlotOf(s.pool.pfds, s.trace[a].fd) !in steps[0].answers.refused))
      && Undisturbed(Next(s, steps[0]), steps[1..], a))
  }

  lemma {:induction false} UndisturbedMissesNothing(s: Host, steps: seq<Step>, a: nat)
    requires Inv(s) && Run(s, steps) && Undisturbed(s, steps, a)
    ensures MissCount(s, steps, a) == 0
    decreases |steps|
  {
    if steps != [] {
      StepKeepsInv(s, steps[0]);
      UndisturbedMissesNothing(Next(s, steps[0]), steps[1..], a);
      if Alive(s.trace, a) {
        var c := SessionSlot(s, a);
        assert SlotOf(s.pool.pfds, s.trace[a].fd) == c;
      }
    }
  }

  /** A session during whose life the pool stays compact and no send to it is refused
      is sent every chunk the others sent meanwhile, and nothing else. */
  lemma CompactSessionsHearEverything(max: nat, listener: int, revents: seq<int>, steps: seq<Step>, a: nat)
    requires |revents| == max > 0 && listener >= 0 && Run(Start(max, listener, revents), steps)
    requires Undisturbed(Start(max, listener, revents), steps, a)
    ensures var t := After(Start(max, listener, revents), steps).trace;
            && Inbox(t, a) == OthersLog(t, a)
            && (forall k :: k in Inbox(t, a) <==> OthersChunk(t, a, k))
  {
    StartInv(max, listener, revents);
    UndisturbedMissesNothing(Start(max, listener, revents), steps, a);
    SessionHearsEverythingIff(max, listener, revents, steps, a);
    var t := After(Start(max, listener, revents), steps).trace;
    forall k ensures k in OthersLog(t, a) <==> OthersChunk(t, a, k) {
      OthersLogComplete(t, a, k);
    }
  }
}
