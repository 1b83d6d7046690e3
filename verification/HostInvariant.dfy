/** What every reachable state of the event loop keeps. */
module HostInvariant {
  import opened Integers
  import opened Pools
  import opened Kernel
  import opened HostModel

  /** The tables agree, the listener sits in slot 0, clients are polled for input, every
      descriptor is held once and the held ones are exactly the open ones. A hole below
      some client has no stale readiness, and a client that this round has passed still
      lies inside the prefix. Every call made was proper. */
  ghost predicate Inv(s: Host) {
    && s.pool.Consistent() && s.pool.n <= s.pool.max
    && s.listener >= 0 && s.pool.max > 0
    && s.pool.pfds[0].fd == s.listener
    && (forall c :: 0 <= c < s.pool.max && s.pool.clients[c].isConnected ==> s.pool.pfds[c].events == POLLIN)
    && s.pool.Distinct()
    && (forall f :: f >= 0 ==> (f in Open(s.listener, s.trace) <==> s.pool.Holds(f)))
    && HolesQuiet(s.pool)
    && (forall c :: 0 <= c < s.pool.max && c < s.slot && s.pool.clients[c].isConnected ==> c < s.pool.n)
    && Sound(s.listener, s.trace)
  }

  ghost predicate HolesQuiet(p: Pool)
    requires p.Shape()
  {
    forall c, d :: 0 <= c < d < p.max && !p.clients[c].isConnected && p.clients[d].isConnected ==>
      p.pfds[c].revents == 0
  }

  lemma StartInv(max: nat, listener: int, revents: seq<int>)
    requires |revents| == max > 0 && listener >= 0
    ensures Inv(Start(max, listener, revents)) && Start(max, listener, revents).pool.n == 1
  {
    InitConsistent(max, revents);
    AddConsistent(Init(max, revents), listener, POLLIN);
    assert FreeSlot(Init(max, revents).clients) == 0;
    var s := Start(max, listener, revents);
    assert s.pool.pfds[0].fd == listener;
    assert s.pool.Holds(listener);
  }

  lemma SlotFacts(s: Host, c: nat)
    requires Inv(s) && c < s.pool.max
    ensures s.pool.SlotOk(c)
    ensures s.pool.clients[c].isConnected ==> s.pool.pfds[c].fd in Open(s.listener, s.trace)
    ensures s.pool.n >= 1 && s.pool.clients[0].isConnected
  {
    assert s.pool.SlotOk(c) && s.pool.SlotOk(0);
    assert s.pool.Holds(s.pool.pfds[c].fd);
    CountBounds(s.pool.clients);
  }

  /** A slot the loop finds reported is never a hole. */
  lemma ReportedSlotIsConnected(s: Host, c: nat)
    requires Inv(s) && c < s.pool.n && s.pool.pfds[c].revents != 0
    ensures s.pool.clients[c].isConnected && s.pool.pfds[c].fd >= 0
  {
    assert s.pool.SlotOk(c);
    if !s.pool.clients[c].isConnected {
      var d := HoleHasConnectedAbove(s.pool, c);
    }
  }

  lemma ListenerOnlyInSlotZero(s: Host, c: nat)
    requires Inv(s) && c < s.pool.max
    ensures s.pool.pfds[c].fd == s.listener <==> c == 0
  {
  }

  // -------------------------------------------------------------------------- poll

  lemma SameFdsSameHeld(p: Pool, q: Pool, f: int)
    requires p.Shape() && q.Shape() && p.max == q.max
    requires forall c :: 0 <= c < p.max ==> p.pfds[c].fd == q.pfds[c].fd
    ensures p.Holds(f) <==> q.Holds(f)
  {
    if p.Holds(f) {
      var c :| 0 <= c < p.max && p.pfds[c].fd == f;
      assert q.pfds[c].fd == f;
    }
    if q.Holds(f) {
      var c :| 0 <= c < q.max && q.pfds[c].fd == f;
      assert p.pfds[c].fd == f;
    }
  }

  lemma PollKeepsInv(s: Host, revents: seq<int>)
    requires Inv(s) && Enabled(s, PollStep(revents))
    ensures Inv(Next(s, PollStep(revents)))
  {
    var t := Next(s, PollStep(revents));
    forall c | 0 <= c < s.pool.max
      ensures t.pool.pfds[c].fd == s.pool.pfds[c].fd && t.pool.SlotOk(c)
      ensures c >= s.pool.n ==> t.pool.pfds[c] == s.pool.pfds[c]
      ensures c < s.pool.n ==> t.pool.pfds[c].revents == revents[c]
    {
      assert s.pool.SlotOk(c);
    }
    forall f | f >= 0 ensures s.pool.Holds(f) <==> t.pool.Holds(f) {
      SameFdsSameHeld(s.pool, t.pool, f);
    }
    var call := Poll(Polled(s.pool), Reported(s.pool, revents));
    assert CallOk(s.listener, s.trace, call) by {
      forall f | f in Polled(s.pool) ensures f in Open(s.listener, s.trace) {
        assert s.pool.Holds(f);
      }
    }
    SoundAppend(s.listener, s.trace, call);
    AppendCall(s.listener, s.trace, call);
  }

  // ------------------------------------------------------------------------ accept

  lemma HoldsAfterAdd(p: Pool, fd: int, f: int)
    requires p.Consistent() && p.n < p.max && fd >= 0 && f >= 0
    ensures Add(p, fd, POLLIN).0.Holds(f) <==> p.Holds(f) || f == fd
  {
    FreeSlotExists(p);
    var c := FreeSlot(p.clients);
    var q := Add(p, fd, POLLIN).0;
    assert p.SlotOk(c);
    assert q.pfds[c].fd == fd;
    if p.Holds(f) {
      var d :| 0 <= d < p.max && p.pfds[d].fd == f;
      assert q.pfds[d].fd == f;
    }
  }

  /** A fresh descriptor takes a slot as it is opened. */
  lemma AddedSlotInv(s: Host, fd: int, t: Host)
    requires Inv(s) && s.slot == 0 && s.pool.n < s.pool.max
    requires fd >= 0 && fd !in Open(s.listener, s.trace)
    requires t.pool == Add(s.pool, fd, POLLIN).0 && t.listener == s.listener && t.slot == 1
    requires Open(t.listener, t.trace) == Open(s.listener, s.trace) + {fd}
    requires Sound(t.listener, t.trace)
    ensures Inv(t)
  {
    AddConsistent(s.pool, fd, POLLIN);
    SlotFacts(s, 0);
    FreeSlotExists(s.pool);
    assert !s.pool.Holds(fd);
    assert forall c :: 0 <= c < s.pool.max ==> s.pool.pfds[c].fd != fd;
    forall f | f >= 0 ensures t.pool.Holds(f) <==> f in Open(t.listener, t.trace) {
      HoldsAfterAdd(s.pool, fd, f);
    }
  }

  lemma AcceptTrace(s: Host, fd: int)
    requires Inv(s) && (fd == -1 || (fd >= 0 && fd !in Open(s.listener, s.trace)))
    ensures var t := s.trace + [Accept(s.listener, fd)];
            && Sound(s.listener, t)
            && Open(s.listener, t) == Open(s.listener, s.trace) + (if fd >= 0 then {fd} else {})
    ensures var t := s.trace + [Accept(s.listener, fd)] + [Close(fd)];
            fd >= 0 ==> Sound(s.listener, t) && Open(s.listener, t) == Open(s.listener, s.trace)
  {
    var accept := Accept(s.listener, fd);
    SoundAppend(s.listener, s.trace, accept);
    AppendCall(s.listener, s.trace, accept);
    if fd >= 0 {
      ListenerStaysOpen(s.listener, s.trace);
      SoundAppend(s.listener, s.trace + [accept], Close(fd));
      AppendCall(s.listener, s.trace + [accept], Close(fd));
    }
  }

  lemma AcceptKeepsInv(s: Host, a: Answers)
    requires Inv(s) && Enabled(s, VisitStep(a))
    requires s.pool.pfds[s.slot].revents != 0 && s.pool.pfds[s.slot].fd == s.listener
    ensures Inv(Next(s, VisitStep(a)))
  {
    AcceptTrace(s, a.accepted);
    ListenerOnlyInSlotZero(s, s.slot);
    if a.accepted >= 0 && s.pool.n < s.pool.max {
      FreeSlotExists(s.pool);
      AddedSlotInv(s, a.accepted, Next(s, VisitStep(a)));
    }
  }

  // ----------------------------------------------------------------------- hang-up

  /** With distinct descriptors, `disconnect_client`, which searches by descriptor,
      clears slot `c` and no other. */
  lemma DisconnectClearsOwnSlot(s: Host, c: nat)
    requires Inv(s) && c < s.pool.max && s.pool.clients[c].isConnected
    ensures s.pool.n > 0
    ensures Disconnect(s, c).pool == s.pool.(
              n := s.pool.n - 1,
              pfds := s.pool.pfds[c := PollFd(-1, 0, 0)],
              clients := s.pool.clients[c := Client(false, None, c)])
  {
    assert s.pool.SlotOk(c);
    CountBounds(s.pool.clients);
    assert SlotOf(s.pool.pfds, s.pool.pfds[c].fd) == c;
  }

  /** Closing slot `k`'s socket and clearing the slot go together. */
  lemma ClearedSlotInv(s: Host, k: nat, t: Host)
    requires Inv(s) && k < s.pool.n && s.pool.clients[k].isConnected && s.slot == k
    requires t.pool == Disconnect(s, k).pool && t.listener == s.listener && t.slot == k + 1
    requires Open(t.listener, t.trace) == Open(s.listener, s.trace) - {s.pool.pfds[k].fd}
    requires Sound(t.listener, t.trace)
    requires s.pool.pfds[k].fd != s.listener
    ensures Inv(t)
  {
    var fd := s.pool.pfds[k].fd;
    SlotFacts(s, k);
    DisconnectClearsOwnSlot(s, k);
    RemoveConsistent(s.pool, fd);
    forall f | f >= 0 ensures t.pool.Holds(f) <==> s.pool.Holds(f) && f != fd {
      if s.pool.Holds(f) && f != fd {
        var d :| 0 <= d < s.pool.max && s.pool.pfds[d].fd == f;
        assert t.pool.pfds[d].fd == f;
      }
      if t.pool.Holds(f) {
        var d :| 0 <= d < t.pool.max && t.pool.pfds[d].fd == f;
        assert s.pool.pfds[d].fd == f && d != k;
      }
    }
  }

  lemma HangUpTrace(s: Host, fd: int, received: Received)
    requires Sound(s.listener, s.trace)
    requires fd >= 0 && fd in Open(s.listener, s.trace) && fd != s.listener
    ensures var t := s.trace + [Recv(fd, received)] + [Close(fd)];
            Sound(s.listener, t) && Open(s.listener, t) == Open(s.listener, s.trace) - {fd}
  {
    var recv := Recv(fd, received);
    SoundAppend(s.listener, s.trace, recv);
    AppendCall(s.listener, s.trace, recv);
    SoundAppend(s.listener, s.trace + [recv], Close(fd));
    AppendCall(s.listener, s.trace + [recv], Close(fd));
  }

  lemma HangUpKeepsInv(s: Host, a: Answers)
    requires Inv(s) && Enabled(s, VisitStep(a)) && !a.received.Data?
    requires s.pool.pfds[s.slot].revents != 0 && s.pool.pfds[s.slot].fd != s.listener
    ensures Inv(Next(s, VisitStep(a)))
  {
    var k := s.slot;
    ReportedSlotIsConnected(s, k);
    SlotFacts(s, k);
    HangUpTrace(s, s.pool.pfds[k].fd, a.received);
    ClearedSlotInv(s, k, Next(s, VisitStep(a)));
  }

  // --------------------------------------------------------------------- broadcast

  ghost predicate StoredIn(pfds: seq<PollFd>, fd: int) {
    exists c :: 0 <= c < |pfds| && pfds[c].fd == fd
  }

  /** A broadcast only sends, and only to slots of the walked prefix other than the
      sender's and the listener's. */
  lemma {:induction false} BroadcastSends(pfds: seq<PollFd>, sender: int, listener: int, bytes: seq<byte>, refused: set<nat>)
    ensures OnlySends(Broadcast(pfds, sender, listener, bytes, refused))
    ensures forall call :: call in Broadcast(pfds, sender, listener, bytes, refused) ==>
              call.Send? && call.fd != sender && call.fd != listener && StoredIn(pfds, call.fd)
  {
    if pfds != [] {
      var last := |pfds| - 1;
      BroadcastSends(pfds[..last], sender, listener, bytes, refused);
      forall fd | StoredIn(pfds[..last], fd) ensures StoredIn(pfds, fd) {
        var c :| 0 <= c < last && pfds[..last][c].fd == fd;
        assert pfds[c].fd == fd;
      }
      assert StoredIn(pfds, pfds[last].fd);
    }
  }

  /** Sends change neither what is open nor which chunk is the latest. */
  lemma {:induction false} SendsChangeNothing(listener: int, t: Trace, calls: Trace)
    requires OnlySends(calls)
    ensures Open(listener, t + calls) == Open(listener, t)
    ensures Ready(t + calls) == Ready(t)
    ensures LastRecv(t + calls) == LastRecv(t)
    decreases |calls|
  {
    if calls == [] {
      assert t + calls == t;
    } else {
      var last := |calls| - 1;
      assert t + calls == (t + calls[..last]) + [calls[last]];
      SendsChangeNothing(listener, t, calls[..last]);
      AppendCall(listener, t + calls[..last], calls[last]);
    }
  }

  lemma BroadcastSnoc(pfds: seq<PollFd>, k: nat, sender: int, listener: int, bytes: seq<byte>, refused: set<nat>)
    requires k < |pfds|
    ensures Broadcast(pfds[..k + 1], sender, listener, bytes, refused)
         == Broadcast(pfds[..k], sender, listener, bytes, refused) +
            Attempt(k, pfds[k].fd, sender, listener, bytes, refused)
  {
    assert pfds[..k + 1][..k] == pfds[..k];
  }

  /** The send to slot `k` is proper after the sends to the slots before it. */
  lemma NextSendOk(s: Host, before: Trace, k: nat, bytes: seq<byte>, refused: set<nat>)
    requires s.pool.Consistent() && s.pool.Distinct() && k < s.pool.max
    requires before != [] && before[|before| - 1].Recv? && before[|before| - 1].result == Data(bytes)
    requires s.pool.pfds[k].fd >= 0 ==> s.pool.pfds[k].fd in Open(s.listener, before)
    requires s.pool.pfds[k].fd != s.listener && s.pool.pfds[k].fd != before[|before| - 1].fd
    ensures var dest := s.pool.pfds[k].fd;
            var earlier := Broadcast(s.pool.pfds[..k], before[|before| - 1].fd, s.listener, bytes, refused);
            CallOk(s.listener, before + earlier, Send(dest, bytes, dest >= 0 && k !in refused))
  {
    var dest := s.pool.pfds[k].fd;
    var sender := before[|before| - 1].fd;
    var earlier := Broadcast(s.pool.pfds[..k], sender, s.listener, bytes, refused);
    BroadcastSends(s.pool.pfds[..k], sender, s.listener, bytes, refused);
    SendsChangeNothing(s.listener, before, earlier);
    assert s.pool.SlotOk(k);
    forall j | |before| <= j < |before + earlier|
      ensures (before + earlier)[j].Send? && ((before + earlier)[j].fd == dest ==> dest == -1)
    {
      assert earlier[j - |before|] in earlier;
      var d :| 0 <= d < k && s.pool.pfds[..k][d].fd == earlier[j - |before|].fd;
    }
  }

  lemma {:induction false} BroadcastSound(s: Host, before: Trace, k: nat, bytes: seq<byte>, refused: set<nat>)
    requires s.pool.Consistent() && s.pool.Distinct() && k <= s.pool.max
    requires Sound(s.listener, before) && before != []
    requires before[|before| - 1].Recv? && before[|before| - 1].result == Data(bytes)
    requires forall c :: 0 <= c < s.pool.max && s.pool.pfds[c].fd >= 0 ==>
               s.pool.pfds[c].fd in Open(s.listener, before)
    ensures Sound(s.listener, before + Broadcast(s.pool.pfds[..k], before[|before| - 1].fd, s.listener, bytes, refused))
  {
    var sender := before[|before| - 1].fd;
    if k == 0 {
      assert s.pool.pfds[..k] == [];
      assert before + [] == before;
    } else {
      var c, dest := k - 1, s.pool.pfds[k - 1].fd;
      var earlier := Broadcast(s.pool.pfds[..c], sender, s.listener, bytes, refused);
      var attempt := Attempt(c, dest, sender, s.listener, bytes, refused);
      BroadcastSnoc(s.pool.pfds, c, sender, s.listener, bytes, refused);
      BroadcastSound(s, before, c, bytes, refused);
      assert before + (earlier + attempt) == (before + earlier) + attempt;
      if dest != s.listener && dest != sender {
        NextSendOk(s, before, c, bytes, refused);
        SoundAppend(s.listener, before + earlier, attempt[0]);
      } else {
        assert (before + earlier) + attempt == before + earlier;
      }
    }
  }

  lemma ChunkKeepsInv(s: Host, a: Answers)
    requires Inv(s) && Enabled(s, VisitStep(a)) && a.received.Data?
    requires s.pool.pfds[s.slot].revents != 0 && s.pool.pfds[s.slot].fd != s.listener
    ensures Inv(Next(s, VisitStep(a)))
  {
    var fd := s.pool.pfds[s.slot].fd;
    var recv := Recv(fd, a.received);
    var n := s.pool.n;
    var calls := Broadcast(s.pool.pfds[..n], fd, s.listener, a.received.bytes, a.refused);
    ReportedSlotIsConnected(s, s.slot);
    SlotFacts(s, s.slot);
    SoundAppend(s.listener, s.trace, recv);
    AppendCall(s.listener, s.trace, recv);
    forall c | 0 <= c < s.pool.max && s.pool.pfds[c].fd >= 0
      ensures s.pool.pfds[c].fd in Open(s.listener, s.trace + [recv])
    {
      SlotFacts(s, c);
    }
    BroadcastSound(s, s.trace + [recv], n, a.received.bytes, a.refused);
    BroadcastSends(s.pool.pfds[..n], fd, s.listener, a.received.bytes, a.refused);
    SendsChangeNothing(s.listener, s.trace + [recv], calls);
  }

  // ---------------------------------------------------------------------- all steps

  lemma StepKeepsInv(s: Host, step: Step)
    requires Inv(s) && Enabled(s, step)
    ensures Inv(Next(s, step))
    ensures Next(s, step).listener == s.listener && Next(s, step).pool.max == s.pool.max
  {
    match step {
      case PollStep(revents) => PollKeepsInv(s, revents);
      case VisitStep(a) =>
        if s.pool.pfds[s.slot].revents != 0 {
          if s.pool.pfds[s.slot].fd == s.listener {
            AcceptKeepsInv(s, a);
          } else if a.received.Data? {
            ChunkKeepsInv(s, a);
          } else {
            HangUpKeepsInv(s, a);
          }
        }
    }
  }

  lemma {:induction false} RunKeepsInv(s: Host, steps: seq<Step>)
    requires Inv(s) && Run(s, steps)
    ensures Inv(After(s, steps))
    ensures After(s, steps).listener == s.listener && After(s, steps).pool.max == s.pool.max
    decreases |steps|
  {
    if steps != [] {
      StepKeepsInv(s, steps[0]);
      RunKeepsInv(Next(s, steps[0]), steps[1..]);
    }
  }
}
