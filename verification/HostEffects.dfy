/** What one step of the event loop does, said of the slots, the open sockets and the
    calls rather than through the functions that compute it; and which clients a round reads. */
module HostEffects {
  import opened Pools
  import opened Kernel
  import opened HostModel
  import opened HostInvariant
  import opened HostDelivery
  import opened HostRounds

  // -------------------------------------------------------------------------- poll

  /** After `poll` every counted slot shows what was reported for it, and nothing else
      about the pool has changed. The call polled the clients of the counted prefix and
      reported those with a nonzero report. */
  lemma PollEffect(s: Host, revents: seq<int>)
    requires Inv(s) && Enabled(s, PollStep(revents))
    ensures var t := Next(s, PollStep(revents));
            && t.slot == 0 && t.listener == s.listener
            && t.pool.max == s.pool.max && t.pool.n == s.pool.n && t.pool.clients == s.pool.clients
            && |t.pool.pfds| == |s.pool.pfds|
            && (forall c :: 0 <= c < s.pool.n ==>
                  t.pool.pfds[c] == PollFd(s.pool.pfds[c].fd, s.pool.pfds[c].events, revents[c]))
            && (forall c :: s.pool.n <= c < s.pool.max ==> t.pool.pfds[c] == s.pool.pfds[c])
    ensures var trace := Next(s, PollStep(revents)).trace;
            && |trace| == |s.trace| + 1 && trace[..|s.trace|] == s.trace && trace[|s.trace|].Poll?
            && (forall f :: f in trace[|s.trace|].polled <==>
                  exists c :: 0 <= c < s.pool.n && s.pool.pfds[c].fd == f && f >= 0)
            && (forall f :: f in trace[|s.trace|].reported <==>
                  exists c :: 0 <= c < s.pool.n && s.pool.pfds[c].fd == f && f >= 0 && revents[c] != 0)
  {
    assert Next(s, PollStep(revents)).pool == PollPool(s.pool, revents);
  }

  // ------------------------------------------------------------------------ accept

  /** Slot `c` was the lowest free one and now holds the newcomer `fd`; no other slot changed. */
  ghost predicate TookSlot(p: Pool, q: Pool, c: int, fd: int) {
    && p.Shape() && q.Shape() && p.max == q.max && 0 <= c < p.max
    && !p.clients[c].isConnected && (forall d :: 0 <= d < c ==> p.clients[d].isConnected)
    && q.clients[c] == p.clients[c].(isConnected := true)
    && q.pfds[c] == PollFd(fd, POLLIN, p.pfds[c].revents)
    && forall d :: 0 <= d < p.max && d != c ==> q.pfds[d] == p.pfds[d] && q.clients[d] == p.clients[d]
  }

  /** A newcomer is let in exactly when the pool has room, holes or not: it takes the lowest
      free slot. Otherwise its socket is closed and the pool stays as it was. */
  lemma AcceptEffect(s: Host, a: Answers)
    requires Inv(s) && Enabled(s, VisitStep(a))
    requires s.slot == 0 && s.pool.pfds[0].revents != 0 && a.accepted >= 0
    ensures var t := Next(s, VisitStep(a));
            && t.slot == 1
            && (a.accepted in Open(t.listener, t.trace) <==> s.pool.n < s.pool.max)
            && (s.pool.n < s.pool.max ==>
                  && t.trace == s.trace + [Accept(s.listener, a.accepted)]
                  && t.pool.n == s.pool.n + 1
                  && t.pool.Shape() && t.pool.Holds(a.accepted)
                  && exists c :: TookSlot(s.pool, t.pool, c, a.accepted))
            && (s.pool.n == s.pool.max ==>
                  && t.trace == s.trace + [Accept(s.listener, a.accepted), Close(a.accepted)]
                  && t.pool == s.pool)
  {
    var accept := Accept(s.listener, a.accepted);
    AppendCall(s.listener, s.trace, accept);
    AppendCall(s.listener, s.trace + [accept], Close(a.accepted));
    if s.pool.n < s.pool.max {
      FreeSlotExists(s.pool);
      var c := FreeSlot(s.pool.clients);
      var t := Next(s, VisitStep(a));
      assert t.pool.pfds[c].fd == a.accepted;
      assert TookSlot(s.pool, t.pool, c, a.accepted);
    } else {
      assert s.trace + [accept] + [Close(a.accepted)] == s.trace + [accept, Close(a.accepted)];
    }
  }

  /** A failed `accept` changes nothing but the trace. */
  lemma FailedAcceptEffect(s: Host, a: Answers)
    requires Inv(s) && Enabled(s, VisitStep(a))
    requires s.slot == 0 && s.pool.pfds[0].revents != 0 && a.accepted == -1
    ensures Next(s, VisitStep(a)) == s.(slot := 1, trace := s.trace + [Accept(s.listener, -1)])
  {
  }

  // -------------------------------------------------------------------------- read

  /** Slot `c` has been emptied and no other slot changed. */
  ghost predicate GaveUpSlot(p: Pool, q: Pool, c: int) {
    && p.Shape() && q.Shape() && p.max == q.max && 0 <= c < p.max
    && !q.clients[c].isConnected && q.clients[c].name == None
    && q.pfds[c] == PollFd(-1, 0, 0)
    && forall d :: 0 <= d < p.max && d != c ==> q.pfds[d] == p.pfds[d] && q.clients[d] == p.clients[d]
  }

  /** A reported client is read. It stays, and its socket stays open, exactly when bytes
      came; on a hang-up or a failure its socket is closed and its slot, and no other,
      emptied, wherever the slot lies. */
  lemma ReadEffect(s: Host, a: Answers)
    requires Inv(s) && Enabled(s, VisitStep(a))
    requires s.slot >= 1 && s.pool.pfds[s.slot].revents != 0
    ensures var t, fd := Next(s, VisitStep(a)), s.pool.pfds[s.slot].fd;
            && t.slot == s.slot + 1
            && (fd in Open(t.listener, t.trace) <==> a.received.Data?)
            && (a.received.Data? ==> t.pool == s.pool)
            && (!a.received.Data? ==>
                  && t.trace == s.trace + [Recv(fd, a.received), Close(fd)]
                  && t.pool.n == s.pool.n - 1
                  && GaveUpSlot(s.pool, t.pool, s.slot) && !t.pool.Holds(fd))
  {
    var t, fd := Next(s, VisitStep(a)), s.pool.pfds[s.slot].fd;
    ReportedSlotIsConnected(s, s.slot);
    ListenerOnlyInSlotZero(s, s.slot);
    SlotFacts(s, s.slot);
    StepKeepsInv(s, VisitStep(a));
    if a.received.Data? {
      assert t.pool.pfds[s.slot].fd == fd;
      assert t.pool.Holds(fd);
    } else {
      DisconnectClearsOwnSlot(s, s.slot);
      assert t.pool == Disconnect(s, s.slot).pool;
      assert forall d :: 0 <= d < s.pool.max ==> t.pool.pfds[d].fd != fd;
      assert s.trace + [Recv(fd, a.received)] + [Close(fd)] == s.trace + [Recv(fd, a.received), Close(fd)];
    }
  }

  /** A slot without readiness is passed over. */
  lemma QuietEffect(s: Host, a: Answers)
    requires Inv(s) && Enabled(s, VisitStep(a)) && s.pool.pfds[s.slot].revents == 0
    ensures Next(s, VisitStep(a)) == s.(slot := s.slot + 1)
  {
  }

  // --------------------------------------------------------------- whom a round reads

  ghost predicate Extends(before: Trace, after: Trace) {
    |before| <= |after| && after[..|before|] == before
  }

  /** Among the calls made since `before` is this one. */
  ghost predicate Since(before: Trace, after: Trace, call: Call) {
    exists j :: |before| <= j < |after| && after[j] == call
  }

  /** Nothing has been read from `fd` since `before`. */
  ghost predicate NotRead(before: Trace, after: Trace, fd: int) {
    forall j :: |before| <= j < |after| && after[j].Recv? ==> after[j].fd != fd
  }

  lemma SinceLonger(t: Trace, u: Trace, v: Trace, call: Call)
    requires Extends(t, u) && Extends(u, v)
    ensures Extends(t, v)
    ensures Since(t, u, call) || Since(u, v, call) ==> Since(t, v, call)
  {
    assert v[..|t|] == v[..|u|][..|t|];
    if Since(t, u, call) {
      var j :| |t| <= j < |u| && u[j] == call;
      assert v[..|u|][j] == v[j];
    }
  }

  lemma NotReadLonger(t: Trace, u: Trace, v: Trace, fd: int)
    requires Extends(t, u) && Extends(u, v) && NotRead(t, u, fd) && NotRead(u, v, fd)
    ensures Extends(t, v) && NotRead(t, v, fd)
  {
    assert v[..|t|] == v[..|u|][..|t|];
    assert forall j :: 0 <= j < |u| ==> v[..|u|][j] == v[j];
  }

  /** The one read among the calls of a visit: of `fd` if there is one, else none. */
  ghost predicate ReadsOnly(before: Trace, after: Trace, read: bool, fd: int, answer: Received) {
    && Extends(before, after)
    && (read ==> Since(before, after, Recv(fd, answer)))
    && (forall f :: !(read && f == fd) ==> NotRead(before, after, f))
  }

  lemma ChunkReads(s: Host, a: Answers)
    requires Inv(s) && Enabled(s, VisitStep(a)) && HearsChunk(s, a)
    ensures ReadsOnly(s.trace, Next(s, VisitStep(a)).trace, true, s.pool.pfds[s.slot].fd, a.received)
  {
    var t := Next(s, VisitStep(a)).trace;
    ChunkNext(s, a);
    var calls := BroadcastOf(s, a);
    BroadcastSends(s.pool.pfds[..s.pool.n], s.pool.pfds[s.slot].fd, s.listener, a.received.bytes, a.refused);
    assert t[|s.trace|] == Recv(s.pool.pfds[s.slot].fd, a.received);
    assert forall j :: |s.trace| < j < |t| ==> t[j] == calls[j - |s.trace| - 1];
  }

  /** A visit reads the visited client if it is reported, and nobody else. */
  lemma VisitReads(s: Host, a: Answers)
    requires Inv(s) && Enabled(s, VisitStep(a))
    ensures ReadsOnly(s.trace, Next(s, VisitStep(a)).trace, s.slot >= 1 && s.pool.pfds[s.slot].revents != 0,
                      s.pool.pfds[s.slot].fd, a.received)
  {
    var t := Next(s, VisitStep(a)).trace;
    ListenerOnlyInSlotZero(s, s.slot);
    if HearsChunk(s, a) {
      ChunkReads(s, a);
    } else if s.slot >= 1 && s.pool.pfds[s.slot].revents != 0 {
      assert t[|s.trace|] == Recv(s.pool.pfds[s.slot].fd, a.received);
    }
  }

  /** A visit leaves every other client's slot alone, and from slot 1 on every other slot. */
  lemma VisitLeavesOthers(s: Host, a: Answers, d: nat)
    requires Inv(s) && Enabled(s, VisitStep(a)) && d < s.pool.max && d != s.slot
    requires s.slot >= 1 || s.pool.clients[d].isConnected
    ensures var t := Next(s, VisitStep(a));
            t.pool.Shape() && t.pool.max == s.pool.max &&
            t.pool.pfds[d] == s.pool.pfds[d] && t.pool.clients[d] == s.pool.clients[d]
  {
    ListenerOnlyInSlotZero(s, s.slot);
    if s.pool.pfds[s.slot].revents == 0 {
      QuietEffect(s, a);
    } else if s.slot >= 1 {
      ReadEffect(s, a);
    } else if a.accepted >= 0 {
      AcceptEffect(s, a);
    }
  }

  /** A descriptor that no slot still to come holds is not read in the rest of the round. */
  lemma {:induction false} PassedNotRead(s: Host, visits: seq<Answers>, fd: int)
    requires Inv(s) && |visits| == s.pool.max && WalkAllowed(s, visits) && s.slot >= 1
    requires forall d :: s.slot <= d < s.pool.max ==> s.pool.pfds[d].fd != fd
    ensures Extends(s.trace, Walk(s, visits).trace) && NotRead(s.trace, Walk(s, visits).trace, fd)
    decreases s.pool.max - s.slot
  {
    if s.slot < s.pool.n {
      var a := visits[s.slot];
      var t := Next(s, VisitStep(a));
      StepKeepsInv(s, VisitStep(a));
      VisitReads(s, a);
      forall d: nat | t.slot <= d < t.pool.max ensures t.pool.pfds[d].fd != fd {
        VisitLeavesOthers(s, a, d);
      }
      PassedNotRead(t, visits, fd);
      NotReadLonger(s.trace, t.trace, Walk(s, visits).trace, fd);
    }
  }

  /** The rest of a round reads client `c`, with the answer the kernel has for it, exactly
      if the round gets to it and it shows readiness. */
  ghost predicate ReadIff(before: Trace, t: Host, c: nat, reported: bool, fd: int, answer: Received) {
    && Extends(before, t.trace)
    && (c < t.slot && reported ==> Since(before, t.trace, Recv(fd, answer)))
    && (!(c < t.slot && reported) ==> NotRead(before, t.trace, fd))
  }

  lemma VisitedNow(s: Host, visits: seq<Answers>)
    requires Inv(s) && |visits| == s.pool.max && WalkAllowed(s, visits)
    requires 1 <= s.slot < s.pool.n && s.pool.clients[s.slot].isConnected
    ensures ReadIff(s.trace, Walk(s, visits), s.slot, s.pool.pfds[s.slot].revents != 0,
                    s.pool.pfds[s.slot].fd, visits[s.slot].received)
  {
    var c, a := s.slot, visits[s.slot];
    var fd := s.pool.pfds[c].fd;
    var t := Next(s, VisitStep(a));
    StepKeepsInv(s, VisitStep(a));
    VisitReads(s, a);
    assert s.pool.SlotOk(c);
    forall d: nat | t.slot <= d < t.pool.max ensures t.pool.pfds[d].fd != fd {
      VisitLeavesOthers(s, a, d);
    }
    PassedNotRead(t, visits, fd);
    SinceLonger(s.trace, t.trace, Walk(t, visits).trace, Recv(fd, a.received));
    if s.pool.pfds[c].revents == 0 {
      NotReadLonger(s.trace, t.trace, Walk(t, visits).trace, fd);
    }
  }

  lemma {:induction false} WalkReads(s: Host, visits: seq<Answers>, c: nat)
    requires Inv(s) && |visits| == s.pool.max && WalkAllowed(s, visits)
    requires 1 <= c && s.slot <= c < s.pool.max && s.pool.clients[c].isConnected
    ensures ReadIff(s.trace, Walk(s, visits), c, s.pool.pfds[c].revents != 0, s.pool.pfds[c].fd, visits[c].received)
    decreases s.pool.max - s.slot
  {
    if s.slot < s.pool.n {
      if s.slot == c {
        VisitedNow(s, visits);
      } else {
        var a := visits[s.slot];
        var t := Next(s, VisitStep(a));
        StepKeepsInv(s, VisitStep(a));
        VisitReads(s, a);
        VisitLeavesOthers(s, a, c);
        assert s.pool.SlotOk(c);
        WalkReads(t, visits, c);
        SinceLonger(s.trace, t.trace, Walk(t, visits).trace, Recv(s.pool.pfds[c].fd, visits[c].received));
        if !(c < Walk(t, visits).slot && s.pool.pfds[c].revents != 0) {
          NotReadLonger(s.trace, t.trace, Walk(t, visits).trace, s.pool.pfds[c].fd);
        }
      }
    }
  }

  /** Of the clients that a round polls it reads exactly those that it gets to and that
      were reported, each with the answer the kernel has for it. */
  lemma RoundReads(s: Host, r: RoundAnswers, c: nat)
    requires Inv(s) && RoundAllowed(s, r)
    requires 1 <= c < s.pool.n && s.pool.clients[c].isConnected
    ensures ReadIff(s.trace, Round(s, r), c, r.revents[c] != 0, s.pool.pfds[c].fd, r.visits[c].received)
  {
    var poll := PollStep(r.revents);
    StepKeepsInv(s, poll);
    PollEffect(s, r.revents);
    var t := Next(s, poll);
    WalkReads(t, r.visits, c);
    var call := Recv(s.pool.pfds[c].fd, r.visits[c].received);
    SinceLonger(s.trace, t.trace, Round(s, r).trace, call);
    if !(c < Round(s, r).slot && r.revents[c] != 0) {
      NotReadLonger(s.trace, t.trace, Round(s, r).trace, s.pool.pfds[c].fd);
    }
  }
}
