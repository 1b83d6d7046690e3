/** Whole rounds and whole runs: a round ends and covers exactly the clients it leaves
    inside the prefix, descriptors are conserved, hang-ups can strand half the clients,
    and arrivals bring the stranded ones back. */
module HostRounds {
  import opened Integers
  import opened Pools
  import opened Kernel
  import opened HostModel
  import opened HostInvariant
  import opened HostDelivery
  import PoolRefinement

  // -------------------------------------------------------------------- one round

  /** Kernel's answers for one round: what `poll` reports, and what each slot meets if visited. */
  datatype RoundAnswers = RoundAnswers(revents: seq<int>, visits: seq<Answers>)

  /** The kernel may give these answers to the rest of a walk. */
  ghost predicate WalkAllowed(s: Host, visits: seq<Answers>)
    requires Inv(s) && |visits| == s.pool.max
    decreases s.pool.max - s.slot
  {
    s.slot < s.pool.n ==>
      && VisitAllowed(s, visits[s.slot])
      && (StepKeepsInv(s, VisitStep(visits[s.slot]));
          WalkAllowed(Next(s, VisitStep(visits[s.slot])), visits))
  }

  /** The rest of the inner loop. It ends although `n` may rise and fall on the way,
      because the slot index only grows and `n` never exceeds `max`. */
  ghost function Walk(s: Host, visits: seq<Answers>): (t: Host)
    requires Inv(s) && |visits| == s.pool.max && WalkAllowed(s, visits)
    ensures Inv(t) && t.slot >= t.pool.n
    ensures s.slot <= t.slot && (s.slot <= s.pool.max ==> t.slot <= s.pool.max)
    ensures t.pool.max == s.pool.max && t.listener == s.listener
    decreases s.pool.max - s.slot
  {
    if s.slot >= s.pool.n then s
    else
      StepKeepsInv(s, VisitStep(visits[s.slot]));
      Walk(Next(s, VisitStep(visits[s.slot])), visits)
  }

  ghost predicate RoundAllowed(s: Host, r: RoundAnswers)
    requires Inv(s)
  {
    && |r.visits| == s.pool.max
    && Enabled(s, PollStep(r.revents))
    && (StepKeepsInv(s, PollStep(r.revents));
        WalkAllowed(Next(s, PollStep(r.revents)), r.visits))
  }

  ghost function Round(s: Host, r: RoundAnswers): (t: Host)
    requires Inv(s) && RoundAllowed(s, r)
    ensures Inv(t) && t.pool.n <= t.slot <= t.pool.max && t.pool.max == s.pool.max && t.listener == s.listener
  {
    StepKeepsInv(s, PollStep(r.revents));
    Walk(Next(s, PollStep(r.revents)), r.visits)
  }

  /** Visits to slots `from`, `from + 1`, ..., `to - 1`. */
  function VisitsInOrder(visits: seq<Answers>, from: nat, to: nat): (steps: seq<Step>)
    requires from <= to <= |visits|
  {
    seq(to - from, i requires 0 <= i < to - from => VisitStep(visits[from + i]))
  }

  lemma VisitsInOrderFirst(visits: seq<Answers>, from: nat, to: nat)
    requires from < to <= |visits|
    ensures VisitsInOrder(visits, from, to) == [VisitStep(visits[from])] + VisitsInOrder(visits, from + 1, to)
  {
  }

  /** A walk is a run that visits the slots from the current one on in order, each once. */
  lemma {:induction false} WalkIsRun(s: Host, visits: seq<Answers>)
    requires Inv(s) && |visits| == s.pool.max && s.slot <= s.pool.max && WalkAllowed(s, visits)
    ensures var steps := VisitsInOrder(visits, s.slot, Walk(s, visits).slot);
            Run(s, steps) && After(s, steps) == Walk(s, visits)
    decreases s.pool.max - s.slot
  {
    if s.slot < s.pool.n {
      var step := VisitStep(visits[s.slot]);
      StepKeepsInv(s, step);
      var t := Next(s, step);
      assert Walk(s, visits) == Walk(t, visits);
      WalkIsRun(t, visits);
      RunCons(s, step, VisitsInOrder(visits, t.slot, Walk(t, visits).slot));
      VisitsInOrderFirst(visits, s.slot, Walk(s, visits).slot);
    }
  }

  /** A round polls and then visits slots 0, 1, 2, ... once each. It leaves unvisited
      only slots outside the new prefix, and a client it did visit and keep lies inside. */
  lemma RoundCoversPrefix(s: Host, r: RoundAnswers)
    requires Inv(s) && RoundAllowed(s, r)
    ensures var t := Round(s, r);
            var steps := [PollStep(r.revents)] + VisitsInOrder(r.visits, 0, t.slot);
            && Run(s, steps) && After(s, steps) == t
            && t.pool.n <= t.slot
            && forall c :: 0 <= c < t.pool.max && t.pool.clients[c].isConnected ==> (c < t.pool.n <==> c < t.slot)
  {
    var poll := PollStep(r.revents);
    StepKeepsInv(s, poll);
    var mid := Next(s, poll);
    WalkIsRun(mid, r.visits);
    OneStep(s, poll);
    RunConcat(s, [poll], VisitsInOrder(r.visits, 0, Walk(mid, r.visits).slot));
  }

  /** Any number of rounds. */
  ghost predicate RoundsAllowed(s: Host, rounds: seq<RoundAnswers>)
    requires Inv(s)
    decreases |rounds|
  {
    rounds == [] || (RoundAllowed(s, rounds[0]) && RoundsAllowed(Round(s, rounds[0]), rounds[1..]))
  }

  ghost function Rounds(s: Host, rounds: seq<RoundAnswers>): Host
    requires Inv(s) && RoundsAllowed(s, rounds)
    decreases |rounds|
  {
    if rounds == [] then s else Rounds(Round(s, rounds[0]), rounds[1..])
  }

  /** What is proved of runs holds of the loop after any number of rounds. */
  lemma {:induction false} RoundsAreRuns(s: Host, rounds: seq<RoundAnswers>) returns (steps: seq<Step>)
    requires Inv(s) && RoundsAllowed(s, rounds)
    ensures Run(s, steps) && After(s, steps) == Rounds(s, rounds)
    decreases |rounds|
  {
    if rounds == [] {
      steps := [];
    } else {
      var t := Round(s, rounds[0]);
      RoundCoversPrefix(s, rounds[0]);
      var first := [PollStep(rounds[0].revents)] + VisitsInOrder(rounds[0].visits, 0, t.slot);
      var rest := RoundsAreRuns(t, rounds[1..]);
      RunConcat(s, first, rest);
      steps := first + rest;
    }
  }

  /** Hearing a chunk changes only the trace and the loop variable. */
  lemma ChunkNext(s: Host, a: Answers)
    requires HearsChunk(s, a)
    ensures Next(s, VisitStep(a)) ==
              s.(slot := s.slot + 1,
                 trace := s.trace + ([Recv(s.pool.pfds[s.slot].fd, a.received)] + BroadcastOf(s, a)))
  {
    var recv := [Recv(s.pool.pfds[s.slot].fd, a.received)];
    assert s.trace + (recv + BroadcastOf(s, a)) == s.trace + recv + BroadcastOf(s, a);
  }

  lemma ChunkAcceptsNobody(s: Host, a: Answers)
    requires HearsChunk(s, a)
    ensures Calls(Next(s, VisitStep(a)).trace, Accepting) == Calls(s.trace, Accepting)
  {
    var fd := s.pool.pfds[s.slot].fd;
    CallsAppend(s.trace, Recv(fd, a.received), Accepting);
    BroadcastSends(s.pool.pfds[..s.pool.n], fd, s.listener, a.received.bytes, a.refused);
    SendsNotCounted(s.trace + [Recv(fd, a.received)], BroadcastOf(s, a), Accepting);
  }

  lemma VisitAccepts(s: Host, a: Answers)
    requires Inv(s) && Enabled(s, VisitStep(a))
    ensures Calls(Next(s, VisitStep(a)).trace, Accepting) <= Calls(s.trace, Accepting) + if s.slot == 0 then 1 else 0
  {
    var entry := s.pool.pfds[s.slot];
    ListenerOnlyInSlotZero(s, s.slot);
    if entry.fd == s.listener {
      var accept := Accept(s.listener, a.accepted);
      CallsAppend(s.trace, accept, Accepting);
      CallsAppend(s.trace + [accept], Close(a.accepted), Accepting);
    } else if HearsChunk(s, a) {
      ChunkAcceptsNobody(s, a);
    } else {
      var recv := Recv(entry.fd, a.received);
      CallsAppend(s.trace, recv, Accepting);
      CallsAppend(s.trace + [recv], Close(entry.fd), Accepting);
    }
  }

  lemma {:induction false} WalkAcceptsOnce(s: Host, visits: seq<Answers>)
    requires Inv(s) && |visits| == s.pool.max && WalkAllowed(s, visits)
    ensures Calls(Walk(s, visits).trace, Accepting) <= Calls(s.trace, Accepting) + if s.slot == 0 then 1 else 0
    decreases s.pool.max - s.slot
  {
    if s.slot < s.pool.n {
      StepKeepsInv(s, VisitStep(visits[s.slot]));
      VisitAccepts(s, visits[s.slot]);
      WalkAcceptsOnce(Next(s, VisitStep(visits[s.slot])), visits);
    }
  }

  /** A round accepts at most one connection. */
  lemma RoundAcceptsOnce(s: Host, r: RoundAnswers)
    requires Inv(s) && RoundAllowed(s, r)
    ensures Calls(Round(s, r).trace, Accepting) <= Calls(s.trace, Accepting) + 1
  {
    StepKeepsInv(s, PollStep(r.revents));
    AppendCall(s.listener, s.trace, Poll(Polled(s.pool), Reported(s.pool, r.revents)));
    WalkAcceptsOnce(Next(s, PollStep(r.revents)), r.visits);
  }

  // --------------------------------------------------------------- every reachable state

  /** In every reachable state: every call of the trace was proper; the listener keeps
      slot 0; and each accepted descriptor has been closed once for each time it was
      accepted, but for one time if it sits in a slot, and then in just one. */
  lemma DescriptorsConserved(max: nat, listener: int, revents: seq<int>, steps: seq<Step>, fd: int)
    requires |revents| == max > 0 && listener >= 0 && Run(Start(max, listener, revents), steps)
    requires fd >= 0 && fd != listener
    ensures var s := After(Start(max, listener, revents), steps);
            && Inv(s) && s.pool.pfds[0].fd == listener
            && Accepts(s.trace, fd) == Closes(s.trace, fd) + SlotsWith(s.pool.pfds, fd)
            && SlotsWith(s.pool.pfds, fd) <= 1
            && Closes(s.trace, listener) == 0
            && s.pool.n - 1 <= max - 1
  {
    StartInv(max, listener, revents);
    RunKeepsInv(Start(max, listener, revents), steps);
    var s := After(Start(max, listener, revents), steps);
    AcceptsMatchCloses(listener, s.trace, fd);
    ListenerStaysOpen(listener, s.trace);
    assert s.pool.pfds[..s.pool.max] == s.pool.pfds;
    if s.pool.Holds(fd) {
      var c :| 0 <= c < s.pool.max && s.pool.pfds[c].fd == fd;
      DistinctSlotCount(s.pool, s.pool.max, c);
    } else {
      NoSlot(s.pool.pfds, fd);
    }
  }

  lemma {:induction false} NoSlot(pfds: seq<PollFd>, fd: int)
    requires forall c :: 0 <= c < |pfds| ==> pfds[c].fd != fd
    ensures SlotsWith(pfds, fd) == 0
  {
    if pfds != [] {
      NoSlot(pfds[..|pfds| - 1], fd);
    }
  }

  // ---------------------------------------------------------------------- hang-ups

  /** Everybody hangs up and nobody arrives. */
  ghost predicate AllHangUp(visits: seq<Answers>) {
    forall c :: 0 <= c < |visits| ==> visits[c].accepted == -1 && !visits[c].received.Data?
  }

  /** A walk that began with slots `[0, n)` taken, after `k` clients have hung up. */
  ghost predicate HangingUp(s: Host, n: nat, k: nat) {
    && Inv(s) && 1 <= n <= s.pool.max && k < n
    && s.slot == k + 1 && s.pool.n == n - k
    && (forall c :: 0 <= c < s.pool.max ==> (s.pool.clients[c].isConnected <==> c == 0 || k < c < n))
    && (forall c :: k < c < n ==> s.pool.pfds[c].revents != 0)
  }

  lemma OneHangsUp(s: Host, n: nat, k: nat, a: Answers)
    requires HangingUp(s, n, k) && Enabled(s, VisitStep(a)) && !a.received.Data?
    ensures HangingUp(Next(s, VisitStep(a)), n, k + 1)
  {
    StepKeepsInv(s, VisitStep(a));
    ListenerOnlyInSlotZero(s, s.slot);
    DisconnectClearsOwnSlot(s, s.slot);
    assert Next(s, VisitStep(a)).pool == Disconnect(s, s.slot).pool;
  }

  lemma {:induction false} WalkHangsUpHalf(s: Host, n: nat, k: nat, visits: seq<Answers>)
    requires HangingUp(s, n, k) && k <= n / 2
    requires |visits| == s.pool.max && WalkAllowed(s, visits) && AllHangUp(visits)
    ensures HangingUp(Walk(s, visits), n, n / 2)
    decreases n - k
  {
    if s.slot < s.pool.n {
      var step := VisitStep(visits[s.slot]);
      StepKeepsInv(s, step);
      OneHangsUp(s, n, k, visits[s.slot]);
      WalkHangsUpHalf(Next(s, step), n, k + 1, visits);
    }
  }

  /** The listener is the only client inside the polled prefix. */
  ghost predicate OnlyListenerPolled(p: Pool)
    requires p.Shape()
  {
    forall c :: 1 <= c < p.n && c < p.max ==> !p.clients[c].isConnected
  }

  /** From a compact pool of `n` slots, a round in which every client is reported and
      hangs up, and none arrives, removes only floor(n/2) of them: those in slots
      1 to n/2. The others are still connected and all lie outside the next polled prefix. */
  lemma MassHangUpStrandsHalf(s: Host, r: RoundAnswers)
    requires Inv(s) && RoundAllowed(s, r) && s.pool.Compact()
    requires AllHangUp(r.visits) && forall c :: 1 <= c < s.pool.n ==> r.revents[c] != 0
    ensures var n, t := s.pool.n, Round(s, r);
            && t.pool.n == n - n / 2
            && (forall c :: 0 <= c < t.pool.max ==> (t.pool.clients[c].isConnected <==> c == 0 || n / 2 < c < n))
            && OnlyListenerPolled(t.pool)
  {
    var n := s.pool.n;
    SlotFacts(s, 0);
    StepKeepsInv(s, PollStep(r.revents));
    var polled := Next(s, PollStep(r.revents));
    var a := r.visits[0];
    StepKeepsInv(polled, VisitStep(a));
    var t := Next(polled, VisitStep(a));
    assert polled.pool == PollPool(s.pool, r.revents);
    assert t.pool == polled.pool;
    assert HangingUp(t, n, 0);
    WalkHangsUpHalf(t, n, 0, r.visits);
  }

  ghost predicate NoArrivals(steps: seq<Step>) {
    forall i :: 0 <= i < |steps| && steps[i].VisitStep? ==> steps[i].answers.accepted == -1
  }

  lemma DeafStep(s: Host, step: Step)
    requires Inv(s) && OnlyListenerPolled(s.pool) && Enabled(s, step)
    requires step.VisitStep? ==> step.answers.accepted == -1
    ensures Next(s, step).pool.clients == s.pool.clients && Next(s, step).pool.n == s.pool.n
    ensures Calls(Next(s, step).trace, Receiving) == Calls(s.trace, Receiving)
  {
    match step {
      case PollStep(revents) =>
        AppendCall(s.listener, s.trace, Poll(Polled(s.pool), Reported(s.pool, revents)));
      case VisitStep(a) =>
        if s.pool.pfds[s.slot].revents != 0 {
          ReportedSlotIsConnected(s, s.slot);
          AppendCall(s.listener, s.trace, Accept(s.listener, a.accepted));
        }
    }
  }

  /** While the listener is the only client polled, nobody is read from and nobody removed,
      in any continuation, however long, until somebody new connects. */
  lemma {:induction false} AllStrandedUntilArrival(s: Host, steps: seq<Step>)
    requires Inv(s) && OnlyListenerPolled(s.pool) && Run(s, steps) && NoArrivals(steps)
    ensures After(s, steps).pool.clients == s.pool.clients
    ensures Calls(After(s, steps).trace, Receiving) == Calls(s.trace, Receiving)
    decreases |steps|
  {
    if steps != [] {
      DeafStep(s, steps[0]);
      StepKeepsInv(s, steps[0]);
      AllStrandedUntilArrival(Next(s, steps[0]), steps[1..]);
    }
  }

  /** The call polls, reads, writes or closes `fd`. */
  ghost predicate Touches(call: Call, fd: int) {
    match call
    case Poll(polled, _) => fd in polled
    case Accept(_, _) => false
    case Recv(f, _) => f == fd
    case Send(f, _, _) => f == fd
    case Close(f) => f == fd
  }

  /** `after` continues `before` with calls none of which touches `fd`. */
  ghost predicate LeavesAlone(before: Trace, after: Trace, fd: int) {
    && |before| <= |after| && after[..|before|] == before
    && forall j :: |before| <= j < |after| ==> !Touches(after[j], fd)
  }

  lemma LeavesAloneTransitive(t: Trace, u: Trace, v: Trace, fd: int)
    requires LeavesAlone(t, u, fd) && LeavesAlone(u, v, fd)
    ensures LeavesAlone(t, v, fd)
  {
    assert forall j :: 0 <= j < |u| ==> v[..|u|][j] == v[j];
    assert v[..|t|] == v[..|u|][..|t|];
  }

  /** Slot `c` holds a client that lies outside the counted prefix. */
  ghost predicate Stranded(s: Host, c: nat) {
    Inv(s) && s.pool.n <= c < s.pool.max && s.pool.clients[c].isConnected
  }

  /** Client `c` is where it was, still outside the prefix, and has been left alone. */
  ghost predicate StaysStranded(s: Host, t: Host, c: nat)
    requires Stranded(s, c)
  {
    && Stranded(t, c) && t.pool.n <= s.pool.n
    && t.pool.pfds[c].fd == s.pool.pfds[c].fd
    && LeavesAlone(s.trace, t.trace, s.pool.pfds[c].fd)
  }

  lemma StrandedPoll(s: Host, revents: seq<int>, c: nat)
    requires Stranded(s, c) && Enabled(s, PollStep(revents))
    ensures StaysStranded(s, Next(s, PollStep(revents)), c)
  {
    StepKeepsInv(s, PollStep(revents));
    assert s.pool.SlotOk(c);
    assert Next(s, PollStep(revents)).pool == PollPool(s.pool, revents);
  }

  lemma LeavesAloneAppend(t: Trace, calls: Trace, fd: int)
    requires forall call :: call in calls ==> !Touches(call, fd)
    ensures LeavesAlone(t, t + calls, fd)
  {
    forall j | |t| <= j < |t + calls| ensures !Touches((t + calls)[j], fd) {
      assert calls[j - |t|] in calls;
    }
  }

  lemma BroadcastLeavesAlone(s: Host, a: Answers, c: nat)
    requires Stranded(s, c) && HearsChunk(s, a)
    ensures forall call :: call in BroadcastOf(s, a) ==> !Touches(call, s.pool.pfds[c].fd)
  {
    var prefix := s.pool.pfds[..s.pool.n];
    assert s.pool.SlotOk(c);
    BroadcastSends(prefix, s.pool.pfds[s.slot].fd, s.listener, a.received.bytes, a.refused);
    forall call | call in BroadcastOf(s, a) ensures !Touches(call, s.pool.pfds[c].fd) {
      var d :| 0 <= d < |prefix| && prefix[d].fd == call.fd;
    }
  }

  lemma StrandedChunk(s: Host, a: Answers, c: nat)
    requires Stranded(s, c) && HearsChunk(s, a)
    ensures StaysStranded(s, Next(s, VisitStep(a)), c)
  {
    StepKeepsInv(s, VisitStep(a));
    BroadcastLeavesAlone(s, a, c);
    assert s.pool.SlotOk(c);
    var calls := [Recv(s.pool.pfds[s.slot].fd, a.received)] + BroadcastOf(s, a);
    LeavesAloneAppend(s.trace, calls, s.pool.pfds[c].fd);
    ChunkNext(s, a);
  }

  lemma StrandedHangUp(s: Host, a: Answers, c: nat)
    requires Stranded(s, c) && Enabled(s, VisitStep(a)) && !a.received.Data?
    requires s.pool.pfds[s.slot].revents != 0 && s.pool.pfds[s.slot].fd != s.listener
    ensures StaysStranded(s, Next(s, VisitStep(a)), c)
  {
    StepKeepsInv(s, VisitStep(a));
    ReportedSlotIsConnected(s, s.slot);
    DisconnectClearsOwnSlot(s, s.slot);
    var fd := s.pool.pfds[s.slot].fd;
    assert s.pool.SlotOk(c);
    assert Next(s, VisitStep(a)).pool == Disconnect(s, s.slot).pool;
    LeavesAloneAppend(s.trace, [Recv(fd, a.received), Close(fd)], s.pool.pfds[c].fd);
    assert Next(s, VisitStep(a)).trace == s.trace + [Recv(fd, a.received), Close(fd)];
  }

  lemma StrandedStep(s: Host, step: Step, c: nat)
    requires Stranded(s, c) && Enabled(s, step)
    requires step.VisitStep? ==> step.answers.accepted == -1
    ensures StaysStranded(s, Next(s, step), c)
  {
    match step {
      case PollStep(revents) => StrandedPoll(s, revents, c);
      case VisitStep(a) =>
        if s.pool.pfds[s.slot].revents == 0 || s.pool.pfds[s.slot].fd == s.listener {
          StepKeepsInv(s, step);
        } else if a.received.Data? {
          StrandedChunk(s, a, c);
        } else {
          StrandedHangUp(s, a, c);
        }
    }
  }

  lemma StrandedTransitive(s: Host, t: Host, u: Host, c: nat)
    requires Stranded(s, c) && StaysStranded(s, t, c) && StaysStranded(t, u, c)
    ensures StaysStranded(s, u, c)
  {
    LeavesAloneTransitive(s.trace, t.trace, u.trace, s.pool.pfds[c].fd);
  }

  /** A client outside the counted prefix stays there along every run in which nobody
      arrives, whatever the others do: its descriptor is not polled, read, sent to or closed. */
  lemma {:induction false} StrandedUntilArrival(s: Host, steps: seq<Step>, c: nat)
    requires Stranded(s, c) && Run(s, steps) && NoArrivals(steps)
    ensures StaysStranded(s, After(s, steps), c)
    decreases |steps|
  {
    if steps != [] {
      StrandedStep(s, steps[0], c);
      StrandedUntilArrival(Next(s, steps[0]), steps[1..], c);
      StrandedTransitive(s, Next(s, steps[0]), After(s, steps), c);
    }
  }

  // ------------------------------------------------------------------ self-healing

  function Shrunk(gap: int, arrivals: int): int {
    if gap > arrivals then gap - arrivals else 0
  }

  /** A step that closes nothing lowers the gap by the number of clients it adds. */
  ghost predicate Heals(s: Host, t: Host) {
    && Calls(t.trace, Closing) >= Calls(s.trace, Closing)
    && t.pool.Shape() && s.pool.Shape()
    && (Calls(t.trace, Closing) == Calls(s.trace, Closing) ==>
          && t.pool.n >= s.pool.n
          && PoolRefinement.Gap(t.pool) == Shrunk(PoolRefinement.Gap(s.pool), t.pool.n - s.pool.n))
  }

  lemma AcceptHeals(s: Host, a: Answers)
    requires Inv(s) && Enabled(s, VisitStep(a))
    requires s.pool.pfds[s.slot].revents != 0 && s.pool.pfds[s.slot].fd == s.listener
    ensures Heals(s, Next(s, VisitStep(a)))
  {
    var accept := Accept(s.listener, a.accepted);
    PoolRefinement.GapMeansCompact(s.pool);
    AppendCall(s.listener, s.trace, accept);
    AppendCall(s.listener, s.trace + [accept], Close(a.accepted));
    if a.accepted >= 0 && s.pool.n < s.pool.max {
      PoolRefinement.AddClosesGap(s.pool, a.accepted, POLLIN);
      FreeSlotExists(s.pool);
    }
  }

  lemma ChunkHeals(s: Host, a: Answers)
    requires HearsChunk(s, a)
    ensures Heals(s, Next(s, VisitStep(a)))
  {
    var fd := s.pool.pfds[s.slot].fd;
    var recv := Recv(fd, a.received);
    PoolRefinement.GapMeansCompact(s.pool);
    AppendCall(s.listener, s.trace, recv);
    BroadcastSends(s.pool.pfds[..s.pool.n], fd, s.listener, a.received.bytes, a.refused);
    SendsNotCounted(s.trace + [recv], BroadcastOf(s, a), Closing);
  }

  lemma HangUpHeals(s: Host, a: Answers)
    requires Inv(s) && Enabled(s, VisitStep(a)) && !a.received.Data?
    requires s.pool.pfds[s.slot].revents != 0 && s.pool.pfds[s.slot].fd != s.listener
    ensures Heals(s, Next(s, VisitStep(a)))
  {
    var fd := s.pool.pfds[s.slot].fd;
    var recv := Recv(fd, a.received);
    AppendCall(s.listener, s.trace, recv);
    AppendCall(s.listener, s.trace + [recv], Close(fd));
  }

  lemma StepHeals(s: Host, step: Step)
    requires Inv(s) && Enabled(s, step)
    ensures Heals(s, Next(s, step))
  {
    PoolRefinement.GapMeansCompact(s.pool);
    match step {
      case PollStep(revents) =>
        AppendCall(s.listener, s.trace, Poll(Polled(s.pool), Reported(s.pool, revents)));
      case VisitStep(a) =>
        if s.pool.pfds[s.slot].revents != 0 {
          if s.pool.pfds[s.slot].fd == s.listener {
            AcceptHeals(s, a);
          } else if a.received.Data? {
            ChunkHeals(s, a);
          } else {
            HangUpHeals(s, a);
          }
        }
    }
  }

  lemma HealsTransitive(s: Host, t: Host, u: Host)
    requires Heals(s, t) && Heals(t, u) && PoolRefinement.Gap(s.pool) >= 0
    ensures Heals(s, u)
  {
  }

  lemma {:induction false} RunHeals(s: Host, steps: seq<Step>)
    requires Inv(s) && Run(s, steps)
    ensures Heals(s, After(s, steps))
    decreases |steps|
  {
    PoolRefinement.GapMeansCompact(s.pool);
    if steps != [] {
      var t := Next(s, steps[0]);
      StepHeals(s, steps[0]);
      StepKeepsInv(s, steps[0]);
      RunHeals(t, steps[1..]);
      HealsTransitive(s, t, After(s, steps));
    }
  }

  /** Along any run that closes no socket, the gap shrinks by one for each client that
      arrives, down to nothing; the pool ends compact, so that polls and broadcasts cover
      everybody, exactly when at least as many clients have arrived as the gap was wide. */
  lemma ArrivalsHeal(s: Host, steps: seq<Step>)
    requires Inv(s) && Run(s, steps)
    requires Calls(After(s, steps).trace, Closing) == Calls(s.trace, Closing)
    ensures var t := After(s, steps);
            var arrivals := t.pool.n - s.pool.n;
            && Inv(t) && arrivals >= 0
            && PoolRefinement.Gap(t.pool) == Shrunk(PoolRefinement.Gap(s.pool), arrivals)
            && (t.pool.Compact() <==> arrivals >= PoolRefinement.Gap(s.pool))
  {
    RunKeepsInv(s, steps);
    RunHeals(s, steps);
    PoolRefinement.GapMeansCompact(s.pool);
    PoolRefinement.GapMeansCompact(After(s, steps).pool);
  }
}
