/** When the loop waits on nobody. `revents` is not cleared after a `recv`, slots past
    the prefix are not polled again, and `clients_init` does not clear `revents` at all;
    the loop is nevertheless never caught waiting in any run exactly when the
    never-used slots started out with `revents` zero. */
module HostReadiness {
  import opened Integers
  import opened Pools
  import opened Kernel
  import opened HostModel
  import opened HostInvariant

  /** Readiness a slot shows is either backed by an unconsumed report, or stale in a
      slot that this round has passed and the next `poll` will overwrite. */
  ghost predicate Prompt(s: Host) {
    && s.pool.Shape()
    && (forall c :: 0 <= c < s.pool.max && !s.pool.clients[c].isConnected ==> s.pool.pfds[c].revents == 0)
    && (forall c :: 0 <= c < s.pool.max && s.pool.clients[c].isConnected && s.pool.pfds[c].revents != 0 ==>
          s.pool.pfds[c].fd in Ready(s.trace) || c < s.slot)
    && NeverWaits(s.trace)
  }

  ghost predicate UnusedSlotsCleared(revents: seq<int>) {
    forall c :: 1 <= c < |revents| ==> revents[c] == 0
  }

  lemma StartPrompt(max: nat, listener: int, revents: seq<int>)
    requires |revents| == max > 0 && listener >= 0 && UnusedSlotsCleared(revents)
    ensures Prompt(Start(max, listener, revents))
  {
    assert FreeSlot(Init(max, revents).clients) == 0;
  }

  lemma PollKeepsPrompt(s: Host, revents: seq<int>)
    requires Inv(s) && Prompt(s) && Enabled(s, PollStep(revents))
    ensures Prompt(Next(s, PollStep(revents)))
  {
    var call := Poll(Polled(s.pool), Reported(s.pool, revents));
    AppendCall(s.listener, s.trace, call);
    NeverWaitsAppend(s.trace, call);
    var t := Next(s, PollStep(revents));
    assert t.pool == PollPool(s.pool, revents);
    forall c | 0 <= c < s.pool.max
      ensures !t.pool.clients[c].isConnected ==> t.pool.pfds[c].revents == 0
      ensures t.pool.clients[c].isConnected && t.pool.pfds[c].revents != 0 ==> t.pool.pfds[c].fd in Ready(t.trace)
    {
      assert s.pool.SlotOk(c);
    }
  }

  lemma ChunkReady(listener: int, t: Trace, fd: int, received: Received, calls: Trace)
    requires NeverWaits(t) && fd in Ready(t) && OnlySends(calls)
    ensures var u := t + [Recv(fd, received)] + calls;
            NeverWaits(u) && Ready(u) == Ready(t) - {fd}
  {
    var recv := Recv(fd, received);
    AppendCall(listener, t, recv);
    NeverWaitsAppend(t, recv);
    SendsChangeNothing(listener, t + [recv], calls);
    SendsNeverWait(t + [recv], calls);
  }

  lemma ChunkKeepsPrompt(s: Host, a: Answers)
    requires Inv(s) && Prompt(s) && Enabled(s, VisitStep(a)) && a.received.Data?
    requires s.pool.pfds[s.slot].revents != 0 && s.pool.pfds[s.slot].fd != s.listener
    ensures Prompt(Next(s, VisitStep(a)))
  {
    var fd := s.pool.pfds[s.slot].fd;
    var calls := Broadcast(s.pool.pfds[..s.pool.n], fd, s.listener, a.received.bytes, a.refused);
    ReportedSlotIsConnected(s, s.slot);
    BroadcastSends(s.pool.pfds[..s.pool.n], fd, s.listener, a.received.bytes, a.refused);
    ChunkReady(s.listener, s.trace, fd, a.received, calls);
    StaleOnlyWhenPassed(s, Next(s, VisitStep(a)), fd);
  }

  /** Consuming the visited slot's report leaves that slot stale and no other. */
  lemma StaleOnlyWhenPassed(s: Host, t: Host, fd: int)
    requires Inv(s) && Prompt(s) && s.slot < s.pool.n && s.pool.pfds[s.slot].fd == fd
    requires t.pool == s.pool && t.slot == s.slot + 1
    requires Ready(t.trace) == Ready(s.trace) - {fd} && NeverWaits(t.trace)
    ensures Prompt(t)
  {
    forall c | 0 <= c < s.pool.max && s.pool.clients[c].isConnected && s.pool.pfds[c].revents != 0
      ensures s.pool.pfds[c].fd in Ready(t.trace) || c < t.slot
    {
      assert s.pool.SlotOk(c);
    }
  }

  lemma HangUpReady(listener: int, t: Trace, fd: int, received: Received)
    requires NeverWaits(t) && fd in Ready(t)
    ensures var u := t + [Recv(fd, received)] + [Close(fd)];
            NeverWaits(u) && Ready(u) == Ready(t) - {fd}
  {
    var recv := Recv(fd, received);
    AppendCall(listener, t, recv);
    NeverWaitsAppend(t, recv);
    AppendCall(listener, t + [recv], Close(fd));
    NeverWaitsAppend(t + [recv], Close(fd));
  }

  lemma HangUpKeepsPrompt(s: Host, a: Answers)
    requires Inv(s) && Prompt(s) && Enabled(s, VisitStep(a)) && !a.received.Data?
    requires s.pool.pfds[s.slot].revents != 0 && s.pool.pfds[s.slot].fd != s.listener
    ensures Prompt(Next(s, VisitStep(a)))
  {
    ReportedSlotIsConnected(s, s.slot);
    HangUpReady(s.listener, s.trace, s.pool.pfds[s.slot].fd, a.received);
    DisconnectClearsOwnSlot(s, s.slot);
  }

  lemma AcceptReady(listener: int, t: Trace, fd: int)
    requires NeverWaits(t) && listener in Ready(t)
    ensures var u := t + [Accept(listener, fd)];
            && NeverWaits(u) && Ready(u) == Ready(t) - {listener}
            && NeverWaits(u + [Close(fd)]) && Ready(u + [Close(fd)]) == Ready(t) - {listener} - {fd}
  {
    var call := Accept(listener, fd);
    AppendCall(listener, t, call);
    NeverWaitsAppend(t, call);
    AppendCall(listener, t + [call], Close(fd));
    NeverWaitsAppend(t + [call], Close(fd));
  }

  /** A new client's slot shows no readiness of its own. */
  lemma AddedSlotPrompt(s: Host, fd: int, t: Host)
    requires Inv(s) && Prompt(s) && s.slot == 0 && s.pool.n < s.pool.max && fd >= 0
    requires t.pool == Add(s.pool, fd, POLLIN).0 && t.slot == 1
    requires Ready(t.trace) == Ready(s.trace) - {s.listener} && NeverWaits(t.trace)
    ensures Prompt(t)
  {
    FreeSlotExists(s.pool);
    forall c | 0 <= c < t.pool.max && t.pool.clients[c].isConnected && t.pool.pfds[c].revents != 0
      ensures t.pool.pfds[c].fd in Ready(t.trace) || c < t.slot
    {
      assert s.pool.clients[c].isConnected;
      ListenerOnlyInSlotZero(s, c);
    }
  }

  /** A refused client's descriptor is in no slot. */
  lemma RefusedClientPrompt(s: Host, fd: int, t: Host)
    requires Inv(s) && Prompt(s) && s.slot == 0 && fd !in Open(s.listener, s.trace) && fd >= 0
    requires t.pool == s.pool && t.slot == 1
    requires Ready(t.trace) == Ready(s.trace) - {s.listener} - {fd} && NeverWaits(t.trace)
    ensures Prompt(t)
  {
    assert !s.pool.Holds(fd);
    forall c | 0 <= c < s.pool.max && s.pool.clients[c].isConnected && s.pool.pfds[c].revents != 0
      ensures s.pool.pfds[c].fd in Ready(t.trace) || c < t.slot
    {
      assert s.pool.pfds[c].fd != fd;
      ListenerOnlyInSlotZero(s, c);
    }
  }

  lemma AcceptKeepsPrompt(s: Host, a: Answers)
    requires Inv(s) && Prompt(s) && Enabled(s, VisitStep(a))
    requires s.pool.pfds[s.slot].revents != 0 && s.pool.pfds[s.slot].fd == s.listener
    ensures Prompt(Next(s, VisitStep(a)))
  {
    var t := Next(s, VisitStep(a));
    ReportedSlotIsConnected(s, s.slot);
    ListenerOnlyInSlotZero(s, s.slot);
    AcceptReady(s.listener, s.trace, a.accepted);
    if a.accepted < 0 {
      StaleOnlyWhenPassed(s, t, s.listener);
    } else if s.pool.n < s.pool.max {
      FreeSlotExists(s.pool);
      AddedSlotPrompt(s, a.accepted, t);
    } else {
      RefusedClientPrompt(s, a.accepted, t);
    }
  }

  lemma {:induction false} SendsNeverWait(t: Trace, calls: Trace)
    requires OnlySends(calls)
    ensures NeverWaits(t + calls) <==> NeverWaits(t)
    decreases |calls|
  {
    if calls == [] {
      assert t + calls == t;
    } else {
      var last := |calls| - 1;
      SendsNeverWait(t, calls[..last]);
      assert t + calls == (t + calls[..last]) + [calls[last]];
      NeverWaitsAppend(t + calls[..last], calls[last]);
    }
  }

  lemma {:induction false} RunKeepsPrompt(s: Host, steps: seq<Step>)
    requires Inv(s) && Prompt(s) && Run(s, steps)
    ensures Prompt(After(s, steps))
    decreases |steps|
  {
    if steps != [] {
      StepKeepsInv(s, steps[0]);
      match steps[0] {
        case PollStep(revents) => PollKeepsPrompt(s, revents);
        case VisitStep(a) =>
          if s.pool.pfds[s.slot].revents != 0 {
            if s.pool.pfds[s.slot].fd == s.listener {
              AcceptKeepsPrompt(s, a);
            } else if a.received.Data? {
              ChunkKeepsPrompt(s, a);
            } else {
              HangUpKeepsPrompt(s, a);
            }
          }
      }
      RunKeepsPrompt(Next(s, steps[0]), steps[1..]);
    }
  }

  // ------------------------------------------------- a run that waits, if garbage remains

  const NOTHING := Answers(-1, HungUp, {})

  /** Passing quiet slots changes only the loop variable. */
  lemma {:induction false} PassQuietSlots(s: Host, target: nat) returns (steps: seq<Step>)
    requires Inv(s) && s.slot <= target <= s.pool.n
    requires forall c :: s.slot <= c < target ==> s.pool.pfds[c].revents == 0
    ensures Run(s, steps) && After(s, steps) == s.(slot := target)
    decreases target - s.slot
  {
    if s.slot == target {
      steps := [];
    } else {
      var step := VisitStep(NOTHING);
      StepKeepsInv(s, step);
      var rest := PassQuietSlots(Next(s, step), target);
      steps := [step] + rest;
      assert steps[1..] == rest;
    }
  }

  /** The end of a round in which slots `0..k` are taken by descriptors counted up from
      the listener's, nothing is ready, and the other slots still hold what they started with. */
  ghost predicate Grown(s: Host, k: nat, revents: seq<int>) {
    && Inv(s) && s.pool.max == |revents| && k < s.pool.max
    && s.pool.n == s.slot == k + 1
    && Ready(s.trace) == {}
    && (forall c :: 0 <= c <= k ==> s.pool.clients[c].isConnected && s.pool.pfds[c].fd == s.listener + c)
    && (forall c :: k < c < s.pool.max ==> !s.pool.clients[c].isConnected && s.pool.pfds[c].revents == revents[c])
  }

  /** The same in the middle of a round that has polled only the listener's readiness
      (`slot` 0) and then taken in the newest client (`slot` 1). */
  ghost predicate Growing(s: Host, k: nat, revents: seq<int>) {
    && Inv(s) && s.pool.max == |revents| && k < s.pool.max
    && s.pool.n == k + 1
    && (forall c :: 0 <= c <= k ==> s.pool.clients[c].isConnected && s.pool.pfds[c].fd == s.listener + c)
    && (forall c :: k < c < s.pool.max ==> !s.pool.clients[c].isConnected && s.pool.pfds[c].revents == revents[c])
  }

  lemma ListenerReportAllowed(s: Host, k: nat, revents: seq<int>, reported: seq<int>)
    requires Grown(s, k, revents)
    requires |reported| == k + 1 && reported[0] == 1 && forall c :: 1 <= c <= k ==> reported[c] == 0
    ensures Enabled(s, PollStep(reported))
    ensures Reported(s.pool, reported) == {s.listener} <= Polled(s.pool)
  {
    forall c | 0 <= c < s.pool.n ensures s.pool.pfds[c].fd >= 0 {
      assert s.pool.SlotOk(c);
    }
    assert reported[0] != 0;
  }

  lemma PollGrown(s: Host, k: nat, revents: seq<int>, reported: seq<int>)
    requires Grown(s, k, revents) && Enabled(s, PollStep(reported))
    ensures var t := Next(s, PollStep(reported));
            && Growing(t, k, revents) && t.listener == s.listener && t.slot == 0
            && (forall c :: 0 <= c <= k ==> t.pool.pfds[c].revents == reported[c])
  {
    PollKeepsInv(s, reported);
    assert Next(s, PollStep(reported)).pool == PollPool(s.pool, reported);
  }

  lemma PollListenerOnly(s: Host, k: nat, revents: seq<int>) returns (poll: Step)
    requires Grown(s, k, revents)
    ensures Enabled(s, poll)
    ensures var t := Next(s, poll);
            && Growing(t, k, revents) && t.listener == s.listener && t.slot == 0
            && Ready(t.trace) == {t.listener}
            && t.pool.pfds[0].revents == 1
            && (forall c :: 1 <= c <= k ==> t.pool.pfds[c].revents == 0)
  {
    var reported := [1] + seq(k, i => 0);
    poll := PollStep(reported);
    ListenerReportAllowed(s, k, revents, reported);
    PollGrown(s, k, revents, reported);
    AppendCall(s.listener, s.trace, Poll(Polled(s.pool), Reported(s.pool, reported)));
  }

  lemma FreeSlotWhileGrowing(s: Host, k: nat, revents: seq<int>)
    requires Growing(s, k, revents) && k + 1 < s.pool.max
    ensures FreeSlot(s.pool.clients) == k + 1 && !s.pool.Holds(s.listener + k + 1)
  {
    forall c | 0 <= c < s.pool.max ensures s.pool.pfds[c].fd != s.listener + k + 1 {
      assert s.pool.SlotOk(c);
    }
    assert !s.pool.clients[k + 1].isConnected;
    assert forall c :: 0 <= c <= k ==> s.pool.clients[c].isConnected && c != FreeSlot(s.pool.clients);
  }

  lemma AcceptNext(s: Host, k: nat, revents: seq<int>) returns (visit: Step)
    requires Growing(s, k, revents) && k + 1 < s.pool.max
    requires s.slot == 0 && s.pool.pfds[0].revents == 1 && Ready(s.trace) == {s.listener}
    ensures Enabled(s, visit)
    ensures var t := Next(s, visit);
            && Growing(t, k + 1, revents) && t.listener == s.listener && t.slot == 1
            && Ready(t.trace) == {}
            && (forall c :: 0 <= c < t.pool.max ==> t.pool.pfds[c].revents == s.pool.pfds[c].revents)
  {
    var answers := Answers(s.listener + k + 1, HungUp, {});
    visit := VisitStep(answers);
    FreeSlotWhileGrowing(s, k, revents);
    AcceptKeepsInv(s, answers);
    AppendCall(s.listener, s.trace, Accept(s.listener, answers.accepted));
    assert Next(s, visit).pool == Add(s.pool, answers.accepted, POLLIN).0;
  }

  /** One more client arrives: the state just after its `accept`. */
  lemma Arrival(s: Host, k: nat, revents: seq<int>) returns (steps: seq<Step>)
    requires Grown(s, k, revents) && k + 1 < s.pool.max
    ensures Run(s, steps)
    ensures var t := After(s, steps);
            && Growing(t, k + 1, revents) && t.listener == s.listener && t.slot == 1
            && Ready(t.trace) == {}
            && (forall c :: 1 <= c <= k ==> t.pool.pfds[c].revents == 0)
            && t.pool.pfds[k + 1].revents == revents[k + 1]
  {
    var poll := PollListenerOnly(s, k, revents);
    var mid := Next(s, poll);
    var visit := AcceptNext(mid, k, revents);
    OneStep(s, poll);
    OneStep(mid, visit);
    RunConcat(s, [poll], [visit]);
    steps := [poll] + [visit];
  }

  /** Whatever readiness the newest client's slot was left with, a chunk answers it. */
  lemma PassNewest(s: Host, k: nat, revents: seq<int>) returns (visit: Step)
    requires Growing(s, k, revents) && k >= 1 && s.slot == k && Ready(s.trace) == {}
    ensures Enabled(s, visit)
    ensures Next(s, visit).listener == s.listener && Grown(Next(s, visit), k, revents)
  {
    var chunk := Answers(-1, Data([0]), {});
    visit := VisitStep(chunk);
    StepKeepsInv(s, visit);
    ListenerOnlyInSlotZero(s, k);
    var fd := s.pool.pfds[k].fd;
    var calls := Broadcast(s.pool.pfds[..s.pool.n], fd, s.listener, [0], {});
    AppendCall(s.listener, s.trace, Recv(fd, Data([0])));
    BroadcastSends(s.pool.pfds[..s.pool.n], fd, s.listener, [0], {});
    SendsChangeNothing(s.listener, s.trace + [Recv(fd, Data([0]))], calls);
  }

  /** One whole round in which a client arrives. */
  lemma GrowByOne(s: Host, k: nat, revents: seq<int>) returns (steps: seq<Step>)
    requires Grown(s, k, revents) && k + 1 < s.pool.max
    ensures Run(s, steps)
    ensures After(s, steps).listener == s.listener && Grown(After(s, steps), k + 1, revents)
  {
    var arrival := Arrival(s, k, revents);
    var mid := After(s, arrival);
    var pass := PassQuietSlots(mid, k + 1);
    RunKeepsInv(mid, pass);
    RunConcat(s, arrival, pass);
    var newest := PassNewest(mid.(slot := k + 1), k + 1, revents);
    OneStep(mid.(slot := k + 1), newest);
    RunConcat(s, arrival + pass, [newest]);
    steps := arrival + pass + [newest];
  }

  lemma {:induction false} Grow(max: nat, listener: int, revents: seq<int>, k: nat) returns (steps: seq<Step>)
    requires |revents| == max > k && listener >= 0
    ensures Run(Start(max, listener, revents), steps)
    ensures After(Start(max, listener, revents), steps).listener == listener
    ensures Grown(After(Start(max, listener, revents), steps), k, revents)
    decreases k
  {
    var s := Start(max, listener, revents);
    if k == 0 {
      StartInv(max, listener, revents);
      assert FreeSlot(Init(max, revents).clients) == 0;
      steps := [];
    } else {
      var before := Grow(max, listener, revents, k - 1);
      var round := GrowByOne(After(s, before), k - 1, revents);
      RunConcat(s, before, round);
      steps := before + round;
    }
  }

  lemma ReadUnreported(s: Host, k: nat) returns (read: Step)
    requires Inv(s) && 1 <= k == s.slot < s.pool.n && s.pool.pfds[k].revents != 0 && Ready(s.trace) == {}
    ensures Enabled(s, read) && !NeverWaits(Next(s, read).trace)
  {
    read := VisitStep(NOTHING);
    ListenerOnlyInSlotZero(s, k);
    var recv := Recv(s.pool.pfds[k].fd, HungUp);
    NeverWaitsAppend(s.trace, recv);
    NeverWaitsAppend(s.trace + [recv], Close(recv.fd));
  }

  lemma ReadArrived(s: Host, k: nat) returns (steps: seq<Step>)
    requires Inv(s) && 1 == s.slot <= k < s.pool.n && s.pool.pfds[k].revents != 0 && Ready(s.trace) == {}
    requires forall c :: 1 <= c < k ==> s.pool.pfds[c].revents == 0
    ensures Run(s, steps) && !NeverWaits(After(s, steps).trace)
  {
    var pass := PassQuietSlots(s, k);
    var t := s.(slot := k);
    RunKeepsInv(s, pass);
    var read := ReadUnreported(t, k);
    OneStep(t, read);
    RunConcat(s, pass, [read]);
    steps := pass + [read];
  }

  /** The round in which a client arrives in a slot with leftover readiness. */
  lemma ArrivalIsRead(s: Host, k: nat, revents: seq<int>) returns (steps: seq<Step>)
    requires Grown(s, k, revents) && k + 1 < s.pool.max && revents[k + 1] != 0
    ensures Run(s, steps) && !NeverWaits(After(s, steps).trace)
  {
    var arrival := Arrival(s, k, revents);
    var read := ReadArrived(After(s, arrival), k + 1);
    RunConcat(s, arrival, read);
    steps := arrival + read;
  }

  /** If never-used slot `k` has leftover readiness, the k-th client to arrive is read
      from although nothing was ever reported for it. */
  lemma LeftoverReadinessWaits(max: nat, listener: int, revents: seq<int>, k: nat) returns (steps: seq<Step>)
    requires |revents| == max && 1 <= k < max && listener >= 0
    requires revents[k] != 0
    ensures Run(Start(max, listener, revents), steps)
    ensures !NeverWaits(After(Start(max, listener, revents), steps).trace)
  {
    var s := Start(max, listener, revents);
    var before := Grow(max, listener, revents, k - 1);
    var round := ArrivalIsRead(After(s, before), k - 1, revents);
    RunConcat(s, before, round);
    steps := before + round;
  }

  ghost predicate NeverWaitsInAnyRun(max: nat, listener: int, revents: seq<int>)
    requires |revents| == max
  {
    forall steps :: Run(Start(max, listener, revents), steps) ==>
      NeverWaits(After(Start(max, listener, revents), steps).trace)
  }

  /** The loop never reads from, or accepts on, a socket without an unconsumed report in
      any run, if and only if every slot but the listener's began with `revents` zero,
      which `clients_init` does not arrange. */
  lemma NeverWaitsIff(max: nat, listener: int, revents: seq<int>)
    requires |revents| == max > 0 && listener >= 0
    ensures NeverWaitsInAnyRun(max, listener, revents) <==> UnusedSlotsCleared(revents)
  {
    if UnusedSlotsCleared(revents) {
      forall steps | Run(Start(max, listener, revents), steps)
        ensures NeverWaits(After(Start(max, listener, revents), steps).trace)
      {
        StartInv(max, listener, revents);
        StartPrompt(max, listener, revents);
        RunKeepsPrompt(Start(max, listener, revents), steps);
      }
    } else {
      var k :| 1 <= k < |revents| && revents[k] != 0;
      var steps := LeftoverReadinessWaits(max, listener, revents, k);
    }
  }
}
