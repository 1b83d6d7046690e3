/** Which shapes of the pool the event loop can reach. */
module HostReach {
  import opened Pools
  import opened Kernel
  import opened HostModel
  import opened HostInvariant
  import opened HostDelivery
  import opened HostReadiness

  lemma ReportSlotOne(s: Host, revents: seq<int>) returns (poll: Step)
    requires Grown(s, 2, revents)
    ensures Enabled(s, poll)
    ensures var t := Next(s, poll);
            && Growing(t, 2, revents) && t.listener == s.listener && t.slot == 0
            && t.pool.pfds[0].revents == 0 && t.pool.pfds[1].revents == 1
  {
    var reported := [0, 1, 0];
    forall c | 0 <= c < s.pool.n ensures s.pool.pfds[c].fd >= 0 {
      assert s.pool.SlotOk(c);
    }
    assert reported[1] != 0;
    poll := PollStep(reported);
    PollGrown(s, 2, revents, reported);
  }

  lemma FirstClientLeaves(s: Host, revents: seq<int>) returns (visit: Step)
    requires Growing(s, 2, revents) && s.slot == 1 && s.pool.pfds[1].revents != 0
    ensures Enabled(s, visit) && WellFormed(Next(s, visit)) && !Next(s, visit).pool.Compact()
  {
    visit := VisitStep(NOTHING);
    StepKeepsInv(s, visit);
    ListenerOnlyInSlotZero(s, 1);
    DisconnectClearsOwnSlot(s, 1);
    var t := Next(s, visit);
    assert t.pool == Disconnect(s, 1).pool;
    assert t.pool.clients[2].isConnected && t.pool.n == 2;
  }

  /** With three slots or more, two clients arriving and the first one leaving make the pool non-compact. */
  lemma HolesAreReachable(max: nat, listener: int, revents: seq<int>) returns (steps: seq<Step>)
    requires |revents| == max >= 3 && listener >= 0
    ensures Run(Start(max, listener, revents), steps)
    ensures WellFormed(After(Start(max, listener, revents), steps))
    ensures !After(Start(max, listener, revents), steps).pool.Compact()
  {
    var s := Start(max, listener, revents);
    var grow := Grow(max, listener, revents, 2);
    var poll := ReportSlotOne(After(s, grow), revents);
    OneStep(After(s, grow), poll);
    RunConcat(s, grow, [poll]);
    var mid := After(s, grow + [poll]);
    var pass := PassQuietSlots(mid, 1);
    RunConcat(s, grow + [poll], pass);
    RunKeepsInv(mid, pass);
    var leave := FirstClientLeaves(mid.(slot := 1), revents);
    OneStep(mid.(slot := 1), leave);
    RunConcat(s, grow + [poll] + pass, [leave]);
    steps := grow + [poll] + pass + [leave];
  }

  lemma TwoSlotsStayCompact(s: Host)
    requires Inv(s) && s.pool.max <= 2
    ensures s.pool.Compact()
  {
    SlotFacts(s, 0);
    CountBounds(s.pool.clients);
    if s.pool.max == 2 && s.pool.clients[1].isConnected {
      assert forall c :: 0 <= c < 2 ==> s.pool.clients[c].isConnected;
    }
  }

  /** Some run leaves a hole below a client if and only if there are at least three slots,
      the listener's included. With exactly three no broadcast suffers from it, as
      `MissedBroadcastReachableIff` shows. */
  lemma HolesReachableIff(max: nat, listener: int, revents: seq<int>)
    requires |revents| == max > 0 && listener >= 0
    ensures (exists steps :: Run(Start(max, listener, revents), steps) &&
               WellFormed(After(Start(max, listener, revents), steps)) &&
               !After(Start(max, listener, revents), steps).pool.Compact())
       <==> max >= 3
  {
    if max >= 3 {
      var steps := HolesAreReachable(max, listener, revents);
    } else {
      forall steps | Run(Start(max, listener, revents), steps)
        ensures After(Start(max, listener, revents), steps).pool.Shape()
        ensures After(Start(max, listener, revents), steps).pool.Compact()
      {
        StartInv(max, listener, revents);
        RunKeepsInv(Start(max, listener, revents), steps);
        TwoSlotsStayCompact(After(Start(max, listener, revents), steps));
      }
    }
  }

  // --------------------------------------------------------- a broadcast that misses somebody

  /** Some client other than the sender is not sent the chunk. */
  ghost predicate MissesSomebody(s: Host, a: Answers) {
    && HearsChunk(s, a)
    && exists c :: 1 <= c < s.pool.max && c != s.slot && s.pool.clients[c].isConnected &&
         SendsTo(BroadcastOf(s, a), s.pool.pfds[c].fd) == 0
  }

  lemma MissesSomebodyIff(s: Host, a: Answers)
    requires HearsChunk(s, a)
    ensures MissesSomebody(s, a) <==> !s.pool.Compact()
  {
    forall c: nat | 1 <= c < s.pool.max && c != s.slot && s.pool.clients[c].isConnected
      ensures SendsTo(BroadcastOf(s, a), s.pool.pfds[c].fd) <= 1
    {
      ReachedIffInsidePrefix(s, a, c);
    }
    ReachesAllIffCompact(s, a);
  }

  /** With three slots or fewer, whoever is heard speaks to a compact pool. */
  lemma ThreeSlotsHearOnlyWhenCompact(s: Host, a: Answers)
    requires HearsChunk(s, a) && s.pool.max <= 3
    ensures s.pool.Compact()
  {
    SlotFacts(s, 0);
    ReportedSlotIsConnected(s, s.slot);
    ListenerOnlyInSlotZero(s, s.slot);
    CompactIffPrefixFull(s.pool);
    CountBounds(s.pool.clients);
    CountBounds(s.pool.clients[..s.pool.n]);
    assert forall c :: 0 <= c < s.pool.n && c < 2 ==> s.pool.clients[..s.pool.n][c].isConnected;
  }

  lemma ReportSlotsOneAndTwo(s: Host, revents: seq<int>) returns (poll: Step)
    requires Grown(s, 3, revents)
    ensures Enabled(s, poll)
    ensures var t := Next(s, poll);
            && Growing(t, 3, revents) && t.listener == s.listener && t.slot == 0
            && t.pool.pfds[0].revents == 0 && t.pool.pfds[1].revents == 1 && t.pool.pfds[2].revents == 1
  {
    var reported := [0, 1, 1, 0];
    forall c | 0 <= c < s.pool.n ensures s.pool.pfds[c].fd >= 0 {
      assert s.pool.SlotOk(c);
    }
    assert reported[1] != 0;
    poll := PollStep(reported);
    PollGrown(s, 3, revents, reported);
  }

  const CHUNK := Answers(-1, Data([0]), {})

  lemma FirstLeavesSecondSpeaks(s: Host, revents: seq<int>) returns (visit: Step)
    requires Growing(s, 3, revents) && s.slot == 1
    requires s.pool.pfds[1].revents == 1 && s.pool.pfds[2].revents == 1
    ensures Enabled(s, visit)
    ensures HearsChunk(Next(s, visit), CHUNK) && !Next(s, visit).pool.Compact()
  {
    visit := VisitStep(NOTHING);
    StepKeepsInv(s, visit);
    ListenerOnlyInSlotZero(s, 1);
    ListenerOnlyInSlotZero(s, 2);
    DisconnectClearsOwnSlot(s, 1);
    var t := Next(s, visit);
    assert t.pool == Disconnect(s, 1).pool;
    assert t.pool.clients[3].isConnected && t.pool.n == 3;
  }

  /** With four slots or more: three clients arrive, then in one round the first leaves and
      the second speaks, and the third is not sent what it says. */
  lemma MissedBroadcastReachable(max: nat, listener: int, revents: seq<int>) returns (steps: seq<Step>)
    requires |revents| == max >= 4 && listener >= 0
    ensures Run(Start(max, listener, revents), steps)
    ensures HearsChunk(After(Start(max, listener, revents), steps), CHUNK)
    ensures !After(Start(max, listener, revents), steps).pool.Compact()
  {
    var s := Start(max, listener, revents);
    var grow := Grow(max, listener, revents, 3);
    var poll := ReportSlotsOneAndTwo(After(s, grow), revents);
    OneStep(After(s, grow), poll);
    RunConcat(s, grow, [poll]);
    var mid := After(s, grow + [poll]);
    var pass := PassQuietSlots(mid, 1);
    RunConcat(s, grow + [poll], pass);
    RunKeepsInv(mid, pass);
    var leave := FirstLeavesSecondSpeaks(mid.(slot := 1), revents);
    OneStep(mid.(slot := 1), leave);
    RunConcat(s, grow + [poll] + pass, [leave]);
    steps := grow + [poll] + pass + [leave];
  }

  /** Some run reaches a broadcast that misses a client if and only if there are at least
      four slots. The shipped `MAX_CLIENTS` is three. */
  lemma MissedBroadcastReachableIff(max: nat, listener: int, revents: seq<int>)
    requires |revents| == max > 0 && listener >= 0
    ensures (exists steps, a :: Run(Start(max, listener, revents), steps) &&
               MissesSomebody(After(Start(max, listener, revents), steps), a))
       <==> max >= 4
  {
    if max >= 4 {
      var steps := MissedBroadcastReachable(max, listener, revents);
      MissesSomebodyIff(After(Start(max, listener, revents), steps), CHUNK);
    } else {
      forall steps, a | Run(Start(max, listener, revents), steps) &&
                        HearsChunk(After(Start(max, listener, revents), steps), a)
        ensures !MissesSomebody(After(Start(max, listener, revents), steps), a)
      {
        StartInv(max, listener, revents);
        RunKeepsInv(Start(max, listener, revents), steps);
        ThreeSlotsHearOnlyWhenCompact(After(Start(max, listener, revents), steps), a);
        MissesSomebodyIff(After(Start(max, listener, revents), steps), a);
      }
    }
  }
}
