/** `join_all_threads` of the threaded host: its index rises while its bound, the client
    count, falls with every thread it joins. */
module ThreadedShutdown {
  import opened ThreadedHost

  /** The handlers that leave of themselves before the loop test, and between the test and
      the cancellation, of one iteration. */
  datatype Departures = Departures(beforeTest: seq<int>, beforeCancel: seq<int>)

  const NO_DEPARTURES := Departures([], [])

  function DeparturesAt(leaving: seq<Departures>, i: nat): Departures {
    if i < |leaving| then leaving[i] else NO_DEPARTURES
  }

  /** A handler that is still running removes its client and ends. */
  function LeaveIfRunning(s: State, h: int): (t: State)
    ensures |t.table.entries| == |s.table.entries| && t.table.count <= s.table.count
  {
    if h in s.running && h in s.sockets then Next(s, Leave(h)) else s
  }

  function LeaveAll(s: State, hs: seq<int>): (t: State)
    ensures |t.table.entries| == |s.table.entries| && t.table.count <= s.table.count
  {
    if hs == [] then s else LeaveIfRunning(LeaveAll(s, hs[..|hs| - 1]), hs[|hs| - 1])
  }

  /** The loop body at index `i`, up to the next test: the state it leaves and the thread
      it joined, if any. A thread that is no longer running is not joined; one that is
      runs its cleanup, and so `remove_client`, before `pthread_join` returns. */
  function JoinOne(s: State, i: nat, leaving: seq<Departures>): (r: (State, seq<int>))
    requires i < |s.table.entries|
    ensures |r.0.table.entries| == |s.table.entries|
  {
    var u := LeaveAll(s, DeparturesAt(leaving, i).beforeCancel);
    var h := u.table.entries[i].thread;
    (LeaveAll(LeaveIfRunning(u, h), DeparturesAt(leaving, i + 1).beforeTest),
     if h in u.running && h in u.sockets then [h] else [])
  }

  /** The loop from its test at index `i` on: the state it ends in and the threads it joined. */
  function JoinFrom(s: State, i: nat, leaving: seq<Departures>): (State, seq<int>)
    decreases |s.table.entries| - i
  {
    if i >= s.table.count || i >= |s.table.entries| then (s, [])
    else
      var (u, one) := JoinOne(s, i, leaving);
      var (t, more) := JoinFrom(u, i + 1, leaving);
      (t, one + more)
  }

  /** `join_all_threads`, up to the final reset of the count. */
  function JoinAll(s: State, leaving: seq<Departures>): (State, seq<int>) {
    JoinFrom(LeaveAll(s, DeparturesAt(leaving, 0).beforeTest), 0, leaving)
  }

  // ------------------------------------------------------------------------ in place

  /** Handlers leave one after the other. */
  method Depart(table: ClientTable, sockets: map<int, int>, running: set<int>, hs: seq<int>) returns (left: set<int>)
    modifies table, table.clients
    ensures State(table.View(), Waiting, sockets, left) ==
              LeaveAll(State(old(table.View()), Waiting, sockets, running), hs)
  {
    ghost var was := State(table.View(), Waiting, sockets, running);
    left := running;
    for i := 0 to |hs|
      invariant State(table.View(), Waiting, sockets, left) == LeaveAll(was, hs[..i])
    {
      assert hs[..i + 1][..i] == hs[..i];
      if hs[i] in left && hs[i] in sockets {
        table.Remove(sockets[hs[i]]);
        left := left - {hs[i]};
      }
    }
    assert hs[..|hs|] == hs;
  }

  /** `pthread_cancel` and `pthread_join` of the thread that entry `i` names. */
  method JoinEntry(table: ClientTable, sockets: map<int, int>, running: set<int>, i: nat)
    returns (joined: seq<int>, left: set<int>)
    requires i < table.clients.Length
    modifies table, table.clients
    ensures var s, h := State(old(table.View()), Waiting, sockets, running), old(table.clients[i].thread);
            && State(table.View(), Waiting, sockets, left) == LeaveIfRunning(s, h)
            && joined == if h in running && h in sockets then [h] else []
  {
    var h := table.clients[i].thread;
    joined, left := [], running;
    if h in running && h in sockets {
      table.Remove(sockets[h]);
      joined, left := [h], running - {h};
    }
  }

  /** `join_all_threads`. */
  method JoinAllThreads(table: ClientTable, sockets: map<int, int>, running: set<int>, leaving: seq<Departures>)
    returns (joined: seq<int>, left: set<int>)
    requires table.clientCount <= table.clients.Length
    modifies table, table.clients
    ensures var (t, js) := JoinAll(State(old(table.View()), Waiting, sockets, running), leaving);
            joined == js && left == t.running && table.View() == t.table.(count := 0)
  {
    ghost var goal := JoinAll(State(table.View(), Waiting, sockets, running), leaving);
    joined := [];
    var i := 0;
    left := Depart(table, sockets, running, DeparturesAt(leaving, 0).beforeTest);
    assert [] + goal.1 == goal.1;
    while i < table.clientCount
      invariant 0 <= i && table.clientCount <= table.clients.Length
      invariant Remaining(State(table.View(), Waiting, sockets, left), i, leaving, joined) == goal
      decreases table.clients.Length - i
    {
      RemainingStep(State(table.View(), Waiting, sockets, left), i, leaving, joined);
      left := Depart(table, sockets, left, DeparturesAt(leaving, i).beforeCancel);
      var one;
      one, left := JoinEntry(table, sockets, left, i);
      joined := joined + one;
      i := i + 1;
      left := Depart(table, sockets, left, DeparturesAt(leaving, i).beforeTest);
    }
    table.clientCount := 0;
  }

  /** What the loop ends with if it stands before the test at `i` and has joined `joined`. */
  ghost function Remaining(s: State, i: nat, leaving: seq<Departures>, joined: seq<int>): (State, seq<int>) {
    var (t, more) := JoinFrom(s, i, leaving);
    (t, joined + more)
  }

  lemma RemainingStep(s: State, i: nat, leaving: seq<Departures>, joined: seq<int>)
    requires i < s.table.count && i < |s.table.entries|
    ensures var (u, one) := JoinOne(s, i, leaving);
            Remaining(s, i, leaving, joined) == Remaining(u, i + 1, leaving, joined + one)
  {
    var (u, one) := JoinOne(s, i, leaving);
    var more := JoinFrom(u, i + 1, leaving).1;
    assert (joined + one) + more == joined + (one + more);
  }

  // ----------------------------------------------------------------- at most half, ever

  /** Running handlers hold different sockets, an occupied entry names the thread that
      serves its socket, and a thread whose counted entry is vacant has left. */
  ghost predicate Tidy(s: State) {
    && s.table.count <= |s.table.entries|
    && (forall h :: h in s.running ==> h in s.sockets && s.sockets[h] >= 0)
    && (forall g, h :: g in s.running && h in s.running && g != h ==> s.sockets[g] != s.sockets[h])
    && (forall i :: 0 <= i < |s.table.entries| ==> TidyEntry(s, i))
  }

  ghost predicate TidyEntry(s: State, i: nat)
    requires i < |s.table.entries|
  {
    var e := s.table.entries[i];
    if e.socket >= 0 then e.thread in s.sockets && s.sockets[e.thread] == e.socket
    else i < s.table.count ==> e.thread in s.sockets && e.thread !in s.running
  }

  /** No arrival of the run is given the socket number of a handler still running. */
  ghost predicate FreshRun(s: State, steps: seq<Step>)
    requires Run(s, steps)
    decreases |steps|
  {
    steps == [] || (
      && (steps[0].Arrive? ==> Unused(s, steps[0].socket))
      && FreshRun(Next(s, steps[0]), steps[1..]))
  }

  ghost predicate Unused(s: State, socket: int) {
    forall h :: h in s.running && h in s.sockets ==> s.sockets[h] != socket
  }

  lemma FreshStepKeepsTidy(s: State, step: Step)
    requires Inv(s) && Tidy(s) && (s.accepting.Admitted? ==> Unused(s, s.accepting.socket))
    requires Enabled(s, step) && (step.Arrive? ==> Unused(s, step.socket))
    ensures var t := Next(s, step);
            Tidy(t) && (t.accepting.Admitted? ==> Unused(t, t.accepting.socket))
  {
    StepKeepsInv(s, step);
    var t := Next(s, step);
    forall i | 0 <= i < |t.table.entries| ensures TidyEntry(t, i) {
      assert TidyEntry(s, i);
      assert EntryOk(t, t.table.entries[i], i);
    }
  }

  lemma {:induction false} FreshRunKeepsTidy(s: State, steps: seq<Step>)
    requires Inv(s) && Tidy(s) && (s.accepting.Admitted? ==> Unused(s, s.accepting.socket))
    requires Run(s, steps) && FreshRun(s, steps)
    ensures Tidy(After(s, steps))
    decreases |steps|
  {
    if steps != [] {
      FreshStepKeepsTidy(s, steps[0]);
      StepKeepsInv(s, steps[0]);
      FreshRunKeepsTidy(Next(s, steps[0]), steps[1..]);
    }
  }

  /** Every state reached without giving out a running handler's socket again is tidy. */
  lemma ReachableIsTidy(max: nat, steps: seq<Step>)
    requires Run(Start(max), steps) && FreshRun(Start(max), steps)
    ensures Tidy(After(Start(max), steps)) && After(Start(max), steps).table.count >= 0
  {
    StartInv(max);
    RunKeepsInv(Start(max), steps);
    FreshRunKeepsTidy(Start(max), steps);
  }

  lemma LeaveKeepsTidy(s: State, h: int)
    requires Tidy(s)
    ensures Tidy(LeaveIfRunning(s, h)) && LeaveIfRunning(s, h).table.count <= s.table.count
    ensures LeaveIfRunning(s, h).sockets == s.sockets
  {
    var t := LeaveIfRunning(s, h);
    forall i | 0 <= i < |t.table.entries| ensures TidyEntry(t, i) {
      assert TidyEntry(s, i);
    }
  }

  lemma {:induction false} LeaveAllKeepsTidy(s: State, hs: seq<int>)
    requires Tidy(s)
    ensures Tidy(LeaveAll(s, hs)) && LeaveAll(s, hs).table.count <= s.table.count
    decreases |hs|
  {
    if hs != [] {
      LeaveAllKeepsTidy(s, hs[..|hs| - 1]);
      LeaveKeepsTidy(LeaveAll(s, hs[..|hs| - 1]), hs[|hs| - 1]);
    }
  }

  /** Joining the running thread that entry `i` names lowers the count. */
  lemma JoinLowersCount(s: State, i: nat)
    requires Tidy(s) && i < s.table.count && s.table.entries[i].thread in s.running
    ensures LeaveIfRunning(s, s.table.entries[i].thread).table.count < s.table.count
  {
    var h := s.table.entries[i].thread;
    assert TidyEntry(s, i);
    MatchesNone(s.table.entries, s.sockets[h]);
  }

  lemma {:induction false} JoinsBounded(s: State, i: nat, leaving: seq<Departures>)
    requires Tidy(s)
    ensures i <= s.table.count ==> 2 * |JoinFrom(s, i, leaving).1| <= s.table.count - i + 1
    ensures i > s.table.count ==> JoinFrom(s, i, leaving).1 == []
    decreases |s.table.entries| - i
  {
    if i < s.table.count {
      var u := LeaveAll(s, DeparturesAt(leaving, i).beforeCancel);
      LeaveAllKeepsTidy(s, DeparturesAt(leaving, i).beforeCancel);
      var h := u.table.entries[i].thread;
      LeaveKeepsTidy(u, h);
      if h in u.running && i < u.table.count {
        JoinLowersCount(u, i);
      }
      var v := LeaveIfRunning(u, h);
      LeaveAllKeepsTidy(v, DeparturesAt(leaving, i + 1).beforeTest);
      JoinsBounded(LeaveAll(v, DeparturesAt(leaving, i + 1).beforeTest), i + 1, leaving);
    }
  }

  /** However full of holes the table is and whoever leaves meanwhile, shutdown joins at
      most ceil(n/2) threads, n being the client count. */
  lemma ShutdownJoinsAtMostHalf(s: State, leaving: seq<Departures>)
    requires Tidy(s) && s.table.count >= 0
    ensures 2 * |JoinAll(s, leaving).1| <= s.table.count + 1
  {
    LeaveAllKeepsTidy(s, DeparturesAt(leaving, 0).beforeTest);
    JoinsBounded(LeaveAll(s, DeparturesAt(leaving, 0).beforeTest), 0, leaving);
  }

  lemma {:induction false} LeaveAllKeepsThreads(s: State, hs: seq<int>)
    ensures forall i :: 0 <= i < |s.table.entries| ==>
              LeaveAll(s, hs).table.entries[i].thread == s.table.entries[i].thread
    decreases |hs|
  {
    if hs != [] {
      LeaveAllKeepsThreads(s, hs[..|hs| - 1]);
    }
  }

  /** A thread that no entry names, because it was overwritten or not listed yet, is never
      joined, whoever leaves meanwhile. */
  lemma {:induction false} UnnamedNeverJoined(s: State, i: nat, leaving: seq<Departures>, h: int)
    requires forall j :: 0 <= j < |s.table.entries| ==> s.table.entries[j].thread != h
    ensures h !in JoinFrom(s, i, leaving).1
    decreases |s.table.entries| - i
  {
    if i < s.table.count && i < |s.table.entries| {
      var u := LeaveAll(s, DeparturesAt(leaving, i).beforeCancel);
      LeaveAllKeepsThreads(s, DeparturesAt(leaving, i).beforeCancel);
      var v := LeaveIfRunning(u, u.table.entries[i].thread);
      LeaveAllKeepsThreads(v, DeparturesAt(leaving, i + 1).beforeTest);
      UnnamedNeverJoined(LeaveAll(v, DeparturesAt(leaving, i + 1).beforeTest), i + 1, leaving, h);
    }
  }
}
