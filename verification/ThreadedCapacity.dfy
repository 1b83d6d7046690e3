/** How the threaded host's table runs out. A client whose handler leaves before
    `add_client` is listed after all, by a socket that no running thread will remove; a
    newcomer may overwrite a client that is still there. Together these can take every
    place, and then nobody is admitted ever again. */
module ThreadedCapacity {
  import opened ThreadedHost

  lemma {:induction false} Extend(s: State, steps: seq<Step>, step: Step)
    requires Run(s, steps) && Enabled(After(s, steps), step)
    ensures Run(s, steps + [step]) && After(s, steps + [step]) == Next(After(s, steps), step)
    decreases |steps|
  {
    if steps == [] {
      assert ([] + [step])[1..] == [];
      assert Run(Next(s, step), []) && After(Next(s, step), []) == Next(s, step);
    } else {
      assert (steps + [step])[1..] == steps[1..] + [step];
      Extend(Next(s, steps[0]), steps[1..], step);
    }
  }

  // ----------------------------------------------------------------- when it locks out

  /** Some entry lists the socket of handler thread `h`. */
  ghost predicate Listed(s: State, h: int) {
    h in s.sockets && exists i :: 0 <= i < |s.table.entries| && s.table.entries[i].socket == s.sockets[h]
  }

  /** The table counts as full and no running handler would take anything off the count. */
  ghost predicate LockedOut(s: State) {
    && s.accepting.Waiting?
    && s.table.count >= |s.table.entries|
    && forall h :: h in s.running ==> !Listed(s, h)
  }

  lemma LockedOutStep(s: State, step: Step)
    requires LockedOut(s) && Enabled(s, step)
    ensures LockedOut(Next(s, step)) && Next(s, step).table == s.table
  {
    if step.Leave? {
      var socket := s.sockets[step.thread];
      assert !Listed(s, step.thread);
      MatchesNone(s.table.entries, socket);
      assert VacateAll(s.table.entries, socket) == s.table.entries;
      var t := Next(s, step);
      forall h | h in t.running ensures !Listed(t, h) {
        assert !Listed(s, h);
      }
    }
  }

  /** Once locked out, the table never changes again and nobody is admitted. */
  lemma {:induction false} LockedOutForever(s: State, steps: seq<Step>)
    requires LockedOut(s) && Run(s, steps)
    ensures LockedOut(After(s, steps)) && After(s, steps).table == s.table
    decreases |steps|
  {
    if steps != [] {
      LockedOutStep(s, steps[0]);
      LockedOutForever(Next(s, steps[0]), steps[1..]);
    }
  }

  /** From a reachable state with nobody at the door, some continuation admits a newcomer
      if and only if the count leaves room or a running handler's socket is listed. */
  lemma AdmissionPossibleIff(s: State)
    requires Inv(s) && s.accepting.Waiting?
    ensures (exists steps :: Run(s, steps) && After(s, steps).accepting.Admitted?)
       <==> s.table.count < |s.table.entries| || (exists h :: h in s.running && Listed(s, h))
  {
    if s.table.count < |s.table.entries| {
      assert Run(s, []);
      Extend(s, [], Arrive(0));
    } else if h :| h in s.running && Listed(s, h) {
      MatchesNone(s.table.entries, s.sockets[h]);
      assert Run(s, []);
      Extend(s, [], Leave(h));
      Extend(s, [] + [Leave(h)], Arrive(0));
    } else {
      forall steps | Run(s, steps) ensures !After(s, steps).accepting.Admitted? {
        LockedOutForever(s, steps);
      }
    }
  }

  // ------------------------------------------------------------------- that it happens

  /** `accept` returns the lowest number not in use, counted from the first number that is
      free when no client is connected. */
  ghost predicate LowestFree(s: State, socket: int) {
    && socket >= 0
    && (forall h :: h in s.running && h in s.sockets ==> s.sockets[h] != socket)
    && (forall x :: 0 <= x < socket ==> InUse(s, x))
  }

  ghost predicate InUse(s: State, x: int) {
    exists h :: h in s.running && h in s.sockets && s.sockets[h] == x
  }

  /** Every arrival of the run gets the lowest free number. */
  ghost predicate LowestRun(s: State, steps: seq<Step>)
    decreases |steps|
  {
    steps == [] || (
      && Enabled(s, steps[0])
      && (steps[0].Arrive? ==> LowestFree(s, steps[0].socket))
      && LowestRun(Next(s, steps[0]), steps[1..]))
  }

  lemma {:induction false} LowestRunIsRun(s: State, steps: seq<Step>)
    requires LowestRun(s, steps)
    ensures Run(s, steps)
    decreases |steps|
  {
    if steps != [] {
      LowestRunIsRun(Next(s, steps[0]), steps[1..]);
    }
  }

  /** Such a run from `s` ends in `t`. */
  ghost predicate Reaches(s: State, steps: seq<Step>, t: State) {
    LowestRun(s, steps) && Run(s, steps) && After(s, steps) == t
  }

  lemma {:induction false} ReachNext(s: State, steps: seq<Step>, t: State, step: Step)
    requires Reaches(s, steps, t) && Enabled(t, step) && (step.Arrive? ==> LowestFree(t, step.socket))
    ensures Reaches(s, steps + [step], Next(t, step))
    decreases |steps|
  {
    Extend(s, steps, step);
    if steps == [] {
      assert ([] + [step])[1..] == [];
      assert LowestRun(Next(s, step), []);
    } else {
      assert (steps + [step])[1..] == steps[1..] + [step];
      ReachNext(Next(s, steps[0]), steps[1..], t, step);
    }
  }

  /** A new client is admitted, started and listed. */
  lemma JoinClient(s: State, steps: seq<Step>, t: State, socket: nat, thread: int) returns (longer: seq<Step>)
    requires Reaches(s, steps, t)
    requires t.accepting.Waiting? && thread !in t.sockets && 0 <= t.table.count < |t.table.entries|
    requires LowestFree(t, socket)
    ensures Reaches(s, longer, State(AddClient(t.table, thread, socket), Waiting,
                                     t.sockets[thread := socket], t.running + {thread}))
  {
    var admitted := Next(t, Arrive(socket));
    var started := Next(admitted, Spawn(true, thread));
    ReachNext(s, steps, t, Arrive(socket));
    ReachNext(s, steps + [Arrive(socket)], admitted, Spawn(true, thread));
    ReachNext(s, steps + [Arrive(socket)] + [Spawn(true, thread)], started, Enter);
    longer := steps + [Arrive(socket)] + [Spawn(true, thread)] + [Enter];
  }

  /** Clients `0..n` have joined, in order. */
  ghost predicate Filled(s: State, n: nat) {
    && s.accepting.Waiting? && s.table.count == n <= |s.table.entries|
    && (forall i :: 0 <= i < |s.table.entries| ==> s.table.entries[i].socket == if i < n then i else -1)
    && (forall h :: h in s.sockets <==> 0 <= h < n)
    && (forall h :: h in s.running <==> 0 <= h < n)
    && (forall h :: 0 <= h < n ==> s.sockets[h] == h)
  }

  lemma {:induction false} Fill(max: nat, n: nat) returns (steps: seq<Step>, t: State)
    requires n <= max
    ensures Reaches(Start(max), steps, t) && Filled(t, n) && |t.table.entries| == max
    decreases n
  {
    if n == 0 {
      steps, t := [], Start(max);
    } else {
      var before, u := Fill(max, n - 1);
      forall x | 0 <= x < n - 1 ensures InUse(u, x) {
        assert x in u.running && u.sockets[x] == x;
      }
      steps := JoinClient(Start(max), before, u, n - 1, n - 1);
      t := After(Start(max), steps);
    }
  }

  /** A full table whose first `k` clients have left, each replaced by a newcomer on the
      same socket number that overwrote the last entry. Thread `h` is the h-th client to arrive. */
  ghost predicate Thinned(s: State, k: nat) {
    var last := |s.table.entries| - 1;
    && s.accepting.Waiting? && k <= last && s.table.count == last + 1
    && (forall i :: 0 <= i < last ==> s.table.entries[i].socket == if i < k then -1 else i)
    && s.table.entries[last].socket == (if k == 0 then last else k - 1)
    && (forall h :: h in s.running <==> k <= h <= last + k)
    && (forall h :: h in s.sockets ==> h <= last + k)
    && (forall h :: k <= h <= last + k ==> h in s.sockets && s.sockets[h] == if h <= last then h else h - last - 1)
  }

  /** After the k-th client has left, its socket number is the lowest free one. */
  lemma FreedIsLowest(s: State, k: nat)
    requires Thinned(s, k) && k + 1 < |s.table.entries|
    ensures LowestFree(Next(s, Leave(k)), k)
  {
    var t := Next(s, Leave(k));
    var last := |s.table.entries| - 1;
    forall x | 0 <= x < k ensures InUse(t, x) {
      assert last + 1 + x in t.running && t.sockets[last + 1 + x] == x;
    }
  }

  lemma Thin(s: State, steps: seq<Step>, t: State, k: nat) returns (longer: seq<Step>, u: State)
    requires Reaches(s, steps, t) && Thinned(t, k) && k + 1 < |t.table.entries|
    ensures Reaches(s, longer, u) && Thinned(u, k + 1) && |u.table.entries| == |t.table.entries|
  {
    OneMatch(t.table.entries, k, k);
    ReachNext(s, steps, t, Leave(k));
    FreedIsLowest(t, k);
    longer := JoinClient(s, steps + [Leave(k)], Next(t, Leave(k)), k, |t.table.entries| + k);
    u := After(s, longer);
  }

  lemma {:induction false} ThinAll(max: nat, k: nat) returns (steps: seq<Step>, t: State)
    requires k < max
    ensures Reaches(Start(max), steps, t) && Thinned(t, k) && |t.table.entries| == max
    decreases k
  {
    if k == 0 {
      steps, t := Fill(max, max);
    } else {
      var before, u := ThinAll(max, k - 1);
      steps, t := Thin(Start(max), before, u, k - 1);
    }
  }

  lemma {:induction false} OneOccupied(es: seq<Entry>)
    requires es != [] && forall i :: 0 <= i < |es| ==> (es[i].socket >= 0 <==> i == |es| - 1)
    ensures Occupied(es) == 1
  {
    NoneOccupied(es[..|es| - 1]);
  }

  lemma {:induction false} NoneOccupied(es: seq<Entry>)
    requires forall i :: 0 <= i < |es| ==> es[i].socket < 0
    ensures Occupied(es) == 0
  {
    if es != [] {
      NoneOccupied(es[..|es| - 1]);
    }
  }

  /** The bound on places lost to overwriting is met: for every table size some run
      overwrites its way down to a single usable place. */
  lemma OverwritingCanTakeAllButOne(max: nat) returns (steps: seq<Step>)
    requires max > 0
    ensures LowestRun(Start(max), steps) && Run(Start(max), steps)
    ensures Waste(After(Start(max), steps).table) == max - 1
  {
    var t;
    steps, t := ThinAll(max, max - 1);
    OneOccupied(t.table.entries);
  }

  /** The one client still listed leaves; the next one leaves before it is added. */
  lemma LoseLastPlace(s: State, steps: seq<Step>, t: State, k: nat) returns (longer: seq<Step>, u: State)
    requires Reaches(s, steps, t) && Thinned(t, k) && k + 1 == |t.table.entries|
    ensures Reaches(s, longer, u) && LockedOut(u) && |u.table.entries| == |t.table.entries|
  {
    var socket := t.table.entries[k].socket;
    OneMatch(t.table.entries, k, socket);
    var a := Next(t, Leave(k + k));
    ReachNext(s, steps, t, Leave(k + k));
    forall x | 0 <= x < socket ensures InUse(a, x) {
      assert k + 1 + x in a.running && a.sockets[k + 1 + x] == x;
    }
    var b := Next(a, Arrive(socket));
    ReachNext(s, steps + [Leave(k + k)], a, Arrive(socket));
    var thread := k + k + 1;
    var c := Next(b, Spawn(true, thread));
    ReachNext(s, steps + [Leave(k + k)] + [Arrive(socket)], b, Spawn(true, thread));
    var d := Next(c, Leave(thread));
    ReachNext(s, steps + [Leave(k + k)] + [Arrive(socket)] + [Spawn(true, thread)], c, Leave(thread));
    MatchesNone(c.table.entries, socket);
    assert d.table.entries == c.table.entries;
    u := Next(d, Enter);
    longer := steps + [Leave(k + k)] + [Arrive(socket)] + [Spawn(true, thread)] + [Leave(thread)];
    ReachNext(s, longer, d, Enter);
    longer := longer + [Enter];
  }

  lemma SomeThread(running: set<int>) returns (h: int)
    requires running != {}
    ensures h in running
  {
    assert (forall x :: x !in running) ==> running == {};
    h :| h in running;
  }

  lemma {:induction false} EverybodyLeaves(s: State, steps: seq<Step>, t: State) returns (longer: seq<Step>, u: State)
    requires Reaches(s, steps, t) && LockedOut(t) && forall h :: h in t.running ==> h in t.sockets
    ensures Reaches(s, longer, u) && LockedOut(u) && u.table == t.table && u.running == {}
    decreases |t.running|
  {
    if t.running == {} {
      longer, u := steps, t;
    } else {
      var h := SomeThread(t.running);
      LockedOutStep(t, Leave(h));
      ReachNext(s, steps, t, Leave(h));
      longer, u := EverybodyLeaves(s, steps + [Leave(h)], Next(t, Leave(h)));
    }
  }

  /** For every table size some run, even with socket numbers handed out lowest first,
      ends with nobody connected and the table full for ever: every newcomer is refused
      in every continuation. */
  lemma LockOutReachable(max: nat) returns (steps: seq<Step>)
    requires max > 0
    ensures LowestRun(Start(max), steps) && Run(Start(max), steps)
    ensures var s := After(Start(max), steps);
            && s.running == {} && LockedOut(s)
            && forall more :: Run(s, more) ==> !After(s, more).accepting.Admitted?
  {
    var thinned, t := ThinAll(max, max - 1);
    var lost, u := LoseLastPlace(Start(max), thinned, t, max - 1);
    StartInv(max);
    RunKeepsInv(Start(max), lost);
    var v;
    steps, v := EverybodyLeaves(Start(max), lost, u);
    forall more | Run(v, more) ensures !After(v, more).accepting.Admitted? {
      LockedOutForever(v, more);
    }
  }
}
