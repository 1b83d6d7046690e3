/** The threaded host's client table (`probe/host-threaded.c`). Each call of
    `add_client` and `remove_client` is one atomic step; the capacity check, the thread
    creation and the add are separate steps of the accept thread, with removals by
    handler threads falling anywhere between them. */
module ThreadedHost {

  datatype Entry = Entry(isConnected: bool, id: int, socket: int, thread: int)

  datatype Table = Table(entries: seq<Entry>, count: int)

  const VACANT := Entry(false, -1, -1, 0)

  /** `add_client`. */
  function AddClient(t: Table, thread: int, socket: int): Table
    requires 0 <= t.count < |t.entries|
  {
    Table(t.entries[t.count := Entry(true, t.count, socket, thread)], t.count + 1)
  }

  function Vacate(e: Entry): Entry {
    e.(isConnected := false, id := -1, socket := -1)
  }

  function Matches(es: seq<Entry>, socket: int): nat {
    if es == [] then 0
    else Matches(es[..|es| - 1], socket) + if es[|es| - 1].socket == socket then 1 else 0
  }

  function VacateAll(es: seq<Entry>, socket: int): (r: seq<Entry>)
    ensures |r| == |es|
    ensures forall i :: 0 <= i < |es| ==> r[i] == if es[i].socket == socket then Vacate(es[i]) else es[i]
  {
    seq(|es|, i requires 0 <= i < |es| => if es[i].socket == socket then Vacate(es[i]) else es[i])
  }

  /** `remove_client`: every entry with the socket goes, and each lowers the count. */
  function RemoveClient(t: Table, socket: int): Table {
    Table(VacateAll(t.entries, socket), t.count - Matches(t.entries, socket))
  }

  function Occupied(es: seq<Entry>): nat {
    if es == [] then 0
    else Occupied(es[..|es| - 1]) + if es[|es| - 1].socket >= 0 then 1 else 0
  }

  // ---------------------------------------------------------------- the table in place

  class ClientTable {
    const clients: array<Entry>
    var clientCount: int

    ghost function View(): Table
      reads this, clients
    {
      Table(clients[..], clientCount)
    }

    /** The zeroed globals, then `clients_init`. */
    constructor (max: nat)
      ensures fresh(clients) && View() == Table(seq(max, i => VACANT), 0)
    {
      clients := new Entry[max](_ => Entry(false, 0, 0, 0));
      clientCount := 0;
      new;
      var n := 0;
      while n < max
        invariant 0 <= n <= max && clientCount == 0
        invariant forall i :: 0 <= i < n ==> clients[i] == VACANT
        invariant forall i :: n <= i < max ==> clients[i] == Entry(false, 0, 0, 0)
      {
        clients[n] := Entry(false, -1, -1, 0);
        n := n + 1;
      }
      assert clients[..] == seq(max, i => VACANT);
    }

    method Add(thread: int, socket: int)
      requires 0 <= clientCount < clients.Length
      modifies this, clients
      ensures View() == AddClient(old(View()), thread, socket)
    {
      clients[clientCount] := clients[clientCount].(thread := thread);
      clients[clientCount] := clients[clientCount].(socket := socket);
      clients[clientCount] := clients[clientCount].(id := clientCount);
      clients[clientCount] := clients[clientCount].(isConnected := true);
      clientCount := clientCount + 1;
    }

    method Remove(socket: int)
      modifies this, clients
      ensures View() == RemoveClient(old(View()), socket)
    {
      ghost var was := View();
      for n := 0 to clients.Length
        invariant clientCount == was.count - Matches(was.entries[..n], socket)
        invariant forall i :: 0 <= i < n ==> clients[i] == VacateAll(was.entries, socket)[i]
        invariant forall i :: n <= i < clients.Length ==> clients[i] == was.entries[i]
      {
        assert was.entries[..n + 1][..n] == was.entries[..n];
        if clients[n].socket == socket {
          clients[n] := Vacate(clients[n]);
          clientCount := clientCount - 1;
        }
      }
      assert was.entries[..clients.Length] == was.entries;
      assert clients[..] == VacateAll(was.entries, socket);
    }
  }

  // ----------------------------------------------------------------------- counting

  lemma {:induction false} OccupiedUpdate(es: seq<Entry>, i: nat, e: Entry)
    requires i < |es|
    ensures Occupied(es[i := e]) == Occupied(es) - (if es[i].socket >= 0 then 1 else 0) + (if e.socket >= 0 then 1 else 0)
  {
    var last := |es| - 1;
    if i == last {
      assert es[i := e][..last] == es[..last];
    } else {
      assert es[i := e][..last] == es[..last][i := e];
      OccupiedUpdate(es[..last], i, e);
    }
  }

  /** Removing a socket frees as many entries as it takes off the count. */
  lemma {:induction false} OccupiedAfterRemove(es: seq<Entry>, socket: int)
    requires socket >= 0
    ensures Occupied(VacateAll(es, socket)) == Occupied(es) - Matches(es, socket)
  {
    if es != [] {
      var last := |es| - 1;
      OccupiedAfterRemove(es[..last], socket);
      assert VacateAll(es, socket)[..last] == VacateAll(es[..last], socket);
    }
  }

  lemma {:induction false} OccupiedBounds(es: seq<Entry>)
    ensures Occupied(es) <= |es|
    ensures forall i :: 0 <= i < |es| && es[i].socket >= 0 ==> Occupied(es) >= 1
  {
    if es != [] {
      OccupiedBounds(es[..|es| - 1]);
      assert forall i :: 0 <= i < |es| - 1 ==> es[..|es| - 1][i] == es[i];
    }
  }

  // ------------------------------------------------------------------ interleavings

  /** Where the accept thread stands: about to check, about to create a thread, or about to add. */
  datatype Accepting = Waiting | Admitted(socket: int) | Started(socket: int, thread: int)

  /** `sockets` gives the socket of every handler thread ever created, since no thread
      number is reused before a join; `running` holds those that have not left. */
  datatype State = State(table: Table, accepting: Accepting, sockets: map<int, int>, running: set<int>)

  datatype Step =
    | Arrive(socket: int)              // accept, then the capacity check
    | Spawn(created: bool, thread: int)
    | Enter                            // add_client
    | Leave(thread: int)               // a handler's remove_client

  ghost predicate Enabled(s: State, step: Step) {
    match step
    case Arrive(socket) => s.accepting.Waiting? && socket >= 0
    case Spawn(_, thread) => s.accepting.Admitted? && thread !in s.sockets
    case Enter => s.accepting.Started?
    case Leave(thread) => thread in s.running && thread in s.sockets
  }

  /** An `Enter` that would write outside the table is left undefined here, as a step that
      changes nothing; `EveryInterleaving` shows that none occurs. */
  function Next(s: State, step: Step): State
    requires step.Leave? ==> step.thread in s.sockets
    requires step.Spawn? ==> s.accepting.Admitted?
    requires step.Enter? ==> s.accepting.Started?
  {
    match step
    case Arrive(socket) =>
      if s.table.count + 1 > |s.table.entries| then s else s.(accepting := Admitted(socket))
    case Spawn(created, thread) =>
      if created
      then s.(accepting := Started(s.accepting.socket, thread),
              sockets := s.sockets[thread := s.accepting.socket], running := s.running + {thread})
      else s.(accepting := Waiting)
    case Enter =>
      if 0 <= s.table.count < |s.table.entries|
      then s.(accepting := Waiting, table := AddClient(s.table, s.accepting.thread, s.accepting.socket))
      else s
    case Leave(thread) =>
      s.(table := RemoveClient(s.table, s.sockets[thread]), running := s.running - {thread})
  }

  ghost predicate Run(s: State, steps: seq<Step>)
    decreases |steps|
  {
    steps == [] || (Enabled(s, steps[0]) && Run(Next(s, steps[0]), steps[1..]))
  }

  ghost function After(s: State, steps: seq<Step>): State
    requires Run(s, steps)
    decreases |steps|
  {
    if steps == [] then s else After(Next(s, steps[0]), steps[1..])
  }

  function Start(max: nat): State {
    State(Table(seq(max, i => VACANT), 0), Waiting, map[], {})
  }

  /** Places counted as taken that list nobody. Entries that list a client whose handler
      has already left are not among them: they come on top. */
  function Waste(t: Table): int {
    t.count - Occupied(t.entries)
  }

  ghost predicate Inv(s: State) {
    && 0 <= Occupied(s.table.entries) <= s.table.count <= |s.table.entries|
    && (|s.table.entries| > 0 ==> Waste(s.table) < |s.table.entries|)
    && (!s.accepting.Waiting? ==> s.table.count < |s.table.entries| && s.accepting.socket >= 0)
    && (s.accepting.Started? ==>
          s.accepting.thread in s.sockets && s.sockets[s.accepting.thread] == s.accepting.socket)
    && (forall h :: h in s.sockets ==> s.sockets[h] >= 0)
    && (forall h :: h in s.running ==> h in s.sockets)
    && (forall i :: 0 <= i < |s.table.entries| ==> EntryOk(s, s.table.entries[i], i))
  }

  /** An occupied entry knows its place, and the thread it names serves its socket. */
  ghost predicate EntryOk(s: State, e: Entry, i: nat) {
    if e.socket >= 0
    then e.isConnected && e.id == i && e.thread in s.sockets && s.sockets[e.thread] == e.socket
    else !e.isConnected && e.socket == -1 && e.id == -1
  }

  /** The step overwrites a client that is still in the table. */
  predicate Overwrites(s: State, step: Step) {
    step.Enter? && 0 <= s.table.count < |s.table.entries| && s.table.entries[s.table.count].socket >= 0
  }

  lemma StepKeepsInv(s: State, step: Step)
    requires Inv(s) && Enabled(s, step)
    ensures Inv(Next(s, step)) && |Next(s, step).table.entries| == |s.table.entries|
    ensures Waste(Next(s, step).table) == Waste(s.table) + if Overwrites(s, step) then 1 else 0
  {
    match step {
      case Enter =>
        OccupiedUpdate(s.table.entries, s.table.count,
                       Entry(true, s.table.count, s.accepting.socket, s.accepting.thread));
        OccupiedBounds(s.table.entries);
      case Leave(thread) =>
        OccupiedAfterRemove(s.table.entries, s.sockets[thread]);
        OccupiedBounds(s.table.entries);
      case _ =>
    }
  }

  // ------------------------------------------------------------------ one client's way

  /** The whole effect of a step: somebody at the door goes on exactly if there is room and
      only if a thread was created; he is entered at the old count with his own thread and
      socket, and leaving clears the entries that list the socket of the one who leaves. */
  ghost predicate Effect(s: State, step: Step, t: State)
    requires Enabled(s, step)
  {
    match step
    case Arrive(socket) =>
      && t.accepting == (if s.table.count < |s.table.entries| then Admitted(socket) else Waiting)
      && t.table == s.table && t.sockets == s.sockets && t.running == s.running
    case Spawn(created, thread) =>
      && t.accepting == (if created then Started(s.accepting.socket, thread) else Waiting)
      && t.table == s.table
      && t.running - s.running == (if created then {thread} - s.running else {}) && s.running <= t.running
      && t.sockets == (if created then map[thread := s.accepting.socket] + s.sockets else s.sockets)
    case Enter =>
      && t.accepting == Waiting && t.sockets == s.sockets && t.running == s.running
      && |t.table.entries| == |s.table.entries| && t.table.count == s.table.count + 1
      && (forall i :: 0 <= i < |t.table.entries| ==>
            t.table.entries[i] == if i == s.table.count
                                  then Entry(true, i, s.accepting.socket, s.accepting.thread)
                                  else s.table.entries[i])
    case Leave(thread) =>
      && t.accepting == s.accepting && t.sockets == s.sockets
      && t.running == (set h | h in s.running && h != thread)
      && |t.table.entries| == |s.table.entries|
      && Occupied(t.table.entries) - t.table.count == Occupied(s.table.entries) - s.table.count
      && (forall i :: 0 <= i < |t.table.entries| ==>
            t.table.entries[i] == if s.table.entries[i].socket == s.sockets[thread]
                                  then Entry(false, -1, -1, s.table.entries[i].thread)
                                  else s.table.entries[i])
  }

  lemma StepHasEffect(s: State, step: Step)
    requires Inv(s) && Enabled(s, step)
    ensures Effect(s, step, Next(s, step))
  {
    StepKeepsInv(s, step);
  }

  /** If no thread can be created for a newcomer, nothing at all has changed. */
  lemma GivenUpLeavesNoTrace(s: State, socket: int, thread: int)
    requires Inv(s) && Enabled(s, Arrive(socket)) && s.table.count < |s.table.entries|
    ensures Next(Next(s, Arrive(socket)), Spawn(false, thread)) == s
  {
  }

  /** A client who is entered in a vacant place under an unlisted socket, and then leaves,
      leaves only his thread number behind. */
  lemma ComesAndGoes(s: State, socket: int, thread: int)
    requires Inv(s) && Enabled(s, Arrive(socket)) && s.table.count < |s.table.entries|
    requires thread !in s.sockets && s.table.entries[s.table.count].socket == -1
    requires forall i :: 0 <= i < |s.table.entries| ==> s.table.entries[i].socket != socket
    ensures var entered := Next(Next(Next(s, Arrive(socket)), Spawn(true, thread)), Enter);
            && Enabled(entered, Leave(thread))
            && var t := Next(entered, Leave(thread));
            && t.table.count == s.table.count && t.running == s.running && t.accepting == s.accepting
            && t.table.entries == s.table.entries[s.table.count := s.table.entries[s.table.count].(thread := thread)]
  {
    var c, es := s.table.count, s.table.entries;
    var entered := Next(Next(Next(s, Arrive(socket)), Spawn(true, thread)), Enter);
    OneMatch(entered.table.entries, c, socket);
    assert EntryOk(s, es[c], c);
    var left := Next(entered, Leave(thread));
    assert left.table.entries == es[c := es[c].(thread := thread)];
    assert left.running == s.running;
  }

  ghost function OverwriteCount(s: State, steps: seq<Step>): nat
    requires Run(s, steps)
    decreases |steps|
  {
    if steps == [] then 0
    else (if Overwrites(s, steps[0]) then 1 else 0) + OverwriteCount(Next(s, steps[0]), steps[1..])
  }

  lemma {:induction false} RunKeepsInv(s: State, steps: seq<Step>)
    requires Inv(s) && Run(s, steps)
    ensures Inv(After(s, steps)) && |After(s, steps).table.entries| == |s.table.entries|
    ensures Waste(After(s, steps).table) == Waste(s.table) + OverwriteCount(s, steps)
    decreases |steps|
  {
    if steps != [] {
      StepKeepsInv(s, steps[0]);
      RunKeepsInv(Next(s, steps[0]), steps[1..]);
    }
  }

  lemma {:induction false} StartInv(max: nat)
    ensures Inv(Start(max)) && Waste(Start(max).table) == 0
  {
    AllVacant(max);
  }

  lemma {:induction false} AllVacant(max: nat)
    ensures Occupied(seq(max, i => VACANT)) == 0
  {
    if max > 0 {
      AllVacant(max - 1);
      assert seq(max, i => VACANT)[..max - 1] == seq(max - 1, i => VACANT);
    }
  }

  /** In every interleaving: the count covers the occupied entries and stays within the
      table; when the accept thread comes to add, its write is in range although
      removals may have fallen between check and add; the places counted but vacant are
      as many as there were clients overwritten, always fewer than there are places; and a
      newcomer is turned away exactly when the occupied and these vacant places fill the table. */
  lemma EveryInterleaving(max: nat, steps: seq<Step>)
    requires max > 0 && Run(Start(max), steps)
    ensures var s := After(Start(max), steps);
            && Occupied(s.table.entries) <= s.table.count <= max
            && (s.accepting.Started? ==> 0 <= s.table.count < max)
            && Waste(s.table) == OverwriteCount(Start(max), steps) < max
            && (s.accepting.Waiting? ==> forall socket :: socket >= 0 ==>
                  (Next(s, Arrive(socket)).accepting.Waiting? <==> Occupied(s.table.entries) + Waste(s.table) == max))
  {
    StartInv(max);
    RunKeepsInv(Start(max), steps);
  }

  /** The places lost to overwriting never come back: from any reachable state on, at
      most `max - Waste` clients are ever listed at once. */
  lemma CapacityNeverRecovers(max: nat, steps: seq<Step>, more: seq<Step>)
    requires max > 0 && Run(Start(max), steps) && Run(After(Start(max), steps), more)
    ensures Waste(After(After(Start(max), steps), more).table) >= Waste(After(Start(max), steps).table)
    ensures Occupied(After(After(Start(max), steps), more).table.entries)
         <= max - Waste(After(Start(max), steps).table)
  {
    StartInv(max);
    RunKeepsInv(Start(max), steps);
    RunKeepsInv(After(Start(max), steps), more);
  }

  lemma {:induction false} OneMatch(es: seq<Entry>, k: nat, socket: int)
    requires forall i :: 0 <= i < |es| ==> (es[i].socket == socket <==> i == k)
    ensures Matches(es, socket) == if k < |es| then 1 else 0
  {
    if es != [] {
      OneMatch(es[..|es| - 1], k, socket);
    }
  }

  lemma {:induction false} MatchesNone(es: seq<Entry>, socket: int)
    ensures Matches(es, socket) == 0 <==> forall i :: 0 <= i < |es| ==> es[i].socket != socket
  {
    if es != [] {
      MatchesNone(es[..|es| - 1], socket);
    }
  }
}
