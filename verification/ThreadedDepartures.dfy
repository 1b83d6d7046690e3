/** Exactly what `join_all_threads` does when handlers leave while it runs. */
module ThreadedDepartures {
  import opened ThreadedHost
  import opened ThreadedShutdown

  /** The handlers that have left of themselves when the loop tests index `k`. */
  ghost function DepartedBy(leaving: seq<Departures>, k: nat): set<int>
    decreases k, 0
  {
    if k == 0 then Members(DeparturesAt(leaving, 0).beforeTest)
    else DepartedBefore(leaving, k - 1) + Members(DeparturesAt(leaving, k).beforeTest)
  }

  /** The handlers that have left of themselves when the loop cancels the thread of entry `k`. */
  ghost function DepartedBefore(leaving: seq<Departures>, k: nat): set<int>
    decreases k, 1
  {
    DepartedBy(leaving, k) + Members(DeparturesAt(leaving, k).beforeCancel)
  }

  ghost function Members(hs: seq<int>): set<int> {
    set h | h in hs
  }

  /** How many entries list one of the sockets. */
  ghost function Listed(es: seq<Entry>, sockets: set<int>): nat {
    if es == [] then 0
    else Listed(es[..|es| - 1], sockets) + if es[|es| - 1].socket in sockets then 1 else 0
  }

  ghost function SocketsOf(s: State, gone: set<int>): set<int> {
    set h | h in gone && h in s.running && h in s.sockets :: s.sockets[h]
  }

  ghost function VacateListed(es: seq<Entry>, sockets: set<int>): (r: seq<Entry>)
    ensures |r| == |es|
    ensures forall i :: 0 <= i < |es| ==> r[i] == if es[i].socket in sockets then Vacate(es[i]) else es[i]
  {
    seq(|es|, i requires 0 <= i < |es| => if es[i].socket in sockets then Vacate(es[i]) else es[i])
  }

  /** The state once the running handlers among `gone` are no more, in whatever order they went. */
  ghost function Without(s: State, gone: set<int>): State {
    s.(table := Table(VacateListed(s.table.entries, SocketsOf(s, gone)),
                      s.table.count - Listed(s.table.entries, SocketsOf(s, gone))),
       running := s.running - gone)
  }

  /** Every running handler has a socket. */
  ghost predicate Served(s: State) {
    forall h :: h in s.running ==> h in s.sockets && s.sockets[h] >= 0
  }

  lemma {:induction false} ListedOneMore(es: seq<Entry>, sockets: set<int>, x: int)
    requires x >= 0
    ensures Listed(es, sockets) + Matches(VacateListed(es, sockets), x) == Listed(es, sockets + {x})
    ensures VacateAll(VacateListed(es, sockets), x) == VacateListed(es, sockets + {x})
  {
    if es != [] {
      var last := |es| - 1;
      ListedOneMore(es[..last], sockets, x);
      assert VacateListed(es, sockets)[..last] == VacateListed(es[..last], sockets);
    }
  }

  lemma {:induction false} ListedNone(es: seq<Entry>)
    ensures Listed(es, {}) == 0 && VacateListed(es, {}) == es
  {
    if es != [] {
      ListedNone(es[..|es| - 1]);
    }
  }

  lemma WithoutNobody(s: State)
    ensures Without(s, {}) == s
  {
    ListedNone(s.table.entries);
    assert SocketsOf(s, {}) == {};
  }

  lemma WithoutOneMore(s: State, gone: set<int>, h: int)
    requires Served(s)
    ensures LeaveIfRunning(Without(s, gone), h) == Without(s, gone + {h})
  {
    if h in s.running && h !in gone {
      assert SocketsOf(s, gone + {h}) == SocketsOf(s, gone) + {s.sockets[h]};
      ListedOneMore(s.table.entries, SocketsOf(s, gone), s.sockets[h]);
    } else {
      assert SocketsOf(s, gone + {h}) == SocketsOf(s, gone);
    }
    assert s.running - (gone + {h}) == s.running - gone - {h};
  }

  lemma {:induction false} WithoutMore(s: State, gone: set<int>, hs: seq<int>)
    requires Served(s)
    ensures LeaveAll(Without(s, gone), hs) == Without(s, gone + Members(hs))
  {
    if hs == [] {
      assert gone + Members(hs) == gone;
    } else {
      var last := |hs| - 1;
      WithoutMore(s, gone, hs[..last]);
      WithoutOneMore(s, gone + Members(hs[..last]), hs[last]);
      assert gone + Members(hs) == gone + Members(hs[..last]) + {hs[last]};
    }
  }

  /** The threads named by the first `k` entries. */
  ghost function Named(es: seq<Entry>, k: nat): set<int>
    requires k <= |es|
  {
    set i | 0 <= i < k :: es[i].thread
  }

  /** Everyone gone when the loop tests index `k`: joined or left. */
  ghost function GoneBy(s: State, leaving: seq<Departures>, k: nat): set<int>
    requires k <= |s.table.entries|
  {
    Named(s.table.entries, k) + DepartedBy(leaving, k)
  }

  /** The thread of entry `k` is one the loop can join: it runs, no entry before names it,
      and it has not left. */
  ghost predicate Joinable(s: State, leaving: seq<Departures>, k: nat)
    requires k < |s.table.entries|
  {
    var h := s.table.entries[k].thread;
    h in s.running && h !in Named(s.table.entries, k) && h !in DepartedBefore(leaving, k)
  }

  /** The threads joined at the first `k` entries. */
  ghost function JoinedBy(s: State, leaving: seq<Departures>, k: nat): seq<int>
    requires k <= |s.table.entries|
  {
    if k == 0 then []
    else JoinedBy(s, leaving, k - 1) + if Joinable(s, leaving, k - 1) then [s.table.entries[k - 1].thread] else []
  }

  lemma JoinOneMore(s: State, leaving: seq<Departures>, k: nat)
    requires Served(s) && k < |s.table.entries|
    ensures JoinOne(Without(s, GoneBy(s, leaving, k)), k, leaving)
         == (Without(s, GoneBy(s, leaving, k + 1)), if Joinable(s, leaving, k) then [s.table.entries[k].thread] else [])
  {
    var es := s.table.entries;
    var d := DeparturesAt(leaving, k);
    var gone := GoneBy(s, leaving, k);
    WithoutMore(s, gone, d.beforeCancel);
    var h := es[k].thread;
    var gone' := gone + Members(d.beforeCancel);
    assert Without(s, gone').table.entries[k].thread == h;
    WithoutOneMore(s, gone', h);
    WithoutMore(s, gone' + {h}, DeparturesAt(leaving, k + 1).beforeTest);
    assert Named(es, k + 1) == Named(es, k) + {h};
    assert DepartedBy(leaving, k + 1) == DepartedBy(leaving, k) + Members(d.beforeCancel)
                                         + Members(DeparturesAt(leaving, k + 1).beforeTest);
    assert gone' + {h} + Members(DeparturesAt(leaving, k + 1).beforeTest) == GoneBy(s, leaving, k + 1);
  }

  /** The loop stands at index `k` after joining `joined`. */
  ghost function LoopAt(s: State, leaving: seq<Departures>, k: nat): (State, seq<int>)
    requires k <= |s.table.entries|
  {
    Remaining(Without(s, GoneBy(s, leaving, k)), k, leaving, JoinedBy(s, leaving, k))
  }

  /** The loop goes on at index `k`. */
  ghost predicate Continues(s: State, leaving: seq<Departures>, k: nat)
    requires k <= |s.table.entries|
  {
    k < s.table.count - Listed(s.table.entries, SocketsOf(s, GoneBy(s, leaving, k)))
  }

  lemma LoopGoesOn(s: State, leaving: seq<Departures>, k: nat)
    requires Served(s) && k < |s.table.entries| && Continues(s, leaving, k)
    ensures LoopAt(s, leaving, k) == LoopAt(s, leaving, k + 1)
  {
    JoinOneMore(s, leaving, k);
    RemainingStep(Without(s, GoneBy(s, leaving, k)), k, leaving, JoinedBy(s, leaving, k));
  }

  lemma LoopStops(s: State, leaving: seq<Departures>, k: nat)
    requires k <= |s.table.entries| && !Continues(s, leaving, k)
    ensures LoopAt(s, leaving, k) == (Without(s, GoneBy(s, leaving, k)), JoinedBy(s, leaving, k))
  {
    assert JoinedBy(s, leaving, k) + [] == JoinedBy(s, leaving, k);
  }

  /** The loop comes to its test at index `k`: it goes on at every index below. */
  ghost predicate Reaches(s: State, leaving: seq<Departures>, k: nat)
    requires k <= |s.table.entries|
  {
    k == 0 || (Reaches(s, leaving, k - 1) && Continues(s, leaving, k - 1))
  }

  lemma {:induction false} LoopReaches(s: State, leaving: seq<Departures>, k: nat)
    requires Served(s) && k <= |s.table.entries|
    requires Reaches(s, leaving, k)
    ensures LoopAt(s, leaving, 0) == LoopAt(s, leaving, k)
  {
    if k > 0 {
      LoopReaches(s, leaving, k - 1);
      LoopGoesOn(s, leaving, k - 1);
    }
  }

  lemma {:induction false} FirstStop(s: State, leaving: seq<Departures>, k: nat) returns (stop: nat)
    requires s.table.count <= |s.table.entries| && k <= |s.table.entries| && Reaches(s, leaving, k)
    ensures stop <= |s.table.entries| && Reaches(s, leaving, stop) && !Continues(s, leaving, stop)
    decreases |s.table.entries| - k
  {
    stop := k;
    if Continues(s, leaving, k) {
      stop := FirstStop(s, leaving, k + 1);
    }
  }

  lemma {:induction false} StopIsLast(s: State, leaving: seq<Departures>, j: nat, stop: nat)
    requires j <= |s.table.entries| && Reaches(s, leaving, j)
    requires stop <= |s.table.entries| && !Continues(s, leaving, stop)
    ensures j <= stop
  {
    if j > stop && j - 1 > stop {
      StopIsLast(s, leaving, j - 1, stop);
    }
  }

  /** Whoever leaves, and however the table looks: the loop stops at the least index that
      is not below the count less the entries listing a socket of somebody gone by then.
      Gone at the end are the running threads that the entries before it name, and those
      that left of themselves; of their sockets no entry is left, all others stay. */
  lemma ShutdownUnderDepartures(s: State, leaving: seq<Departures>) returns (stop: nat)
    requires Served(s) && s.table.count <= |s.table.entries|
    ensures stop <= |s.table.entries| && Reaches(s, leaving, stop) && !Continues(s, leaving, stop)
    ensures JoinAll(s, leaving) == (Without(s, GoneBy(s, leaving, stop)), JoinedBy(s, leaving, stop))
  {
    stop := FirstStop(s, leaving, 0);
    LoopReaches(s, leaving, stop);
    LoopStops(s, leaving, stop);
    WithoutNobody(s);
    WithoutMore(s, {}, DeparturesAt(leaving, 0).beforeTest);
    assert {} + Members(DeparturesAt(leaving, 0).beforeTest) == GoneBy(s, leaving, 0);
    var (t, js) := JoinAll(s, leaving);
    assert [] + js == js;
  }

  lemma {:induction false} DepartedGrows(leaving: seq<Departures>, j: nat, k: nat)
    requires j <= k
    ensures DepartedBy(leaving, j) <= DepartedBy(leaving, k)
    ensures DepartedBefore(leaving, j) <= DepartedBefore(leaving, k)
    ensures j < k ==> DepartedBefore(leaving, j) <= DepartedBy(leaving, k)
    decreases k
  {
    if j < k {
      DepartedGrows(leaving, j, k - 1);
    }
  }

  /** A thread named by an entry below `k` before it had left of itself. */
  ghost predicate NamedInTime(s: State, leaving: seq<Departures>, k: nat, h: int)
    requires k <= |s.table.entries|
  {
    exists j :: 0 <= j < k && s.table.entries[j].thread == h && h !in DepartedBefore(leaving, j)
  }

  lemma {:induction false} JoinedIff(s: State, leaving: seq<Departures>, k: nat)
    requires k <= |s.table.entries|
    ensures forall h :: h in JoinedBy(s, leaving, k) <==> h in s.running && NamedInTime(s, leaving, k, h)
    ensures forall p, q :: 0 <= p < q < |JoinedBy(s, leaving, k)| ==>
              JoinedBy(s, leaving, k)[p] != JoinedBy(s, leaving, k)[q]
  {
    if k > 0 {
      JoinedIff(s, leaving, k - 1);
      forall h
        ensures h in JoinedBy(s, leaving, k) <==> h in s.running && NamedInTime(s, leaving, k, h)
      {
        JoinedIffStep(s, leaving, k - 1, h);
      }
      var before := JoinedBy(s, leaving, k - 1);
      assert forall p :: 0 <= p < |before| ==> before[p] in before;
    }
  }

  lemma JoinedIffStep(s: State, leaving: seq<Departures>, k: nat, h: int)
    requires k < |s.table.entries|
    requires h in JoinedBy(s, leaving, k) <==> h in s.running && NamedInTime(s, leaving, k, h)
    ensures h in JoinedBy(s, leaving, k + 1) <==> h in s.running && NamedInTime(s, leaving, k + 1, h)
  {
    var es := s.table.entries;
    if h in s.running && h == es[k].thread && h !in DepartedBefore(leaving, k) {
      if h in Named(es, k) {
        var j :| 0 <= j < k && es[j].thread == h;
        DepartedGrows(leaving, j, k);
        assert NamedInTime(s, leaving, k, h);
      }
      assert NamedInTime(s, leaving, k + 1, h);
    }
    if NamedInTime(s, leaving, k, h) {
      var j :| 0 <= j < k && es[j].thread == h && h !in DepartedBefore(leaving, j);
      assert NamedInTime(s, leaving, k + 1, h);
    }
  }

  /** Everyone running before shutdown is joined, or has left of himself, or is still
      running, and who is still running is neither of the others. Joined, once each, are
      exactly those that an entry dealt with names before they leave. */
  lemma ShutdownPartition(s: State, leaving: seq<Departures>, final: State, joined: seq<int>) returns (stop: nat)
    requires Served(s) && s.table.count <= |s.table.entries| && (final, joined) == JoinAll(s, leaving)
    ensures stop <= |s.table.entries| && Reaches(s, leaving, stop) && !Continues(s, leaving, stop)
    ensures forall h :: h in joined <==> h in s.running && NamedInTime(s, leaving, stop, h)
    ensures forall p, q :: 0 <= p < q < |joined| ==> joined[p] != joined[q]
    ensures final.running <= s.running && Members(joined) <= s.running
    ensures final.running !! Members(joined) && final.running !! DepartedBy(leaving, stop)
    ensures s.running <= final.running + Members(joined) + DepartedBy(leaving, stop)
  {
    stop := ShutdownUnderDepartures(s, leaving);
    JoinedIff(s, leaving, stop);
    forall h | h in s.running && h !in final.running && h !in DepartedBy(leaving, stop)
      ensures h in joined
    {
      assert h in Named(s.table.entries, stop);
      var j :| 0 <= j < stop && s.table.entries[j].thread == h;
      DepartedGrows(leaving, j, stop);
      assert NamedInTime(s, leaving, stop, h);
    }
    forall h | h in joined ensures h in s.running && h !in final.running {
      assert h in JoinedBy(s, leaving, stop);
      assert h in Named(s.table.entries, stop);
    }
  }

  /** A handler that leaves at a test or a cancellation the loop reaches is not running
      when it ends, and its socket is listed nowhere. */
  lemma DepartedAreGone(s: State, leaving: seq<Departures>, j: nat, h: int)
    requires Served(s) && s.table.count <= |s.table.entries| && j <= |s.table.entries|
    requires Reaches(s, leaving, j)
    requires || h in DeparturesAt(leaving, j).beforeTest
             || (Continues(s, leaving, j) && h in DeparturesAt(leaving, j).beforeCancel)
    ensures h !in JoinAll(s, leaving).0.running
    ensures h in s.running ==>
              forall e :: e in JoinAll(s, leaving).0.table.entries ==> e.socket != s.sockets[h]
  {
    var stop := ShutdownUnderDepartures(s, leaving);
    StopIsLast(s, leaving, j, stop);
    DepartedGrows(leaving, j, stop);
    assert h in GoneBy(s, leaving, stop);
    if h in s.running {
      assert s.sockets[h] in SocketsOf(s, GoneBy(s, leaving, stop));
    }
  }

  // ------------------------------------------------------------------ nobody leaves

  /** How many of the first `k` entries name a running thread. */
  function Live(s: State, k: nat): nat
    requires k <= |s.table.entries|
  {
    if k == 0 then 0 else Live(s, k - 1) + if s.table.entries[k - 1].thread in s.running then 1 else 0
  }

  /** No socket is listed twice. */
  ghost predicate ListedOnce(es: seq<Entry>) {
    forall i, j :: 0 <= i < j < |es| && es[i].socket >= 0 ==> es[i].socket != es[j].socket
  }

  lemma {:induction false} NobodyDeparts(k: nat)
    ensures DepartedBy([], k) == DepartedBefore([], k) == {}
  {
    if k > 0 {
      NobodyDeparts(k - 1);
    }
  }

  /** With nobody leaving, the entries dealt with by index `k` are the live ones before it. */
  ghost predicate DealtBy(s: State, k: nat)
    requires k <= |s.table.entries|
  {
    var es, gone := s.table.entries, SocketsOf(s, GoneBy(s, [], k));
    && Listed(es, gone) == Live(s, k) == |JoinedBy(s, [], k)|
    && (forall i :: 0 <= i < |es| ==> (es[i].socket in gone <==> i < k && es[i].thread in s.running))
  }

  /** The socket of a running thread is in the entry that names it and in no other. */
  lemma OwnEntry(s: State, k: nat, i: nat)
    requires Tidy(s) && ListedOnce(s.table.entries) && k < s.table.count && i < |s.table.entries|
    requires s.table.entries[k].thread in s.running
    ensures s.table.entries[i].socket == s.sockets[s.table.entries[k].thread] <==> i == k
  {
    assert TidyEntry(s, k);
  }

  lemma GoneByOneMore(s: State, k: nat)
    requires k < |s.table.entries|
    ensures GoneBy(s, [], k + 1) == GoneBy(s, [], k) + {s.table.entries[k].thread}
    ensures GoneBy(s, [], k) == Named(s.table.entries, k) && DepartedBefore([], k) == {}
  {
    NobodyDeparts(k);
    NobodyDeparts(k + 1);
  }

  lemma DealWithIdle(s: State, k: nat)
    requires k < |s.table.entries| && DealtBy(s, k) && s.table.entries[k].thread !in s.running
    ensures DealtBy(s, k + 1)
  {
    GoneByOneMore(s, k);
    assert SocketsOf(s, GoneBy(s, [], k + 1)) == SocketsOf(s, GoneBy(s, [], k));
  }

  lemma DealWithLive(s: State, k: nat)
    requires Tidy(s) && ListedOnce(s.table.entries) && k < s.table.count && DealtBy(s, k)
    requires s.table.entries[k].thread in s.running
    ensures DealtBy(s, k + 1)
  {
    var es, x := s.table.entries, s.sockets[s.table.entries[k].thread];
    var gone := SocketsOf(s, GoneBy(s, [], k));
    GoneByOneMore(s, k);
    assert SocketsOf(s, GoneBy(s, [], k + 1)) == gone + {x};
    forall i | 0 <= i < |es| ensures es[i].socket == x <==> i == k {
      OwnEntry(s, k, i);
    }
    assert es[k].socket !in gone;
    ListedOneMore(es, gone, x);
    OneMatch(VacateListed(es, gone), k, x);
    assert Joinable(s, [], k);
  }

  lemma DealWithOne(s: State, k: nat)
    requires Tidy(s) && ListedOnce(s.table.entries) && k < s.table.count && DealtBy(s, k)
    ensures DealtBy(s, k + 1)
  {
    if s.table.entries[k].thread in s.running {
      DealWithLive(s, k);
    } else {
      DealWithIdle(s, k);
    }
  }

  lemma DealtWithNone(s: State)
    ensures DealtBy(s, 0)
  {
    assert GoneBy(s, [], 0) == {};
    assert SocketsOf(s, {}) == {};
    ListedNone(s.table.entries);
  }

  lemma ContinuesIffShort(s: State, k: nat)
    requires k <= |s.table.entries| && DealtBy(s, k)
    ensures Continues(s, [], k) <==> k + Live(s, k) < s.table.count
  {
  }

  lemma {:induction false} DealtWith(s: State, k: nat)
    requires Tidy(s) && ListedOnce(s.table.entries) && k <= |s.table.entries|
    requires Reaches(s, [], k)
    ensures DealtBy(s, k) && (k == 0 || k - 1 + Live(s, k - 1) < s.table.count)
  {
    if k == 0 {
      DealtWithNone(s);
    } else {
      DealtWith(s, k - 1);
      ContinuesIffShort(s, k - 1);
      DealWithOne(s, k - 1);
    }
  }

  lemma NothingLeftIff(a: set<int>, b: set<int>)
    ensures a - b == {} <==> a <= b
  {
    if a - b == {} {
      forall x | x in a ensures x in b {
        assert x !in a - b;
      }
    }
  }

  lemma UndisturbedTotal(s: State) returns (k: nat)
    requires Tidy(s) && ListedOnce(s.table.entries)
    ensures k <= |s.table.entries| && DealtBy(s, k)
    ensures k + Live(s, k) >= s.table.count && (k == 0 || k - 1 + Live(s, k - 1) < s.table.count)
    ensures JoinAll(s, []) == (Without(s, GoneBy(s, [], k)), JoinedBy(s, [], k))
  {
    k := ShutdownUnderDepartures(s, []);
    DealtWith(s, k);
    ContinuesIffShort(s, k);
  }

  /** With nobody else leaving, shutdown deals with the first `k` entries, where `k` is
      the least number that together with the running threads those entries name reaches
      the client count. Exactly the threads they name run no longer; all others go on. */
  lemma UndisturbedShutdown(s: State) returns (k: nat)
    requires Tidy(s) && ListedOnce(s.table.entries)
    ensures k <= |s.table.entries|
    ensures k + Live(s, k) >= s.table.count && (k == 0 || k - 1 + Live(s, k - 1) < s.table.count)
    ensures |JoinAll(s, []).1| == Live(s, k)
    ensures JoinAll(s, []).0.running == s.running - Named(s.table.entries, k)
    ensures JoinAll(s, []).0.running == {} <==> s.running <= Named(s.table.entries, k)
  {
    k := UndisturbedTotal(s);
    NobodyDeparts(k);
    NothingLeftIff(s.running, Named(s.table.entries, k));
  }

  // ------------------------------------------------------------------ a compact table

  /** `n` running clients in the first `n` entries, with different sockets. */
  ghost predicate CompactLive(s: State) {
    && Tidy(s) && s.table.count >= 0 && ListedOnce(s.table.entries)
    && (forall i :: 0 <= i < |s.table.entries| ==> (s.table.entries[i].socket >= 0 <==> i < s.table.count))
    && (forall i :: 0 <= i < s.table.count ==> s.table.entries[i].thread in s.running)
  }

  lemma {:induction false} AllLive(s: State, k: nat)
    requires CompactLive(s) && k <= s.table.count
    ensures Live(s, k) == k
  {
    if k > 0 {
      AllLive(s, k - 1);
    }
  }

  /** Shutdown joins ceil(n/2) of n live clients: the later clients keep their entries,
      and everybody listed is joined only if n <= 1. */
  lemma ShutdownJoinsHalf(s: State, final: State, joined: seq<int>)
    requires CompactLive(s) && (final, joined) == JoinAll(s, [])
    ensures |joined| == (s.table.count + 1) / 2
    ensures |joined| == s.table.count <==> s.table.count <= 1
    ensures |final.table.entries| == |s.table.entries|
    ensures forall i :: 0 <= i < |s.table.entries| ==>
              (final.table.entries[i].socket >= 0 <==> |joined| <= i < s.table.count)
  {
    var k := UndisturbedTotal(s);
    AllLive(s, k);
    if k > 0 {
      AllLive(s, k - 1);
    }
  }
}
