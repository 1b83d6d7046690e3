/** What the pool operations mean: a bounded bag of descriptors for every sequence
    of calls, undoing an add, and how first-fit adds close the gaps that removals leave. */
module PoolRefinement {
  import opened Pools

  // ------------------------------------------------------------------ bounded bag

  datatype Op = AddOp(fd: int, events: int) | RemoveOp(fd: int)

  /** One call on a bag of at most `max` descriptors: the new bag and the returned code. */
  function BagStep(max: nat, bag: multiset<int>, op: Op): (multiset<int>, int) {
    match op
    case AddOp(fd, _) => if |bag| >= max then (bag, -1) else (bag + multiset{fd}, fd)
    case RemoveOp(fd) => if fd in bag then (bag - multiset{fd}, fd) else (bag, -1)
  }

  function PoolStep(p: Pool, op: Op): (Pool, int)
    requires p.Shape()
  {
    match op
    case AddOp(fd, events) => Add(p, fd, events)
    case RemoveOp(fd) => Remove(p, fd)
  }

  /** The call behaves as the bag does and leaves a consistent pool. */
  ghost predicate Refines(p: Pool, op: Op)
    requires p.Consistent()
  {
    var (q, code) := PoolStep(p, op);
    q.Consistent() && (q.Held(), code) == BagStep(p.max, p.Held(), op)
  }

  lemma BagSnoc(fds: seq<int>, fd: int)
    ensures multiset(fds + [fd])[-1 := 0] ==
              if fd == -1 then multiset(fds)[-1 := 0] else multiset(fds)[-1 := 0] + multiset{fd}
  {
    assert multiset(fds + [fd]) == multiset(fds) + multiset{fd};
  }

  lemma {:induction false} CountNonNegative(ps: seq<PollFd>, cs: seq<Client>)
    requires |ps| == |cs|
    requires forall c :: 0 <= c < |cs| ==> (cs[c].isConnected <==> ps[c].fd >= 0)
    requires forall c :: 0 <= c < |cs| ==> ps[c].fd >= -1
    ensures CountConnected(cs) == |multiset(FdsOf(ps))[-1 := 0]|
  {
    if cs == [] {
      assert FdsOf(ps) == [];
    } else {
      var last := |cs| - 1;
      CountNonNegative(ps[..last], cs[..last]);
      BagSnoc(FdsOf(ps[..last]), ps[last].fd);
      assert FdsOf(ps) == FdsOf(ps[..last]) + [ps[last].fd];
    }
  }

  /** The counter is the size of the bag. */
  lemma CounterIsBagSize(p: Pool)
    requires p.Consistent()
    ensures p.n == |p.Held()| <= p.max
  {
    forall c | 0 <= c < p.max
      ensures (p.clients[c].isConnected <==> p.pfds[c].fd >= 0) && p.pfds[c].fd >= -1
    {
      assert p.SlotOk(c);
    }
    CountNonNegative(p.pfds, p.clients);
    CountBounds(p.clients);
  }

  lemma HeldIffSlot(p: Pool, fd: int)
    requires p.Consistent() && fd != -1
    ensures fd in p.Held() <==> SlotOf(p.pfds, fd) < p.max
  {
    var fds := FdsOf(p.pfds);
    if fd in p.Held() {
      var i :| 0 <= i < |fds| && fds[i] == fd;
    }
    if SlotOf(p.pfds, fd) < p.max {
      assert fds[SlotOf(p.pfds, fd)] == fd;
      assert fd in multiset(fds);
    }
  }

  lemma AddRefines(p: Pool, fd: int, events: int)
    requires p.Consistent() && fd >= 0
    ensures Refines(p, AddOp(fd, events))
  {
    CounterIsBagSize(p);
    AddConsistent(p, fd, events);
    if p.n < p.max {
      FreeSlotExists(p);
      var c := FreeSlot(p.clients);
      var q := Add(p, fd, events).0;
      assert p.SlotOk(c);
      assert FdsOf(q.pfds) == FdsOf(p.pfds)[c := fd];
      assert q.Held() == p.Held() + multiset{fd};
    }
  }

  /** An add behaves as on the bag exactly for real descriptors, or when the pool is
      full: a negative one would sit in a slot that counts as connected and as a hole. */
  lemma AddRefinesIff(p: Pool, fd: int, events: int)
    requires p.Consistent()
    ensures Refines(p, AddOp(fd, events)) <==> fd >= 0 || p.n == p.max
  {
    CounterIsBagSize(p);
    if fd >= 0 {
      AddRefines(p, fd, events);
    } else if p.n < p.max {
      FreeSlotExists(p);
      assert !Add(p, fd, events).0.SlotOk(FreeSlot(p.clients));
    }
  }

  lemma RemoveRefines(p: Pool, fd: int)
    requires p.Consistent() && fd != -1
    ensures Refines(p, RemoveOp(fd))
  {
    CounterIsBagSize(p);
    RemoveConsistent(p, fd);
    HeldIffSlot(p, fd);
    var c := SlotOf(p.pfds, fd);
    if fd in p.Held() {
      var q := Remove(p, fd).0;
      assert p.Held() != multiset{};
      assert FdsOf(q.pfds) == FdsOf(p.pfds)[c := -1];
      assert q.Held() == p.Held() - multiset{fd};
    }
  }

  /** Removing descriptor -1 matches a hole, and the counter is then lowered although
      nothing was removed. So removal refines the bag exactly when the argument is a
      real descriptor, or the pool is empty (the guard) or full (no hole to match). */
  lemma RemoveRefinesIff(p: Pool, fd: int)
    requires p.Consistent()
    ensures Refines(p, RemoveOp(fd)) <==> fd != -1 || p.n == 0 || p.n == p.max
  {
    if fd != -1 {
      RemoveRefines(p, fd);
    } else {
      CounterIsBagSize(p);
      var c := SlotOf(p.pfds, -1);
      CountBounds(p.clients);
      assert p.n == p.max ==> forall d :: 0 <= d < p.max ==> p.SlotOk(d) && p.pfds[d].fd != -1;
      if 0 < p.n < p.max {
        FreeSlotExists(p);
        var h := FreeSlot(p.clients);
        assert p.SlotOk(h) && p.SlotOk(c);
        var q := Remove(p, -1).0;
        CountUpdate(p.clients, c, q.clients[c]);
      }
    }
  }

  ghost predicate Legal(op: Op) {
    match op
    case AddOp(fd, _) => fd >= 0
    case RemoveOp(fd) => fd != -1
  }

  /** Final pool and every returned code of a sequence of calls. */
  function PoolRun(p: Pool, ops: seq<Op>): (Pool, seq<int>)
    requires p.Shape()
    decreases |ops|
  {
    if ops == [] then (p, [])
    else
      var (q, code) := PoolStep(p, ops[0]);
      var (r, codes) := PoolRun(q, ops[1..]);
      (r, [code] + codes)
  }

  function BagRun(max: nat, bag: multiset<int>, ops: seq<Op>): (multiset<int>, seq<int>)
    decreases |ops|
  {
    if ops == [] then (bag, [])
    else
      var (b, code) := BagStep(max, bag, ops[0]);
      var (r, codes) := BagRun(max, b, ops[1..]);
      (r, [code] + codes)
  }

  /** Every sequence of adds and removes, duplicates included, answers as the bag does. */
  lemma {:induction false} RunRefinesBag(p: Pool, ops: seq<Op>)
    requires p.Consistent()
    requires forall i :: 0 <= i < |ops| ==> Legal(ops[i])
    ensures PoolRun(p, ops).0.Consistent()
    ensures (PoolRun(p, ops).0.Held(), PoolRun(p, ops).1) == BagRun(p.max, p.Held(), ops)
    decreases |ops|
  {
    if ops != [] {
      assert Legal(ops[0]);
      match ops[0] {
        case AddOp(fd, events) => AddRefines(p, fd, events);
        case RemoveOp(fd) => RemoveRefines(p, fd);
      }
      assert Refines(p, ops[0]);
      RunRefinesBag(PoolStep(p, ops[0]).0, ops[1..]);
    }
  }

  // -------------------------------------------------------------------- round trip

  /** Removing a fresh descriptor right after adding it restores the pool, except that
      the reused slot's `revents` has been cleared. */
  lemma AddThenRemove(p: Pool, fd: int, events: int)
    requires p.Consistent() && p.n < p.max && fd >= 0 && !p.Holds(fd)
    ensures var c := FreeSlot(p.clients);
            c < p.max && Remove(Add(p, fd, events).0, fd).0 == p.(pfds := p.pfds[c := p.pfds[c].(revents := 0)])
  {
    FreeSlotExists(p);
    var c := FreeSlot(p.clients);
    assert p.SlotOk(c);
    var q := Add(p, fd, events).0;
    assert forall d :: 0 <= d < c ==> q.pfds[d].fd == p.pfds[d].fd;
    assert q.pfds[c].fd == fd;
    assert SlotOf(q.pfds, fd) == c;
    var r := Remove(q, fd).0;
    assert r.pfds == p.pfds[c := p.pfds[c].(revents := 0)];
    assert r.clients == p.clients;
  }

  // ------------------------------------------------------------------ self-healing

  /** How far the highest client sticks out of the counted prefix. */
  function Gap(p: Pool): int {
    Span(p.clients) - p.n
  }

  lemma GapMeansCompact(p: Pool)
    requires p.Consistent()
    ensures Gap(p) >= 0
    ensures Gap(p) == 0 <==> p.Compact()
  {
    var h := Span(p.clients);
    CountBounds(p.clients);
    CountSplit(p.clients, h);
    CountBounds(p.clients[..h]);
    CountBounds(p.clients[h..]);
    assert forall c :: 0 <= c < |p.clients[h..]| ==> !p.clients[h..][c].isConnected;
    if Gap(p) == 0 {
      assert forall c :: 0 <= c < h ==> p.clients[..h][c].isConnected;
    }
    assert p.Compact() && h > 0 ==> h - 1 < p.n;
  }

  lemma FreeSlotBelowGap(p: Pool)
    requires p.Consistent() && Gap(p) > 0
    ensures FreeSlot(p.clients) < Span(p.clients)
  {
    var h := Span(p.clients);
    CountSplit(p.clients, h);
    CountBounds(p.clients[..h]);
    CountBounds(p.clients[h..]);
    assert forall d :: 0 <= d < |p.clients[h..]| ==> !p.clients[h..][d].isConnected;
    var d :| 0 <= d < h && !p.clients[..h][d].isConnected;
    assert !p.clients[d].isConnected;
  }

  lemma FreeSlotOfCompact(p: Pool)
    requires p.Consistent() && p.Compact() && p.n < p.max
    ensures FreeSlot(p.clients) == p.n
  {
    assert !p.clients[p.n].isConnected;
  }

  lemma SpanAfterConnect(cs: seq<Client>, c: nat, x: Client)
    requires c < |cs| && x.isConnected
    ensures Span(cs[c := x]) == if c < Span(cs) then Span(cs) else c + 1
  {
    var h, g := Span(cs), Span(cs[c := x]);
    assert cs[c := x][c].isConnected;
    if h > 0 {
      assert cs[c := x][h - 1].isConnected;
    }
    assert g > 0 && cs[c := x][g - 1].isConnected;
  }

  /** An add into a pool with a gap keeps the span and lowers the gap by one; an add
      into a compact pool keeps it compact. */
  lemma AddClosesGap(p: Pool, fd: int, events: int)
    requires p.Consistent() && p.n < p.max && fd >= 0
    ensures var q := Add(p, fd, events).0;
            && Gap(q) == (if Gap(p) > 0 then Gap(p) - 1 else 0)
            && (Gap(p) > 0 ==> Span(q.clients) == Span(p.clients))
  {
    FreeSlotExists(p);
    GapMeansCompact(p);
    var c := FreeSlot(p.clients);
    SpanAfterConnect(p.clients, c, p.clients[c].(isConnected := true));
    if Gap(p) > 0 {
      FreeSlotBelowGap(p);
    } else {
      FreeSlotOfCompact(p);
    }
  }

  function AddAll(p: Pool, fds: seq<int>): Pool
    requires p.Shape()
    decreases |fds|
  {
    if fds == [] then p else AddAll(Add(p, fds[0], POLLIN).0, fds[1..])
  }

  /** After `k` adds in a row with no removal the gap has shrunk by `k`, down to
      nothing: any `Gap(p)` adds make the pool compact, and there is always room for them. */
  lemma {:induction false} AddsHeal(p: Pool, fds: seq<int>)
    requires p.Consistent()
    requires forall i :: 0 <= i < |fds| ==> fds[i] >= 0
    requires p.n + |fds| <= p.max
    ensures p.n + Gap(p) <= p.max
    ensures AddAll(p, fds).Consistent()
    ensures Gap(AddAll(p, fds)) == (if Gap(p) > |fds| then Gap(p) - |fds| else 0)
    ensures AddAll(p, fds).Compact() <==> |fds| >= Gap(p)
    decreases |fds|
  {
    GapMeansCompact(p);
    if fds != [] {
      AddConsistent(p, fds[0], POLLIN);
      AddClosesGap(p, fds[0], POLLIN);
      FreeSlotExists(p);
      AddsHeal(Add(p, fds[0], POLLIN).0, fds[1..]);
    }
  }
}
