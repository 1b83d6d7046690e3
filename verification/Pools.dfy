/** The client pool of `host.c` as a value: what each pool operation does to the
    two parallel tables and the counter, and what the pool means as a bounded bag
    of descriptors. The class in ClientPool.dfy is proved against these functions. */
module Pools {

  datatype Option<+T> = None | Some(value: T)

  const POLLIN: int := 1

  /** `struct pollfd`: a negative `fd` marks a slot that `poll` skips. */
  datatype PollFd = PollFd(fd: int, events: int, revents: int)

  /** `Client`; `pfd` stands for the pointer `&pfds[pfd]`. */
  datatype Client = Client(isConnected: bool, name: Option<string>, pfd: nat)

  datatype Pool = Pool(max: nat, n: nat, pfds: seq<PollFd>, clients: seq<Client>) {

    ghost predicate Shape() {
      |pfds| == |clients| == max
    }

    ghost predicate Connected(c: int)
      requires Shape()
    {
      0 <= c < max && clients[c].isConnected
    }

    ghost predicate Holds(fd: int)
      requires Shape()
    {
      exists c :: 0 <= c < max && pfds[c].fd == fd
    }

    /** What `clients_init`, `client_add` and `client_remove` keep true. */
    ghost predicate Consistent() {
      && Shape()
      && n == CountConnected(clients)
      && (forall c :: 0 <= c < max ==> SlotOk(c))
    }

    ghost predicate SlotOk(c: nat)
      requires Shape() && c < max
    {
      && clients[c].pfd == c
      && (clients[c].isConnected <==> pfds[c].fd >= 0)
      && (!clients[c].isConnected ==>
            pfds[c].fd == -1 && pfds[c].events == 0 && clients[c].name == None)
    }

    /** No descriptor is held twice. */
    ghost predicate Distinct()
      requires Shape()
    {
      forall c, d :: 0 <= c < d < max && pfds[c].fd >= 0 ==> pfds[c].fd != pfds[d].fd
    }

    /** The connected slots are exactly `[0, n)`. */
    ghost predicate Compact()
      requires Shape()
    {
      forall c :: 0 <= c < max ==> (clients[c].isConnected <==> c < n)
    }

    /** The bag of descriptors the pool holds. */
    ghost function Held(): multiset<int>
      requires Shape()
    {
      multiset(FdsOf(pfds))[-1 := 0]
    }
  }

  function FdsOf(ps: seq<PollFd>): (fds: seq<int>)
    ensures |fds| == |ps| && forall i :: 0 <= i < |ps| ==> fds[i] == ps[i].fd
  {
    seq(|ps|, i requires 0 <= i < |ps| => ps[i].fd)
  }

  function ReventsOf(ps: seq<PollFd>): (revents: seq<int>)
    ensures |revents| == |ps| && forall i :: 0 <= i < |ps| ==> revents[i] == ps[i].revents
  {
    seq(|ps|, i requires 0 <= i < |ps| => ps[i].revents)
  }

  function CountConnected(cs: seq<Client>): nat {
    if cs == [] then 0
    else CountConnected(cs[..|cs| - 1]) + if cs[|cs| - 1].isConnected then 1 else 0
  }

  /** First slot that is not connected; `|cs|` when every slot is. */
  function FreeSlot(cs: seq<Client>): (c: nat)
    ensures c <= |cs|
    ensures c < |cs| ==> !cs[c].isConnected
    ensures forall d :: 0 <= d < c ==> cs[d].isConnected
  {
    if cs == [] || !cs[0].isConnected then 0 else 1 + FreeSlot(cs[1..])
  }

  /** First slot that stores `fd`; `|ps|` when none does. */
  function SlotOf(ps: seq<PollFd>, fd: int): (c: nat)
    ensures c <= |ps|
    ensures c < |ps| ==> ps[c].fd == fd
    ensures forall d :: 0 <= d < c ==> ps[d].fd != fd
  {
    if ps == [] || ps[0].fd == fd then 0 else 1 + SlotOf(ps[1..], fd)
  }

  /** One past the highest connected slot. */
  function Span(cs: seq<Client>): (h: nat)
    ensures h <= |cs|
    ensures h > 0 ==> cs[h - 1].isConnected
    ensures forall d :: h <= d < |cs| ==> !cs[d].isConnected
  {
    if cs == [] then 0
    else if cs[|cs| - 1].isConnected then |cs|
    else Span(cs[..|cs| - 1])
  }

  /** `clients_init`: `revents` and nothing else is left as the allocator gave it. */
  function Init(max: nat, revents: seq<int>): Pool
    requires |revents| == max
  {
    Pool(max, 0,
         seq(max, c requires 0 <= c < max => PollFd(-1, 0, revents[c])),
         seq(max, c requires 0 <= c < max => Client(false, None, c)))
  }

  /** `client_add`: the new pool and the returned code. */
  function Add(p: Pool, fd: int, events: int): (Pool, int)
    requires p.Shape()
  {
    var c := FreeSlot(p.clients);
    if p.n >= p.max || c == p.max then (p, -1)
    else (p.(n := p.n + 1,
             pfds := p.pfds[c := p.pfds[c].(fd := fd, events := events)],
             clients := p.clients[c := p.clients[c].(isConnected := true)]),
          fd)
  }

  /** `client_remove`: the new pool and the returned code. */
  function Remove(p: Pool, fd: int): (Pool, int)
    requires p.Shape()
  {
    var c := SlotOf(p.pfds, fd);
    if p.n == 0 || c == p.max then (p, -1)
    else (p.(n := p.n - 1,
             pfds := p.pfds[c := PollFd(-1, 0, 0)],
             clients := p.clients[c := p.clients[c].(isConnected := false, name := None)]),
          fd)
  }

  // ---------------------------------------------------------------- counting

  lemma {:induction false} CountUpdate(cs: seq<Client>, c: nat, x: Client)
    requires c < |cs|
    ensures CountConnected(cs[c := x])
         == CountConnected(cs) - (if cs[c].isConnected then 1 else 0) + (if x.isConnected then 1 else 0)
  {
    var last := |cs| - 1;
    if c == last {
      assert cs[c := x][..last] == cs[..last];
    } else {
      assert cs[c := x][..last] == cs[..last][c := x];
      CountUpdate(cs[..last], c, x);
    }
  }

  lemma {:induction false} CountSplit(cs: seq<Client>, k: nat)
    requires k <= |cs|
    ensures CountConnected(cs) == CountConnected(cs[..k]) + CountConnected(cs[k..])
  {
    if k == |cs| {
      assert cs[..k] == cs;
    } else {
      var last := |cs| - 1;
      CountSplit(cs[..last], k);
      assert cs[..last][..k] == cs[..k];
      assert cs[..last][k..] == cs[k..][..last - k];
    }
  }

  lemma {:induction false} CountBounds(cs: seq<Client>)
    ensures CountConnected(cs) <= |cs|
    ensures CountConnected(cs) == |cs| <==> forall c :: 0 <= c < |cs| ==> cs[c].isConnected
    ensures CountConnected(cs) == 0 <==> forall c :: 0 <= c < |cs| ==> !cs[c].isConnected
  {
    if cs != [] {
      CountBounds(cs[..|cs| - 1]);
    }
  }

  /** The exit that `client_add` marks unreachable is: a pool that is not full has a free slot. */
  lemma FreeSlotExists(p: Pool)
    requires p.Consistent() && p.n < p.max
    ensures FreeSlot(p.clients) < p.max
  {
    CountBounds(p.clients);
  }

  /** A hole inside the counted prefix has a connected slot above it. */
  lemma HoleHasConnectedAbove(p: Pool, c: nat) returns (d: nat)
    requires p.Consistent() && c < p.n && c < p.max && !p.clients[c].isConnected
    ensures c < d < p.max && p.clients[d].isConnected
  {
    CountSplit(p.clients, c);
    CountBounds(p.clients[..c]);
    CountBounds(p.clients[c..]);
    var i :| 0 <= i < |p.clients[c..]| && p.clients[c..][i].isConnected;
    d := c + i;
  }

  /** As many clients lie outside the counted prefix as there are holes inside it. */
  lemma StrandedEqualsHoles(p: Pool)
    requires p.Consistent()
    ensures p.n <= p.max
    ensures CountConnected(p.clients[p.n..]) == p.n - CountConnected(p.clients[..p.n])
  {
    CountBounds(p.clients);
    CountSplit(p.clients, p.n);
  }

  lemma CompactIffPrefixFull(p: Pool)
    requires p.Consistent()
    ensures p.n <= p.max
    ensures p.Compact() <==> CountConnected(p.clients[p.n..]) == 0
    ensures p.Compact() <==> CountConnected(p.clients[..p.n]) == p.n
  {
    StrandedEqualsHoles(p);
    CountBounds(p.clients[..p.n]);
    CountBounds(p.clients[p.n..]);
    if CountConnected(p.clients[p.n..]) == 0 {
      forall c | 0 <= c < p.max ensures p.clients[c].isConnected <==> c < p.n {
        if c < p.n {
          assert p.clients[..p.n][c].isConnected;
        } else {
          assert !p.clients[p.n..][c - p.n].isConnected;
        }
      }
    }
  }

  // ---------------------------------------------------------- kept by each operation

  lemma InitConsistent(max: nat, revents: seq<int>)
    requires |revents| == max
    ensures Init(max, revents).Consistent() && Init(max, revents).Held() == multiset{}
  {
    CountBounds(Init(max, revents).clients);
    var fds := FdsOf(Init(max, revents).pfds);
    assert forall x :: x in multiset(fds) ==> x == -1;
  }

  lemma AddConsistent(p: Pool, fd: int, events: int)
    requires p.Consistent() && fd >= 0
    ensures Add(p, fd, events).0.Consistent()
    ensures Add(p, fd, events).1 == if p.n < p.max then fd else -1
  {
    if p.n < p.max {
      FreeSlotExists(p);
      var c := FreeSlot(p.clients);
      CountUpdate(p.clients, c, p.clients[c].(isConnected := true));
      var q := Add(p, fd, events).0;
      forall d | 0 <= d < q.max ensures q.SlotOk(d) {
        assert p.SlotOk(d);
      }
    }
  }

  lemma RemoveConsistent(p: Pool, fd: int)
    requires p.Consistent() && fd != -1
    ensures Remove(p, fd).0.Consistent()
  {
    var c := SlotOf(p.pfds, fd);
    if p.n != 0 && c < p.max {
      assert p.SlotOk(c);
      CountUpdate(p.clients, c, p.clients[c].(isConnected := false, name := None));
      var q := Remove(p, fd).0;
      forall d | 0 <= d < q.max ensures q.SlotOk(d) {
        assert p.SlotOk(d);
      }
    }
  }

  // ---------------------------------------------------------------- slot by slot

  /** Slot `c` alone differs between the two pools, and the counter by `dn`. */
  ghost predicate OnlySlot(p: Pool, q: Pool, c: nat, dn: int)
    requires p.Shape() && q.Shape()
  {
    && q.max == p.max && q.n == p.n + dn
    && (forall d :: 0 <= d < p.max && d != c ==> q.pfds[d] == p.pfds[d] && q.clients[d] == p.clients[d])
  }

  /** An add stores the descriptor with the events asked for in the lowest empty slot, where
      `revents` stays what it was, and touches no other slot; a full pool stays as it is. */
  lemma AddStores(p: Pool, fd: int, events: int, q: Pool, code: int) returns (c: nat)
    requires p.Consistent() && (q, code) == Add(p, fd, events)
    ensures p.n == p.max ==> q == p && code == -1
    ensures p.n != p.max ==>
              && code == fd && c < p.max && !p.clients[c].isConnected
              && (forall d :: 0 <= d < c ==> p.clients[d].isConnected)
              && q.Shape() && OnlySlot(p, q, c, 1)
              && q.pfds[c] == PollFd(fd, events, p.pfds[c].revents)
              && q.clients[c] == Client(true, p.clients[c].name, c)
  {
    CountBounds(p.clients);
    c := FreeSlot(p.clients);
    if p.n != p.max {
      FreeSlotExists(p);
      assert p.SlotOk(c);
    }
  }

  /** A removal empties the lowest slot that stores the descriptor, though it may be stored
      more than once, and touches no other; a pool that does not store it, or that counts
      nobody, stays as it is. */
  lemma RemoveTakesLowest(p: Pool, fd: int, q: Pool, code: int) returns (c: nat)
    requires p.Consistent() && (q, code) == Remove(p, fd)
    ensures p.n == 0 || !p.Holds(fd) ==> q == p && code == -1
    ensures p.n != 0 && p.Holds(fd) ==>
              && code == fd && c < p.max && p.pfds[c].fd == fd
              && (forall d :: 0 <= d < c ==> p.pfds[d].fd != fd)
              && q.Shape() && OnlySlot(p, q, c, -1)
              && q.pfds[c] == PollFd(-1, 0, 0) && q.clients[c] == Client(false, None, c)
  {
    c := SlotOf(p.pfds, fd);
    if c < p.max {
      assert p.SlotOk(c);
    }
  }
}
