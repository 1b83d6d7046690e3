/** The production `main` of `main.c` with the functions of `host.c` it calls, updating
    the pool in place. The kernel's answers are read from the round's `RoundAnswers`. */
module EventLoops {
  import opened Integers
  import opened Pools
  import opened ClientPools
  import opened Kernel
  import opened HostModel
  import opened HostInvariant
  import opened HostRounds

  class EventLoop {
    const pool: ClientPool
    const listener: int
    const dataBuffer: array<byte>
    ghost var slot: nat
    ghost var trace: Trace

    ghost predicate Valid()
      reads this, pool, pool.clients, pool.pfds
    {
      && pool.Valid()
      && dataBuffer.Length == MAX_DATA_LEN
      && Inv(State())
    }

    ghost function State(): Host
      reads this, pool, pool.clients, pool.pfds
    {
      Host(pool.View(), listener, slot, trace)
    }

    /** Up to the loop: `clients_init`, then the listener is added as the first client. */
    constructor (max: uint8, listener: int)
      requires max > 0 && listener >= 0
      ensures Valid() && fresh(pool) && fresh(pool.clients) && fresh(pool.pfds) && fresh(dataBuffer)
      ensures pool.max == max && |State().pool.pfds| == max as nat
      ensures State() == Start(max as nat, listener, ReventsOf(State().pool.pfds))
    {
      var p := new ClientPool(max);
      ghost var revents := ReventsOf(p.View().pfds);
      InitConsistent(max as nat, revents);
      var _ := p.ClientAdd(listener, POLLIN);
      this.pool := p;
      this.listener := listener;
      dataBuffer := new byte[MAX_DATA_LEN];
      slot, trace := 1, [];
      new;
      StartInv(max as nat, listener, revents);
      assert ReventsOf(pool.View().pfds) == revents;
    }

    /** The kernel's side of `poll`: fill in `revents` for the counted prefix. */
    method FillRevents(revents: seq<int>)
      requires pool.Valid() && pool.nClients <= pool.max && |revents| == pool.nClients as int
      modifies pool.pfds
      ensures pool.View() == PollPool(old(pool.View()), revents)
    {
      ghost var was := pool.View();
      var n := pool.nClients as int;
      for c := 0 to n
        invariant forall d :: 0 <= d < c ==> pool.pfds[d] == was.pfds[d].(revents := revents[d])
        invariant forall d :: c <= d < pool.max as int ==> pool.pfds[d] == was.pfds[d]
      {
        pool.pfds[c] := pool.pfds[c].(revents := revents[c]);
      }
      assert pool.View().pfds == PollPool(was, revents).pfds;
    }

    /** `poll` over the counted prefix. */
    method PollPrefix(revents: seq<int>)
      requires Valid() && Enabled(State(), PollStep(revents))
      modifies this`slot, this`trace, pool.pfds
      ensures Valid() && State() == Next(old(State()), PollStep(revents))
    {
      ghost var was := State();
      StepKeepsInv(was, PollStep(revents));
      FillRevents(revents);
      trace := trace + [Poll(Polled(was.pool), Reported(was.pool, revents))];
      slot := 0;
    }

    /** `connect_client`. */
    method ConnectClient(fd: int)
      requires pool.Valid() && pool.View().Consistent() && WellFormed(State()) && fd >= -1
      modifies this`trace, pool`nClients, pool.clients, pool.pfds
      ensures pool.Valid() && State() == Connect(old(State()), fd)
    {
      if fd == -1 {
        return;
      }
      var code := pool.ClientAdd(fd, POLLIN);
      if code < 0 {
        trace := trace + [Close(fd)];
      }
    }

    /** `disconnect_client`: the socket is closed first, and the slot is then found again by descriptor. */
    method DisconnectClient(c: nat)
      requires pool.Valid() && WellFormed(State()) && c < pool.max as nat
      modifies this`trace, pool`nClients, pool.clients, pool.pfds
      ensures pool.Valid() && State() == Disconnect(old(State()), c)
    {
      trace := trace + [Close(pool.pfds[c].fd)];
      var _ := pool.ClientRemove(pool.pfds[c].fd);
    }

    /** `recv` into the buffer that all clients share. */
    method Receive(fd: int, received: Received) returns (numBytes: int)
      requires dataBuffer.Length == MAX_DATA_LEN
      requires received.Data? ==> 0 < |received.bytes| <= MAX_DATA_LEN
      modifies this`trace, dataBuffer
      ensures trace == old(trace) + [Recv(fd, received)]
      ensures numBytes <= MAX_DATA_LEN
      ensures received.Data? ==> numBytes > 0 && dataBuffer[..numBytes] == received.bytes
      ensures received.HungUp? ==> numBytes == 0
      ensures received.Failed? ==> numBytes == -1
    {
      trace := trace + [Recv(fd, received)];
      match received {
        case Data(bytes) =>
          numBytes := |bytes|;
          for i := 0 to numBytes
            invariant trace == old(trace) + [Recv(fd, received)]
            invariant dataBuffer[..i] == bytes[..i]
          {
            dataBuffer[i] := bytes[i];
          }
          assert dataBuffer[..numBytes] == bytes;
        case HungUp => numBytes := 0;
        case Failed => numBytes := -1;
      }
    }

    /** `broadcast_all` of the first `msgLen` bytes of the buffer. */
    method BroadcastAll(sendFd: int, msgLen: nat, refused: set<nat>)
      requires pool.Valid() && WellFormed(State()) && msgLen <= dataBuffer.Length
      modifies this`trace
      ensures trace == old(trace) +
                Broadcast(pool.View().pfds[..pool.nClients], sendFd, listener, dataBuffer[..msgLen], refused)
    {
      ghost var pfds := pool.View().pfds;
      var n := pool.nClients as int;
      for c := 0 to n
        invariant trace == old(trace) + Broadcast(pfds[..c], sendFd, listener, dataBuffer[..msgLen], refused)
      {
        assert pfds[..c + 1][..c] == pfds[..c];
        var destFd := pool.pfds[c].fd;
        if destFd != listener && destFd != sendFd {
          trace := trace + [Send(destFd, dataBuffer[..msgLen], destFd >= 0 && c !in refused)];
        }
      }
    }

    /** The body of the inner loop for slot `c`. */
    method VisitSlot(c: nat, a: Answers)
      requires Valid() && slot == c && Enabled(State(), VisitStep(a))
      modifies this`slot, this`trace, pool`nClients, pool.clients, pool.pfds, dataBuffer
      ensures Valid() && State() == Next(old(State()), VisitStep(a))
    {
      ghost var was := State();
      StepKeepsInv(was, VisitStep(a));
      var entry := pool.pfds[c];
      if entry.revents != 0 {
        if entry.fd == listener {
          trace := trace + [Accept(listener, a.accepted)];
          ConnectClient(a.accepted);
        } else {
          var numBytes := Receive(entry.fd, a.received);
          if numBytes <= 0 {
            DisconnectClient(c);
          } else {
            BroadcastAll(entry.fd, numBytes, a.refused);
          }
        }
      }
      slot := c + 1;
    }

    /** One iteration of `for (;;)`. */
    method RunRound(r: RoundAnswers)
      requires Valid() && RoundAllowed(State(), r)
      modifies this`slot, this`trace, pool`nClients, pool.clients, pool.pfds, dataBuffer
      ensures Valid() && State() == Round(old(State()), r)
    {
      PollPrefix(r.revents);
      var c := 0;
      while c < pool.nClients as int
        invariant Valid() && slot == c && pool.max as nat == |r.visits|
        invariant WalkAllowed(State(), r.visits) && Walk(State(), r.visits) == Round(old(State()), r)
        decreases pool.max as int - c
      {
        VisitSlot(c, r.visits[c]);
        c := c + 1;
      }
    }

    /** The loop, for as many rounds as `poll` keeps returning. */
    method Serve(rounds: seq<RoundAnswers>)
      requires Valid() && RoundsAllowed(State(), rounds)
      modifies this`slot, this`trace, pool`nClients, pool.clients, pool.pfds, dataBuffer
      ensures Valid() && State() == Rounds(old(State()), rounds)
    {
      var i := 0;
      while i < |rounds|
        invariant 0 <= i <= |rounds| && Valid()
        invariant RoundsAllowed(State(), rounds[i..])
        invariant Rounds(State(), rounds[i..]) == Rounds(old(State()), rounds)
      {
        assert rounds[i..][1..] == rounds[i + 1..];
        RunRound(rounds[i]);
        i := i + 1;
      }
    }
  }
}
