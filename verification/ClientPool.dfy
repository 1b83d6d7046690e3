/** `ClientPool` of `host.h`, updated in place. Both counters are eight bits wide, so
    Dafny also checks that neither operation wraps `nClients` around. */
module ClientPools {
  import opened Integers
  import opened Pools

  class ClientPool {
    const max: uint8
    var nClients: uint8
    const clients: array<Client>
    const pfds: array<PollFd>

    ghost predicate Valid()
      reads this, clients, pfds
    {
      clients.Length == pfds.Length == max as int
    }

    ghost function View(): (p: Pool)
      reads this, clients, pfds
    {
      Pool(max as nat, nClients as nat, pfds[..], clients[..])
    }

    /** `clients_init`. The allocator does not clear the tables, so `revents` may be anything. */
    constructor (max: uint8)
      ensures Valid() && fresh(clients) && fresh(pfds) && this.max == max
      ensures View() == Init(max as nat, ReventsOf(View().pfds))
    {
      this.max := max;
      nClients := 0;
      var pfdTable: array<PollFd> := new PollFd[max];
      var clientTable: array<Client> := new Client[max];
      pfds := pfdTable;
      clients := clientTable;
      new;
      for c := 0 to max as int
        invariant nClients == 0
        invariant forall d :: 0 <= d < c ==> pfds[d] == PollFd(-1, 0, pfds[d].revents)
        invariant forall d :: 0 <= d < c ==> clients[d] == Client(false, None, d)
      {
        pfds[c] := pfds[c].(fd := -1);
        pfds[c] := pfds[c].(events := 0);
        clients[c] := Client(false, None, c);
      }
      assert View().pfds == Init(max as nat, ReventsOf(View().pfds)).pfds;
    }

    /** `client_add`. */
    method ClientAdd(fd: int, events: int) returns (code: int)
      requires Valid() && View().Consistent()
      modifies this`nClients, clients, pfds
      ensures Valid() && (View(), code) == Add(old(View()), fd, events)
    {
      if nClients >= max {
        return -1;
      }
      ghost var was := View();
      FreeSlotExists(was);
      for c := 0 to max as int
        invariant View() == was
        invariant forall d :: 0 <= d < c ==> clients[d].isConnected
      {
        if !clients[c].isConnected {
          assert c == FreeSlot(was.clients);
          pfds[c] := pfds[c].(fd := fd);
          pfds[c] := pfds[c].(events := events);
          clients[c] := clients[c].(isConnected := true);
          nClients := nClients + 1;
          assert pfds[..] == Add(was, fd, events).0.pfds;
          assert clients[..] == Add(was, fd, events).0.clients;
          return fd;
        }
      }
      assert false; // unreachable
      return -1;
    }

    /** `client_remove`. */
    method ClientRemove(fd: int) returns (code: int)
      requires Valid()
      modifies this`nClients, clients, pfds
      ensures Valid() && (View(), code) == Remove(old(View()), fd)
    {
      if nClients == 0 {
        return -1;
      }
      ghost var was := View();
      for c := 0 to max as int
        invariant View() == was
        invariant forall d :: 0 <= d < c ==> pfds[d].fd != fd
      {
        if pfds[c].fd == fd {
          assert c == SlotOf(was.pfds, fd);
          pfds[c] := pfds[c].(fd := -1);
          pfds[c] := pfds[c].(events := 0);
          pfds[c] := pfds[c].(revents := 0);
          clients[c] := clients[c].(isConnected := false);
          clients[c] := clients[c].(name := None);
          nClients := nClients - 1;
          assert pfds[..] == Remove(was, fd).0.pfds;
          assert clients[..] == Remove(was, fd).0.clients;
          return fd;
        }
      }
      return -1;
    }
  }
}
