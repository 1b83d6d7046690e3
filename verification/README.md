# Verified model of the chat host

Dafny 4.11 models and proofs for the chat host: the poll-driven server (`main.c`,
`host.c`), the threaded server's client table (`probe/host-threaded.c`) and the line
editor of the terminal client (`ui.c`). `dafny verify dfyconfig.toml` checks everything.

## What is modelled

**The client pool** (`Pools.dfy`, `ClientPool.dfy`, `PoolRefinement.dfy`). `ClientPool`
is a class over the two parallel arrays and the eight-bit counter, updated in place.
Its methods are proved equal to functions on pool values, and the lemmas are about those
functions. The size of the pool is a parameter, 1 to 255, not the constant 3. The
allocator does not clear memory and `clients_init` does not set `revents`, so a new pool
has arbitrary `revents`. A pointer `&pfds[c]` is the index `c`.

**The event loop** (`Kernel.dfy`, `HostModel.dfy`, `HostInvariant.dfy`,
`HostReadiness.dfy`, `HostDelivery.dfy`, `HostRounds.dfy`, `HostReach.dfy`,
`HostEffects.dfy`, `EventLoop.dfy`). A run is any sequence of `poll` steps and visits to slots, where each
step carries the kernel's answers: what `poll` reports, what `accept` and `recv` return,
which sends fail. Every state carries the trace of all system calls made so far, and the
properties of runs are stated over that trace: which sockets are open, which have been
reported readable and not yet read, what each connection was sent. A connection is named
by the position of its `accept` in the trace, so the reuse of descriptor numbers is
covered. `EventLoop` is the imperative loop with its shared 256-byte buffer; its methods
are proved to perform exactly the steps of the model, and `HostEffects.dfy` says what
each step does to slots, sockets and trace without naming the functions that compute it.

What is assumed of the kernel (POSIX.1-2017, System Interfaces): `accept` returns -1 or a
descriptor that is not open (section 2.14); `poll` reports nothing for negative
descriptors, reports a socket again while it is unread, and a positive return value means
that some entry is nonzero; a `recv` that returns a positive count returns at most a
buffer full; a `send` takes the whole chunk or fails, and fails on descriptor -1. One
`recv` or `accept` is taken to use up the report it answers.

**The threaded host's table** (`ThreadedHost.dfy`, `ThreadedCapacity.dfy`,
`ThreadedShutdown.dfy`, `ThreadedDepartures.dfy`). Interleavings of the accept thread,
whose capacity check, thread creation and `add_client` are three steps, with removals by
handler threads. `add_client` and `remove_client` are each one atomic step; the source
has no locks. Sockets may repeat, since a handler closes its socket before it removes it.
Thread numbers are not reused before a join. The shutdown loop runs on any table, and
handlers may leave of themselves before each test and before each cancellation.

**The line editor** (`LineEditor.dfy`). `handle_input` as a loop over a 280-byte buffer,
driven by any sequence of key codes.

## Where the code falls short of its purpose

- A broadcast walks slots `[0, n_clients)`, and reaches everybody if and only if the pool
  is compact. Removals leave non-compact pools behind exactly when there are three slots
  or more, but a broadcast that misses somebody is reachable exactly when there are four
  or more: with the shipped `MAX_CLIENTS` of 3 nobody can speak while there is a hole.
- If everyone in a compact pool hangs up during one round, about half are removed and the
  rest fall outside the polled prefix, where they stay until somebody new connects.
- `main.c` line 21 tests `revents && POLLIN`, so any nonzero `revents` counts as
  readable. Since `clients_init` leaves `revents` unset, the loop may read from a client
  that `poll` never reported; it never does, in any run, exactly when the slots other
  than the listener's happened to start at zero.
- `client_remove(pool, -1)` matches a hole and lowers the counter although nobody left.
- The threaded host loses a place for good each time an add overwrites a listed client,
  down to a single place. A client whose handler leaves before `add_client` stays listed
  with no thread to remove it, which can take the last place: for every table size a run
  ends with nobody connected and every newcomer refused for ever. Its shutdown joins at
  most half of the counted threads.

## Model

| member | source | states |
|---|---|---|
| ClientPools.ClientPool.constructor | host.c:39-60 | every slot empty with events 0, no name and its own pfd; `revents` is whatever memory held |
| ClientPools.ClientPool.ClientAdd | host.c:62-80 | the in-place loop performs the pool function `Add`, code included; the counter never wraps and the last exit is never reached |
| ClientPools.ClientPool.ClientRemove | host.c:82-103 | the in-place loop performs the pool function `Remove`, code included; the counter never wraps |
| Pools.FreeSlotExists | host.c:63-79 | the failure exit marked unreachable is unreachable: a pool that is not full has a free slot |
| Pools.InitConsistent | host.c:39-60 | a new pool is consistent and holds nothing |
| Pools.AddConsistent | host.c:62-80 | an add keeps counter, connected flags, fds, events, names and pfd links in agreement, and succeeds exactly when the pool is not full |
| Pools.RemoveConsistent | host.c:82-103 | a removal keeps them in agreement |
| Pools.StrandedEqualsHoles | host.c:62-103 | the connected slots at or past the counter are as many as the holes before it |
| Pools.AddStores | host.c:62-80 | an add stores descriptor and events in the lowest empty slot, keeps its `revents`, and changes no other slot; a full pool does not change and the code is -1 |
| Pools.RemoveTakesLowest | host.c:82-103 | a removal empties the lowest slot storing the descriptor and no other, even if it is stored several times; a pool that does not store it, or counts nobody, does not change and the code is -1 |
| PoolRefinement.CounterIsBagSize | host.c:72-94 | the counter is the number of descriptors held, at most `max` |
| PoolRefinement.RunRefinesBag | host.c:62-103 | every sequence of adds and removes, duplicates included, returns what a bounded bag of descriptors returns and leaves the same bag |
| PoolRefinement.AddRefinesIff | host.c:62-80 | an add behaves as on the bag if and only if the descriptor is not negative, or the pool is full |
| PoolRefinement.RemoveRefinesIff | host.c:82-103 | a removal behaves as on the bag if and only if its argument is not -1, or the pool is empty or full |
| PoolRefinement.AddThenRemove | host.c:62-103 | adding a fresh descriptor and removing it restores the whole pool, but for the slot's cleared `revents` |
| PoolRefinement.GapMeansCompact | host.c:62-103 | the highest client sticks out of the counted prefix by zero exactly when the pool is compact |
| PoolRefinement.AddClosesGap | host.c:67-77 | an add to a pool with a gap keeps the span and lowers the gap by one, otherwise the gap stays zero |
| PoolRefinement.AddsHeal | host.c:62-80 | k adds in a row shrink the gap by k; the pool is compact exactly when k reaches the gap, and there is always room for that many |
| Kernel.AcceptsMatchCloses | host.c:189-214 | on a proper trace a descriptor was accepted once more than closed while open, and equally often otherwise |
| Kernel.InboxWithinLog | host.c:216-229 | on a proper trace what a connection is sent is an increasing subsequence of the log of others' chunks |
| Kernel.InboxRepeatsChunks | host.c:223 | the bytes a connection is sent are those the named `recv` returned |
| HostInvariant.StartInv | main.c:11-14 | the state before the loop satisfies the invariant, with the listener in slot 0 |
| HostInvariant.StepKeepsInv | main.c:16-48 | every poll and every visit keeps the invariant: tables agree, fds distinct and equal to the open sockets, listener in slot 0, holes quiet, visited clients inside the prefix, every call proper |
| HostInvariant.RunKeepsInv | main.c:16-48 | every reachable state satisfies the invariant |
| HostInvariant.ReportedSlotIsConnected | main.c:20-38 | a slot found reported in the walked prefix is never a hole, so neither `recv` nor `disconnect_client` meets descriptor -1 |
| HostInvariant.DisconnectClearsOwnSlot | host.c:211-214 | `disconnect_client(c)`, which removes by descriptor, clears slot c and no other |
| HostEffects.PollEffect | main.c:17 | after `poll` every counted slot shows its report, all else in the pool is as before, and the call polled exactly the counted descriptors that are not negative |
| HostEffects.AcceptEffect | main.c:22-27 | a newcomer's socket stays open if and only if the pool has room; it then sits in the lowest free slot, holes included, with every other slot as before; otherwise it is closed and the pool does not change |
| HostEffects.FailedAcceptEffect | host.c:193-197 | an `accept` that fails changes nothing but the trace |
| HostEffects.ReadEffect | main.c:29-46 | a reported client's socket stays open if and only if bytes came; on a hang-up or a failure it is closed, its slot emptied, the counter lowered by one and every other slot left as it was |
| HostEffects.VisitReads | main.c:21-31 | one visit reads the client of its slot exactly if that slot shows readiness, and reads nobody else |
| HostEffects.RoundReads | main.c:17-47 | of the clients a round polls it reads exactly those reported whose slot the walk gets to, each with the answer the kernel has for it |
| HostReadiness.RunKeepsPrompt | main.c:16-48 | from cleared slots, readiness a slot shows is backed by an unconsumed report or is stale in a slot the next poll overwrites |
| HostReadiness.LeftoverReadinessWaits | host.c:51-57 | if slot k has leftover `revents`, a run exists that reads its client without any report |
| HostReadiness.NeverWaitsIff | main.c:16-48 | no run ever reads from or accepts on a socket without an unconsumed report, if and only if all slots but the listener's start with `revents` 0 |
| HostReach.HolesReachableIff | host.c:82-98 | a non-compact pool is reachable if and only if there are at least three slots |
| HostReach.MissedBroadcastReachableIff | host.c:216-229 | a broadcast that misses a connected client is reachable if and only if there are at least four slots |
| HostDelivery.WastedSendsEqualMissedClients | host.c:216-229 | sends tried on descriptor -1 equal in number the connected clients missed |
| HostDelivery.ReachedIffInsidePrefix | host.c:220-222 | a client other than the sender is sent the chunk once if its slot is below the counter and never otherwise |
| HostDelivery.ReachesAllIffCompact | host.c:216-229 | a broadcast reaches all but sender and listener if and only if the pool is compact |
| HostDelivery.ChunkDelivery | main.c:39-44 | what one chunk adds to a connection's inbox and to the others' log, exactly |
| HostDelivery.SessionsHearOthersInOrder | main.c:29-43 | in every run each connection is sent, in order, once each and byte for byte, chunks others sent between its accept and its close |
| HostDelivery.SessionHearsEverythingIff | main.c:29-43 | in every run a connection lacks one of the others' chunks for each time its slot was past the counter or its send failed, and has them all exactly if that never happened |
| HostDelivery.CompactSessionsHearEverything | main.c:29-43 | a connection during whose life the pool is compact and no send to it fails is sent all of them |
| HostRounds.Walk | main.c:20-47 | the inner loop ends, keeping the invariant, with the index at or past the counter and at most `max` |
| HostRounds.RoundCoversPrefix | main.c:17-47 | a round is one poll and one visit each to slots 0, 1, 2, ...; at its end a client is inside the next polled prefix exactly if it was visited |
| HostRounds.RoundAcceptsOnce | main.c:22-27 | a round accepts at most one connection |
| HostRounds.RoundsAreRuns | main.c:16-48 | any number of rounds is a run, so what holds of runs holds of the loop |
| HostRounds.DescriptorsConserved | host.c:189-214 | in every reachable state each descriptor was accepted as often as it was closed plus the number of slots holding it, at most one; the listener is never closed |
| HostRounds.MassHangUpStrandsHalf | main.c:20-38 | from a compact pool of n slots where all clients hang up, exactly floor(n/2) are removed and the rest lie outside the next polled prefix |
| HostRounds.StrandedUntilArrival | main.c:17-20 | a client outside the counted prefix stays there along every run without arrivals, whatever the others do, and its descriptor is not polled, read, sent to or closed |
| HostRounds.AllStrandedUntilArrival | main.c:17-20 | if the listener is the only client polled, nobody at all is read or removed until somebody connects |
| HostRounds.ArrivalsHeal | host.c:62-80 | along any run that closes nothing, arrivals shrink the gap one by one and the pool ends compact exactly when enough have come |
| EventLoops.EventLoop.constructor | main.c:9-14 | sets up the start state of the model |
| EventLoops.EventLoop.PollPrefix | main.c:17 | `poll` over the counted prefix is the model's poll step |
| EventLoops.EventLoop.ConnectClient | host.c:189-209 | adds the descriptor, or closes it if the pool is full |
| EventLoops.EventLoop.DisconnectClient | host.c:211-214 | closes the socket and removes it from the pool |
| EventLoops.EventLoop.Receive | main.c:29-31 | the first `numBytes` bytes of the shared buffer are what was received; 0 is a hang-up, -1 a failure |
| EventLoops.EventLoop.BroadcastAll | host.c:216-229 | sends the first `msgLen` bytes of the buffer to the counted prefix but for sender and listener |
| EventLoops.EventLoop.VisitSlot | main.c:21-46 | the loop body is the model's visit step |
| EventLoops.EventLoop.RunRound | main.c:16-48 | one iteration of the outer loop is the model's round |
| EventLoops.EventLoop.Serve | main.c:16-48 | the outer loop is the model's sequence of rounds |
| ThreadedHost.ClientTable.constructor | probe/host-threaded.c:285-292 | every entry vacant |
| ThreadedHost.ClientTable.Add | probe/host-threaded.c:294-303 | writes the entry at the count and raises the count |
| ThreadedHost.ClientTable.Remove | probe/host-threaded.c:305-317 | vacates every entry with the socket and lowers the count once for each |
| ThreadedHost.StepHasEffect | probe/host-threaded.c:173-216 | what each step changes, field by field, and that nothing else changes: admission exactly if there is room, the handler's socket and thread, the entry at the old count, the entries a leaving handler clears |
| ThreadedHost.GivenUpLeavesNoTrace | probe/host-threaded.c:178-199 | a newcomer for whom no thread can be created leaves the state exactly as it was |
| ThreadedHost.ComesAndGoes | probe/host-threaded.c:195-216 | a client entered in a vacant place under an unlisted socket and gone again leaves only his thread number in the table |
| ThreadedHost.StepKeepsInv | probe/host-threaded.c:178-216 | every step keeps occupied <= count <= size and each entry's place, flag and thread; count minus occupied grows by one exactly when an add overwrites a client |
| ThreadedHost.EveryInterleaving | probe/host-threaded.c:178-201 | in every interleaving the add's write is in range, the places counted but vacant are the clients overwritten, fewer than the table has, and refusal happens exactly when these and the occupied places fill it |
| ThreadedHost.CapacityNeverRecovers | probe/host-threaded.c:294-317 | places lost to overwriting are never recovered in any continuation |
| ThreadedCapacity.OverwritingCanTakeAllButOne | probe/host-threaded.c:294-317 | for every table size a run, with socket numbers handed out lowest first, overwrites all places but one |
| ThreadedCapacity.AdmissionPossibleIff | probe/host-threaded.c:178-201 | from a reachable state with nobody at the door some continuation admits a newcomer if and only if the count leaves room or a running handler's socket is listed |
| ThreadedCapacity.LockedOutForever | probe/host-threaded.c:178-185 | once neither holds, the table never changes again and nobody is admitted |
| ThreadedCapacity.LockOutReachable | probe/host-threaded.c:195-201 | for every table size a run, with socket numbers handed out lowest first, ends with no handler running and every newcomer refused in every continuation |
| ThreadedShutdown.JoinAllThreads | probe/host-threaded.c:161-171 | the loop over the table in place, with departures at any point, ends as the function `JoinAll` says and resets the count |
| ThreadedShutdown.ReachableIsTidy | probe/host-threaded.c:173-206 | every state reached without giving a newcomer a running handler's socket meets what the two shutdown bounds ask for |
| ThreadedShutdown.ShutdownJoinsAtMostHalf | probe/host-threaded.c:161-171 | on any tidy table, holes and overwritten clients included, and whoever leaves meanwhile, at most ceil(n/2) threads are joined, n being the count |
| ThreadedShutdown.UnnamedNeverJoined | probe/host-threaded.c:163-167 | a running thread that no entry names is never joined |
| ThreadedDepartures.ShutdownUnderDepartures | probe/host-threaded.c:161-171 | on any table and whoever leaves meanwhile: the loop stops at the least index not below the count less the entries of those gone by then; gone are the running threads named before that index and those that left, their sockets are listed nowhere, and all other entries stay |
| ThreadedDepartures.ShutdownPartition | probe/host-threaded.c:161-171 | every thread running before shutdown is joined, or has left, or still runs, and one that still runs is neither; joined, once each, are exactly those that an entry below the stop names before they leave |
| ThreadedDepartures.DepartedAreGone | probe/host-threaded.c:208-216 | a handler that leaves at a test or a cancellation the loop reaches is not running at the end and its socket is listed nowhere |
| ThreadedDepartures.UndisturbedShutdown | probe/host-threaded.c:161-171 | if nobody leaves of himself, the loop deals with the first k entries, k least such that k and the running threads they name reach the count; exactly those threads stop running |
| ThreadedDepartures.ShutdownJoinsHalf | probe/host-threaded.c:161-171 | from n live clients in a compact table shutdown joins ceil(n/2), leaves the others listed, and joins everybody only if n <= 1 |
| LineEditor.HandleInput | ui.c:57-85 | the loop over the buffer hands back what `Outcome` says, and the 280-byte buffer is the line followed by NULs |
| LineEditor.FirstEndDecides | ui.c:67-75 | the first key 265 (F1) or 27 (Escape) cancels and the first 10 (Enter) submits the line so far and a NUL, whatever would follow |
| LineEditor.WaitsIffUnended | ui.c:67-75 | the editor goes on reading if and only if none of the three has come |
| LineEditor.KeyEdits | ui.c:76-78 | keys 127 and 263 drop the newest byte if there is one; any other key adds its low eight bits exactly while fewer than 279 bytes are held |
| LineEditor.PrintableLine | ui.c:78 | of any number of printable keys the first 279 make up the line and all later ones are dropped |
| LineEditor.LineIsSurvivors | ui.c:76-78 | the line holds the low eight bits of the surviving keys |
| LineEditor.SurvivorsIncrease | ui.c:76-78 | the survivors are in typing order |
| LineEditor.SurvivesIff | ui.c:76-78 | a key survives exactly if it was accepted and no later prefix deletes more than it adds after it |
| LineEditor.SurvivesIffUncapped | ui.c:76-78 | if the cap drops no key, counting typed keys instead of accepted ones decides survival |

## Left out

- Socket setup, address handling and port parsing (`host.c` lines 13-19 and 112-168): the model starts from any listener descriptor that is not negative.
- Timeout and failure of `poll` (`host.c` lines 170-181): they end the process, and so end a run.
- Logging: assumed to have no effect, although two error paths pass `errno` where a string is expected.
- Allocation failure and freeing: allocation is assumed to succeed, in the line editor too.
- `send` that takes part of a chunk: the source ignores the returned count, and the model lets a send succeed or fail as a whole.
- ThreadedShutdown.ShutdownJoinsAtMostHalf: for tables on which running handlers hold different sockets; a socket number that is given out again between a handler's close and its removal can leave others.
- ThreadedDepartures.UndisturbedShutdown: also asks that no socket is listed twice, which a client listed after its handler left can cause; `ShutdownUnderDepartures` says exactly what happens then.
- ThreadedCapacity.AdmissionPossibleIff: about states in which the accept thread is back in its loop; a client listed after its handler left may also be removed later, by a newer client on the same socket number, if one is admitted.
- ThreadedHost.ClientTable.Add: atomic, so races between single statements, the C memory model and signals are not covered.
- Broadcasts, greetings and double closing of sockets in the threaded host: they do not touch the table.
- `probe/host-poll.c` and `probe/ui.c` repeat the pool, the loop and the editor modelled here.
- The clients, the screen layout in the rest of `ui.c`, the SQLite wrappers and the build files.
