/** The event loop of `main.c` as a state machine. A run alternates `poll` with visits
    to slots; each step carries what the kernel answered, so a run is any sequence of
    steps that the kernel may allow. */
module HostModel {
  import opened Integers
  import opened Pools
  import opened Kernel

  const MAX_DATA_LEN: nat := 256

  /** `slot` is the loop variable `c`; `trace` holds every call made so far. */
  datatype Host = Host(pool: Pool, listener: int, slot: nat, trace: Trace)

  /** Kernel's answers while one slot is visited: what `accept` returns, what `recv`
      returns, and the slots to which a `send` fails. */
  datatype Answers = Answers(accepted: int, received: Received, refused: set<nat>)

  datatype Step = PollStep(revents: seq<int>) | VisitStep(answers: Answers)

  /** The state in which `for (;;)` is first reached. */
  function Start(max: nat, listener: int, revents: seq<int>): Host
    requires |revents| == max
  {
    Host(Add(Init(max, revents), listener, POLLIN).0, listener, 1, [])
  }

  ghost predicate WellFormed(s: Host) {
    s.pool.Shape() && s.pool.n <= s.pool.max
  }

  // -------------------------------------------------------------------------- poll

  function Polled(p: Pool): set<int>
    requires p.Shape() && p.n <= p.max
  {
    set c | 0 <= c < p.n && p.pfds[c].fd >= 0 :: p.pfds[c].fd
  }

  function Reported(p: Pool, revents: seq<int>): set<int>
    requires p.Shape() && p.n <= p.max && |revents| == p.n
  {
    set c | 0 <= c < p.n && p.pfds[c].fd >= 0 && revents[c] != 0 :: p.pfds[c].fd
  }

  function PollPool(p: Pool, revents: seq<int>): Pool
    requires p.Shape() && p.n <= p.max && |revents| == p.n
  {
    p.(pfds := seq(p.max, c requires 0 <= c < p.max =>
         if c < p.n then p.pfds[c].(revents := revents[c]) else p.pfds[c]))
  }

  /** What POSIX promises of a `poll` that returned a positive count: negative
      descriptors report nothing, and unread sockets are reported again. */
  ghost predicate PollAllowed(s: Host, revents: seq<int>)
    requires WellFormed(s)
  {
    && |revents| == s.pool.n
    && (forall c :: 0 <= c < s.pool.n && s.pool.pfds[c].fd < 0 ==> revents[c] == 0)
    && (forall c :: 0 <= c < s.pool.n && s.pool.pfds[c].fd in Ready(s.trace) ==> revents[c] != 0)
    && (exists c :: 0 <= c < s.pool.n && revents[c] != 0)
  }

  // ------------------------------------------------------------------------- visit

  /** What `broadcast_all` does for slot `c`, which stores `dest`. */
  function Attempt(c: nat, dest: int, sender: int, listener: int, bytes: seq<byte>, refused: set<nat>): Trace {
    if dest != listener && dest != sender then [Send(dest, bytes, dest >= 0 && c !in refused)] else []
  }

  /** `broadcast_all` over the slots in `pfds`. */
  function Broadcast(pfds: seq<PollFd>, sender: int, listener: int, bytes: seq<byte>, refused: set<nat>): Trace {
    if pfds == [] then []
    else
      var last := |pfds| - 1;
      Broadcast(pfds[..last], sender, listener, bytes, refused) +
      Attempt(last, pfds[last].fd, sender, listener, bytes, refused)
  }

  /** `connect_client`. */
  function Connect(s: Host, fd: int): Host
    requires WellFormed(s)
  {
    if fd == -1 then s
    else
      var (p, code) := Add(s.pool, fd, POLLIN);
      if code < 0 then s.(pool := p, trace := s.trace + [Close(fd)]) else s.(pool := p)
  }

  /** `disconnect_client`. */
  function Disconnect(s: Host, c: nat): Host
    requires WellFormed(s) && c < s.pool.max
  {
    var fd := s.pool.pfds[c].fd;
    s.(pool := Remove(s.pool, fd).0, trace := s.trace + [Close(fd)])
  }

  /** One pass through the body of the inner loop. */
  function Visit(s: Host, a: Answers): Host
    requires WellFormed(s) && s.slot < s.pool.n
  {
    var entry := s.pool.pfds[s.slot];
    if entry.revents == 0 then s
    else if entry.fd == s.listener then
      Connect(s.(trace := s.trace + [Accept(s.listener, a.accepted)]), a.accepted)
    else
      var heard := s.(trace := s.trace + [Recv(entry.fd, a.received)]);
      match a.received
      case Data(bytes) =>
        heard.(trace := heard.trace + Broadcast(s.pool.pfds[..s.pool.n], entry.fd, s.listener, bytes, a.refused))
      case HungUp => Disconnect(heard, s.slot)
      case Failed => Disconnect(heard, s.slot)
  }

  /** `accept` fails or returns a descriptor that is not in use; `recv` returns at least
      one byte and at most a buffer full, or else it has hung up or failed. */
  ghost predicate VisitAllowed(s: Host, a: Answers) {
    && (a.accepted == -1 || (a.accepted >= 0 && a.accepted !in Open(s.listener, s.trace)))
    && (a.received.Data? ==> 0 < |a.received.bytes| <= MAX_DATA_LEN)
  }

  // --------------------------------------------------------------------------- runs

  ghost predicate Enabled(s: Host, step: Step) {
    && WellFormed(s)
    && match step
       case PollStep(revents) => s.slot >= s.pool.n && PollAllowed(s, revents)
       case VisitStep(answers) => s.slot < s.pool.n && VisitAllowed(s, answers)
  }

  ghost function Next(s: Host, step: Step): Host
    requires Enabled(s, step)
  {
    match step
    case PollStep(revents) =>
      s.(pool := PollPool(s.pool, revents), slot := 0,
         trace := s.trace + [Poll(Polled(s.pool), Reported(s.pool, revents))])
    case VisitStep(answers) => Visit(s, answers).(slot := s.slot + 1)
  }

  ghost predicate Run(s: Host, steps: seq<Step>)
    decreases |steps|
  {
    steps == [] || (Enabled(s, steps[0]) && Run(Next(s, steps[0]), steps[1..]))
  }

  ghost function After(s: Host, steps: seq<Step>): Host
    requires Run(s, steps)
    decreases |steps|
  {
    if steps == [] then s else After(Next(s, steps[0]), steps[1..])
  }

  lemma OneStep(s: Host, step: Step)
    requires Enabled(s, step)
    ensures Run(s, [step]) && After(s, [step]) == Next(s, step)
  {
    assert [step][1..] == [];
    assert Run(Next(s, step), []) && After(Next(s, step), []) == Next(s, step);
  }

  lemma RunCons(s: Host, step: Step, rest: seq<Step>)
    requires Enabled(s, step) && Run(Next(s, step), rest)
    ensures Run(s, [step] + rest) && After(s, [step] + rest) == After(Next(s, step), rest)
  {
    assert ([step] + rest)[1..] == rest;
  }

  lemma {:induction false} RunConcat(s: Host, first: seq<Step>, second: seq<Step>)
    requires Run(s, first) && Run(After(s, first), second)
    ensures Run(s, first + second) && After(s, first + second) == After(After(s, first), second)
    decreases |first|
  {
    if first == [] {
      assert first + second == second;
    } else {
      assert (first + second)[1..] == first[1..] + second;
      RunConcat(Next(s, first[0]), first[1..], second);
    }
  }
}
