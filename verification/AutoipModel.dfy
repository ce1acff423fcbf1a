/**
 The IPv4 link-local (RFC 3927) claim machine of autoip4/fsm.c and autoip4/device.c,
 together with the ARP probing of src/arp.c that drives it, as functions on a value
 `Dev`. AutoipDevice.dfy holds the class that is proved to compute them; AutoipRuns.dfy
 holds the properties of all runs.

 Times are in microseconds (`struct timeval` flattened; 0 is an unset timeval) and
 timeouts in milliseconds, as in the source. One step reads the clock once.
 */
module AutoipModel {
  import opened Common

  const ADDRESS_FIRST: nat := 0xA9FE0100
  const ADDRESS_LAST: nat := 0xA9FEFEFF

  const PROBE_DELAY_MIN: nat := 0
  const PROBE_DELAY_MAX: nat := 1000
  const MAX_CONFLICTS: nat := 10
  const RATE_LIMIT_INTERVAL: nat := 60000
  const DEFEND_INTERVAL: nat := 10000

  /** Milliseconds as microseconds. */
  function Usec(msec: nat): nat {
    1000 * msec
  }

  /** The `tv_sec` part of a time in microseconds. */
  function Seconds(usec: nat): nat {
    usec / 1_000_000
  }

  datatype State = Init | Claiming | Claimed

  /** The single timer slot; the callback decides what its expiry does. */
  datatype Timer = NoTimer | ClaimTimer(due: nat) | ReleaseTimer(due: nat)

  /** `addr` is the first address of the lease, when it is an IPv4 one. */
  datatype Lease = Lease(addr: Option<nat>, uuid: nat)

  datatype Request = Request(enabled: bool, uuid: nat)

  /** The one address a device has under verification. */
  datatype Target = Target(addr: nat, attempts: nat, errors: nat, tentative: bool, duplicate: bool)

  datatype Verify = Verify(nprobes: nat, nretry: nat, probeMin: nat, probeMax: nat,
                           started: nat, lastTimeout: nat, target: Option<Target>)

  datatype ArpConfig = ArpConfig(count: nat, retries: nat, intervalMin: nat, intervalMax: nat)

  /** `conflicting`: a reply that neither our own address nor another interface of ours explains. */
  datatype Packet = Packet(sip: nat, reply: bool, conflicting: bool)

  datatype SendResult = Sent | NoBuffers | SendError

  datatype SendStatus = Progress(timeout: nat) | Failure | Complete

  /** Everything the outside world decides during one step. */
  datatype Choice = Choice(draw: nat, jitter: nat, cfg: ArpConfig, memory: bool,
                           canOpen: bool, sent: SendResult)

  /** What a device did, in order; `Unexpected` marks the branches the source reports as errors. */
  datatype Entry =
    | Selected(time: nat, addr: nat, cfg: ArpConfig)
    | Probed(time: nat, addr: nat)
    | NoBuffer(time: nat)
    | ProbeFailed(time: nat, addr: nat, error: bool)
    | Paused(time: nat, msec: nat)
    | OpenFailed(time: nat)
    | Matched(time: nat, addr: nat)
    | Conflicted(time: nat)
    | Defended(time: nat, addr: nat)
    | Acquired(time: nat, addr: nat)
    | Released(time: nat, uuid: nat)
    | Unexpected(time: nat)

  datatype Dev = Dev(state: State, timer: Timer, candidate: nat, verify: Verify, nconflicts: nat,
                     lastDefense: nat, request: Request, lease: Option<Lease>, socket: bool,
                     log: seq<Entry>)

  const NoRequest := Request(false, 0)

  const NewDevice := Dev(Init, NoTimer, 0, Verify(0, 0, 0, 0, 0, 0, None), 0, 0, NoRequest, None, false, [])

  predicate LinkLocal(addr: nat) {
    0xA9FE_0000 <= addr <= 0xA9FE_FFFF
  }

  // ----- timers -----

  /** A random value of the range, chosen by `r`. */
  function RandomRange(lo: nat, hi: nat, r: nat): nat {
    if hi <= lo then lo else if r <= hi - lo then lo + r else hi
  }

  /** Rearming a pending timer keeps its callback. */
  function SetTimeout(d: Dev, now: nat, lo: nat, hi: nat, r: nat): Dev {
    if hi == 0 then d
    else
      var due := now + Usec(RandomRange(lo, hi, r));
      d.(timer := if d.timer.ReleaseTimer? then ReleaseTimer(due) else ClaimTimer(due))
  }

  /** A timer runs as soon as no whole millisecond is left. */
  predicate Expired(due: nat, now: nat) {
    due <= now || (due - now) / 1000 == 0
  }

  // ----- ARP verification -----

  function VerifyReset(cfg: ArpConfig): Verify {
    Verify(cfg.count, cfg.retries, cfg.intervalMin, cfg.intervalMax, 0, 0, None)
  }

  function VerifyAdd(v: Verify, addr: nat, memory: bool): Option<Verify> {
    if v.nprobes == 0 || addr == 0 || !memory then None
    else Some(v.(target := Some(Target(addr, 0, 0, true, false))))
  }

  function ArpTimeoutLeft(started: nat, now: nat, msec: nat): nat {
    if started != 0 && now > started && started + Usec(msec) > now
    then (started + Usec(msec) - now) / 1000
    else 0
  }

  /** One attempt to send the next probe for a target that is still tentative. */
  function ProbeOnce(t: Target, nretry: nat, sent: SendResult): (Target, bool) {
    match sent
    case Sent => (t.(attempts := t.attempts + 1), true)
    case NoBuffers =>
      if t.errors + 1 >= nretry then (t.(errors := t.errors + 1, duplicate := true), false)
      else (t.(errors := t.errors + 1), true)
    case SendError => (t.(duplicate := true), false)
  }

  /** What one attempt leaves in the log. */
  function ProbeLog(t: Target, t1: Target, now: nat, sent: SendResult, log: seq<Entry>): seq<Entry> {
    match sent
    case Sent => Push(log, Probed(now, t.addr))
    case NoBuffers =>
      var log1 := Push(log, NoBuffer(now));
      if t1.duplicate then Push(log1, ProbeFailed(now, t.addr, false)) else log1
    case SendError => if t1.duplicate then Push(log, ProbeFailed(now, t.addr, true)) else log
  }

  /** Probing a target that is neither verified nor given up. */
  function ProbeTarget(v: Verify, t: Target, now: nat, c: Choice, log: seq<Entry>): (Verify, SendStatus, seq<Entry>) {
    var (t1, needWait) := ProbeOnce(t, v.nretry, c.sent);
    var log1 := ProbeLog(t, t1, now, c.sent, log);
    if needWait then
      var pause := RandomRange(v.probeMin, v.probeMax, c.jitter);
      (v.(target := Some(t1), started := now, lastTimeout := pause), Progress(pause), log1)
    else
      (v.(target := Some(t1)), if t1.attempts > 0 then Complete else Failure, log1)
  }

  function VerifySend(v: Verify, now: nat, c: Choice, log: seq<Entry>): (Verify, SendStatus, seq<Entry>) {
    var left := ArpTimeoutLeft(v.started, now, v.lastTimeout);
    if left > 0 then (v, Progress(left), log)
    else if v.target.None? then (v, Failure, log)
    else
      var t := v.target.value;
      var t1 := if !t.duplicate && t.tentative && t.attempts >= v.nprobes then t.(tentative := false) else t;
      if t1.duplicate || !t1.tentative then
        (v.(target := Some(t1)), if t1.attempts > 0 then Complete else Failure, log)
      else
        ProbeTarget(v, t1, now, c, log)
  }

  predicate Matches(v: Verify, pkt: Packet) {
    pkt.reply && v.target.Some? && pkt.sip == v.target.value.addr &&
    (v.target.value.duplicate || pkt.conflicting)
  }

  // ----- device -----

  function DropLease(d: Dev): Dev {
    if d.lease.Some? then d.(lease := None, state := Init) else d
  }

  function Close(d: Dev): Dev {
    d.(socket := false, timer := NoTimer)
  }

  function Stop(d: Dev): Dev {
    Close(DropLease(d))
  }

  // ----- finite state machine -----

  /** A fresh draw; 0xFE00 addresses lie between the first and the last. */
  function FreshAddress(draw: nat): (a: nat)
    ensures ADDRESS_FIRST <= a <= ADDRESS_LAST
  {
    0xA9FE0100 + draw % 0xFE00
  }

  function Pick(d: Dev, draw: nat): nat {
    if d.state.Claimed? && d.candidate != 0 then d.candidate
    else if d.lease.Some? && d.lease.value.addr.Some? && LinkLocal(d.lease.value.addr.value) && d.candidate == 0
    then d.lease.value.addr.value
    else FreshAddress(draw)
  }

  function Select(d: Dev, now: nat, c: Choice): Dev {
    var addr := Pick(d, c.draw);
    var v := VerifyReset(c.cfg);
    var d1 := d.(candidate := addr, verify := v, log := Push(d.log, Selected(now, addr, c.cfg)));
    match VerifyAdd(v, addr, c.memory)
    case None => SetTimeout(d1, now, PROBE_DELAY_MIN, PROBE_DELAY_MAX, c.jitter)
    case Some(v1) =>
      var d2 := d1.(verify := v1, state := Claiming);
      if d2.nconflicts > MAX_CONFLICTS
      then SetTimeout(d2, now, RATE_LIMIT_INTERVAL, RATE_LIMIT_INTERVAL, c.jitter)
      else SetTimeout(d2, now, PROBE_DELAY_MIN, PROBE_DELAY_MAX, c.jitter)
  }

  function Conflict(d: Dev, now: nat, c: Choice): Dev {
    var d1 := DropLease(d);
    Select(d1.(nconflicts := Uint32(d1.nconflicts + 1), log := Push(d1.log, Conflicted(now))), now, c)
  }

  function Defend(d: Dev, now: nat, c: Choice): Dev {
    if !d.state.Claimed? then d.(log := Push(d.log, Unexpected(now)))
    else if d.lastDefense != 0 && now > d.lastDefense &&
            Seconds(now - d.lastDefense) < DEFEND_INTERVAL
    then Conflict(d, now, c)
    else d.(lastDefense := now, log := Push(d.log, Defended(now, d.candidate)))
  }

  function ProcessArp(d: Dev, now: nat, pkt: Packet, c: Choice): Dev {
    if !Matches(d.verify, pkt) then d
    else
      var d1 := d.(log := Push(d.log, Matched(now, pkt.sip)));
      match d.state
      case Init => d1
      case Claiming => Conflict(d1, now, c)
      case Claimed => Defend(d1, now, c)
  }

  /** What a send status makes of the device. */
  function Conclude(d: Dev, status: SendStatus, now: nat, c: Choice): Dev {
    match status
    case Progress(timeout) =>
      SetTimeout(d.(log := Push(d.log, Paused(now, timeout))), now, timeout, timeout, c.jitter)
    case Failure => Conflict(d, now, c)
    case Complete =>
      d.(state := Claimed, lease := Some(Lease(Some(d.candidate), d.request.uuid)),
         nconflicts := 0, lastDefense := 0, log := Push(d.log, Acquired(now, d.candidate)))
  }

  function SendArp(d: Dev, now: nat, c: Choice): Dev {
    if !d.socket && !c.canOpen then d.(log := Push(d.log, OpenFailed(now)))
    else
      var (v, status, log) := VerifySend(d.verify, now, c, d.log);
      Conclude(d.(socket := true, verify := v, log := log), status, now, c)
  }

  function Timeout(d: Dev, now: nat, c: Choice): Dev {
    var d1 := d.(timer := NoTimer);
    match d1.state
    case Init => Select(d1, now, c)
    case Claiming => SendArp(d1, now, c)
    case Claimed => d1.(log := Push(d1.log, Unexpected(now)))
  }

  // ----- requests -----

  function Acquire(d: Dev, now: nat, request: Option<Request>, file: Option<Lease>, c: Choice): Dev {
    if request.None? then d
    else Select(Stop(d).(request := request.value, lease := file), now, c)
  }

  function Release(d: Dev, now: nat, uuid: nat): Dev {
    if d.lease.None? || !d.request.enabled then Stop(d).(request := NoRequest)
    else
      Close(d).(lease := Some(d.lease.value.(uuid := uuid)), request := d.request.(uuid := uuid),
                timer := ReleaseTimer(now))
  }

  function StartRelease(d: Dev, now: nat): Dev {
    var d1 := d.(timer := NoTimer);
    var d2 := if d1.lease.Some? then d1.(log := Push(d1.log, Released(now, d1.request.uuid))) else d1;
    Stop(d2).(request := NoRequest)
  }

  // ----- runs -----

  datatype Input =
    | Advance(usec: nat)
    | AcquireRequest(request: Option<Request>, file: Option<Lease>, choice: Choice)
    | ReleaseRequest(uuid: nat)
    | RunTimers(choice: Choice)
    | Arp(pkt: Packet, choice: Choice)
    | Remove

  datatype World = World(now: nat, dev: Dev)

  function RunTimer(d: Dev, now: nat, c: Choice): Dev {
    match d.timer
    case NoTimer => d
    case ClaimTimer(due) => if Expired(due, now) then Timeout(d, now, c) else d
    case ReleaseTimer(due) => if Expired(due, now) then StartRelease(d, now) else d
  }

  function Step(w: World, i: Input): World {
    match i
    case Advance(usec) => w.(now := w.now + usec)
    case AcquireRequest(request, file, c) => w.(dev := Acquire(w.dev, w.now, request, file, c))
    case ReleaseRequest(uuid) => w.(dev := Release(w.dev, w.now, uuid))
    case RunTimers(c) => w.(dev := RunTimer(w.dev, w.now, c))
    case Arp(pkt, c) => if w.dev.socket then w.(dev := ProcessArp(w.dev, w.now, pkt, c)) else w
    case Remove => w.(dev := Stop(w.dev).(request := NoRequest))
  }

  function Run(w: World, inputs: seq<Input>): World
    decreases |inputs|
  {
    if |inputs| == 0 then w
    else Step(Run(w, inputs[..|inputs| - 1]), inputs[|inputs| - 1])
  }

  // ----- what a log says -----

  /** A candidate, when it was selected and how it is to be probed. */
  datatype Selection = Selection(time: nat, addr: nat, cfg: ArpConfig)

  datatype Pause = Pause(time: nat, msec: nat)

  /**
   What an observer of the log knows: the last selection, the probes, missing buffers, probe
   failures, matching packets and the last pause since it, whether probing stalled on a socket
   that could not be opened or on a pause of no length, the conflicts and the last defence
   since the last acquired lease, and the time of the last entry.
   */
  datatype Summary = Summary(selection: Option<Selection>, probes: nat, errors: nat, failed: bool, matched: bool,
                             paused: Option<Pause>, stalled: bool, conflicts: nat, defence: Option<nat>, last: nat)

  function Next(s: Summary, e: Entry): Summary {
    var s1 := s.(last := e.time);
    match e
    case Selected(t, a, cfg) =>
      s1.(selection := Some(Selection(t, a, cfg)), probes := 0, errors := 0, failed := false, matched := false,
          paused := None, stalled := false)
    case Probed(_, _) => s1.(probes := s.probes + 1)
    case NoBuffer(_) => s1.(errors := s.errors + 1)
    case ProbeFailed(_, _, _) => s1.(failed := true)
    case Paused(t, msec) => s1.(paused := Some(Pause(t, msec)), stalled := msec == 0)
    case OpenFailed(_) => s1.(stalled := true)
    case Matched(_, _) => s1.(matched := true)
    case Conflicted(_) => s1.(conflicts := s.conflicts + 1)
    case Defended(t, _) => s1.(defence := Some(t))
    case Acquired(_, _) => s1.(conflicts := 0, defence := None)
    case Released(_, _) => s1
    case Unexpected(_) => s1
  }

  /** What the first `n` entries of a log say. */
  function Observe(log: seq<Entry>, n: nat): Summary
    requires n <= |log|
  {
    if n == 0 then Summary(None, 0, 0, false, false, None, false, 0, None, 0)
    else Next(Observe(log, n - 1), log[n - 1])
  }

  function Seen(log: seq<Entry>): Summary {
    Observe(log, |log|)
  }

  lemma {:induction false} ObservePrefix(log: seq<Entry>, e: Entry, n: nat)
    requires n <= |log|
    ensures Observe(log + [e], n) == Observe(log, n)
  {
    if n > 0 { ObservePrefix(log, e, n - 1); }
  }

  function Push(log: seq<Entry>, e: Entry): (r: seq<Entry>)
    ensures r == log + [e]
    ensures Seen(r) == Next(Seen(log), e)
  {
    ObservePrefix(log, e, |log|);
    log + [e]
  }
}
