/**
 The lease updater of src/addrconf.c: a table of actions worked off one at a time, with
 deferral, a deadline, a background timer and an outcome event. The actions themselves are
 an oracle. UpdaterRuns.dfy proves the properties of all runs; Updater.dfy holds the
 objects the source updates in place.
 */
module UpdaterModel {
  import opened Common
  import Lifetime

  datatype Action =
    | MtuApply | AddrsApply | AddrsVerify | RoutesApply | SystemUpdate | VerifyApply
    | AddrsRemove | RoutesRemove | MtuRestore | WriteLease | RemoveLease
    | DropForward | DropCollect

  const APPLYING_COMMON := [MtuApply, AddrsApply, AddrsVerify, RoutesApply, SystemUpdate, VerifyApply]
  const REMOVING_COMMON := [AddrsRemove, RoutesRemove, SystemUpdate, MtuRestore]
  const APPLYING_AUTO6 := [AddrsVerify, WriteLease, SystemUpdate]
  const REMOVING_AUTO6 := [SystemUpdate, RemoveLease]

  /** The table of an updater that applies or removes a lease. */
  function Table(applying: bool, auto6: bool): seq<Action> {
    if applying then if auto6 then APPLYING_AUTO6 else APPLYING_COMMON
    else if auto6 then REMOVING_AUTO6 else REMOVING_COMMON
  }

  datatype State = Nothing | Requesting | Applying | Granted | Releasing | Released | Failed

  datatype Event = AddressAcquired | AddressReleased | AddressDeferred | AddressLost | AnotherEvent

  /** What one call of an action decides: its result, and what it leaves in lease and updater. */
  datatype Outcome = Outcome(res: int, state: State, timeout: nat, deadline: Lifetime.Lft)

  datatype Updater = Updater(todo: seq<Action>, astart: nat, event: Event, timer: Option<nat>, timeout: nat,
                             started: nat, deadline: Lifetime.Lft)

  /** What happened to a lease's updaters, in order. */
  datatype Entry =
    | Began(time: nat, applying: bool, auto6: bool, event: Event)
    | Armed
    | Called(time: nat, action: Action, outcome: Outcome)
    | Ended
    | Sent(what: Event, state: State)

  /** `holdsOld`: the old lease this one replaced is still held. */
  datatype Lease = Lease(state: State, inet6: bool, autoconf: bool, updater: Option<Updater>, holdsOld: bool,
                         log: seq<Entry>)

  /** What the outside world decides during one execute call. */
  datatype Choice = Choice(exec: nat -> Outcome, jitter: int, timerOk: bool)

  // ----- timers -----

  function RandomizeTimeout(timeout: nat, lo: int, hi: int, jitter: int): nat
    requires lo < hi
  {
    var adj := if jitter < lo then lo else if jitter >= hi then hi - 1 else jitter;
    if adj < 0 && timeout < -adj then 0 else timeout + adj
  }

  /** Arms the background timer, and says whether a timer could be registered. */
  function Background(u: Updater, delay: nat, now: nat, c: Choice): (Updater, bool) {
    var due := now + 1000 * RandomizeTimeout(delay, if delay > 1000 then -100 else 0, 100, c.jitter);
    var u1 := u.(timeout := if u.timeout == 0 then 1000 else u.timeout);
    if u.timer.None? && !c.timerOk then (u1, false) else (u1.(timer := Some(due)), true)
  }

  predicate DeadlineReached(u: Updater, now: nat) {
    u.deadline != 0 && Lifetime.Left(u.deadline, u.started, now, now) == 0
  }

  // ----- actions -----

  function FreeUpdater(l: Lease): Lease {
    if l.updater.None? then l else l.(updater := None, log := Push(l.log, Ended))
  }

  /** One call of the first action that is still to do. */
  function CallFirst(l: Lease, now: nat, c: Choice): Lease
    requires l.updater.Some? && |l.updater.value.todo| > 0
  {
    var u := l.updater.value;
    var o := c.exec(|l.log|);
    var astart := if u.astart == 0 then now else u.astart;
    l.(state := o.state,
       updater := Some(u.(astart := if o.res != 1 then 0 else astart, timeout := o.timeout, deadline := o.deadline,
                          todo := if o.res == 0 then u.todo[1..] else u.todo)),
       log := Push(l.log, Called(now, u.todo[0], o)))
  }

  /** Works off actions until one does not complete or none is left. */
  function ActionCall(l: Lease, now: nat, c: Choice): (r: (Lease, int))
    requires l.updater.Some?
    ensures r.1 != 0 <==> r.0.updater.Some?
    decreases |l.updater.value.todo|
  {
    if |l.updater.value.todo| == 0 then (FreeUpdater(l), 0)
    else
      var res := c.exec(|l.log|).res;
      var l1 := CallFirst(l, now, c);
      if res != 0 then (l1, res) else ActionCall(l1, now, c)
  }

  // ----- execution -----

  function Send(l: Lease, what: Event): Lease {
    l.(log := Push(l.log, Sent(what, l.state)))
  }

  /** The end of an update that failed with `ret`. */
  function Abort(l: Lease, ret: int): (Lease, int) {
    var l1 := FreeUpdater(l).(holdsOld := false);
    if l1.inet6 && l1.state.Requesting? then (l1, 0)
    else (Send(l1.(state := Failed), AddressLost), ret)
  }

  /** The state an update that completed leaves behind. */
  function Settled(s: State): State {
    match s
    case Granted | Applying => Granted
    case Released | Releasing => Released
    case Requesting => Requesting
    case Failed | Nothing => Failed
  }

  /** The event to send for a lease in state `s`, if the expected one fits. */
  function Answer(s: State, expected: Event): Option<Event> {
    match s
    case Granted | Applying => if expected.AddressAcquired? then Some(expected) else None
    case Released | Releasing => if expected.AddressReleased? then Some(expected) else None
    case Failed => if expected.AddressReleased? || expected.AddressLost? then Some(expected) else None
    case Requesting => if expected.AddressAcquired? then Some(AddressDeferred) else None
    case Nothing => None
  }

  /** The end of an update whose actions completed. */
  function Complete(l: Lease, expected: Event): (Lease, int) {
    var l1 := FreeUpdater(l).(holdsOld := false, state := Settled(l.state));
    if l.state.Nothing? then (l1, 0)
    else
      match Answer(l.state, expected)
      case Some(what) => (Send(l1, what), 0)
      case None => Abort(l1, -1)
  }

  function Defer(l: Lease, ret: int, now: nat, c: Choice): (Lease, int)
    requires l.updater.Some?
  {
    var u := l.updater.value;
    if DeadlineReached(u, now) then Abort(l.(state := Failed), -1)
    else
      var (u1, armed) := Background(u, u.timeout, now, c);
      if armed then (l.(updater := Some(u1)), ret) else Abort(l.(updater := Some(u1)), -1)
  }

  function Execute(l: Lease, now: nat, c: Choice): (Lease, int) {
    if l.updater.None? then (l, -1)
    else
      var event := l.updater.value.event;
      var (l1, ret) := ActionCall(l.(updater := Some(l.updater.value.(timer := None))), now, c);
      if ret > 0 then Defer(l1, ret, now, c)
      else if ret == 0 then Complete(l1, event)
      else Abort(l1, ret)
  }

  // ----- new updaters -----

  function NewUpdater(l: Lease, applying: bool, event: Event, now: nat): Lease {
    var l1, auto6 := FreeUpdater(l), l.inet6 && l.autoconf;
    l1.(updater := Some(Updater(Table(applying, auto6), 0, event, None, 0, now, 0)),
        log := Push(l1.log, Began(now, applying, auto6, event)))
  }

  // ----- forwarded drops -----

  /** The index of the first action `a`, or the length. */
  function Find(todo: seq<Action>, a: Action): (k: nat)
    ensures k <= |todo| && (forall j :: 0 <= j < k ==> todo[j] != a) && (k < |todo| ==> todo[k] == a)
  {
    if |todo| == 0 then 0 else if todo[0] == a then 0 else 1 + Find(todo[1..], a)
  }

  /** Actions with a drop forwarded behind the address removal and collected at the end. */
  function WithDrop(todo: seq<Action>): seq<Action> {
    var k := Find(todo, AddrsRemove);
    if k == |todo| then todo else todo[..k + 1] + [DropForward] + todo[k + 1..] + [DropCollect]
  }

  /** Arms the drop actions of a live updater, unless its address removal is done or not listed. */
  function Arm(l: Lease, memory: bool): Lease {
    if l.updater.None? || !memory || AddrsRemove !in l.updater.value.todo then l
    else
      l.(updater := Some(l.updater.value.(todo := WithDrop(l.updater.value.todo))), log := Push(l.log, Armed))
  }

  // ----- runs -----

  datatype Input =
    | Advance(usec: nat)
    | Apply(event: Event)
    | Remove(event: Event)
    | ArmDrop(memory: bool)
    | Cancel
    | SetLease(state: State, holdsOld: bool)
    | Trigger(delay: nat, choice: Choice)
    | ExecuteNow(choice: Choice)
    | TimerFires(deviceFound: bool, choice: Choice)

  datatype World = World(now: nat, lease: Lease)

  function TriggerTimer(l: Lease, delay: nat, now: nat, c: Choice): Lease {
    if l.updater.None? then l else l.(updater := Some(Background(l.updater.value, delay, now, c).0))
  }

  function TimerCall(l: Lease, found: bool, now: nat, c: Choice): Lease {
    if l.updater.None? || l.updater.value.timer.None? then l
    else
      var l1 := l.(updater := Some(l.updater.value.(timer := None)));
      if found then Execute(l1, now, c).0 else l1
  }

  function Step(w: World, i: Input): World {
    match i
    case Advance(usec) => w.(now := w.now + usec)
    case Apply(event) => w.(lease := NewUpdater(w.lease, true, event, w.now))
    case Remove(event) => w.(lease := NewUpdater(w.lease, false, event, w.now))
    case ArmDrop(memory) => w.(lease := Arm(w.lease, memory))
    case Cancel => w.(lease := FreeUpdater(w.lease))
    case SetLease(state, holdsOld) => w.(lease := w.lease.(state := state, holdsOld := holdsOld))
    case Trigger(delay, c) => w.(lease := TriggerTimer(w.lease, delay, w.now, c))
    case ExecuteNow(c) => w.(lease := Execute(w.lease, w.now, c).0)
    case TimerFires(found, c) => w.(lease := TimerCall(w.lease, found, w.now, c))
  }

  function Run(w: World, inputs: seq<Input>): World
    decreases |inputs|
  {
    if |inputs| == 0 then w else Step(Run(w, inputs[..|inputs| - 1]), inputs[|inputs| - 1])
  }

  function NewLease(inet6: bool, autoconf: bool): Lease {
    Lease(Nothing, inet6, autoconf, None, false, [])
  }

  // ----- what a log says -----

  /**
   The last updater that began: when, its table as armed and event, the completed actions, the
   outcome of the last call, since when the next action is pending, and whether it runs.
   */
  datatype Progress = Progress(started: nat, table: seq<Action>, event: Event, done: nat, outcome: Outcome,
                               pending: nat, active: bool, armed: bool, events: nat)

  const NoOutcome := Outcome(0, Nothing, 0, 0)

  function Next(p: Progress, e: Entry): Progress {
    match e
    case Began(time, applying, auto6, event) =>
      Progress(time, Table(applying, auto6), event, 0, NoOutcome, 0, true, false, 0)
    case Armed =>
      p.(armed := true,
         table := if p.done <= |p.table| then p.table[..p.done] + WithDrop(p.table[p.done..]) else p.table)
    case Called(time, _, o) =>
      p.(done := if o.res == 0 then p.done + 1 else p.done, outcome := o,
         pending := if o.res != 1 then 0 else if p.pending == 0 then time else p.pending)
    case Ended => p.(active := false)
    case Sent(_, _) => p.(events := p.events + 1)
  }

  function Observe(log: seq<Entry>, n: nat): Progress
    requires n <= |log|
  {
    if n == 0 then Progress(0, [], AnotherEvent, 0, NoOutcome, 0, false, false, 1)
    else Next(Observe(log, n - 1), log[n - 1])
  }

  function Seen(log: seq<Entry>): Progress {
    Observe(log, |log|)
  }

  lemma {:induction false} ObservePrefix(log: seq<Entry>, e: Entry, n: nat)
    requires n <= |log|
    ensures Observe(log + [e], n) == Observe(log, n)
  {
    if n > 0 { ObservePrefix(log, e, n - 1); }
  }

  function Push(log: seq<Entry>, e: Entry): (r: seq<Entry>)
    ensures r == log + [e]
    ensures Seen(r) == Next(Seen(log), e)
  {
    ObservePrefix(log, e, |log|);
    log + [e]
  }
}
