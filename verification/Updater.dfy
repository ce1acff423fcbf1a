/**
 The lease, updater and device objects of src/addrconf.c, updated in place. Every operation
 is proved to compute the function of the same name in UpdaterModel.
 */
module Updater {
  import opened Common
  import Lifetime
  import M = UpdaterModel
  import opened UpdaterModel
  import Runs = UpdaterRuns

  class LeaseUpdater {
    var todo: seq<Action>
    var astart: nat
    var event: Event
    var timer: Option<nat>
    var timeout: nat
    var started: nat
    var deadline: Lifetime.Lft

    ghost function View(): M.Updater
      reads this
    {
      M.Updater(todo, astart, event, timer, timeout, started, deadline)
    }

    /** Appends the actions of a table one by one, as ni_addrconf_action_list_create does. */
    constructor (table: seq<Action>, event: Event, now: nat)
      ensures View() == M.Updater(table, 0, event, None, 0, now, 0)
    {
      this.event, started, astart, timer, timeout, deadline := event, now, 0, None, 0, 0;
      todo := [];
      new;
      for i := 0 to |table|
        invariant todo == table[..i]
        invariant this.event == event && started == now && astart == 0 && timer == None && timeout == 0 && deadline == 0
      {
        todo := todo + [table[i]];
      }
    }

    method ActionAdvance()
      modifies this`todo
      ensures todo == if |old(todo)| > 0 then old(todo)[1..] else []
    {
      if |todo| > 0 { todo := todo[1..]; }
    }

    /** Inserts the forward action behind the address removal and appends the collect action. */
    method ArmDrop(memory: bool) returns (armed: bool)
      modifies this`todo
      ensures armed == (memory && AddrsRemove in old(todo))
      ensures todo == if armed then WithDrop(old(todo)) else old(todo)
    {
      if !memory { return false; }
      var pos := FindAction(todo, AddrsRemove);
      if pos == |todo| { return false; }
      todo := todo[..pos + 1] + [DropForward] + todo[pos + 1..];
      todo := todo + [DropCollect];
      return true;
    }

    method Background(delay: nat, now: nat, c: Choice) returns (armed: bool)
      modifies this
      ensures (View(), armed) == M.Background(old(View()), delay, now, c)
    {
      if timeout == 0 { timeout := 1000; }
      var jitterMin: int := if delay > 1000 then -100 else 0;
      var wait := RandomizeTimeout(delay, jitterMin, 100, c.jitter);
      if timer.Some? || c.timerOk {
        timer := Some(now + 1000 * wait);
        return true;
      }
      return false;
    }
  }

  /** The search of ni_addrconf_action_list_find_exec. */
  method FindAction(todo: seq<Action>, a: Action) returns (k: nat)
    ensures k == Find(todo, a)
  {
    k := 0;
    while k < |todo| && todo[k] != a
      invariant k <= |todo| && forall j :: 0 <= j < k ==> todo[j] != a
    {
      k := k + 1;
    }
  }

  class AddrconfLease {
    var state: State
    const inet6: bool
    const autoconf: bool
    var updater: LeaseUpdater?
    var holdsOld: bool
    var log: seq<Entry>

    ghost function View(): M.Lease
      reads this, updater
    {
      M.Lease(state, inet6, autoconf, if updater == null then None else Some(updater.View()), holdsOld, log)
    }

    constructor (inet6: bool, autoconf: bool)
      ensures View() == NewLease(inet6, autoconf)
    {
      state, updater, holdsOld, log := Nothing, null, false, [];
      this.inet6, this.autoconf := inet6, autoconf;
    }

    method FreeUpdater()
      modifies this`updater, this`log
      ensures View() == M.FreeUpdater(old(View())) && updater == null
    {
      if updater != null {
        updater := null;
        log := Push(log, Ended);
      }
    }

    method SendEvent(what: Event)
      modifies this`log
      ensures View() == M.Send(old(View()), what)
    {
      log := Push(log, Sent(what, state));
    }

    /** One turn of the action loop: call the first action and drop it when it completed. */
    method CallFirst(now: nat, c: Choice) returns (res: int)
      requires updater != null && |updater.todo| > 0
      modifies this`state, this`log, updater
      ensures View() == M.CallFirst(old(View()), now, c)
      ensures res == c.exec(|old(log)|).res
    {
      if updater.astart == 0 { updater.astart := now; }
      var outcome := c.exec(|log|);
      res := outcome.res;
      state := outcome.state;
      updater.timeout := outcome.timeout;
      updater.deadline := outcome.deadline;
      log := Push(log, Called(now, updater.todo[0], outcome));
      if res != 1 { updater.astart := 0; }
      if res == 0 { updater.ActionAdvance(); }
    }

    /** The loop of ni_addrconf_updater_action_call. */
    method ActionCall(now: nat, c: Choice) returns (res: int)
      requires updater != null
      modifies this, updater
      ensures updater == null || updater == old(updater)
      ensures (View(), res) == M.ActionCall(old(View()), now, c)
    {
      res := 0;
      while updater != null
        invariant updater == null || updater == old(updater)
        invariant updater != null ==> res == 0 && M.ActionCall(View(), now, c) == M.ActionCall(old(View()), now, c)
        invariant updater == null ==> (View(), res) == M.ActionCall(old(View()), now, c)
        decreases if updater == null then 0 else 1 + |updater.todo|
      {
        if |updater.todo| == 0 {
          FreeUpdater();
          break;
        }
        res := CallFirst(now, c);
        if res != 0 { break; }
      }
    }

    method Abort(ret: int) returns (r: int)
      modifies this
      ensures (View(), r) == M.Abort(old(View()), ret)
    {
      holdsOld := false;
      FreeUpdater();
      if inet6 && state == Requesting { return 0; }
      state := Failed;
      SendEvent(AddressLost);
      return ret;
    }

    /** The switch over the final state: the event to send, or none when it does not fit. */
    method Settle(expected: Event) returns (event: Event, fits: bool)
      modifies this`state
      ensures state == Settled(old(state))
      ensures fits == M.Answer(old(state), expected).Some?
      ensures fits ==> event == M.Answer(old(state), expected).value
    {
      event, fits := expected, true;
      match state {
        case Granted | Applying =>
          state := Granted;
          if event != AddressAcquired { fits := false; }
        case Released | Releasing =>
          state := Released;
          if event != AddressReleased { fits := false; }
        case Failed =>
          if event != AddressReleased && event != AddressLost { fits := false; }
        case Requesting =>
          if event == AddressAcquired { event := AddressDeferred; } else { fits := false; }
        case Nothing =>
          state := Failed;
          fits := false;
      }
    }

    method Complete(expected: Event) returns (r: int)
      modifies this
      ensures (View(), r) == M.Complete(old(View()), expected)
    {
      holdsOld := false;
      FreeUpdater();
      var silent := state == Nothing;
      var event, fits := Settle(expected);
      if silent { return 0; }
      if fits {
        SendEvent(event);
        return 0;
      }
      r := Abort(-1);
    }

    /** What becomes of an action that did not finish. */
    method Defer(ret: int, now: nat, c: Choice) returns (r: int)
      requires updater != null
      modifies this, updater
      ensures updater == null || updater == old(updater)
      ensures (View(), r) == M.Defer(old(View()), ret, now, c)
    {
      if updater.deadline != 0 && Lifetime.Left(updater.deadline, updater.started, now, now) == 0 {
        state := Failed;
        r := Abort(-1);
        return;
      }
      var armed := updater.Background(updater.timeout, now, c);
      if armed { return ret; }
      r := Abort(-1);
    }

    method Execute(now: nat, c: Choice) returns (ret: int)
      modifies this, updater
      ensures updater == null || updater == old(updater)
      ensures (View(), ret) == M.Execute(old(View()), now, c)
    {
      if updater == null { return -1; }
      updater.timer := None;
      var event := updater.event;
      ret := ActionCall(now, c);
      if ret > 0 {
        ret := Defer(ret, now, c);
      } else if ret == 0 {
        ret := Complete(event);
      } else {
        ret := Abort(ret);
      }
    }

    method NewUpdater(applying: bool, event: Event, now: nat)
      modifies this
      ensures updater != null && fresh(updater)
      ensures View() == M.NewUpdater(old(View()), applying, event, now)
    {
      FreeUpdater();
      var auto6 := inet6 && autoconf;
      updater := new LeaseUpdater(Table(applying, auto6), event, now);
      log := Push(log, Began(now, applying, auto6, event));
    }

    method Arm(memory: bool)
      modifies this`log, updater
      ensures updater == old(updater) && View() == M.Arm(old(View()), memory)
    {
      if updater != null {
        var armed := updater.ArmDrop(memory);
        if armed { log := Push(log, Armed); }
      }
    }

    method Trigger(delay: nat, now: nat, c: Choice)
      modifies updater
      ensures updater == old(updater) && View() == M.TriggerTimer(old(View()), delay, now, c)
    {
      if updater != null { var armed := updater.Background(delay, now, c); }
    }

    method TimerFires(found: bool, now: nat, c: Choice)
      modifies this, updater
      ensures updater == null || updater == old(updater)
      ensures View() == M.TimerCall(old(View()), found, now, c)
    {
      if updater != null && updater.timer.Some? {
        updater.timer := None;
        if found { var ret := Execute(now, c); }
      }
    }

    // ----- runs -----

    ghost predicate Valid()
      reads this, updater
    {
      Runs.Inv(View())
    }

    /** Whatever happens to a lease, one thing at a time. */
    method Handle(now: nat, i: Input) returns (later: nat)
      requires Valid()
      modifies this, updater
      ensures updater == null || updater == old(updater) || fresh(updater)
      ensures World(later, View()) == Step(World(now, old(View())), i)
      ensures Valid()
    {
      Runs.StepKeepsInv(World(now, View()), i);
      later := now;
      match i {
        case Advance(usec) => later := now + usec;
        case Apply(event) => NewUpdater(true, event, now);
        case Remove(event) => NewUpdater(false, event, now);
        case ArmDrop(memory) => Arm(memory);
        case Cancel => FreeUpdater();
        case SetLease(newState, holds) => state, holdsOld := newState, holds;
        case Trigger(delay, c) => Trigger(delay, now, c);
        case ExecuteNow(c) => var ret := Execute(now, c);
        case TimerFires(found, c) => TimerFires(found, now, c);
      }
    }

    /** Every run of a new lease: the lease is where the run leads, and its log is one the protocol allows. */
    method Serve(inputs: seq<Input>) returns (now: nat)
      requires View() == NewLease(inet6, autoconf)
      modifies this, updater
      ensures Valid()
      ensures World(now, View()) == Run(World(0, NewLease(inet6, autoconf)), inputs)
      ensures Runs.Good(log)
    {
      now := 0;
      Runs.RunKeepsInv(inet6, autoconf, []);
      for k := 0 to |inputs|
        invariant Valid() && (updater == null || updater == old(updater) || fresh(updater))
        invariant World(now, View()) == After(inet6, autoconf, inputs, k)
      {
        AfterNext(inet6, autoconf, inputs, k);
        now := Handle(now, inputs[k]);
      }
      AfterAll(inet6, autoconf, inputs);
    }
  }

  /** Where the first `k` inputs of a run lead. */
  ghost function After(inet6: bool, autoconf: bool, inputs: seq<Input>, k: nat): World
    requires k <= |inputs|
  {
    Run(World(0, NewLease(inet6, autoconf)), inputs[..k])
  }

  lemma AfterNext(inet6: bool, autoconf: bool, inputs: seq<Input>, k: nat)
    requires k < |inputs|
    ensures After(inet6, autoconf, inputs, k + 1) == Step(After(inet6, autoconf, inputs, k), inputs[k])
  {
    assert inputs[..k + 1][..k] == inputs[..k];
  }

  lemma AfterAll(inet6: bool, autoconf: bool, inputs: seq<Input>)
    ensures After(inet6, autoconf, inputs, |inputs|) == Run(World(0, NewLease(inet6, autoconf)), inputs)
  {
    assert inputs[..|inputs|] == inputs;
  }

  /** The first lease of a device that owns the updater is at `k`; none does when `k` is the end. */
  ghost predicate OwnerAt(leases: seq<AddrconfLease>, updater: LeaseUpdater, k: nat)
    reads leases
  {
    && k <= |leases| && (k < |leases| ==> leases[k].updater == updater)
    && forall j :: 0 <= j < k ==> leases[j].updater != updater
  }

  method FindOwner(leases: seq<AddrconfLease>, updater: LeaseUpdater) returns (k: nat)
    ensures OwnerAt(leases, updater, k)
  {
    k := 0;
    while k < |leases| && leases[k].updater != updater
      invariant k <= |leases|
      invariant forall j :: 0 <= j < k ==> leases[j].updater != updater
    {
      k := k + 1;
    }
  }

  /**
   The timer callback: when `armed` is still the updater's timer, executes the lease that
   owns the updater and touches no other one.
   */
  method TimerCall(leases: seq<AddrconfLease>, updater: LeaseUpdater, armed: Option<nat>, now: nat, c: Choice)
    returns (k: nat)
    modifies updater, set l | l in leases && l.updater == updater :: l
    ensures old(updater.timer) != armed ==> k == |leases| && unchanged(updater)
    ensures old(updater.timer) == armed ==> old(OwnerAt(leases, updater, k))
    ensures k < |leases| ==> leases[k].View() == M.Execute(old(leases[k].View()), now, c).0
    ensures forall l :: l in leases && (k < |leases| ==> l != leases[k]) ==> unchanged(l)
  {
    if updater.timer != armed { return |leases|; }
    k := FindOwner(leases, updater);
    updater.timer := None;
    if k < |leases| {
      var ret := leases[k].Execute(now, c);
    }
  }
}
