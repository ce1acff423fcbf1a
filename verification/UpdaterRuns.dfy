/** What every execute call and every run of the lease updater guarantees. */
module UpdaterRuns {
  import opened Common
  import opened UpdaterModel

  /** The event an updater was to send fits the state its actions left. */
  predicate Fits(left: State, event: Event) {
    || ((left.Applying? || left.Granted?) && event.AddressAcquired?)
    || ((left.Releasing? || left.Released?) && event.AddressReleased?)
    || (left.Requesting? && event.AddressAcquired?)
    || (left.Failed? && (event.AddressReleased? || event.AddressLost?))
  }

  /** All actions of the table completed. */
  predicate Through(p: Progress) {
    p.done == |p.table| && p.outcome.res == 0
  }

  /** What a log that says `p` allows to happen next. */
  predicate Allowed(p: Progress, e: Entry) {
    match e
    case Began(_, _, _, _) => !p.active
    case Armed => p.active && p.outcome.res >= 0 && p.done <= |p.table| && AddrsRemove in p.table[p.done..]
    case Called(_, action, _) => p.active && p.outcome.res >= 0 && p.done < |p.table| && action == p.table[p.done]
    case Ended => p.active
    case Sent(what, state) =>
      && !p.active && p.events == 0
      && var left := p.outcome.state;
         match what
         case AddressAcquired =>
           state.Granted? && p.event == AddressAcquired && Through(p) && (left.Applying? || left.Granted?)
         case AddressDeferred =>
           state.Requesting? && p.event == AddressAcquired && Through(p) && left.Requesting?
         case AddressReleased =>
           && p.event == AddressReleased && Through(p)
           && ((state.Released? && (left.Releasing? || left.Released?)) || (state.Failed? && left.Failed?))
         case AddressLost =>
           && state.Failed?
           && (p.outcome.res != 0 || !Fits(left, p.event) || (left.Failed? && p.event == AddressLost))
         case AnotherEvent => false
  }

  predicate AllowedAt(log: seq<Entry>, j: nat)
    requires j < |log|
  {
    Allowed(Observe(log, j), log[j])
  }

  ghost predicate Good(log: seq<Entry>) {
    forall j: nat :: j < |log| ==> AllowedAt(log, j)
  }

  lemma GoodPush(log: seq<Entry>, e: Entry)
    requires Good(log) && Allowed(Seen(log), e)
    ensures Good(log + [e])
  {
    var r := log + [e];
    forall j: nat | j < |r| ensures AllowedAt(r, j) {
      ObservePrefix(log, e, j);
      assert j < |log| ==> AllowedAt(log, j);
    }
  }

  // ----- the invariant -----

  /** An updater has to do what the log says is left, since when it says. */
  ghost predicate Carries(u: Updater, p: Progress)
    requires p.done <= |p.table|
  {
    u.event == p.event && u.todo == p.table[p.done..] && u.astart == p.pending && u.started == p.started
  }

  /** A running updater has exactly the actions to do that its table lists after the completed ones. */
  ghost predicate Inv(l: Lease) {
    var p := Seen(l.log);
    && Good(l.log)
    && p.done <= |p.table|
    && (l.updater.Some? <==> p.active)
    && (p.active ==> p.events == 0 && p.outcome.res >= 0 && p.done < |p.table| && Carries(l.updater.value, p))
  }

  /** The same with `res` as the result of the last action, none of which was called after it. */
  ghost predicate InvAfter(l: Lease, res: int) {
    var p := Seen(l.log);
    && Good(l.log)
    && p.done <= |p.table| && p.outcome.res == res && p.outcome.state == l.state
    && (res == 0 ==> !p.active && p.done == |p.table| && l.updater.None?)
    && (res != 0 ==> && p.active && l.updater.Some? && p.done < |p.table| && Carries(l.updater.value, p)
                     && l.updater.value.timeout == p.outcome.timeout && l.updater.value.deadline == p.outcome.deadline)
    && p.events == 0
  }

  lemma FreeKeepsInv(l: Lease)
    requires Good(l.log) && (l.updater.Some? <==> Seen(l.log).active)
    ensures Good(FreeUpdater(l).log)
  {
    if l.updater.Some? { GoodPush(l.log, Ended); }
  }

  /** While actions are called: none failed or was deferred yet in this call. */
  ghost predicate Calling(l: Lease) {
    var p := Seen(l.log);
    && Good(l.log) && p.active && l.updater.Some? && p.events == 0 && p.outcome.res >= 0
    && p.done <= |p.table| && Carries(l.updater.value, p)
    && (p.done == |p.table| ==> p.outcome.res == 0 && p.outcome.state == l.state)
  }

  lemma CallFirstCalls(l: Lease, now: nat, c: Choice)
    requires Calling(l) && |l.updater.value.todo| > 0
    ensures var o, l1 := c.exec(|l.log|), CallFirst(l, now, c);
            && l1.log == l.log + [Called(now, l.updater.value.todo[0], o)]
            && (o.res == 0 ==> Calling(l1)) && (o.res != 0 ==> InvAfter(l1, o.res))
  {
    GoodPush(l.log, Called(now, l.updater.value.todo[0], c.exec(|l.log|)));
    var p := Seen(l.log);
    assert p.table[p.done..][1..] == p.table[p.done + 1..];
  }

  /** Every call of an action in `log` from `n` on had the outcome that `exec` decides. */
  ghost predicate Decided(log: seq<Entry>, n: nat, now: nat, exec: nat -> Outcome) {
    forall j :: n <= j < |log| && log[j].Called? ==> log[j].time == now && log[j].outcome == exec(j)
  }

  lemma {:induction false} ActionCallKeepsInv(l: Lease, now: nat, c: Choice)
    requires Calling(l)
    ensures InvAfter(ActionCall(l, now, c).0, ActionCall(l, now, c).1)
    ensures SameUpdater(l.log, ActionCall(l, now, c).0.log)
    decreases |l.updater.value.todo|
  {
    if |l.updater.value.todo| == 0 {
      FreeKeepsInv(l);
    } else {
      CallFirstCalls(l, now, c);
      var l1 := CallFirst(l, now, c);
      assert SameUpdater(l.log, l1.log);
      if c.exec(|l.log|).res == 0 { ActionCallKeepsInv(l1, now, c); }
    }
  }

  /** The log goes on about the same updater. */
  ghost predicate SameUpdater(log: seq<Entry>, log1: seq<Entry>) {
    Seen(log1).event == Seen(log).event && Seen(log1).started == Seen(log).started
  }

  lemma DecidedOne(log: seq<Entry>, e: Entry, now: nat, exec: nat -> Outcome)
    requires e.Called? ==> e.time == now && e.outcome == exec(|log|)
    ensures Decided(Push(log, e), |log|, now, exec)
  {
  }

  lemma {:induction false} ActionCallDecided(l: Lease, now: nat, c: Choice)
    requires l.updater.Some?
    ensures l.log < ActionCall(l, now, c).0.log
    ensures Decided(ActionCall(l, now, c).0.log, |l.log|, now, c.exec)
    decreases |l.updater.value.todo|
  {
    if |l.updater.value.todo| == 0 {
      DecidedOne(l.log, Ended, now, c.exec);
    } else {
      var o, l1 := c.exec(|l.log|), CallFirst(l, now, c);
      DecidedOne(l.log, Called(now, l.updater.value.todo[0], o), now, c.exec);
      if o.res == 0 {
        ActionCallDecided(l1, now, c);
        DecidedBefore(l1.log, ActionCall(l1, now, c).0.log, |l.log|, now, c.exec);
      }
    }
  }

  lemma DecidedBefore(log: seq<Entry>, log1: seq<Entry>, n: nat, now: nat, exec: nat -> Outcome)
    requires n < |log| && log <= log1 && Decided(log1, |log|, now, exec) && Decided(log, n, now, exec)
    ensures Decided(log1, n, now, exec)
  {
    forall j | n <= j < |log1| && log1[j].Called? ensures log1[j].time == now && log1[j].outcome == exec(j) {
      if j < |log| { assert log1[j] == log[j]; }
    }
  }

  /** An update that ended: no updater and no old lease, in one of the four final states. */
  ghost predicate Finished(l: Lease) {
    && l.updater.None? && !l.holdsOld
    && (l.state.Granted? || l.state.Released? || l.state.Failed? || l.state.Requesting?)
  }

  /** Ready to end: nothing was sent for this updater yet. */
  ghost predicate Ending(l: Lease) {
    && Good(l.log) && (l.updater.Some? <==> Seen(l.log).active) && Seen(l.log).events == 0
    && Seen(l.log).done <= |Seen(l.log).table|
  }

  /** The result of an execute call that ended its update: at most one event, carrying the final state. */
  ghost predicate Closed(r: (Lease, int)) {
    var l, p := r.0, Seen(r.0.log);
    && Inv(l) && Finished(l) && r.1 <= 0 && p.events <= 1
    && (p.events == 1 ==> |l.log| > 0 && l.log[|l.log| - 1].Sent? && l.log[|l.log| - 1].state == l.state)
    && (p.events == 0 ==> r.1 == 0 && (l.state.Failed? || (l.inet6 && l.state.Requesting?)))
  }

  lemma AbortFinishes(l: Lease, ret: int)
    requires Ending(l) && ret < 0
    requires var p := Seen(l.log); p.outcome.res != 0 || !Fits(p.outcome.state, p.event)
    ensures Closed(Abort(l, ret))
  {
    FreeKeepsInv(l);
    var l1 := FreeUpdater(l).(holdsOld := false);
    if !(l1.inet6 && l1.state.Requesting?) { GoodPush(l1.log, Sent(AddressLost, Failed)); }
  }

  lemma SendFinishes(l: Lease, what: Event)
    requires Ending(l) && Finished(l) && Allowed(Seen(l.log), Sent(what, l.state))
    ensures Closed((Send(l, what), 0))
  {
    GoodPush(l.log, Sent(what, l.state));
  }

  lemma CompleteFinishes(l: Lease, expected: Event)
    requires Ending(l) && l.updater.None? && Through(Seen(l.log)) && Seen(l.log).event == expected
    requires Seen(l.log).outcome.state == l.state
    ensures Closed(Complete(l, expected))
  {
    var l1 := FreeUpdater(l).(holdsOld := false, state := Settled(l.state));
    assert l1.log == l.log && Finished(l1) && Ending(l1);
    match Answer(l.state, expected) {
      case Some(what) => SendFinishes(l1, what);
      case None => if !l.state.Nothing? { AbortFinishes(l1, -1); }
    }
  }

  /** A deferred update keeps its updater and has its timer armed. */
  ghost predicate Deferred(l: Lease) {
    l.updater.Some? && l.updater.value.timer.Some? && |l.updater.value.todo| > 0
  }

  /** Every execute call on a lease with an updater ends deferred or finished. */
  lemma ExecuteEnds(l: Lease, now: nat, c: Choice)
    requires Inv(l) && l.updater.Some?
    ensures var (l1, r) := Execute(l, now, c);
            && Inv(l1)
            && (r > 0 <==> Deferred(l1))
            && (r <= 0 <==> Closed((l1, r)))
            && (r > 0 ==> Seen(l1.log).events == 0 && Seen(l1.log).done < |Seen(l1.log).table|)
  {
    var l0 := l.(updater := Some(l.updater.value.(timer := None)));
    ActionCallKeepsInv(l0, now, c);
    var (l1, ret) := ActionCall(l0, now, c);
    if ret > 0 {
      if DeadlineReached(l1.updater.value, now) { AbortFinishes(l1.(state := Failed), -1); }
      else {
        var (u, armed) := Background(l1.updater.value, l1.updater.value.timeout, now, c);
        if armed { TodoLeft(l0, now, c); } else { AbortFinishes(l1.(updater := Some(u)), -1); }
      }
    } else if ret == 0 {
      CompleteFinishes(l1, l.updater.value.event);
    } else {
      AbortFinishes(l1, ret);
    }
  }

  lemma {:induction false} TodoLeft(l: Lease, now: nat, c: Choice)
    requires l.updater.Some?
    ensures ActionCall(l, now, c).1 != 0 ==> |ActionCall(l, now, c).0.updater.value.todo| > 0
    decreases |l.updater.value.todo|
  {
    if |l.updater.value.todo| > 0 && c.exec(|l.log|).res == 0 { TodoLeft(CallFirst(l, now, c), now, c); }
  }

  // ----- what an execute call answers -----

  /** The update ended with an event that carries the lease's state. */
  ghost predicate EndsWith(l: Lease, what: Event, state: State) {
    && l.updater.None? && !l.holdsOld && l.state == state
    && |l.log| > 0 && l.log[|l.log| - 1] == Sent(what, state)
  }

  /** The update failed: as lost, or silently for an IPv6 lease that is to be requested again. */
  ghost predicate FailsWith(l: Lease, r: int, ret: int, left: State) {
    if l.inet6 && left.Requesting? then r == 0 && l.updater.None? && l.state.Requesting? && Seen(l.log).events == 0
    else r == ret && EndsWith(l, AddressLost, Failed)
  }

  /** The answer to an update whose actions all completed, leaving the lease in state `left`. */
  ghost predicate AnswersCompleted(l: Lease, r: int, left: State, event: Event) {
    match left
    case Applying | Granted =>
      if event.AddressAcquired? then r == 0 && EndsWith(l, AddressAcquired, Granted) else FailsWith(l, r, -1, left)
    case Releasing | Released =>
      if event.AddressReleased? then r == 0 && EndsWith(l, AddressReleased, Released) else FailsWith(l, r, -1, left)
    case Requesting =>
      if event.AddressAcquired? then r == 0 && EndsWith(l, AddressDeferred, Requesting) else FailsWith(l, r, -1, left)
    case Failed =>
      if event.AddressReleased? || event.AddressLost? then r == 0 && EndsWith(l, event, Failed)
      else FailsWith(l, r, -1, left)
    case Nothing => r == 0 && l.updater.None? && l.state.Failed? && Seen(l.log).events == 0
  }

  /**
   The deadline, in seconds after the updater started, has come. It counts as come when the
   clock has not moved since; an updater that started at no known time has none.
   */
  predicate Overdue(started: nat, deadline: nat, now: nat) {
    && 0 < deadline < 0xffff_ffff && started > 0
    && (now <= started || now - started >= 1_000_000 * deadline)
  }

  /** The background timer of a delay in milliseconds, with its jitter, is due. */
  predicate DueAfter(due: nat, delay: nat, now: nat) {
    && due < now + 1000 * (delay + 100)
    && due >= now + 1000 * (if delay > 1000 then delay - 100 else delay)
  }

  lemma DeadlineMeans(u: Updater, now: nat)
    ensures DeadlineReached(u, now) <==> Overdue(u.started, u.deadline, now)
  {
    if 0 < u.deadline < 0xffff_ffff && u.started > 0 && now > 0 {
      Lifetime.LeftRunsDown(u.deadline, u.started, now, now, now);
    }
  }

  /** Backgrounding an updater arms its timer unless none can be registered. */
  lemma BackgroundDue(u: Updater, delay: nat, now: nat, c: Choice)
    ensures var (u1, armed) := Background(u, delay, now, c);
            && armed == (u.timer.Some? || c.timerOk)
            && (armed ==> u1.timer.Some? && DueAfter(u1.timer.value, delay, now))
            && u1 == u.(timer := u1.timer, timeout := if u.timeout == 0 then 1000 else u.timeout)
  {
  }

  /** Every value of the jitter's range can be drawn: up to 100 ms more, and for long delays up to 100 ms less. */
  lemma JitterFillsTheRange(u: Updater, delay: nat, now: nat, c: Choice, adj: int)
    requires u.timer.Some? || c.timerOk
    requires (if delay > 1000 then -100 else 0) <= adj < 100
    ensures Background(u, delay, now, c.(jitter := adj)).0.timer == Some(now + 1000 * (delay + adj))
  {
  }

  /** A timer call spends the timer: without a device nothing else happens, with one the lease is executed. */
  lemma TimerCallSpends(l: Lease, found: bool, now: nat, c: Choice)
    requires l.updater.Some? && l.updater.value.timer.Some?
    ensures var l0 := l.(updater := Some(l.updater.value.(timer := None)));
            TimerCall(l, found, now, c) == if found then Execute(l0, now, c).0 else l0
  {
  }

  /** Cancelling an updater ends it without an event and leaves the lease as it is. */
  lemma CancelIsSilent(l: Lease)
    requires Inv(l)
    ensures Inv(FreeUpdater(l)) && FreeUpdater(l).updater.None? && FreeUpdater(l).state == l.state
    ensures Seen(FreeUpdater(l).log).events == Seen(l.log).events && Seen(FreeUpdater(l).log).done == Seen(l.log).done
  {
    FreeKeepsInv(l);
  }

  /** The answer to an update with a deferred action. */
  ghost predicate AnswersDeferred(l: Lease, r: int, p: Progress, now: nat, timerOk: bool) {
    var o := p.outcome;
    if Overdue(p.started, o.deadline, now) then r == -1 && EndsWith(l, AddressLost, Failed)
    else if !timerOk then FailsWith(l, r, -1, o.state)
    else
      && r == o.res && l.state == o.state && p.events == 0
      && l.updater.Some? && l.updater.value.timer.Some? && DueAfter(l.updater.value.timer.value, o.timeout, now)
  }

  lemma AbortAnswers(l: Lease, ret: int)
    requires Ending(l)
    ensures FailsWith(Abort(l, ret).0, Abort(l, ret).1, ret, l.state)
  {
  }

  lemma CompleteAnswers(l: Lease, expected: Event)
    requires Ending(l) && l.updater.None?
    ensures var (l1, r) := Complete(l, expected); AnswersCompleted(l1, r, l.state, expected)
  {
    var l1 := l.(holdsOld := false, state := Settled(l.state));
    AbortAnswers(l1, -1);
  }

  lemma DeferAnswers(l: Lease, ret: int, now: nat, c: Choice)
    requires InvAfter(l, ret) && ret > 0 && l.updater.value.timer.None?
    ensures var (l1, r) := Defer(l, ret, now, c); AnswersDeferred(l1, r, Seen(l1.log), now, c.timerOk)
  {
    var u := l.updater.value;
    DeadlineMeans(u, now);
    BackgroundDue(u, u.timeout, now, c);
    AbortAnswers(l.(state := Failed), -1);
    AbortAnswers(l.(updater := Some(Background(u, u.timeout, now, c).0)), -1);
  }

  lemma {:induction false} ActionCallKeepsTimer(l: Lease, now: nat, c: Choice)
    requires l.updater.Some?
    ensures var l1 := ActionCall(l, now, c).0;
            && (l1.updater.Some? ==> l1.updater.value.timer == l.updater.value.timer) && l1.inet6 == l.inet6
            && (|l.updater.value.todo| > 0 ==> |l1.log| > |l.log| && l1.log[|l.log|].Called?)
    decreases |l.updater.value.todo|
  {
    if |l.updater.value.todo| > 0 {
      var l1 := CallFirst(l, now, c);
      assert l1.log == l.log + [Called(now, l.updater.value.todo[0], c.exec(|l.log|))];
      if c.exec(|l.log|).res == 0 {
        ActionCallKeepsTimer(l1, now, c);
        ActionCallDecided(l1, now, c);
      }
    }
  }

  /** What an execute call adds to the log: outcomes that were decided, of the same updater, at least one. */
  ghost predicate Executed(log: seq<Entry>, log1: seq<Entry>, now: nat, c: Choice) {
    && log < log1 && log1[|log|].Called? && Decided(log1, |log|, now, c.exec) && SameUpdater(log, log1)
  }

  /** The whole answer of an execute call, from the outcome of the last action it called. */
  ghost predicate Answered(l: Lease, r: int, event: Event, now: nat, timerOk: bool) {
    var p := Seen(l.log);
    if p.outcome.res < 0 then FailsWith(l, r, p.outcome.res, p.outcome.state)
    else if p.outcome.res == 0 then Through(p) && AnswersCompleted(l, r, p.outcome.state, event)
    else AnswersDeferred(l, r, p, now, timerOk)
  }

  /** `log1` adds nothing but the end of the updater and an event to `log`. */
  ghost predicate Concludes(log: seq<Entry>, log1: seq<Entry>) {
    && log <= log1 && (forall j :: |log| <= j < |log1| ==> log1[j].Ended? || log1[j].Sent?)
    && SameUpdater(log, log1) && Seen(log1).outcome == Seen(log).outcome
    && Seen(log1).done == Seen(log).done && Seen(log1).table == Seen(log).table
  }

  lemma AbortConcludes(l: Lease, ret: int)
    ensures Concludes(l.log, Abort(l, ret).0.log)
  {
  }

  lemma CompleteConcludes(l: Lease, expected: Event)
    requires l.updater.None?
    ensures Concludes(l.log, Complete(l, expected).0.log)
  {
    AbortConcludes(l.(holdsOld := false, state := Settled(l.state)), -1);
  }

  lemma DeferConcludes(l: Lease, ret: int, now: nat, c: Choice)
    requires l.updater.Some?
    ensures Concludes(l.log, Defer(l, ret, now, c).0.log)
  {
    AbortConcludes(l.(state := Failed), -1);
    AbortConcludes(l.(updater := Some(Background(l.updater.value, l.updater.value.timeout, now, c).0)), -1);
  }

  lemma ConcludesExecuted(log: seq<Entry>, log1: seq<Entry>, log2: seq<Entry>, now: nat, c: Choice)
    requires Executed(log, log1, now, c) && Concludes(log1, log2)
    ensures Executed(log, log2, now, c)
  {
    forall j | |log| <= j < |log2| && log2[j].Called? ensures log2[j].time == now && log2[j].outcome == c.exec(j) {
      assert j < |log1| && log2[j] == log1[j];
    }
  }

  /**
   Every execute call calls the actions that are left, in order and until one does not complete,
   and answers their outcome: the event that fits and its state, a deferral with a timer, or a failure.
   */
  lemma ExecuteAnswers(l: Lease, now: nat, c: Choice)
    requires Inv(l) && l.updater.Some?
    ensures var (l1, r) := Execute(l, now, c);
            Executed(l.log, l1.log, now, c) && Answered(l1, r, l.updater.value.event, now, c.timerOk)
  {
    var l0 := l.(updater := Some(l.updater.value.(timer := None)));
    ActionCallKeepsInv(l0, now, c);
    ActionCallDecided(l0, now, c);
    ActionCallKeepsTimer(l0, now, c);
    var (l1, ret) := ActionCall(l0, now, c);
    assert Executed(l.log, l1.log, now, c);
    if ret > 0 {
      DeferAnswers(l1, ret, now, c);
      DeferConcludes(l1, ret, now, c);
      ConcludesExecuted(l.log, l1.log, Defer(l1, ret, now, c).0.log, now, c);
    } else if ret == 0 {
      CompleteAnswers(l1, l.updater.value.event);
      CompleteConcludes(l1, l.updater.value.event);
      ConcludesExecuted(l.log, l1.log, Complete(l1, l.updater.value.event).0.log, now, c);
    } else {
      AbortAnswers(l1, ret);
      AbortConcludes(l1, ret);
      ConcludesExecuted(l.log, l1.log, Abort(l1, ret).0.log, now, c);
    }
  }

  // ----- runs -----

  lemma NewUpdaterKeepsInv(l: Lease, applying: bool, event: Event, now: nat)
    requires Inv(l)
    ensures Inv(NewUpdater(l, applying, event, now))
  {
    FreeKeepsInv(l);
    GoodPush(FreeUpdater(l).log, Began(now, applying, l.inet6 && l.autoconf, event));
  }

  lemma ArmKeepsInv(l: Lease, memory: bool)
    requires Inv(l)
    ensures Inv(Arm(l, memory))
  {
    if Arm(l, memory) != l {
      var p, q := Seen(l.log), Seen(Arm(l, memory).log);
      GoodPush(l.log, Armed);
      assert q.table == p.table[..p.done] + WithDrop(p.table[p.done..]);
      assert q.table[q.done..] == WithDrop(p.table[p.done..]);
    }
  }

  lemma StepKeepsInv(w: World, i: Input)
    requires Inv(w.lease)
    ensures Inv(Step(w, i).lease)
  {
    match i {
      case Advance(_) =>
      case Apply(event) => NewUpdaterKeepsInv(w.lease, true, event, w.now);
      case Remove(event) => NewUpdaterKeepsInv(w.lease, false, event, w.now);
      case ArmDrop(memory) => ArmKeepsInv(w.lease, memory);
      case Cancel => FreeKeepsInv(w.lease);
      case SetLease(_, _) =>
      case Trigger(_, _) =>
      case ExecuteNow(c) => if w.lease.updater.Some? { ExecuteEnds(w.lease, w.now, c); }
      case TimerFires(found, c) =>
        if w.lease.updater.Some? && w.lease.updater.value.timer.Some? && found {
          ExecuteEnds(w.lease.(updater := Some(w.lease.updater.value.(timer := None))), w.now, c);
        }
    }
  }

  function LogOf(inet6: bool, autoconf: bool, inputs: seq<Input>): seq<Entry> {
    Run(World(0, NewLease(inet6, autoconf)), inputs).lease.log
  }

  lemma {:induction false} RunKeepsInv(inet6: bool, autoconf: bool, inputs: seq<Input>)
    ensures Inv(Run(World(0, NewLease(inet6, autoconf)), inputs).lease)
    decreases |inputs|
  {
    if |inputs| > 0 {
      RunKeepsInv(inet6, autoconf, inputs[..|inputs| - 1]);
      StepKeepsInv(Run(World(0, NewLease(inet6, autoconf)), inputs[..|inputs| - 1]), inputs[|inputs| - 1]);
    }
  }

  /**
   In every run: only the first action that has not completed is called, none after a
   failure, and each event fits the updater's progress and the lease's state.
   */
  lemma EveryEntryAllowed(inet6: bool, autoconf: bool, inputs: seq<Input>)
    ensures var log := LogOf(inet6, autoconf, inputs);
            forall j :: 0 <= j < |log| ==> Allowed(Observe(log, j), log[j])
  {
    RunKeepsInv(inet6, autoconf, inputs);
    var log := LogOf(inet6, autoconf, inputs);
    forall j | 0 <= j < |log| ensures Allowed(Observe(log, j), log[j]) { assert AllowedAt(log, j); }
  }

  function AndCompleted(done: seq<Action>, e: Entry): seq<Action> {
    if e.Called? && e.outcome.res == 0 then done + [e.action] else done
  }

  /** The actions that completed among the log entries from `i` up to `n`. */
  function Completed(log: seq<Entry>, i: nat, n: nat): seq<Action>
    requires i <= n <= |log|
    decreases n
  {
    if i == n then [] else AndCompleted(Completed(log, i, n - 1), log[n - 1])
  }

  // ----- tables as armed -----

  predicate IsDrop(a: Action) {
    a.DropForward? || a.DropCollect?
  }

  /** The actions without those of forwarded drops. */
  function Undropped(table: seq<Action>): seq<Action> {
    if |table| == 0 then []
    else if IsDrop(table[0]) then Undropped(table[1..])
    else [table[0]] + Undropped(table[1..])
  }

  lemma {:induction false} UndroppedSplits(a: seq<Action>, b: seq<Action>)
    ensures Undropped(a + b) == Undropped(a) + Undropped(b)
    decreases |a|
  {
    if |a| == 0 { assert a + b == b; } else { assert (a + b)[1..] == a[1..] + b; UndroppedSplits(a[1..], b); }
  }

  lemma {:induction false} UndroppedNothing(table: seq<Action>)
    requires forall k :: 0 <= k < |table| ==> !IsDrop(table[k])
    ensures Undropped(table) == table
    decreases |table|
  {
    if |table| > 0 { UndroppedNothing(table[1..]); }
  }

  ghost predicate RemovedBefore(table: seq<Action>, k: nat)
    requires k <= |table|
  {
    exists j :: 0 <= j < k && table[j].AddrsRemove?
  }

  /** A table that began as `began`: only drop actions were added, forwards behind an address removal. */
  ghost predicate Extends(table: seq<Action>, began: seq<Action>) {
    && Undropped(table) == began
    && forall k: nat :: k < |table| && table[k].DropForward? ==> RemovedBefore(table, k)
  }

  /** Some address removal has a forward right behind it, and a collect comes last. */
  ghost predicate EndsWithDrop(table: seq<Action>) {
    && |table| > 0 && table[|table| - 1] == DropCollect
    && exists j :: 0 <= j < |table| - 1 && table[j] == AddrsRemove && table[j + 1] == DropForward
  }

  /** `before`, which ends with the address removal, and `behind` with a drop added. */
  function Dropping(before: seq<Action>, behind: seq<Action>): seq<Action> {
    before + ([DropForward] + (behind + [DropCollect]))
  }

  lemma UndroppedDropping(before: seq<Action>, behind: seq<Action>)
    ensures Undropped(Dropping(before, behind)) == Undropped(before + behind)
  {
    UndroppedSplits(before, behind);
    UndroppedSplits(before, [DropForward] + (behind + [DropCollect]));
    UndroppedSplits([DropForward], behind + [DropCollect]);
    UndroppedSplits(behind, [DropCollect]);
    assert Undropped([DropForward]) == [] && Undropped([DropCollect]) == [];
  }

  lemma DroppingExtends(before: seq<Action>, behind: seq<Action>, began: seq<Action>)
    requires |before| > 0 && before[|before| - 1].AddrsRemove? && Extends(before + behind, began)
    ensures Extends(Dropping(before, behind), began) && EndsWithDrop(Dropping(before, behind))
  {
    var all, table := before + behind, Dropping(before, behind);
    UndroppedDropping(before, behind);
    forall k: nat | k < |table| && table[k].DropForward? ensures RemovedBefore(table, k) {
      if k < |before| {
        assert all[k] == table[k] && RemovedBefore(all, k);
        var j :| 0 <= j < k && all[j].AddrsRemove?;
        assert table[j] == all[j];
      } else {
        assert table[|before| - 1].AddrsRemove?;
      }
    }
    assert table[|before| - 1] == AddrsRemove && table[|before| - 1 + 1] == DropForward;
  }

  lemma DropAt(done: seq<Action>, todo: seq<Action>, k: nat)
    requires k < |todo|
    ensures done + todo == (done + todo[..k + 1]) + todo[k + 1..]
    ensures done + (todo[..k + 1] + [DropForward] + todo[k + 1..] + [DropCollect]) ==
            Dropping(done + todo[..k + 1], todo[k + 1..])
  {
  }

  /** Arming only adds drop actions: the forward behind the removal, the collect at the end. */
  lemma ArmingExtends(done: seq<Action>, todo: seq<Action>, began: seq<Action>)
    requires AddrsRemove in todo && Extends(done + todo, began)
    ensures Extends(done + WithDrop(todo), began) && EndsWithDrop(done + WithDrop(todo))
  {
    var k := Find(todo, AddrsRemove);
    DropAt(done, todo, k);
    DroppingExtends(done + todo[..k + 1], todo[k + 1..], began);
  }

  lemma NewTable(applying: bool, auto6: bool)
    ensures Extends(Table(applying, auto6), Table(applying, auto6))
  {
    UndroppedNothing(Table(applying, auto6));
  }

  /** An updater with `done` completed, of a table that began as `began`. */
  ghost predicate Shaped(p: Progress, done: seq<Action>, began: seq<Action>) {
    && p.done <= |p.table| && done == p.table[..p.done]
    && Extends(p.table, began)
    && (if p.armed then EndsWithDrop(p.table) else p.table == began)
  }

  lemma ShapedArmed(p: Progress, done: seq<Action>, began: seq<Action>)
    requires Shaped(p, done, began) && Allowed(p, Armed)
    ensures Shaped(Next(p, Armed), done, began)
  {
    var todo := p.table[p.done..];
    assert p.table == done + todo;
    ArmingExtends(done, todo, began);
    assert (done + WithDrop(todo))[..p.done] == done;
  }

  lemma ShapedNext(p: Progress, done: seq<Action>, began: seq<Action>, e: Entry)
    requires Shaped(p, done, began) && Allowed(p, e) && !e.Began?
    ensures Shaped(Next(p, e), AndCompleted(done, e), began)
  {
    match e {
      case Armed => ShapedArmed(p, done, began);
      case Called(_, _, _) => assert p.table[..p.done + 1] == p.table[..p.done] + [p.table[p.done]];
      case _ =>
    }
  }

  /** What the log says of the updater that began at `i`, judged at `n`. */
  ghost predicate AsArmed(log: seq<Entry>, i: nat, n: nat)
    requires i < n <= |log| && log[i].Began?
  {
    Shaped(Observe(log, n), Completed(log, i + 1, n), Table(log[i].applying, log[i].auto6))
  }

  lemma {:induction false} CompletedAsArmed(log: seq<Entry>, i: nat, n: nat)
    requires Good(log) && BeganAt(log, i, n)
    ensures AsArmed(log, i, n)
    decreases n
  {
    var began := Table(log[i].applying, log[i].auto6);
    if i + 1 == n {
      NewTable(log[i].applying, log[i].auto6);
    } else {
      CompletedAsArmed(log, i, n - 1);
      assert AllowedAt(log, n - 1);
      ShapedNext(Observe(log, n - 1), Completed(log, i + 1, n - 1), began, log[n - 1]);
    }
  }

  /** A log entry `i` begins an updater, and no other one begins before `n`. */
  ghost predicate BeganAt(log: seq<Entry>, i: nat, n: nat) {
    i < n <= |log| && log[i].Began? && forall m :: i < m < n ==> !log[m].Began?
  }

  /**
   In every run, the actions an updater completed are a prefix of its table as armed, in order
   and once each; they are the whole of it once an acquired, deferred or released event is sent.
   */
  lemma CompletedInTableOrder(inet6: bool, autoconf: bool, inputs: seq<Input>, i: nat, n: nat)
    requires BeganAt(LogOf(inet6, autoconf, inputs), i, n)
    ensures var log := LogOf(inet6, autoconf, inputs);
            var table := Observe(log, n).table;
            && Completed(log, i + 1, n) <= table
            && Undropped(table) == Table(log[i].applying, log[i].auto6)
            && (!Observe(log, n).armed ==> table == Table(log[i].applying, log[i].auto6))
            && (n < |log| && log[n].Sent? && log[n].what != AddressLost ==> Completed(log, i + 1, n) == table)
  {
    var log := LogOf(inet6, autoconf, inputs);
    RunKeepsInv(inet6, autoconf, inputs);
    CompletedAsArmed(log, i, n);
    if n < |log| { assert AllowedAt(log, n); }
  }

  /** In every run, a drop is forwarded only after the addresses were removed. */
  lemma ForwardAfterRemoval(inet6: bool, autoconf: bool, inputs: seq<Input>, i: nat, n: nat)
    requires BeganAt(LogOf(inet6, autoconf, inputs), i, n) && n < |LogOf(inet6, autoconf, inputs)|
    requires LogOf(inet6, autoconf, inputs)[n].Called? && LogOf(inet6, autoconf, inputs)[n].action.DropForward?
    ensures AddrsRemove in Completed(LogOf(inet6, autoconf, inputs), i + 1, n)
  {
    var log := LogOf(inet6, autoconf, inputs);
    RunKeepsInv(inet6, autoconf, inputs);
    CompletedAsArmed(log, i, n);
    assert AllowedAt(log, n);
    var p := Observe(log, n);
    assert RemovedBefore(p.table, p.done);
  }

  /**
   In every run, an updater armed for a drop sends its released event after the drop was
   forwarded, and collected last; nothing else was added to its table.
   */
  lemma ReleasedAfterCollect(inet6: bool, autoconf: bool, inputs: seq<Input>, i: nat, n: nat)
    requires BeganAt(LogOf(inet6, autoconf, inputs), i, n) && n < |LogOf(inet6, autoconf, inputs)|
    requires LogOf(inet6, autoconf, inputs)[n].Sent? && LogOf(inet6, autoconf, inputs)[n].what == AddressReleased
    requires Observe(LogOf(inet6, autoconf, inputs), n).armed
    ensures var log := LogOf(inet6, autoconf, inputs);
            var done := Completed(log, i + 1, n);
            EndsWithDrop(done) && Undropped(done) == Table(log[i].applying, log[i].auto6)
  {
    var log := LogOf(inet6, autoconf, inputs);
    CompletedInTableOrder(inet6, autoconf, inputs, i, n);
    RunKeepsInv(inet6, autoconf, inputs);
    CompletedAsArmed(log, i, n);
  }

  // ----- answers and order in every run -----

  /** Every execute call of every run is answered so. */
  lemma EveryExecuteAnswered(inet6: bool, autoconf: bool, inputs: seq<Input>, c: Choice)
    requires Run(World(0, NewLease(inet6, autoconf)), inputs).lease.updater.Some?
    ensures var w := Run(World(0, NewLease(inet6, autoconf)), inputs);
            var (l1, r) := Execute(w.lease, w.now, c);
            && Executed(w.lease.log, l1.log, w.now, c)
            && Answered(l1, r, Seen(w.lease.log).event, w.now, c.timerOk)
  {
    RunKeepsInv(inet6, autoconf, inputs);
    var w := Run(World(0, NewLease(inet6, autoconf)), inputs);
    ExecuteAnswers(w.lease, w.now, c);
  }

  /** What has to be done before an action: addresses before routes, removal before restoring. */
  predicate Before(b: Action, a: Action) {
    match a
    case AddrsApply => b.MtuApply?
    case RoutesApply => b.MtuApply? || b.AddrsApply? || b.AddrsVerify?
    case VerifyApply => b.MtuApply? || b.AddrsApply? || b.AddrsVerify? || b.RoutesApply? || b.SystemUpdate?
    case RoutesRemove => b.AddrsRemove?
    case MtuRestore => b.AddrsRemove? || b.RoutesRemove? || b.SystemUpdate?
    case WriteLease => b.AddrsVerify?
    case RemoveLease => b.SystemUpdate?
    case _ => false
  }

  lemma TablesInOrder(applying: bool, auto6: bool, k: nat, b: Action)
    requires k < |Table(applying, auto6)| && Before(b, Table(applying, auto6)[k])
    ensures b in Table(applying, auto6)[..k]
  {
    var table := Table(applying, auto6);
    if applying && !auto6 {
      assert table[..k] == [MtuApply, AddrsApply, AddrsVerify, RoutesApply, SystemUpdate, VerifyApply][..k];
      assert k > 0 ==> table[..k][0] == MtuApply;
      assert k > 1 ==> table[..k][1] == AddrsApply;
      assert k > 2 ==> table[..k][2] == AddrsVerify;
      assert k > 3 ==> table[..k][3] == RoutesApply;
      assert k > 4 ==> table[..k][4] == SystemUpdate;
    } else {
      assert k > 0 ==> table[..k][0] == table[0];
      assert k > 1 ==> table[..k][1] == table[1];
      assert k > 2 ==> table[..k][2] == table[2];
    }
  }

  lemma {:induction false} UndroppedMembers(table: seq<Action>, a: Action)
    ensures a in Undropped(table) <==> a in table && !IsDrop(a)
    decreases |table|
  {
    if |table| > 0 { UndroppedMembers(table[1..], a); }
  }

  lemma NextInOrder(table: seq<Action>, n: nat, applying: bool, auto6: bool, b: Action)
    requires n < |table| && Undropped(table) == Table(applying, auto6) && Before(b, table[n])
    ensures b in table[..n]
  {
    var done, todo := table[..n], table[n..];
    assert table == done + todo;
    UndroppedSplits(done, todo);
    var k := |Undropped(done)|;
    assert Undropped(todo)[0] == table[n];
    assert Table(applying, auto6)[k] == table[n] && Table(applying, auto6)[..k] == Undropped(done);
    TablesInOrder(applying, auto6, k, b);
    UndroppedMembers(done, b);
  }

  /** In every run, an action is called only after everything that has to be done before it completed. */
  lemma CalledInOrder(inet6: bool, autoconf: bool, inputs: seq<Input>, i: nat, n: nat, b: Action)
    requires BeganAt(LogOf(inet6, autoconf, inputs), i, n) && n < |LogOf(inet6, autoconf, inputs)|
    requires LogOf(inet6, autoconf, inputs)[n].Called? && Before(b, LogOf(inet6, autoconf, inputs)[n].action)
    ensures b in Completed(LogOf(inet6, autoconf, inputs), i + 1, n)
  {
    var log := LogOf(inet6, autoconf, inputs);
    RunKeepsInv(inet6, autoconf, inputs);
    CompletedAsArmed(log, i, n);
    assert AllowedAt(log, n);
    NextInOrder(Observe(log, n).table, Observe(log, n).done, log[i].applying, log[i].auto6, b);
  }
}
