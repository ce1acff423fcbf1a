/**
 Properties of every run of the link-local claim machine: each log entry is judged against
 the whole log before it, and the state invariant that makes this hold.
 */
module AutoipRuns {
  import opened Common
  import opened AutoipModel

  // ----- the promises -----

  /** The shortest time between selecting a candidate and probing it, after `n` conflicts. */
  function MinDelay(n: nat): nat {
    if Uint32(n) > MAX_CONFLICTS then Usec(RATE_LIMIT_INTERVAL) - 999 else 0
  }

  /** Two defences of one claim, the first at `t1`, the second at `t2`. */
  predicate DefencesApart(t1: nat, t2: nat) {
    t1 == 0 || t2 == t1 || (t2 > t1 && Seconds(t2 - t1) >= DEFEND_INTERVAL)
  }

  /** Whether another probe may fail for lack of buffers after `n` that did. */
  predicate MayRetry(n: nat, retries: nat) {
    n == 0 || n < retries
  }

  /** The last pause is over, but for what the timers' millisecond grid swallows. */
  predicate Waited(o: Summary, t: nat) {
    o.paused.Some? ==> t + 999 >= o.paused.value.time + Usec(o.paused.value.msec)
  }

  /** A candidate may be probed again: its delay and its last pause are over, and nothing spoke against it. */
  predicate MayProbe(o: Summary, t: nat) {
    && o.selection.Some? && !o.matched && !o.failed
    && o.probes < o.selection.value.cfg.count && MayRetry(o.errors, o.selection.value.cfg.retries)
    && t >= o.selection.value.time + MinDelay(o.conflicts) && Waited(o, t)
  }

  predicate About(o: Summary, a: nat) {
    o.selection.Some? && o.selection.value.addr == a
  }

  /** What a log that says `o` allows the device to do next. */
  predicate Allowed(o: Summary, e: Entry) {
    && o.last <= e.time
    && match e
       case Selected(_, a, _) => LinkLocal(a) && (ADDRESS_FIRST <= a <= ADDRESS_LAST || o.selection.None?)
       case Probed(t, a) => About(o, a) && MayProbe(o, t)
       case NoBuffer(t) => MayProbe(o, t)
       case ProbeFailed(_, a, error) =>
         About(o, a) && !o.failed && (error || !MayRetry(o.errors, o.selection.value.cfg.retries))
       case Paused(_, msec) =>
         && o.selection.Some?
         && o.selection.value.cfg.intervalMin <= msec
         && (msec <= o.selection.value.cfg.intervalMin || msec <= o.selection.value.cfg.intervalMax)
       case Matched(_, a) => About(o, a)
       case Acquired(t, a) =>
         && About(o, a) && LinkLocal(a)
         && !o.matched && Waited(o, t)
         && 1 <= o.probes <= o.selection.value.cfg.count
         && (o.probes == o.selection.value.cfg.count <==> !o.failed)
       case Defended(t, a) =>
         About(o, a) && o.matched && (o.defence.Some? ==> DefencesApart(o.defence.value, t))
       case Unexpected(_) => false
       case _ => true
  }

  predicate AllowedAt(log: seq<Entry>, j: nat)
    requires j < |log|
  {
    Allowed(Observe(log, j), log[j])
  }

  /** Every entry of the log was allowed when it was made. */
  ghost predicate Good(log: seq<Entry>) {
    forall j: nat :: j < |log| ==> AllowedAt(log, j)
  }

  // ----- the invariant -----

  ghost predicate ProbingMatchesLog(d: Dev, o: Summary, now: nat)
    requires o.selection.Some? && d.verify.target.Some?
  {
    var t, v, cfg := d.verify.target.value, d.verify, o.selection.value.cfg;
    && v.nprobes == cfg.count > 0 && v.nretry == cfg.retries
    && v.probeMin == cfg.intervalMin && v.probeMax == cfg.intervalMax
    && t.attempts == o.probes <= v.nprobes && t.errors == o.errors
    && (t.duplicate ==> t.attempts < v.nprobes)
    && (!t.duplicate ==> MayRetry(t.errors, v.nretry))
    && t.tentative
    && (d.timer.ClaimTimer? ==>
          || d.timer.due >= o.selection.value.time + MinDelay(o.conflicts) + 999
          || now >= o.selection.value.time + MinDelay(o.conflicts))
  }

  /** The verifier waits for the end of the last pause. */
  ghost predicate Pausing(v: Verify, o: Summary) {
    v.started != 0 ==> o.paused == Some(Pause(v.started, v.lastTimeout))
  }

  /** What is under verification is the candidate, given up exactly when the log says so. */
  ghost predicate Verifying(d: Dev, o: Summary) {
    d.verify.target.Some? ==>
      About(o, d.candidate) && d.verify.target.value.addr == d.candidate && d.verify.target.value.duplicate == o.failed
  }

  /** The device's variables are what the log says, and the log is good. */
  ghost predicate Tied(d: Dev, now: nat) {
    var o := Seen(d.log);
    && Good(d.log)
    && o.last <= now
    && (o.defence.Some? ==> o.defence.value <= o.last)
    && (d.candidate == 0 || LinkLocal(d.candidate))
    && (d.candidate != 0 <==> o.selection.Some?)
    && (o.selection.Some? ==> o.selection.value.addr == d.candidate)
    && d.nconflicts == Uint32(o.conflicts)
    && (d.timer.ClaimTimer? ==> !d.state.Claimed?)
    && (d.timer.ReleaseTimer? ==> !d.socket && d.lease.Some?)
    && Verifying(d, o)
    && (!d.state.Init? ==> d.candidate != 0)
    && (d.state.Claiming? ==>
          !o.matched && Pausing(d.verify, o) && (d.verify.target.Some? ==> ProbingMatchesLog(d, o, now)))
    && (d.state.Claimed? ==>
          && d.verify.target.Some?
          && d.lease == Some(Lease(Some(d.candidate), d.request.uuid))
          && d.lastDefense == (if o.defence.Some? then o.defence.value else 0))
  }

  /** A claim timer is due at the end of the last pause, or else within the delay after the selection. */
  ghost predicate Timed(d: Dev) {
    var o := Seen(d.log);
    d.timer.ClaimTimer? ==>
      && o.selection.Some?
      && match o.paused
         case Some(p) => d.timer.due == p.time + Usec(p.msec)
         case None =>
           if d.verify.target.Some? && d.nconflicts > MAX_CONFLICTS
           then d.timer.due == o.selection.value.time + Usec(RATE_LIMIT_INTERVAL)
           else o.selection.value.time <= d.timer.due <= o.selection.value.time + Usec(PROBE_DELAY_MAX)
  }

  /** With a request, until it is claimed or released, no timer is pending exactly when the log stalled. */
  ghost predicate Pending(d: Dev) {
    d.request != NoRequest && !d.state.Claimed? && !d.timer.ReleaseTimer? ==>
      (d.timer.NoTimer? <==> Seen(d.log).stalled)
  }

  ghost predicate Inv(d: Dev, now: nat) {
    Tied(d, now) && Pending(d) && Timed(d)
  }

  lemma GoodPush(log: seq<Entry>, e: Entry)
    requires Good(log) && Allowed(Seen(log), e)
    ensures Good(log + [e])
  {
    var r := log + [e];
    forall j: nat | j < |r| ensures AllowedAt(r, j) {
      ObservePrefix(log, e, j);
      assert j < |log| ==> AllowedAt(log, j);
    }
  }

  // ----- every operation keeps the invariant -----

  /** Select may start from any state but CLAIMED, whatever the old candidate's probing was. */
  ghost predicate ReadyToSelect(d: Dev, now: nat) {
    var o := Seen(d.log);
    && Good(d.log)
    && o.last <= now
    && (d.candidate == 0 || LinkLocal(d.candidate))
    && (d.candidate != 0 <==> o.selection.Some?)
    && (o.defence.Some? ==> o.defence.value <= o.last)
    && d.nconflicts == Uint32(o.conflicts)
    && !d.state.Claimed? && !d.timer.ReleaseTimer?
  }

  lemma SelectKeepsInv(d: Dev, now: nat, c: Choice)
    requires ReadyToSelect(d, now)
    ensures Inv(Select(d, now, c), now)
    ensures Select(d, now, c).timer.ClaimTimer?
  {
    var e := Selected(now, Pick(d, c.draw), c.cfg);
    assert Allowed(Seen(d.log), e);
    GoodPush(d.log, e);
    assert Seen(Select(d, now, c).log) == Next(Seen(d.log), e);
  }

  lemma ConflictKeepsInv(d: Dev, now: nat, c: Choice)
    requires ReadyToSelect(DropLease(d), now)
    ensures Inv(Conflict(d, now, c), now)
    ensures Conflict(d, now, c).timer.ClaimTimer?
  {
    var d1 := DropLease(d);
    GoodPush(d1.log, Conflicted(now));
    SelectKeepsInv(d1.(nconflicts := Uint32(d1.nconflicts + 1), log := Push(d1.log, Conflicted(now))), now, c);
  }

  /** A matching packet before anything is done about it. */
  lemma MatchedIsGood(d: Dev, now: nat, a: nat)
    requires Tied(d, now) && About(Seen(d.log), a)
    ensures var d1 := d.(log := Push(d.log, Matched(now, a)));
            && Good(d1.log) && (d.state.Init? ==> Tied(d1, now))
            && (!d.state.Init? && !d.timer.ReleaseTimer? && (d.state.Claimed? ==> d.lease.Some?) ==>
                  ReadyToSelect(DropLease(d1), now))
  {
    GoodPush(d.log, Matched(now, a));
  }

  lemma DefendKeepsInv(d: Dev, now: nat, c: Choice)
    requires Inv(d, now) && d.state.Claimed? && d.socket
    ensures Inv(Defend(d.(log := Push(d.log, Matched(now, d.candidate))), now, c), now)
  {
    var d1 := d.(log := Push(d.log, Matched(now, d.candidate)));
    MatchedIsGood(d, now, d.candidate);
    if d.lastDefense != 0 && now > d.lastDefense && Seconds(now - d.lastDefense) < DEFEND_INTERVAL {
      ConflictKeepsInv(d1, now, c);
    } else {
      GoodPush(d1.log, Defended(now, d1.candidate));
    }
  }

  lemma ProcessArpKeepsInv(d: Dev, now: nat, pkt: Packet, c: Choice)
    requires Inv(d, now) && d.socket
    ensures Inv(ProcessArp(d, now, pkt, c), now)
  {
    if Matches(d.verify, pkt) {
      MatchedIsGood(d, now, pkt.sip);
      match d.state {
        case Init =>
        case Claiming => ConflictKeepsInv(d.(log := Push(d.log, Matched(now, pkt.sip))), now, c);
        case Claimed => DefendKeepsInv(d, now, c);
      }
    }
  }

  /** The device while its timer callback probes the candidate. */
  ghost predicate Callback(d: Dev, now: nat) {
    var o := Seen(d.log);
    && Good(d.log)
    && o.last <= now
    && (o.defence.Some? ==> o.defence.value <= o.last)
    && d.candidate != 0 && LinkLocal(d.candidate)
    && About(o, d.candidate) && !o.matched
    && d.nconflicts == Uint32(o.conflicts)
    && d.state.Claiming? && d.timer.NoTimer?
    && Verifying(d, o)
    && (d.verify.target.Some? ==> now >= o.selection.value.time + MinDelay(o.conflicts))
  }

  /** The device about to probe: every delay and pause has passed. */
  ghost predicate Sending(d: Dev, now: nat) {
    var o := Seen(d.log);
    && Callback(d, now) && Pausing(d.verify, o) && Waited(o, now)
    && (d.verify.target.Some? ==> ProbingMatchesLog(d, o, now))
  }

  /** The device between sending a probe and acting on the status. */
  ghost predicate Probing(d: Dev, status: SendStatus, now: nat) {
    var o := Seen(d.log);
    && Callback(d, now)
    && match status
       case Progress(timeout) =>
         && d.verify.target.Some? && ProbingMatchesLog(d, o, now)
         && d.verify.started == now && d.verify.lastTimeout == timeout && Allowed(o, Paused(now, timeout))
       case Failure => true
       case Complete => d.verify.target.Some? && Allowed(o, Acquired(now, d.candidate))
  }

  lemma ConcludeKeepsInv(d: Dev, status: SendStatus, now: nat, c: Choice)
    requires Probing(d, status, now)
    ensures Inv(Conclude(d, status, now, c), now)
  {
    match status {
      case Progress(timeout) => GoodPush(d.log, Paused(now, timeout));
      case Failure => ConflictKeepsInv(d, now, c);
      case Complete => GoodPush(d.log, Acquired(now, d.candidate));
    }
  }

  lemma ProbeLogKeepsCallback(d: Dev, t1: Target, now: nat, sent: SendResult)
    requires Sending(d, now) && d.verify.target.Some?
    requires !d.verify.target.value.duplicate && d.verify.target.value.attempts < d.verify.nprobes
    requires t1 == ProbeOnce(d.verify.target.value, d.verify.nretry, sent).0
    ensures var log := ProbeLog(d.verify.target.value, t1, now, sent, d.log);
            && Good(log)
            && Seen(log) ==
               Seen(d.log).(last := now, probes := t1.attempts, errors := t1.errors, failed := t1.duplicate)
  {
    var t := d.verify.target.value;
    match sent {
      case Sent => GoodPush(d.log, Probed(now, t.addr));
      case NoBuffers =>
        GoodPush(d.log, NoBuffer(now));
        if t1.duplicate { GoodPush(Push(d.log, NoBuffer(now)), ProbeFailed(now, t.addr, false)); }
      case SendError => GoodPush(d.log, ProbeFailed(now, t.addr, true));
    }
  }

  lemma ProbeTargetKeepsProbing(d: Dev, now: nat, c: Choice)
    requires Sending(d, now) && d.verify.target.Some?
    requires !d.verify.target.value.duplicate && d.verify.target.value.attempts < d.verify.nprobes
    ensures var (v, status, log) := ProbeTarget(d.verify, d.verify.target.value, now, c, d.log);
            Probing(d.(verify := v, log := log), status, now)
  {
    var (t1, needWait) := ProbeOnce(d.verify.target.value, d.verify.nretry, c.sent);
    ProbeLogKeepsCallback(d, t1, now, c.sent);
  }

  lemma VerifySendKeepsProbing(d: Dev, now: nat, c: Choice)
    requires Sending(d, now)
    ensures var (v, status, log) := VerifySend(d.verify, now, c, d.log);
            Probing(d.(verify := v, log := log), status, now)
  {
    assert ArpTimeoutLeft(d.verify.started, now, d.verify.lastTimeout) == 0;
    if d.verify.target.Some? {
      var t := d.verify.target.value;
      if !t.duplicate && t.attempts < d.verify.nprobes { ProbeTargetKeepsProbing(d, now, c); }
    }
  }

  lemma SendArpKeepsInv(d: Dev, now: nat, c: Choice)
    requires Tied(d, now) && Sending(d, now)
    ensures Inv(SendArp(d, now, c), now)
  {
    if d.socket || c.canOpen {
      var (v, status, log) := VerifySend(d.verify, now, c, d.log);
      VerifySendKeepsProbing(d.(socket := true), now, c);
      ConcludeKeepsInv(d.(socket := true, verify := v, log := log), status, now, c);
    } else {
      GoodPush(d.log, OpenFailed(now));
    }
  }

  lemma TimeoutKeepsInv(d: Dev, now: nat, c: Choice)
    requires Inv(d, now) && d.timer.ClaimTimer? && Expired(d.timer.due, now)
    ensures Inv(Timeout(d, now, c), now)
  {
    var d1 := d.(timer := NoTimer);
    if d.state.Init? { SelectKeepsInv(d1, now, c); } else { SendArpKeepsInv(d1, now, c); }
  }

  lemma AcquireKeepsInv(d: Dev, now: nat, request: Option<Request>, file: Option<Lease>, c: Choice)
    requires Inv(d, now)
    ensures Inv(Acquire(d, now, request, file, c), now)
  {
    if request.Some? { SelectKeepsInv(Stop(d).(request := request.value, lease := file), now, c); }
  }

  lemma StopKeepsInv(d: Dev, now: nat)
    requires Inv(d, now)
    ensures Inv(Stop(d).(request := NoRequest), now)
  {
    var d1 := Stop(d).(request := NoRequest);
    assert d1.log == d.log && d1.candidate == d.candidate && d1.verify == d.verify && d1.timer.NoTimer?;
    assert !d1.state.Claimed? && (d1.state.Claiming? ==> d.state.Claiming?);
  }

  lemma ReleaseKeepsInv(d: Dev, now: nat, uuid: nat)
    requires Inv(d, now)
    ensures Inv(Release(d, now, uuid), now)
  {
    if d.lease.None? || !d.request.enabled {
      StopKeepsInv(d, now);
    } else {
      var d1 := Release(d, now, uuid);
      assert d1.log == d.log && d1.candidate == d.candidate && d1.verify == d.verify && d1.state == d.state;
    }
  }

  lemma StepKeepsInv(w: World, i: Input)
    requires Inv(w.dev, w.now)
    ensures Inv(Step(w, i).dev, Step(w, i).now)
  {
    match i {
      case Advance(_) =>
      case AcquireRequest(request, file, c) => AcquireKeepsInv(w.dev, w.now, request, file, c);
      case ReleaseRequest(uuid) => ReleaseKeepsInv(w.dev, w.now, uuid);
      case RunTimers(c) => RunTimerKeepsInv(w.dev, w.now, c);
      case Arp(pkt, c) => if w.dev.socket { ProcessArpKeepsInv(w.dev, w.now, pkt, c); }
      case Remove => StopKeepsInv(w.dev, w.now);
    }
  }

  lemma RunTimerKeepsInv(d: Dev, now: nat, c: Choice)
    requires Inv(d, now)
    ensures Inv(RunTimer(d, now, c), now)
  {
    match d.timer {
      case NoTimer =>
      case ClaimTimer(due) => if Expired(due, now) { TimeoutKeepsInv(d, now, c); }
      case ReleaseTimer(_) => GoodPush(d.log, Released(now, d.request.uuid));
    }
  }

  lemma {:induction false} RunKeepsInv(inputs: seq<Input>)
    ensures var w := Run(World(0, NewDevice), inputs); Inv(w.dev, w.now)
    decreases |inputs|
  {
    if |inputs| > 0 {
      RunKeepsInv(inputs[..|inputs| - 1]);
      StepKeepsInv(Run(World(0, NewDevice), inputs[..|inputs| - 1]), inputs[|inputs| - 1]);
    }
  }
}
