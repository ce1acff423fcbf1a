/** When a device that was asked for a lease waits for nothing. */
module AutoipProgress {
  import opened Common
  import opened AutoipModel
  import opened AutoipRuns
  import opened AutoipTheorems

  /** A device that was asked for a lease, has not claimed one and is not about to release one. */
  predicate Working(d: Dev) {
    d.request != NoRequest && !d.state.Claimed? && !d.timer.ReleaseTimer?
  }

  /**
   Exactly when a working device waits for nothing, in every run: the last it did towards its
   candidate was to fail to open the socket or to pause for no time.
   */
  lemma StalledIff(inputs: seq<Input>)
    ensures var d := Run(World(0, NewDevice), inputs).dev;
            Working(d) ==> (d.timer.NoTimer? <==> Seen(d.log).stalled)
  {
    RunKeepsInv(inputs);
  }

  /** The socket can be opened, and the configured pause between probes is not empty. */
  predicate Smooth(c: Choice) {
    c.canOpen && c.cfg.intervalMin > 0
  }

  predicate SmoothInput(i: Input) {
    match i
    case AcquireRequest(_, _, c) => Smooth(c)
    case RunTimers(c) => Smooth(c)
    case Arp(_, c) => Smooth(c)
    case _ => true
  }

  ghost predicate Steady(d: Dev) {
    !Seen(d.log).stalled && (d.verify.target.Some? ==> d.verify.probeMin > 0)
  }

  lemma SelectSteady(d: Dev, now: nat, c: Choice)
    requires Smooth(c)
    ensures Steady(Select(d, now, c))
  {
  }

  lemma VerifySendSteady(v: Verify, now: nat, c: Choice, log: seq<Entry>)
    requires !Seen(log).stalled && (v.target.Some? ==> v.probeMin > 0)
    ensures var (v1, status, log1) := VerifySend(v, now, c, log);
            && !Seen(log1).stalled && (v1.target.Some? ==> v1.probeMin > 0)
            && (status.Progress? ==> status.timeout > 0)
  {
  }

  lemma SendArpSteady(d: Dev, now: nat, c: Choice)
    requires Steady(d) && Smooth(c)
    ensures Steady(SendArp(d, now, c))
  {
    VerifySendSteady(d.verify, now, c, d.log);
    var (v, status, log) := VerifySend(d.verify, now, c, d.log);
    if status.Failure? { ConflictSteady(d.(socket := true, verify := v, log := log), now, c); }
  }

  lemma ConflictSteady(d: Dev, now: nat, c: Choice)
    requires Smooth(c)
    ensures Steady(Conflict(d, now, c))
  {
    var d1 := DropLease(d);
    SelectSteady(d1.(nconflicts := Uint32(d1.nconflicts + 1), log := Push(d1.log, Conflicted(now))), now, c);
  }

  lemma ProcessArpSteady(d: Dev, now: nat, pkt: Packet, c: Choice)
    requires Steady(d) && Smooth(c)
    ensures Steady(ProcessArp(d, now, pkt, c))
  {
    ConflictSteady(d.(log := Push(d.log, Matched(now, pkt.sip))), now, c);
  }

  lemma TimeoutSteady(d: Dev, now: nat, c: Choice)
    requires Steady(d) && Smooth(c)
    ensures Steady(Timeout(d, now, c))
  {
    var d1 := d.(timer := NoTimer);
    match d.state {
      case Init => SelectSteady(d1, now, c);
      case Claiming => SendArpSteady(d1, now, c);
      case Claimed =>
    }
  }

  lemma StartReleaseSteady(d: Dev, now: nat)
    requires Steady(d)
    ensures Steady(StartRelease(d, now))
  {
  }

  lemma RunTimerSteady(d: Dev, now: nat, c: Choice)
    requires Steady(d) && Smooth(c)
    ensures Steady(RunTimer(d, now, c))
  {
    match d.timer {
      case NoTimer =>
      case ClaimTimer(due) => if Expired(due, now) { TimeoutSteady(d, now, c); }
      case ReleaseTimer(due) => if Expired(due, now) { StartReleaseSteady(d, now); }
    }
  }

  lemma StepSteady(w: World, i: Input)
    requires Steady(w.dev) && SmoothInput(i)
    ensures Steady(Step(w, i).dev)
  {
    match i {
      case AcquireRequest(request, file, c) =>
        if request.Some? { SelectSteady(Stop(w.dev).(request := request.value, lease := file), w.now, c); }
      case RunTimers(c) => RunTimerSteady(w.dev, w.now, c);
      case Arp(pkt, c) => ProcessArpSteady(w.dev, w.now, pkt, c);
      case _ =>
    }
  }

  /** With a socket to open and a pause between probes, a working device always has a timer pending. */
  lemma {:induction false} NeverStalls(inputs: seq<Input>)
    requires forall k :: 0 <= k < |inputs| ==> SmoothInput(inputs[k])
    ensures var d := Run(World(0, NewDevice), inputs).dev;
            Steady(d) && (Working(d) ==> d.timer.ClaimTimer?)
    decreases |inputs|
  {
    StalledIff(inputs);
    if |inputs| > 0 {
      var init, last := inputs[..|inputs| - 1], inputs[|inputs| - 1];
      NeverStalls(init);
      StepSteady(Run(World(0, NewDevice), init), last);
    }
  }

  /** Without either, some run stalls: no socket, or a pause of no length. */
  lemma StallsAreReached(open: bool) returns (inputs: seq<Input>)
    ensures var d := Run(World(0, NewDevice), inputs).dev; Working(d) && d.timer.NoTimer? && d.socket == open
  {
    var c := Calm(1).(canOpen := open, cfg := ArpConfig(1, 1, 0, 0));
    var w0 := World(0, NewDevice);
    var start := [AcquireRequest(Some(Request(true, 0)), None, c)];
    inputs := start + [RunTimers(c)];
    assert [] + start == start;
    RunPush(w0, [], start[0]);
    RunPush(w0, start, RunTimers(c));
    var w := Run(w0, start);
    assert w.dev.timer == ClaimTimer(0) && w.dev.state.Claiming? && w.dev.request == Request(true, 0);
    assert Run(w0, inputs).dev == SendArp(w.dev.(timer := NoTimer), 0, c);
  }
}
