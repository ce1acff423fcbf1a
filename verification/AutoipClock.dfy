/** What a clock of whole milliseconds makes of the rate limit. */
module AutoipClock {
  import opened Common
  import opened AutoipModel
  import opened AutoipRuns
  import opened AutoipTheorems

  predicate Whole(t: nat) {
    t % 1000 == 0
  }

  ghost predicate OnGrid(log: seq<Entry>) {
    forall j :: 0 <= j < |log| ==> Whole(log[j].time)
  }

  lemma GridPush(log: seq<Entry>, e: Entry)
    requires OnGrid(log) && Whole(e.time)
    ensures OnGrid(Push(log, e))
  {
  }

  lemma SelectOnGrid(d: Dev, now: nat, c: Choice)
    requires OnGrid(d.log) && Whole(now)
    ensures OnGrid(Select(d, now, c).log)
  {
    GridPush(d.log, Selected(now, Pick(d, c.draw), c.cfg));
  }

  lemma ConflictOnGrid(d: Dev, now: nat, c: Choice)
    requires OnGrid(d.log) && Whole(now)
    ensures OnGrid(Conflict(d, now, c).log)
  {
    var d1 := DropLease(d);
    GridPush(d1.log, Conflicted(now));
    SelectOnGrid(d1.(nconflicts := Uint32(d1.nconflicts + 1), log := Push(d1.log, Conflicted(now))), now, c);
  }

  lemma ProcessArpOnGrid(d: Dev, now: nat, pkt: Packet, c: Choice)
    requires OnGrid(d.log) && Whole(now)
    ensures OnGrid(ProcessArp(d, now, pkt, c).log)
  {
    var d1 := d.(log := Push(d.log, Matched(now, pkt.sip)));
    GridPush(d.log, Matched(now, pkt.sip));
    ConflictOnGrid(d1, now, c);
    GridPush(d1.log, Defended(now, d1.candidate));
  }

  lemma VerifySendOnGrid(v: Verify, now: nat, c: Choice, log: seq<Entry>)
    requires OnGrid(log) && Whole(now)
    ensures OnGrid(VerifySend(v, now, c, log).2)
  {
    if v.target.Some? {
      var a := v.target.value.addr;
      GridPush(log, Probed(now, a));
      GridPush(log, NoBuffer(now));
      GridPush(Push(log, NoBuffer(now)), ProbeFailed(now, a, false));
      GridPush(log, ProbeFailed(now, a, true));
    }
  }

  lemma SendArpOnGrid(d: Dev, now: nat, c: Choice)
    requires OnGrid(d.log) && Whole(now)
    ensures OnGrid(SendArp(d, now, c).log)
  {
    GridPush(d.log, OpenFailed(now));
    VerifySendOnGrid(d.verify, now, c, d.log);
    var (v, status, log) := VerifySend(d.verify, now, c, d.log);
    var d1 := d.(socket := true, verify := v, log := log);
    match status {
      case Progress(timeout) => GridPush(log, Paused(now, timeout));
      case Failure => ConflictOnGrid(d1, now, c);
      case Complete => GridPush(log, Acquired(now, d1.candidate));
    }
  }

  lemma RunTimerOnGrid(d: Dev, now: nat, c: Choice)
    requires Tied(d, now) && OnGrid(d.log) && Whole(now)
    ensures OnGrid(RunTimer(d, now, c).log)
  {
    match d.timer {
      case NoTimer =>
      case ClaimTimer(_) =>
        SelectOnGrid(d.(timer := NoTimer), now, c);
        SendArpOnGrid(d.(timer := NoTimer), now, c);
      case ReleaseTimer(_) => GridPush(d.log, Released(now, d.request.uuid));
    }
  }

  lemma StepOnGrid(w: World, i: Input)
    requires Tied(w.dev, w.now) && OnGrid(w.dev.log) && Whole(w.now) && (i.Advance? ==> Whole(i.usec))
    ensures OnGrid(Step(w, i).dev.log) && Whole(Step(w, i).now)
  {
    match i {
      case AcquireRequest(request, file, c) =>
        if request.Some? { SelectOnGrid(Stop(w.dev).(request := request.value, lease := file), w.now, c); }
      case RunTimers(c) => RunTimerOnGrid(w.dev, w.now, c);
      case Arp(pkt, c) => ProcessArpOnGrid(w.dev, w.now, pkt, c);
      case _ =>
    }
  }

  /** The clock only ever advances by whole milliseconds. */
  ghost predicate WholeClock(inputs: seq<Input>) {
    forall k :: 0 <= k < |inputs| && inputs[k].Advance? ==> Whole(inputs[k].usec)
  }

  lemma {:induction false} RunOnGrid(inputs: seq<Input>)
    requires WholeClock(inputs)
    ensures OnGrid(LogOf(inputs)) && Whole(Run(World(0, NewDevice), inputs).now)
    decreases |inputs|
  {
    if |inputs| > 0 {
      var init := inputs[..|inputs| - 1];
      RunOnGrid(init);
      RunKeepsInv(init);
      StepOnGrid(Run(World(0, NewDevice), init), inputs[|inputs| - 1]);
    }
  }

  /** When the clock advances by whole milliseconds nothing of the rate limit interval is lost. */
  lemma RateLimitOnTheGrid(inputs: seq<Input>, i: nat, k: nat, j: nat)
    requires WholeClock(inputs)
    requires i < k < j < |LogOf(inputs)|
    requires LogOf(inputs)[i].Probed? && LogOf(inputs)[k].Selected? && LogOf(inputs)[j].Probed?
    requires Uint32(Observe(LogOf(inputs), j).conflicts) > MAX_CONFLICTS
    ensures LogOf(inputs)[j].time - LogOf(inputs)[i].time >= Usec(RATE_LIMIT_INTERVAL)
  {
    RunOnGrid(inputs);
    ProbesOfNewCandidatesApart(inputs, i, k, j);
    assert Whole(LogOf(inputs)[i].time) && Whole(LogOf(inputs)[j].time);
  }
}
