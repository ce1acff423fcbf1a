/** What packets, requests and releases do to a device, for every run that leads up to them. */
module AutoipAnswers {
  import opened Common
  import opened AutoipModel
  import opened AutoipRuns
  import opened AutoipTheorems

  /** Where a run leads. */
  function After(inputs: seq<Input>): World {
    Run(World(0, NewDevice), inputs)
  }

  // ----- packets -----

  /**
   A packet is ignored when it is no reply, is about another address than the candidate, or is
   explained by the host itself while the candidate has not been given up.
   */
  lemma OtherPacketsIgnored(inputs: seq<Input>, pkt: Packet, c: Choice)
    requires var d := After(inputs).dev;
             !pkt.reply || pkt.sip != d.candidate || (!pkt.conflicting && !Seen(d.log).failed)
    ensures After(inputs + [Arp(pkt, c)]) == After(inputs)
  {
    RunKeepsInv(inputs);
    RunPush(World(0, NewDevice), inputs, Arp(pkt, c));
  }

  /** A reply from another host that uses the candidate. */
  predicate Rival(d: Dev, pkt: Packet) {
    d.socket && d.verify.target.Some? && pkt.reply && pkt.sip == d.candidate && pkt.conflicting
  }

  /** What a conflict leaves in the log: the packet, the conflict and a fresh draw. */
  function Yielded(log: seq<Entry>, now: nat, a: nat, c: Choice): seq<Entry> {
    log + [Matched(now, a)] + [Conflicted(now)] + [Selected(now, FreshAddress(c.draw), c.cfg)]
  }

  /** While claiming, such a reply counts a conflict and another candidate is drawn. */
  lemma RivalWhileClaiming(inputs: seq<Input>, pkt: Packet, c: Choice)
    requires After(inputs).dev.state.Claiming? && Rival(After(inputs).dev, pkt)
    ensures var w, w1 := After(inputs), After(inputs + [Arp(pkt, c)]);
            && w1.dev.log == Yielded(w.dev.log, w.now, pkt.sip, c) && w1.now == w.now
            && Seen(w1.dev.log).conflicts == Seen(w.dev.log).conflicts + 1
            && w1.dev.candidate == FreshAddress(c.draw)
  {
    RunKeepsInv(inputs);
    RunPush(World(0, NewDevice), inputs, Arp(pkt, c));
    var w := After(inputs);
    YieldedSays(w.dev.log, w.now, pkt.sip, c);
    assert Matches(w.dev.verify, pkt);
  }

  lemma YieldedSays(log: seq<Entry>, now: nat, a: nat, c: Choice)
    ensures Seen(Yielded(log, now, a, c)).conflicts == Seen(log).conflicts + 1
    ensures Yielded(log, now, a, c) ==
            Push(Push(Push(log, Matched(now, a)), Conflicted(now)), Selected(now, FreshAddress(c.draw), c.cfg))
  {
    var log1 := Push(log, Matched(now, a));
    var log2 := Push(log1, Conflicted(now));
    var log3 := Push(log2, Selected(now, FreshAddress(c.draw), c.cfg));
  }

  /** The last defence of a claim, if any, is the defence interval ago. */
  predicate MayDefend(o: Summary, now: nat) {
    o.defence.None? || o.defence.value == 0 || now <= o.defence.value || Seconds(now - o.defence.value) >= 10000
  }

  /** While claimed, such a reply is answered, once in an interval; otherwise the address is given up. */
  lemma RivalWhileClaimed(inputs: seq<Input>, pkt: Packet, c: Choice)
    requires After(inputs).dev.state.Claimed? && After(inputs).dev.socket
    requires pkt.reply && pkt.sip == After(inputs).dev.candidate && pkt.conflicting
    ensures var w, w1 := After(inputs), After(inputs + [Arp(pkt, c)]);
            if MayDefend(Seen(w.dev.log), w.now) then
              && w1.dev.log == w.dev.log + [Matched(w.now, pkt.sip)] + [Defended(w.now, pkt.sip)]
              && w1.dev.state.Claimed? && w1.dev.lease == w.dev.lease && w1.dev.candidate == w.dev.candidate
            else
              && w1.dev.log == Yielded(w.dev.log, w.now, pkt.sip, c)
              && w1.dev.lease.None? && w1.dev.candidate == FreshAddress(c.draw)
  {
    RunKeepsInv(inputs);
    RunPush(World(0, NewDevice), inputs, Arp(pkt, c));
    var w := After(inputs);
    YieldedSays(w.dev.log, w.now, pkt.sip, c);
    assert Matches(w.dev.verify, pkt);
  }

  // ----- timers -----

  /** A timer that has a whole millisecond left runs nothing. */
  lemma EarlyTimersWait(inputs: seq<Input>, c: Choice)
    requires var w := After(inputs); w.dev.timer.NoTimer? || w.dev.timer.due >= w.now + 1000
    ensures After(inputs + [RunTimers(c)]) == After(inputs)
  {
    RunPush(World(0, NewDevice), inputs, RunTimers(c));
  }

  /** The claim timer of a candidate under verification runs. */
  predicate Fires(w: World) {
    && w.dev.timer.ClaimTimer? && w.dev.timer.due < w.now + 1000
    && w.dev.state.Claiming? && w.dev.verify.target.Some?
  }

  /** What became of a candidate that was given up: claimed if it was probed at all, else a conflict. */
  predicate GaveUp(w: World, failed: seq<Entry>, log: seq<Entry>, c: Choice) {
    if Seen(w.dev.log).probes > 0 then log == failed + [Acquired(w.now, w.dev.candidate)]
    else log == failed + [Conflicted(w.now)] + [Selected(w.now, FreshAddress(c.draw), c.cfg)]
  }

  predicate Pauses(log: seq<Entry>, sent: seq<Entry>, now: nat, cfg: ArpConfig) {
    && |log| == |sent| + 1 && log[..|sent|] == sent
    && log[|sent|].Paused? && log[|sent|].time == now
    && cfg.intervalMin <= log[|sent|].msec
    && (log[|sent|].msec <= cfg.intervalMin || log[|sent|].msec <= cfg.intervalMax)
  }

  /** What a run of the claim timer does next for a candidate, from the log and the outcome of sending. */
  predicate ActsOnCandidate(w: World, log: seq<Entry>, c: Choice)
    requires Seen(w.dev.log).selection.Some?
  {
    var o, now, a := Seen(w.dev.log), w.now, w.dev.candidate;
    var cfg := o.selection.value.cfg;
    if !w.dev.socket && !c.canOpen then log == w.dev.log + [OpenFailed(now)]
    else if o.failed then GaveUp(w, w.dev.log, log, c)
    else if o.probes == cfg.count then log == w.dev.log + [Acquired(now, a)]
    else
      match c.sent
      case Sent => Pauses(log, w.dev.log + [Probed(now, a)], now, cfg)
      case NoBuffers =>
        if o.errors + 1 < cfg.retries then Pauses(log, w.dev.log + [NoBuffer(now)], now, cfg)
        else GaveUp(w, w.dev.log + [NoBuffer(now)] + [ProbeFailed(now, a, false)], log, c)
      case SendError => GaveUp(w, w.dev.log + [ProbeFailed(now, a, true)], log, c)
  }

  /** What a send status leaves in the log. */
  lemma ConcludeLogs(d: Dev, status: SendStatus, now: nat, c: Choice)
    requires d.state.Claiming?
    ensures var log := Conclude(d, status, now, c).log;
            match status
            case Progress(timeout) => log == d.log + [Paused(now, timeout)]
            case Failure => d.lease.None? || d.candidate != 0 ==>
              log == d.log + [Conflicted(now)] + [Selected(now, FreshAddress(c.draw), c.cfg)]
            case Complete => log == d.log + [Acquired(now, d.candidate)]
  {
  }

  lemma ProbeTargetActs(d: Dev, now: nat, c: Choice)
    requires Sending(d, now) && d.verify.target.Some? && (d.socket || c.canOpen)
    requires !d.verify.target.value.duplicate && d.verify.target.value.attempts < d.verify.nprobes
    ensures var (v, status, log) := ProbeTarget(d.verify, d.verify.target.value, now, c, d.log);
            ActsOnCandidate(World(now, d), Conclude(d.(socket := true, verify := v, log := log), status, now, c).log, c)
  {
    var (v, status, log) := ProbeTarget(d.verify, d.verify.target.value, now, c, d.log);
    ConcludeLogs(d.(socket := true, verify := v, log := log), status, now, c);
  }

  lemma SendArpActs(d: Dev, now: nat, c: Choice)
    requires Sending(d, now) && d.verify.target.Some?
    ensures ActsOnCandidate(World(now, d), SendArp(d, now, c).log, c)
  {
    assert ArpTimeoutLeft(d.verify.started, now, d.verify.lastTimeout) == 0;
    var t := d.verify.target.value;
    if d.socket || c.canOpen {
      if !t.duplicate && t.attempts < d.verify.nprobes {
        ProbeTargetActs(d, now, c);
      } else {
        var (v, status, log) := VerifySend(d.verify, now, c, d.log);
        ConcludeLogs(d.(socket := true, verify := v, log := log), status, now, c);
      }
    }
  }

  /** In every run, the timer probes on, claims after the last probe's pause, or gives the candidate up. */
  lemma TimerActs(inputs: seq<Input>, c: Choice)
    requires Fires(After(inputs))
    ensures Seen(After(inputs).dev.log).selection.Some?
    ensures ActsOnCandidate(After(inputs), After(inputs + [RunTimers(c)]).dev.log, c)
  {
    RunKeepsInv(inputs);
    RunPush(World(0, NewDevice), inputs, RunTimers(c));
    var w := After(inputs);
    var d := w.dev.(timer := NoTimer);
    assert Sending(d, w.now);
    SendArpActs(d, w.now, c);
  }

  // ----- requests -----

  /**
   A request starts over: it takes the stored address if that is link-local and the first
   candidate ever, and draws a fresh one otherwise (section 2.1 of RFC 3927).
   */
  lemma RequestSelects(inputs: seq<Input>, request: Request, file: Option<Lease>, c: Choice)
    ensures var w, w1 := After(inputs), After(inputs + [AcquireRequest(Some(request), file, c)]);
            var stored := file.Some? && file.value.addr.Some? && 0xA9FE_0000 <= file.value.addr.value <= 0xA9FE_FFFF;
            && w1.dev.candidate == (if stored && Seen(w.dev.log).selection.None? then file.value.addr.value
                                    else FreshAddress(c.draw))
            && w1.dev.log == w.dev.log + [Selected(w.now, w1.dev.candidate, c.cfg)]
            && w1.dev.request == request && w1.dev.lease == file && !w1.dev.socket && w1.dev.timer.ClaimTimer?
  {
    RunKeepsInv(inputs);
    RunPush(World(0, NewDevice), inputs, AcquireRequest(Some(request), file, c));
  }

  // ----- releases -----

  /** Nothing is pending and nobody is listening. */
  predicate Quiet(d: Dev) {
    d.timer.NoTimer? && !d.socket && d.lease.None? && d.request == NoRequest
  }

  /** A lease that is held for an enabled request is released by the next timers, under the release's identifier. */
  lemma ReleaseReported(inputs: seq<Input>, uuid: nat, c: Choice)
    requires After(inputs).dev.lease.Some? && After(inputs).dev.request.enabled
    ensures var w := After(inputs);
            var w1 := After(inputs + [ReleaseRequest(uuid)]);
            var w2 := After(inputs + [ReleaseRequest(uuid)] + [RunTimers(c)]);
            && w1.dev.log == w.dev.log && !w1.dev.socket && w1.dev.lease.Some? && w1.dev.lease.value.uuid == uuid
            && w2.dev.log == w.dev.log + [Released(w.now, uuid)] && Quiet(w2.dev)
  {
    RunPush(World(0, NewDevice), inputs, ReleaseRequest(uuid));
    RunPush(World(0, NewDevice), inputs + [ReleaseRequest(uuid)], RunTimers(c));
  }

  /** Removing the device, or releasing what is not held, ends everything at once and without a report. */
  lemma StopsAtOnce(inputs: seq<Input>, i: Input)
    requires i.Remove? ||
             (i.ReleaseRequest? && (After(inputs).dev.lease.None? || !After(inputs).dev.request.enabled))
    ensures Quiet(After(inputs + [i]).dev) && After(inputs + [i]).dev.log == After(inputs).dev.log
  {
    RunPush(World(0, NewDevice), inputs, i);
  }

  lemma QuietStep(w: World, i: Input)
    requires Quiet(w.dev) && (i.AcquireRequest? ==> i.request.None?)
    ensures Step(w, i).dev == w.dev
  {
  }

  /** Until the next request nothing happens to a quiet device any more. */
  lemma {:induction false} QuietUntilRequested(w: World, inputs: seq<Input>)
    requires Quiet(w.dev)
    requires forall k :: 0 <= k < |inputs| && inputs[k].AcquireRequest? ==> inputs[k].request.None?
    ensures Run(w, inputs).dev == w.dev
    decreases |inputs|
  {
    if |inputs| > 0 {
      QuietUntilRequested(w, inputs[..|inputs| - 1]);
      QuietStep(Run(w, inputs[..|inputs| - 1]), inputs[|inputs| - 1]);
    }
  }

  // ----- waiting and drawing -----

  /** What is left of a pause is the whole milliseconds until its end, if it began at a known time before. */
  lemma LeftInMilliseconds(started: nat, now: nat, msec: nat)
    ensures var left := ArpTimeoutLeft(started, now, msec);
            if 0 < started < now < started + Usec(msec)
            then Usec(left) <= started + Usec(msec) - now < Usec(left + 1)
            else left == 0
  {
  }

  /** A draw lies in its range, or is the lower end of an empty one, and every value of the range can be drawn. */
  lemma DrawsFillTheRange(lo: nat, hi: nat, r: nat, x: nat)
    ensures if lo <= hi then lo <= RandomRange(lo, hi, r) <= hi else RandomRange(lo, hi, r) == lo
    ensures lo <= x <= hi ==> RandomRange(lo, hi, x - lo) == x
  {
  }
}
