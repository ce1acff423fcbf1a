/** What the invariant of AutoipRuns.dfy means for whole runs of the claim machine. */
module AutoipTheorems {
  import opened Common
  import opened AutoipModel
  import opened AutoipRuns

  function LogOf(inputs: seq<Input>): seq<Entry> {
    Run(World(0, NewDevice), inputs).dev.log
  }

  // ----- reading a good log -----

  lemma {:induction false} TimesIncrease(log: seq<Entry>, i: nat, j: nat)
    requires Good(log) && i <= j < |log|
    ensures log[i].time <= log[j].time
    decreases j
  {
    if i < j {
      TimesIncrease(log, i, j - 1);
      assert AllowedAt(log, j);
    }
  }

  lemma {:induction false} SelectionAfter(log: seq<Entry>, k: nat, n: nat)
    requires Good(log) && k < n <= |log| && log[k].Selected?
    ensures Observe(log, n).selection.Some? && Observe(log, n).selection.value.time >= log[k].time
    decreases n
  {
    if k < n - 1 {
      SelectionAfter(log, k, n - 1);
      TimesIncrease(log, k, n - 1);
      assert Observe(log, n) == Next(Observe(log, n - 1), log[n - 1]);
    }
  }

  lemma {:induction false} DefenceAfter(log: seq<Entry>, i: nat, n: nat) returns (k: nat)
    requires Good(log) && i < n <= |log| && log[i].Defended?
    requires forall m :: i < m < n ==> !log[m].Acquired?
    ensures i <= k < n && log[k].Defended? && Observe(log, n).defence == Some(log[k].time)
    decreases n
  {
    if log[n - 1].Defended? { k := n - 1; } else { k := DefenceAfter(log, i, n - 1); }
  }

  lemma {:induction false} DefencesAreApart(log: seq<Entry>, i: nat, j: nat)
    requires Good(log) && i < j < |log| && log[i].Defended? && log[j].Defended?
    requires forall m :: i < m < j ==> !log[m].Acquired?
    ensures DefencesApart(log[i].time, log[j].time)
    decreases j
  {
    var k := DefenceAfter(log, i, j);
    assert AllowedAt(log, j);
    TimesIncrease(log, i, k);
    TimesIncrease(log, k, j);
    if k > i { DefencesAreApart(log, i, k); }
  }

  // ----- theorems about every run -----

  /** Every entry of every run's log is one the log before it allows. */
  lemma EveryEntryAllowed(inputs: seq<Input>)
    ensures forall j :: 0 <= j < |LogOf(inputs)| ==> Allowed(Observe(LogOf(inputs), j), LogOf(inputs)[j])
  {
    RunKeepsInv(inputs);
    forall j | 0 <= j < |LogOf(inputs)| ensures Allowed(Observe(LogOf(inputs), j), LogOf(inputs)[j]) {
      assert AllowedAt(LogOf(inputs), j);
    }
  }

  /**
   Section 2.2.1 of RFC 3927: while more than ten conflicts are counted, probes of different
   candidates are a rate limit interval apart, on the timers' millisecond grid.
   */
  lemma ProbesOfNewCandidatesApart(inputs: seq<Input>, i: nat, k: nat, j: nat)
    requires i < k < j < |LogOf(inputs)|
    requires LogOf(inputs)[i].Probed? && LogOf(inputs)[k].Selected? && LogOf(inputs)[j].Probed?
    requires Uint32(Observe(LogOf(inputs), j).conflicts) > MAX_CONFLICTS
    ensures (LogOf(inputs)[j].time + 999) - LogOf(inputs)[i].time >= Usec(RATE_LIMIT_INTERVAL)
  {
    var log := LogOf(inputs);
    RunKeepsInv(inputs);
    assert AllowedAt(log, j);
    SelectionAfter(log, k, j);
    TimesIncrease(log, i, k);
  }

  /** Section 2.5 of RFC 3927, with the interval the source compares against. */
  lemma DefencesOfOneClaimApart(inputs: seq<Input>, i: nat, j: nat)
    requires i < j < |LogOf(inputs)| && LogOf(inputs)[i].Defended? && LogOf(inputs)[j].Defended?
    requires forall m :: i < m < j ==> !LogOf(inputs)[m].Acquired?
    requires 0 < LogOf(inputs)[i].time < LogOf(inputs)[j].time
    ensures LogOf(inputs)[j].time - LogOf(inputs)[i].time >= Usec(1000 * DEFEND_INTERVAL)
  {
    RunKeepsInv(inputs);
    DefencesAreApart(LogOf(inputs), i, j);
  }

  lemma InvMeans(d: Dev, now: nat)
    requires Inv(d, now)
    ensures d.state.Claimed? ==> d.lease == Some(Lease(Some(d.candidate), d.request.uuid)) && LinkLocal(d.candidate)
    ensures d.timer.ClaimTimer? ==> !d.state.Claimed?
    ensures d.timer.ReleaseTimer? ==> !d.socket
    ensures forall j :: 0 <= j < |d.log| ==> !d.log[j].Unexpected?
  {
    forall j | 0 <= j < |d.log| ensures !d.log[j].Unexpected? { assert AllowedAt(d.log, j); }
  }

  /** What holds in every state a device can reach. */
  lemma ReachableStates(inputs: seq<Input>)
    ensures var d := Run(World(0, NewDevice), inputs).dev;
            && (d.state.Claimed? ==>
                  d.lease == Some(Lease(Some(d.candidate), d.request.uuid)) && LinkLocal(d.candidate))
            && (d.timer.ClaimTimer? ==> !d.state.Claimed?)
            && (d.timer.ReleaseTimer? ==> !d.socket)
            && (forall j :: 0 <= j < |d.log| ==> !d.log[j].Unexpected?)
  {
    RunKeepsInv(inputs);
    var w := Run(World(0, NewDevice), inputs);
    InvMeans(w.dev, w.now);
  }

  /** When the claim timer of every reachable state is due, from the log. */
  lemma TimersDue(inputs: seq<Input>)
    ensures var d := Run(World(0, NewDevice), inputs).dev;
            var o := Seen(d.log);
            d.timer.ClaimTimer? ==>
              && o.selection.Some?
              && (o.paused.Some? ==> d.timer.due == o.paused.value.time + Usec(o.paused.value.msec))
              && (o.paused.None? ==>
                    && d.timer.due >= o.selection.value.time
                    && (d.timer.due <= o.selection.value.time + Usec(1000) ||
                        (Uint32(o.conflicts) > 10 && d.timer.due == o.selection.value.time + Usec(60000))))
  {
    RunKeepsInv(inputs);
  }

  lemma {:induction false} PausedAfter(log: seq<Entry>, k: nat, n: nat)
    requires Good(log) && k < n <= |log| && log[k].Paused?
    requires forall m :: k < m < n ==> !log[m].Selected? && !log[m].Paused?
    ensures Observe(log, n).paused == Some(Pause(log[k].time, log[k].msec))
    decreases n
  {
    if k < n - 1 { PausedAfter(log, k, n - 1); }
  }

  /**
   In every run, after a probe of a candidate the next one and the claim wait for the pause
   that was drawn, which is no shorter than configured, up to the timers' millisecond grid.
   */
  lemma ProbesOfOneCandidateApart(inputs: seq<Input>, k: nat, j: nat)
    requires k < j < |LogOf(inputs)| && LogOf(inputs)[k].Paused?
    requires LogOf(inputs)[j].Probed? || LogOf(inputs)[j].NoBuffer? || LogOf(inputs)[j].Acquired?
    requires forall m :: k < m < j ==> !LogOf(inputs)[m].Selected? && !LogOf(inputs)[m].Paused?
    ensures var log := LogOf(inputs);
            && log[j].time + 999 >= log[k].time + Usec(log[k].msec)
            && Observe(log, k).selection.Some?
            && log[k].msec >= Observe(log, k).selection.value.cfg.intervalMin
  {
    RunKeepsInv(inputs);
    PausedAfter(LogOf(inputs), k, j);
    assert AllowedAt(LogOf(inputs), j) && AllowedAt(LogOf(inputs), k);
  }

  /** A claimed address, defended less than the defence interval ago, and one more conflict. */
  ghost predicate Pressed(w: World, pkt: Packet) {
    && w.dev.state.Claimed? && w.dev.socket && Matches(w.dev.verify, pkt)
    && 0 < w.dev.lastDefense < w.now
    && Seconds(w.now - w.dev.lastDefense) < DEFEND_INTERVAL
  }

  /** The address is given up for a fresh draw, and the conflict is counted. */
  ghost predicate GivenUp(w: World, d: Dev, c: Choice) {
    && d.lease.None?
    && d.nconflicts == Uint32(w.dev.nconflicts + 1)
    && d.candidate == FreshAddress(c.draw)
    && ADDRESS_FIRST <= d.candidate <= ADDRESS_LAST
    && d.timer.ClaimTimer? && d.socket
    && (if c.cfg.count > 0 && c.memory then d.state.Claiming? else d.state.Init?)
  }

  lemma PressedGivesUp(w: World, pkt: Packet, c: Choice)
    requires Inv(w.dev, w.now) && Pressed(w, pkt)
    ensures GivenUp(w, Step(w, Arp(pkt, c)).dev, c)
  {
  }

  /** Section 2.5 of RFC 3927: a conflicting packet inside the interval ends the claim. */
  lemma ConflictInsideInterval(inputs: seq<Input>, pkt: Packet, c: Choice)
    requires Pressed(Run(World(0, NewDevice), inputs), pkt)
    ensures GivenUp(Run(World(0, NewDevice), inputs), Run(World(0, NewDevice), inputs + [Arp(pkt, c)]).dev, c)
  {
    RunKeepsInv(inputs);
    RunPush(World(0, NewDevice), inputs, Arp(pkt, c));
    PressedGivesUp(Run(World(0, NewDevice), inputs), pkt, c);
  }

  // ----- the bounds are the exact ones -----

  /** Nothing goes wrong, no time is lost, and the first address is always drawn. */
  function Calm(count: nat): Choice {
    Choice(0, 0, ArpConfig(count, 1, 1000, 1000), true, true, Sent)
  }

  function Start(count: nat): seq<Input> {
    [AcquireRequest(Some(Request(true, 0)), None, Calm(count))]
  }

  /** A request, the first probe, and `n` replies that contradict it. */
  function Flood(n: nat): seq<Input> {
    if n == 0 then Start(1) + [RunTimers(Calm(1))]
    else Flood(n - 1) + [Arp(Packet(ADDRESS_FIRST, true, true), Calm(1))]
  }

  lemma RunPush(w: World, inputs: seq<Input>, i: Input)
    ensures Run(w, inputs + [i]) == Step(Run(w, inputs), i)
  {
    assert (inputs + [i])[..|inputs|] == inputs;
  }

  /** A candidate selected at time 0 after `n` conflicts and not probed yet. */
  ghost predicate Waiting(w: World, n: nat, count: nat) {
    && w.now == 0 && w.dev.state.Claiming? && w.dev.lease.None?
    && w.dev.candidate == ADDRESS_FIRST && w.dev.nconflicts == Uint32(n)
    && w.dev.verify == VerifyReset(Calm(count).cfg).(target := Some(Target(ADDRESS_FIRST, 0, 0, true, false)))
    && w.dev.timer == ClaimTimer(if Uint32(n) > MAX_CONFLICTS then Usec(RATE_LIMIT_INTERVAL) else 0)
    && Seen(w.dev.log).conflicts == n
    && Seen(w.dev.log).probes == 0
    && Seen(w.dev.log).selection == Some(Selection(0, ADDRESS_FIRST, Calm(count).cfg))
  }

  /** The same candidate when its first probe was just sent. */
  ghost predicate ProbedOnce(w: World, n: nat, count: nat) {
    && w.dev.state.Claiming? && w.dev.lease.None? && w.dev.socket
    && w.dev.candidate == ADDRESS_FIRST && w.dev.nconflicts == Uint32(n)
    && w.dev.verify.target == Some(Target(ADDRESS_FIRST, 1, 0, true, false))
    && w.dev.verify.nprobes == count && w.dev.verify.lastTimeout == 1000 && w.dev.verify.started == w.now
    && w.dev.timer == ClaimTimer(w.now + Usec(1000))
    && Seen(w.dev.log).conflicts == n
    && Seen(w.dev.log).probes == 1
    && Seen(w.dev.log).selection == Some(Selection(0, ADDRESS_FIRST, Calm(count).cfg))
  }

  lemma SelectWaits(d: Dev, n: nat, count: nat)
    requires d.lease.None? && !d.state.Claimed? && !d.timer.ReleaseTimer? && count > 0
    requires d.nconflicts == Uint32(n) && Seen(d.log).conflicts == n
    ensures Waiting(World(0, Select(d, 0, Calm(count))), n, count)
    ensures Select(d, 0, Calm(count)).socket == d.socket
  {
    assert Pick(d, 0) == ADDRESS_FIRST;
  }

  lemma RequestWaits(count: nat)
    requires count > 0
    ensures Waiting(Run(World(0, NewDevice), Start(count)), 0, count)
  {
    assert [] + Start(count) == Start(count);
    RunPush(World(0, NewDevice), [], Start(count)[0]);
    SelectWaits(Stop(NewDevice).(request := Request(true, 0), lease := None), 0, count);
  }

  lemma ProbeSent(w: World, n: nat, count: nat)
    requires Waiting(w, n, count) && count > 0
    ensures var w1 := Step(w.(now := MinDelay(n)), RunTimers(Calm(count)));
            && w1.dev.log == w.dev.log + [Probed(MinDelay(n), ADDRESS_FIRST)] + [Paused(MinDelay(n), 1000)]
            && w1.now == MinDelay(n) && ProbedOnce(w1, n, count)
  {
    var d := w.dev.(timer := NoTimer);
    assert VerifySend(d.verify, MinDelay(n), Calm(count), d.log) ==
           ProbeTarget(d.verify, d.verify.target.value, MinDelay(n), Calm(count), d.log);
  }

  /** A device that counted one more conflict. */
  function Conflicting(d: Dev): Dev {
    var d1 := d.(log := Push(d.log, Matched(0, ADDRESS_FIRST)));
    d1.(nconflicts := Uint32(d1.nconflicts + 1), log := Push(d1.log, Conflicted(0)))
  }

  lemma ReplySelects(w: World)
    requires w.now == 0 && w.dev.state.Claiming? && w.dev.lease.None? && w.dev.socket
    requires w.dev.verify.target.Some? && w.dev.verify.target.value.addr == ADDRESS_FIRST
    ensures Step(w, Arp(Packet(ADDRESS_FIRST, true, true), Calm(1))) == World(0, Select(Conflicting(w.dev), 0, Calm(1)))
  {
    assert Matches(w.dev.verify, Packet(ADDRESS_FIRST, true, true));
  }

  lemma ConflictingCounts(d: Dev, n: nat)
    requires d.nconflicts == Uint32(n) && Seen(d.log).conflicts == n
    ensures Conflicting(d).nconflicts == Uint32(n + 1) && Seen(Conflicting(d).log).conflicts == n + 1
  {
    var d1 := d.(log := Push(d.log, Matched(0, ADDRESS_FIRST)));
    assert Seen(d1.log).conflicts == n;
  }

  lemma FloodStep(w: World, n: nat)
    requires w.now == 0
    requires ProbedOnce(w, n, 1) || (Waiting(w, n, 1) && w.dev.socket)
    ensures var w1 := Step(w, Arp(Packet(ADDRESS_FIRST, true, true), Calm(1))); Waiting(w1, n + 1, 1) && w1.dev.socket
  {
    ReplySelects(w);
    ConflictingCounts(w.dev, n);
    SelectWaits(Conflicting(w.dev), n + 1, 1);
  }

  lemma FloodStarts()
    ensures ProbedOnce(Run(World(0, NewDevice), Flood(0)), 0, 1) && Run(World(0, NewDevice), Flood(0)).now == 0
  {
    RequestWaits(1);
    var w := Run(World(0, NewDevice), Start(1));
    RunPush(World(0, NewDevice), Start(1), RunTimers(Calm(1)));
    ProbeSent(w, 0, 1);
    assert w.(now := MinDelay(0)) == w;
  }

  lemma {:induction false} FloodCounts(n: nat)
    requires n > 0
    ensures Waiting(Run(World(0, NewDevice), Flood(n)), n, 1) && Run(World(0, NewDevice), Flood(n)).dev.socket
  {
    if n == 1 { FloodStarts(); } else { FloodCounts(n - 1); }
    var w := Run(World(0, NewDevice), Flood(n - 1));
    FloodStep(w, n - 1);
    RunPush(World(0, NewDevice), Flood(n - 1), Arp(Packet(ADDRESS_FIRST, true, true), Calm(1)));
  }

  /** Waiting for the shortest time and then running the timers. */
  lemma WaitAndProbe(start: seq<Input>, n: nat, count: nat) returns (inputs: seq<Input>)
    requires Waiting(Run(World(0, NewDevice), start), n, count) && count > 0
    ensures LogOf(inputs) == LogOf(start) + [Probed(MinDelay(n), ADDRESS_FIRST)] + [Paused(MinDelay(n), 1000)]
    ensures ProbedOnce(Run(World(0, NewDevice), inputs), n, count)
  {
    var w0 := World(0, NewDevice);
    inputs := start + [Advance(MinDelay(n))] + [RunTimers(Calm(count))];
    RunPush(w0, start, Advance(MinDelay(n)));
    RunPush(w0, start + [Advance(MinDelay(n))], RunTimers(Calm(count)));
    ProbeSent(Run(w0, start), n, count);
  }

  /** For every number of conflicts some run probes a candidate after exactly MinDelay. */
  lemma MinDelayIsReached(n: nat) returns (inputs: seq<Input>, j: nat)
    ensures j < |LogOf(inputs)|
    ensures var e, o := LogOf(inputs)[j], Observe(LogOf(inputs), j);
            && e.Probed? && o.conflicts == n
            && o.selection.Some?
            && e.time == o.selection.value.time + MinDelay(n)
  {
    var start := if n == 0 then Start(1) else Flood(n);
    if n == 0 { RequestWaits(1); } else { FloodCounts(n); }
    inputs := WaitAndProbe(start, n, 1);
    var log, e := LogOf(start), Probed(MinDelay(n), ADDRESS_FIRST);
    j := |log|;
    ObservePrefix(log, e, j);
    ObservePrefix(log + [e], Paused(MinDelay(n), 1000), j);
  }

  lemma ErrorClaims(w: World, count: nat)
    requires ProbedOnce(w, 0, count) && count > 1
    ensures var w1 := Step(w.(now := w.now + Usec(1000)), RunTimers(Calm(count).(sent := SendError)));
            exists log :: w1.dev.log == log + [Acquired(w1.now, ADDRESS_FIRST)] &&
                          Seen(log).probes == 1 && Seen(log).selection == Seen(w.dev.log).selection
  {
    var now, c := w.now + Usec(1000), Calm(count).(sent := SendError);
    var d := w.dev.(timer := NoTimer);
    assert VerifySend(d.verify, now, c, d.log) == ProbeTarget(d.verify, d.verify.target.value, now, c, d.log);
    var log := Push(d.log, ProbeFailed(now, ADDRESS_FIRST, true));
    assert Step(w.(now := now), RunTimers(c)).dev.log == log + [Acquired(now, ADDRESS_FIRST)];
  }

  /**
   Probing can end early: after one probe out of `count`, a send error that is not a lack of
   buffers still lets the address be claimed.
   */
  lemma ClaimedWithOneProbe(count: nat) returns (inputs: seq<Input>)
    requires count > 1
    ensures |LogOf(inputs)| > 0
    ensures var log := LogOf(inputs);
            var o := Observe(log, |log| - 1);
            && log[|log| - 1].Acquired?
            && o.probes == 1 && o.selection.Some?
            && o.selection.value.cfg.count == count
  {
    var w0, c := World(0, NewDevice), Calm(count).(sent := SendError);
    RequestWaits(count);
    var start := WaitAndProbe(Start(count), 0, count);
    var w := Run(w0, start);
    inputs := start + [Advance(Usec(1000))] + [RunTimers(c)];
    RunPush(w0, start, Advance(Usec(1000)));
    RunPush(w0, start + [Advance(Usec(1000))], RunTimers(c));
    ErrorClaims(w, count);
    var w1 := Step(w.(now := w.now + Usec(1000)), RunTimers(c));
    var log :| w1.dev.log == log + [Acquired(w1.now, ADDRESS_FIRST)] &&
               Seen(log).probes == 1 && Seen(log).selection == Seen(w.dev.log).selection;
    ObservePrefix(log, Acquired(w1.now, ADDRESS_FIRST), |log|);
  }
}
