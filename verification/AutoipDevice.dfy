/**
 The device handle of autoip4/device.c with the operations of autoip4/fsm.c, updated in
 place. Every operation is proved to compute the function of the same name in AutoipModel,
 and `Serve` to compute whole runs, so that the theorems about runs hold of the device.
 */
module AutoipDevice {
  import opened Common
  import M = AutoipModel
  import opened AutoipModel
  import Runs = AutoipRuns

  class Device {
    var state: State
    var timer: Timer
    var candidate: nat
    var verify: Verify
    var nconflicts: nat
    var lastDefense: nat
    var request: Request
    var lease: Option<Lease>
    var socket: bool
    var log: seq<Entry>

    ghost function View(): Dev
      reads this
    {
      Dev(state, timer, candidate, verify, nconflicts, lastDefense, request, lease, socket, log)
    }

    constructor ()
      ensures View() == NewDevice
    {
      state, timer, candidate, verify := Init, NoTimer, 0, Verify(0, 0, 0, 0, 0, 0, None);
      nconflicts, lastDefense, request, lease := 0, 0, NoRequest, None;
      socket, log := false, [];
    }

    method Note(e: Entry)
      modifies this`log
      ensures View() == old(View()).(log := Push(old(log), e))
    {
      log := Push(log, e);
    }

    method SetLease(newLease: Option<Lease>)
      modifies this`lease
      ensures View() == old(View()).(lease := newLease)
    {
      if lease != newLease { lease := newLease; }
    }

    method DropLease()
      modifies this`lease, this`state
      ensures View() == M.DropLease(old(View()))
    {
      if lease.Some? {
        SetLease(None);
        state := Init;
      }
    }

    method Close()
      modifies this`socket, this`timer
      ensures View() == M.Close(old(View()))
    {
      socket := false;
      if timer != NoTimer { timer := NoTimer; }
    }

    method Stop()
      modifies this
      ensures View() == M.Stop(old(View()))
    {
      DropLease();
      Close();
    }

    method SetTimeout(now: nat, lo: nat, hi: nat, r: nat)
      modifies this`timer
      ensures View() == M.SetTimeout(old(View()), now, lo, hi, r)
    {
      if hi != 0 {
        var due := now + Usec(RandomRange(lo, hi, r));
        if timer.ReleaseTimer? { timer := ReleaseTimer(due); } else { timer := ClaimTimer(due); }
      }
    }

    method PickCandidate(draw: nat)
      modifies this`candidate
      ensures View() == old(View()).(candidate := Pick(old(View()), draw))
    {
      if state == Claimed && candidate != 0 {
        // reclaim the candidate
      } else if lease.Some? && lease.value.addr.Some? && LinkLocal(lease.value.addr.value) && candidate == 0 {
        candidate := lease.value.addr.value;
      } else {
        candidate := FreshAddress(draw);
      }
    }

    method Select(now: nat, c: Choice)
      modifies this
      ensures View() == M.Select(old(View()), now, c)
    {
      PickCandidate(c.draw);
      Note(Selected(now, candidate, c.cfg));
      verify := VerifyReset(c.cfg);
      var added := VerifyAdd(verify, candidate, c.memory);
      if added.None? {
        SetTimeout(now, PROBE_DELAY_MIN, PROBE_DELAY_MAX, c.jitter);
        return;
      }
      verify := added.value;
      state := Claiming;
      if nconflicts > MAX_CONFLICTS {
        SetTimeout(now, RATE_LIMIT_INTERVAL, RATE_LIMIT_INTERVAL, c.jitter);
      } else {
        SetTimeout(now, PROBE_DELAY_MIN, PROBE_DELAY_MAX, c.jitter);
      }
    }

    method Conflict(now: nat, c: Choice)
      modifies this
      ensures View() == M.Conflict(old(View()), now, c)
    {
      DropLease();
      nconflicts := Uint32(nconflicts + 1);
      Note(Conflicted(now));
      Select(now, c);
    }

    method Defend(now: nat, c: Choice)
      modifies this
      ensures View() == M.Defend(old(View()), now, c)
    {
      if state != Claimed {
        Note(Unexpected(now));
        return;
      }
      if lastDefense != 0 && now > lastDefense {
        var delta := now - lastDefense;
        if Seconds(delta) < DEFEND_INTERVAL {
          Conflict(now, c);
          return;
        }
      }
      lastDefense := now;
      Note(Defended(now, candidate));
    }

    method ProcessArp(now: nat, pkt: Packet, c: Choice)
      modifies this
      ensures View() == M.ProcessArp(old(View()), now, pkt, c)
    {
      if !Matches(verify, pkt) { return; }
      Note(Matched(now, pkt.sip));
      match state
      case Init =>
      case Claiming => Conflict(now, c);
      case Claimed => Defend(now, c);
    }

    /** The probing loops of ni_arp_verify_send, for the single address a device verifies. */
    method VerifySend(now: nat, c: Choice) returns (status: SendStatus)
      modifies this`verify, this`log
      ensures var (v, st, l) := M.VerifySend(old(verify), now, c, old(log));
              status == st && View() == old(View()).(verify := v, log := l)
    {
      var left := ArpTimeoutLeft(verify.started, now, verify.lastTimeout);
      if left > 0 { return Progress(left); }
      if verify.target.None? { return Failure; }
      var t := verify.target.value;
      if !t.duplicate && t.tentative && t.attempts >= verify.nprobes {
        t := t.(tentative := false);
      }
      var needWait := false;
      if !t.duplicate && t.tentative {
        match c.sent
        case Sent =>
          t := t.(attempts := t.attempts + 1);
          needWait := true;
          Note(Probed(now, t.addr));
        case NoBuffers =>
          t := t.(errors := t.errors + 1);
          Note(NoBuffer(now));
          if t.errors >= verify.nretry {
            t := t.(duplicate := true);
            Note(ProbeFailed(now, t.addr, false));
          } else {
            needWait := true;
          }
        case SendError =>
          t := t.(duplicate := true);
          Note(ProbeFailed(now, t.addr, true));
      }
      verify := verify.(target := Some(t));
      if needWait {
        verify := verify.(started := now, lastTimeout := RandomRange(verify.probeMin, verify.probeMax, c.jitter));
        return Progress(verify.lastTimeout);
      }
      return if t.attempts > 0 then Complete else Failure;
    }

    method SendArp(now: nat, c: Choice) returns (ok: bool)
      modifies this
      ensures View() == M.SendArp(old(View()), now, c)
    {
      if !socket {
        if !c.canOpen {
          Note(OpenFailed(now));
          return false;
        }
        socket := true;
      }
      var status := VerifySend(now, c);
      match status
      case Progress(timeout) =>
        Note(Paused(now, timeout));
        SetTimeout(now, timeout, timeout, c.jitter);
        return true;
      case Failure =>
        Conflict(now, c);
        return false;
      case Complete =>
        state := Claimed;
        SetLease(Some(Lease(Some(candidate), request.uuid)));
        Note(Acquired(now, candidate));
        nconflicts := 0;
        lastDefense := 0;
        return true;
    }

    method Timeout(now: nat, c: Choice)
      modifies this
      ensures View() == M.Timeout(old(View()), now, c)
    {
      timer := NoTimer;
      match state
      case Init => Select(now, c);
      case Claiming => var _ := SendArp(now, c);
      case Claimed => Note(Unexpected(now));
    }

    method Acquire(now: nat, newRequest: Option<Request>, file: Option<Lease>, c: Choice) returns (accepted: bool)
      modifies this
      ensures View() == M.Acquire(old(View()), now, newRequest, file, c)
      ensures accepted == newRequest.Some?
    {
      if newRequest.None? { return false; }
      Stop();
      request := newRequest.value;
      SetLease(file);
      Select(now, c);
      return true;
    }

    method Release(now: nat, uuid: nat) returns (accepted: bool)
      modifies this
      ensures View() == M.Release(old(View()), now, uuid)
      ensures accepted == (old(lease).Some? && old(request).enabled)
    {
      if lease.None? || !request.enabled {
        Stop();
        request := NoRequest;
        return false;
      }
      Close();
      lease := Some(lease.value.(uuid := uuid));
      request := request.(uuid := uuid);
      timer := ReleaseTimer(now);
      return true;
    }

    method StartRelease(now: nat)
      modifies this
      ensures View() == M.StartRelease(old(View()), now)
    {
      timer := NoTimer;
      if lease.Some? { Note(Released(now, request.uuid)); }
      DropLease();
      Stop();
      request := NoRequest;
    }

    method RunTimer(now: nat, c: Choice)
      modifies this
      ensures View() == M.RunTimer(old(View()), now, c)
    {
      match timer
      case NoTimer =>
      case ClaimTimer(due) => if Expired(due, now) { Timeout(now, c); }
      case ReleaseTimer(due) => if Expired(due, now) { StartRelease(now); }
    }

    method Remove()
      modifies this
      ensures View() == M.Stop(old(View())).(request := NoRequest)
    {
      Stop();
      request := NoRequest;
    }

    // ----- runs -----

    ghost predicate Valid(now: nat)
      reads this
    {
      Runs.Inv(View(), now)
    }

    /** Whatever happens to a device, one thing at a time; packets arrive only through an open socket. */
    method Handle(now: nat, i: Input) returns (later: nat)
      requires Valid(now)
      modifies this
      ensures World(later, View()) == Step(World(now, old(View())), i)
      ensures Valid(later)
    {
      Runs.StepKeepsInv(World(now, View()), i);
      later := now;
      match i {
        case Advance(usec) => later := now + usec;
        case AcquireRequest(newRequest, file, c) => var accepted := Acquire(now, newRequest, file, c);
        case ReleaseRequest(uuid) => var accepted := Release(now, uuid);
        case RunTimers(c) => RunTimer(now, c);
        case Arp(pkt, c) => if socket { ProcessArp(now, pkt, c); }
        case Remove => Remove();
      }
    }

    /** Every run of a new device: the device is where the run leads, and its log is one the protocol allows. */
    method Serve(inputs: seq<Input>) returns (now: nat)
      requires View() == NewDevice
      modifies this
      ensures World(now, View()) == Run(World(0, NewDevice), inputs)
      ensures Valid(now)
      ensures Runs.Good(log) && Runs.Pending(View())
    {
      now := 0;
      Runs.RunKeepsInv([]);
      for k := 0 to |inputs|
        invariant Valid(now) && World(now, View()) == After(inputs, k)
      {
        AfterNext(inputs, k);
        now := Handle(now, inputs[k]);
      }
      AfterAll(inputs);
    }
  }

  /** Where the first `k` inputs of a run lead. */
  ghost function After(inputs: seq<Input>, k: nat): World
    requires k <= |inputs|
  {
    Run(World(0, NewDevice), inputs[..k])
  }

  lemma AfterNext(inputs: seq<Input>, k: nat)
    requires k < |inputs|
    ensures After(inputs, k + 1) == Step(After(inputs, k), inputs[k])
  {
    assert inputs[..k + 1][..k] == inputs[..k];
  }

  lemma AfterAll(inputs: seq<Input>)
    ensures After(inputs, |inputs|) == Run(World(0, NewDevice), inputs)
  {
    assert inputs[..|inputs|] == inputs;
  }
}
