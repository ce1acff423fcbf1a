/**
 Policy ownership in the nanny (nanny/policy.c, nanny/device.c, nanny/nanny.c): managed
 policies on an intrusive list with back pointers, counted references held by D-Bus objects
 and by the devices that selected them.
 */
module Nanny {
  import opened Common

  /** What a policy's back pointer points at: the list head or some node's `next`. */
  datatype Link = Unlinked | Head | NextOf(node: Policy)

  class Policy {
    const fsmPolicy: nat
    var refcount: nat
    var seqno: nat
    var pprev: Link
    var next: Policy?

    constructor (fsmPolicy: nat)
      ensures this.fsmPolicy == fsmPolicy && refcount == 1 && seqno == 0 && pprev == Unlinked && next == null
    {
      this.fsmPolicy := fsmPolicy;
      refcount, seqno, pprev, next := 1, 0, Unlinked, null;
    }
  }

  function PolicyAt(nodes: seq<Policy>, i: nat): Policy? {
    if i < |nodes| then nodes[i] else null
  }

  function LinkTo(nodes: seq<Policy>, i: nat): Link
    requires i < |nodes|
  {
    if i == 0 then Head else NextOf(nodes[i - 1])
  }

  ghost predicate Nexts(nodes: seq<Policy>)
    reads nodes
  {
    forall i {:trigger nodes[i].next} :: 0 <= i < |nodes| ==> nodes[i].next == PolicyAt(nodes, i + 1)
  }

  ghost predicate Pprevs(nodes: seq<Policy>)
    reads nodes
  {
    forall i {:trigger nodes[i].pprev} :: 0 <= i < |nodes| ==> nodes[i].pprev == LinkTo(nodes, i)
  }

  ghost predicate Distinct(nodes: seq<Policy>) {
    forall i, j :: 0 <= i < j < |nodes| ==> nodes[i] != nodes[j]
  }

  function Without(nodes: seq<Policy>, k: nat): seq<Policy>
    requires k < |nodes|
  {
    nodes[..k] + nodes[k + 1..]
  }

  lemma NextsWithout(nodes: seq<Policy>, k: nat)
    requires k < |nodes|
    requires forall i {:trigger nodes[i].next} :: 0 <= i < |nodes| && i != k ==>
               nodes[i].next == PolicyAt(nodes, if i + 1 == k then k + 1 else i + 1)
    ensures Nexts(Without(nodes, k))
  {
    var r := Without(nodes, k);
    forall i | 0 <= i < |r| ensures r[i].next == PolicyAt(r, i + 1) {
      if i < k { assert r[i] == nodes[i]; } else { assert r[i] == nodes[i + 1]; }
    }
  }

  lemma PprevsWithout(nodes: seq<Policy>, k: nat)
    requires k < |nodes|
    requires forall i {:trigger nodes[i].pprev} :: 0 <= i < |nodes| && i != k ==>
               nodes[i].pprev == LinkTo(nodes, if i == k + 1 then k else i)
    ensures Pprevs(Without(nodes, k))
  {
    var r := Without(nodes, k);
    forall i | 0 <= i < |r| ensures r[i].pprev == LinkTo(r, i) {
      if i < k { assert r[i] == nodes[i]; } else { assert r[i] == nodes[i + 1]; }
    }
  }

  lemma DistinctWithout(nodes: seq<Policy>, k: nat)
    requires k < |nodes| && Distinct(nodes)
    ensures Distinct(Without(nodes, k)) && nodes[k] !in Without(nodes, k)
    ensures forall p :: p in nodes && p != nodes[k] ==> p in Without(nodes, k)
  {
    forall p | p in nodes && p != nodes[k] ensures p in Without(nodes, k) {
      var i :| 0 <= i < |nodes| && nodes[i] == p;
      assert Without(nodes, k)[if i < k then i else i - 1] == p;
    }
  }

  /** A node put before the others, whose first back pointer now goes through it. */
  lemma Prepended(p: Policy, nodes: seq<Policy>)
    requires p !in nodes && Distinct(nodes) && Nexts(nodes)
    requires p.next == PolicyAt(nodes, 0) && p.pprev == Head
    requires forall i {:trigger nodes[i].pprev} :: 0 <= i < |nodes| ==>
               nodes[i].pprev == if i == 0 then NextOf(p) else LinkTo(nodes, i)
    ensures Nexts([p] + nodes) && Pprevs([p] + nodes) && Distinct([p] + nodes)
  {
    var r := [p] + nodes;
    forall i | 0 <= i < |r| ensures r[i].next == PolicyAt(r, i + 1) { }
    forall i | 0 <= i < |r| ensures r[i].pprev == LinkTo(r, i) { }
  }

  class PolicyList {
    var head: Policy?
    ghost var nodes: seq<Policy>
    ghost var live: set<Policy>

    /** Next pointers and back pointers both spell out `nodes`. */
    ghost predicate Linked()
      reads this, live
    {
      && (forall i :: 0 <= i < |nodes| ==> nodes[i] in live)
      && (forall p :: p in live ==> p in nodes)
      && head == PolicyAt(nodes, 0)
      && Nexts(nodes) && Pprevs(nodes) && Distinct(nodes)
    }

    constructor ()
      ensures Linked() && nodes == [] && live == {}
    {
      head, nodes, live := null, [], {};
    }

    method Insert(p: Policy)
      requires Linked() && p !in live
      modifies this, p`next, p`pprev, live`pprev
      ensures Linked() && nodes == [p] + old(nodes) && live == old(live) + {p}
    {
      p.pprev := Head;
      p.next := head;
      if p.next != null { p.next.pprev := NextOf(p); }
      head := p;
      Prepended(p, nodes);
      nodes, live := [p] + nodes, live + {p};
    }

    /** Redirects what points at node `k` and what node `k` points at past each other. */
    method Bypass(p: Policy, ghost k: nat)
      requires Linked() && k < |nodes| && nodes[k] == p
      modifies this`head, live`next, live`pprev
      ensures head == PolicyAt(nodes, if k == 0 then 1 else 0)
      ensures forall i {:trigger nodes[i].next} :: 0 <= i < |nodes| && i != k ==>
                nodes[i].next == PolicyAt(nodes, if i + 1 == k then k + 1 else i + 1)
      ensures forall i {:trigger nodes[i].pprev} :: 0 <= i < |nodes| && i != k ==>
                nodes[i].pprev == LinkTo(nodes, if i == k + 1 then k else i)
      ensures p.pprev == Unlinked && p.next == null
    {
      var pprev, next := p.pprev, p.next;
      assert pprev == LinkTo(nodes, k) && next == PolicyAt(nodes, k + 1);
      match pprev {
        case Unlinked =>
        case Head => head := next;
        case NextOf(node) => node.next := next;
      }
      if next != null { next.pprev := pprev; }
      p.pprev := Unlinked;
      p.next := null;
    }

    /** Takes a policy off the list through its back pointer. */
    method Unlink(p: Policy)
      requires Linked() && p in live
      modifies this, live`next, live`pprev
      ensures Linked() && live == old(live) - {p}
      ensures exists k :: 0 <= k < |old(nodes)| && old(nodes)[k] == p && nodes == Without(old(nodes), k)
      ensures p.pprev == Unlinked && p.next == null
    {
      ghost var k :| 0 <= k < |nodes| && nodes[k] == p;
      Bypass(p, k);
      NextsWithout(nodes, k);
      PprevsWithout(nodes, k);
      DistinctWithout(nodes, k);
      nodes, live := Without(nodes, k), live - {p};
    }

    /** The managed policy of an FSM policy. */
    method Find(fsmPolicy: nat) returns (p: Policy?)
      requires Linked()
      ensures p != null ==> p in live && p.fsmPolicy == fsmPolicy
      ensures p == null ==> forall q :: q in live ==> q.fsmPolicy != fsmPolicy
    {
      p := head;
      ghost var i := 0;
      while p != null
        invariant i <= |nodes| && p == PolicyAt(nodes, i)
        invariant forall j :: 0 <= j < i ==> nodes[j].fsmPolicy != fsmPolicy
        decreases |nodes| - i
      {
        if p.fsmPolicy == fsmPolicy { return; }
        assert nodes[i].next == PolicyAt(nodes, i + 1);
        p := p.next;
        i := i + 1;
      }
    }
  }

  // ----- references -----

  datatype ManagedState = Stopped | Binding | Starting | Running | Stopping | Limbo | Failed

  datatype Managed = Managed(ifindex: nat, state: ManagedState, failCount: nat, maxFailCount: nat,
                             selected: Policy?, selectedSeq: nat)

  /** How bringing a device up starts; `limit` is the fail limit for the worker's type, if it is a known one. */
  datatype Start = Start(limit: Option<nat>, binds: bool, secretsMissing: bool)

  function NewManaged(ifindex: nat): Managed {
    Managed(ifindex, Stopped, 0, 0, null, 0)
  }

  function Selects(m: Managed, p: Policy?, seqno: nat): Managed {
    m.(selected := p, selectedSeq := if p == null then 0 else seqno)
  }

  function Started(m: Managed, start: Start): Managed {
    if start.limit.None? then m.(state := Failed)
    else
      var m1 := m.(maxFailCount := start.limit.value);
      if !start.binds then m1.(state := Failed)
      else if start.secretsMissing then m1
      else m1.(state := Starting)
  }

  /** A device whose worker came up or failed to. */
  function CameUp(m: Managed, failed: bool, dead: bool): Managed {
    if !failed then m.(failCount := 0, state := Running)
    else
      var m1 := m.(failCount := m.failCount + 1);
      if dead then m1 else if m1.failCount < m1.maxFailCount then m1.(state := Limbo) else m1.(state := Failed)
  }

  /** A device whose worker went down or failed to. */
  function WentDown(m: Managed, failed: bool, dead: bool): Managed {
    if !failed then m.(state := Stopped)
    else
      var m1 := m.(failCount := m.failCount + 1);
      if dead then m1 else m1.(state := Failed)
  }

  /** How many devices selected the policy. */
  function Selecting(devices: seq<Managed>, p: Policy): nat {
    if |devices| == 0 then 0
    else Selecting(devices[..|devices| - 1], p) + if devices[|devices| - 1].selected == p then 1 else 0
  }

  function One(b: bool): nat {
    if b then 1 else 0
  }

  lemma {:induction false} SelectingUpdate(devices: seq<Managed>, i: nat, m: Managed, p: Policy)
    requires i < |devices|
    ensures Selecting(devices[i := m], p) + One(devices[i].selected == p) ==
            Selecting(devices, p) + One(m.selected == p)
    decreases |devices|
  {
    var init := devices[..|devices| - 1];
    if i < |devices| - 1 {
      SelectingUpdate(init, i, m, p);
      assert devices[i := m][..|devices| - 1] == init[i := m];
    } else {
      assert devices[i := m][..|devices| - 1] == init;
    }
  }

  lemma {:induction false} SelectingRemove(devices: seq<Managed>, i: nat, p: Policy)
    requires i < |devices|
    ensures Selecting(devices[..i] + devices[i + 1..], p) + One(devices[i].selected == p) == Selecting(devices, p)
    decreases |devices|
  {
    var init, last := devices[..|devices| - 1], devices[|devices| - 1];
    var r := devices[..i] + devices[i + 1..];
    if i < |devices| - 1 {
      SelectingRemove(init, i, p);
      assert r[..|r| - 1] == init[..i] + init[i + 1..] && r[|r| - 1] == last;
    } else {
      assert r == init;
    }
  }

  lemma {:induction false} SelectingPrepend(m: Managed, devices: seq<Managed>, p: Policy)
    ensures Selecting([m] + devices, p) == One(m.selected == p) + Selecting(devices, p)
    decreases |devices|
  {
    var all := [m] + devices;
    if |devices| == 0 {
      assert all == [m] && all[..0] == [];
    } else {
      SelectingPrepend(m, devices[..|devices| - 1], p);
      assert all[..|all| - 1] == [m] + devices[..|devices| - 1];
    }
  }

  lemma {:induction false} SelectedCounts(devices: seq<Managed>, p: Policy, i: nat)
    requires i < |devices| && devices[i].selected == p
    ensures Selecting(devices, p) > 0
    decreases |devices|
  {
    if i < |devices| - 1 { SelectedCounts(devices[..|devices| - 1], p, i); }
  }

  lemma {:induction false} SomebodySelects(devices: seq<Managed>, p: Policy)
    requires Selecting(devices, p) > 0
    ensures exists i :: 0 <= i < |devices| && devices[i].selected == p
    decreases |devices|
  {
    var init := devices[..|devices| - 1];
    if devices[|devices| - 1].selected != p {
      SomebodySelects(init, p);
      var i :| 0 <= i < |init| && init[i].selected == p;
      assert devices[i].selected == p;
    }
  }

  /** A device that fails to come up `k` times in a row. */
  function Failing(m: Managed, k: nat): Managed {
    if k == 0 then m else CameUp(Failing(m, k - 1), true, false)
  }

  /** Failures are counted, and end in FAILED exactly from the limit on; until then the device is in limbo. */
  lemma {:induction false} FailsAtLimit(m: Managed, k: nat)
    ensures Failing(m, k).failCount == m.failCount + k && Failing(m, k).maxFailCount == m.maxFailCount
    ensures k > 0 ==> Failing(m, k).state == if m.failCount + k < m.maxFailCount then Limbo else Failed
    ensures Failing(m, k).selected == m.selected && Failing(m, k).selectedSeq == m.selectedSeq
  {
    if k > 0 { FailsAtLimit(m, k - 1); }
  }

  /** A success starts the count over: the next failure in a row that is fatal is the limit's. */
  lemma SuccessStartsOver(m: Managed, dead: bool, k: nat)
    requires 0 < k
    ensures CameUp(m, false, dead).state.Running? && CameUp(m, false, dead).failCount == 0
    ensures Failing(CameUp(m, false, dead), k).state.Failed? <==> k >= m.maxFailCount
  {
    FailsAtLimit(CameUp(m, false, dead), k);
  }

  /** A dead device counts its failure and keeps its state; a shutdown that fails otherwise is FAILED at once. */
  lemma DeadKeepsState(m: Managed)
    ensures CameUp(m, true, true) == WentDown(m, true, true) == m.(failCount := m.failCount + 1)
    ensures WentDown(m, true, false).state.Failed? && WentDown(m, true, false).failCount == m.failCount + 1
    ensures WentDown(m, false, false).state.Stopped? && WentDown(m, false, false).failCount == m.failCount
  {
  }

  /** The device has to be configured again for the policy. */
  predicate Reconfigures(m: Managed, p: Policy)
    reads p
  {
    match m.state
    case Stopping | Stopped | Limbo => true
    case Starting | Running | Failed => m.selected != p || m.selectedSeq != p.seqno
    case Binding => false
  }

  /** Where the first device with the index is; the end when there is none. */
  function IndexOf(devices: seq<Managed>, ifindex: nat): (i: nat)
    ensures i <= |devices| && (forall j :: 0 <= j < i ==> devices[j].ifindex != ifindex)
    ensures i < |devices| ==> devices[i].ifindex == ifindex
  {
    if |devices| == 0 || devices[0].ifindex == ifindex then 0 else 1 + IndexOf(devices[1..], ifindex)
  }

  function Dropped(devices: seq<Managed>, i: nat): seq<Managed> {
    if i < |devices| then devices[..i] + devices[i + 1..] else devices
  }

  function Cleared(devices: seq<Managed>, i: nat): seq<Managed> {
    if i < |devices| then devices[i := Selects(devices[i], null, 0)] else devices
  }

  function Joined(devices: seq<Managed>, ifindex: nat, i: nat): seq<Managed> {
    if i < |devices| then devices else [NewManaged(ifindex)] + devices
  }

  /** The reference that goes away with the device. */
  function Lost(devices: seq<Managed>, i: nat): multiset<Policy> {
    if i < |devices| && devices[i].selected != null then multiset{devices[i].selected} else multiset{}
  }

  /** What happens to the nanny; lookups outside of it and their failures are choices. */
  datatype Event =
    | Create(fsmPolicy: nat, registers: bool)
    | Update(fsmPolicy: nat, accepted: bool)
    | Delete(fsmPolicy: nat, removes: bool, worker: Option<nat>, unregisters: bool)
    | Recheck(ifindex: nat, fsmPolicy: nat, hasWorker: bool, transforms: bool, start: Start)
    | Enter(ifindex: nat, state: ManagedState)
    | UpDone(ifindex: nat, failed: bool, dead: bool)
    | DownDone(ifindex: nat, failed: bool, dead: bool)
    | Appear(ifindex: nat)
    | Vanish(ifindex: nat)
    | Collect

  /** D-Bus objects and leaked references hold live policies. */
  ghost predicate Registered(live: set<Policy>, registered: set<Policy>, trash: set<Policy>,
                             leaked: multiset<Policy>) {
    registered <= live && trash <= live && registered !! trash && forall p :: p in leaked ==> p in live
  }

  /** Devices select live policies. */
  ghost predicate Selected(live: set<Policy>, devices: seq<Managed>) {
    forall i :: 0 <= i < |devices| && devices[i].selected != null ==> devices[i].selected in live
  }

  ghost predicate Keyed(live: set<Policy>) {
    forall p, q :: p in live && q in live && p.fsmPolicy == q.fsmPolicy ==> p == q
  }

  lemma KeyedWith(live: set<Policy>, p: Policy)
    requires Keyed(live) && forall q :: q in live ==> q.fsmPolicy != p.fsmPolicy
    ensures Keyed(live + {p})
  {
  }

  /** Every FSM policy in use has a registered policy. */
  ghost predicate Managing(fsm: set<nat>, registered: set<Policy>) {
    forall n :: n in fsm ==> exists p :: p in registered && p.fsmPolicy == n
  }

  class Registry {
    const list: PolicyList
    /** FSM policies in use, managed policies with a D-Bus object, and with one in the trash can. */
    var fsm: set<nat>
    var registered: set<Policy>
    var trash: set<Policy>
    var devices: seq<Managed>
    /** References that devices had when they were freed, which nothing gives back. */
    ghost var leaked: multiset<Policy>

    ghost function Refs(p: Policy): nat
      reads this
    {
      One(p in registered) + One(p in trash) + Selecting(devices, p) + leaked[p]
    }

    /** Every reference is accounted for; `extra` has one more, in somebody's hands. */
    ghost predicate Counted(extra: Policy?)
      reads this, list, list.live
    {
      forall p :: p in list.live ==> p.refcount > 0 && p.refcount == Refs(p) + One(p == extra)
    }

    /** No device is ahead of the policy it selected. */
    ghost predicate Sequenced()
      reads this, list, list.live
    {
      forall i :: 0 <= i < |devices| && devices[i].selected != null && devices[i].selected in list.live ==>
        devices[i].selectedSeq <= devices[i].selected.seqno
    }

    ghost predicate Owned(extra: Policy?)
      reads this, list, list.live
    {
      && Sequenced() && list.Linked() && (extra != null ==> extra in list.live) && Counted(extra)
      && Registered(list.live, registered, trash, leaked) && Selected(list.live, devices)
      && Keyed(list.live) && Managing(fsm, registered)
    }

    ghost predicate Valid()
      reads this, list, list.live
    {
      Owned(null)
    }

    constructor ()
      ensures Valid() && fresh(list) && list.live == {} && devices == [] && leaked == multiset{} && fsm == {}
    {
      list := new PolicyList();
      fsm, registered, trash, devices, leaked := {}, {}, {}, [], multiset{};
    }

    lemma NobodyHolds(p: Policy)
      requires Refs(p) == 0
      ensures p !in registered && p !in trash && p !in leaked
      ensures forall i :: 0 <= i < |devices| ==> devices[i].selected != p
    {
      forall i | 0 <= i < |devices| ensures devices[i].selected != p {
        if devices[i].selected == p { SelectedCounts(devices, p, i); }
      }
    }

    /** Drops one reference; the last one unlinks the policy, which is then freed. */
    method Free(p: Policy)
      requires Owned(p)
      modifies list, list.live`next, list.live`pprev, p`refcount
      ensures Valid()
      ensures p.refcount == old(p.refcount) - 1
      ensures list.live == if p.refcount == 0 then old(list.live) - {p} else old(list.live)
    {
      assert p.refcount == Refs(p) + 1;
      p.refcount := p.refcount - 1;
      if p.refcount == 0 {
        NobodyHolds(p);
        list.Unlink(p);
      }
    }

    method Ref(p: Policy)
      requires Valid() && p in list.live
      modifies p`refcount
      ensures Owned(p) && p.refcount == old(p.refcount) + 1
    {
      p.refcount := p.refcount + 1;
    }

    lemma NobodyRefers(p: Policy)
      requires Valid() && p !in list.live
      ensures Refs(p) == 0
    {
      NotSelected(devices, p, list.live);
    }

    method NewPolicy(fsmPolicy: nat) returns (p: Policy)
      requires Valid() && forall q :: q in list.live ==> q.fsmPolicy != fsmPolicy
      modifies list, list.live`pprev
      ensures Owned(p) && fresh(p) && p.fsmPolicy == fsmPolicy && p.refcount == 1
      ensures list.live == old(list.live) + {p}
    {
      p := new Policy(fsmPolicy);
      NobodyRefers(p);
      KeyedWith(list.live, p);
      list.Insert(p);
    }

    /** Inserts a managed policy for a new FSM policy; without a D-Bus object it goes away again. */
    method CreatePolicy(fsmPolicy: nat, registers: bool) returns (ok: bool)
      requires Valid() && forall p :: p in list.live ==> p.fsmPolicy != fsmPolicy
      modifies this`fsm, this`registered, list, list.live`refcount, list.live`next, list.live`pprev
      ensures Valid() && ok == registers
      ensures !ok ==> fsm == old(fsm) && registered == old(registered) && list.live == old(list.live)
      ensures ok ==> fsm == old(fsm) + {fsmPolicy}
      ensures ok ==> exists p: Policy ::
                       && fresh(p) && p.fsmPolicy == fsmPolicy
                       && registered == old(registered) + {p} && list.live == old(list.live) + {p}
    {
      var p := NewPolicy(fsmPolicy);
      if !registers {
        Free(p);
        return false;
      }
      Register(p);
      return true;
    }

    method Register(p: Policy)
      requires Owned(p) && p !in registered && p !in trash
      modifies this`fsm, this`registered
      ensures Valid() && registered == old(registered) + {p} && fsm == old(fsm) + {p.fsmPolicy}
    {
      registered := registered + {p};
      fsm := fsm + {p.fsmPolicy};
    }

    /** Gives up what the device selected, and only then takes a reference to the new policy. */
    method SetPolicy(i: nat, p: Policy?)
      requires Valid() && i < |devices|
      requires p != null ==> p in registered || p in trash
      modifies this`devices, list, list.live`refcount, list.live`next, list.live`pprev
      ensures Valid()
      ensures devices == old(devices)[i := Selects(old(devices)[i], p, if p == null then 0 else p.seqno)]
      ensures forall q :: q in old(list.live) && q !in list.live ==> q == old(devices)[i].selected
      ensures list.live <= old(list.live)
    {
      Clear(i);
      if p != null { Select(i, p); }
    }

    /** Gives up what the device selected. */
    method Clear(i: nat)
      requires Valid() && i < |devices|
      modifies this`devices, list, list.live`refcount, list.live`next, list.live`pprev
      ensures Valid()
      ensures devices == old(devices)[i := Selects(old(devices)[i], null, 0)]
      ensures forall q :: q in old(list.live) && q !in list.live ==> q == old(devices)[i].selected
      ensures list.live <= old(list.live)
    {
      var was := devices[i].selected;
      Deselect(i);
      if was != null { Free(was); }
    }

    method Select(i: nat, p: Policy)
      requires Valid() && i < |devices| && devices[i].selected == null && p in list.live
      modifies this`devices, p`refcount
      ensures Valid()
      ensures devices == old(devices)[i := Selects(old(devices)[i], p, p.seqno)]
    {
      Ref(p);
      Reselect(i, p);
    }

    /** Moves the device's reference into the caller's hands. */
    method Deselect(i: nat)
      requires Valid() && i < |devices|
      modifies this`devices
      ensures Owned(old(devices)[i].selected)
      ensures devices == old(devices)[i := Selects(old(devices)[i], null, 0)]
    {
      var m := Selects(devices[i], null, 0);
      forall q: Policy { SelectingUpdate(devices, i, m, q); }
      devices := devices[i := m];
    }

    /** Moves the caller's reference into a device that has none. */
    method Reselect(i: nat, p: Policy)
      requires Owned(p) && i < |devices| && devices[i].selected == null
      modifies this`devices
      ensures Valid()
      ensures devices == old(devices)[i := Selects(old(devices)[i], p, p.seqno)]
    {
      var m := Selects(devices[i], p, p.seqno);
      forall q: Policy { SelectingUpdate(devices, i, m, q); }
      devices := devices[i := m];
    }

    method FindDevice(ifindex: nat) returns (i: nat)
      ensures i == IndexOf(devices, ifindex)
    {
      i := 0;
      while i < |devices| && devices[i].ifindex != ifindex
        invariant i <= |devices| && forall j :: 0 <= j < i ==> devices[j].ifindex != ifindex
      {
        i := i + 1;
      }
    }

    /** The managed policy of an FSM policy in use is there, and is the registered one. */
    method GetPolicy(fsmPolicy: nat) returns (p: Policy)
      requires Valid() && fsmPolicy in fsm
      ensures p in registered && p in list.live && p.fsmPolicy == fsmPolicy
      ensures forall q :: q in registered && q.fsmPolicy == fsmPolicy ==> q == p
    {
      var q := list.Find(fsmPolicy);
      ghost var r :| r in registered && r.fsmPolicy == fsmPolicy;
      assert q == r;
      p := q;
    }

    /** The device keeps what it has: it is being bound, or was started with just this version of the policy. */
    predicate Keeps(m: Managed, p: Policy)
      reads p
    {
      || m.state.Binding?
      || (!m.state.Stopped? && !m.state.Stopping? && !m.state.Limbo? && m.selected == p && m.selectedSeq == p.seqno)
    }

    /** `m1` is `m` with the policy installed and the device started. */
    predicate Restarted(m: Managed, m1: Managed, p: Policy, start: Start)
      reads p
    {
      && m1.ifindex == m.ifindex && m1.failCount == m.failCount
      && m1.selected == p && m1.selectedSeq == p.seqno
      && m1.maxFailCount == (if start.limit.Some? then start.limit.value else m.maxFailCount)
      && m1.state == (if start.limit.None? || !start.binds then Failed
                      else if start.secretsMissing then m.state else Starting)
    }

    /** The device at `i` was checked against the registered policy `p`. */
    twostate predicate CheckedAt(i: nat, new p: Policy, start: Start)
      reads this, p
    {
      && i < |old(devices)| == |devices|
      && (forall j :: 0 <= j < |devices| && j != i ==> devices[j] == old(devices)[j])
      && (if Keeps(old(devices)[i], p) then devices[i] == old(devices)[i]
          else Restarted(old(devices)[i], devices[i], p, start))
    }

    /** Installs the policy where the device needs it, and starts bringing the device up. */
    method ApplyPolicy(i: nat, p: Policy, hasWorker: bool, transforms: bool, start: Start) returns (installed: bool)
      requires Valid() && i < |devices| && p in registered
      modifies this`devices, list, list.live`refcount, list.live`next, list.live`pprev
      ensures Valid() && list.live <= old(list.live)
      ensures installed == (hasWorker && transforms && Reconfigures(old(devices)[i], p))
      ensures !installed ==> devices == old(devices) && list.live == old(list.live)
      ensures installed ==> devices == old(devices)[i := Started(Selects(old(devices)[i], p, p.seqno), start)]
      ensures hasWorker && transforms ==> CheckedAt(i, p, start)
    {
      installed := hasWorker && Reconfigures(devices[i], p) && transforms;
      if installed {
        SetPolicy(i, p);
        SetDevice(i, Started(devices[i], start));
      }
    }

    method DeviceUpDone(i: nat, failed: bool, dead: bool)
      requires Valid() && i < |devices|
      modifies this`devices
      ensures Valid() && devices == old(devices)[i := CameUp(old(devices)[i], failed, dead)]
    {
      SetDevice(i, CameUp(devices[i], failed, dead));
    }

    method DeviceDownDone(i: nat, failed: bool, dead: bool)
      requires Valid() && i < |devices|
      modifies this`devices, list, list.live`refcount, list.live`next, list.live`pprev
      ensures Valid() && list.live <= old(list.live)
      ensures devices == old(devices)[i := Selects(WentDown(old(devices)[i], failed, dead), null, 0)]
    {
      SetDevice(i, WentDown(devices[i], failed, dead));
      SetPolicy(i, null);
    }

    /** Changes anything of a device but the policy it selected. */
    method SetDevice(i: nat, m: Managed)
      requires Valid() && i < |devices|
      requires m.selected == devices[i].selected && m.selectedSeq == devices[i].selectedSeq
      modifies this`devices
      ensures Valid() && devices == old(devices)[i := m]
    {
      forall q: Policy { SelectingUpdate(devices, i, m, q); }
      devices := devices[i := m];
    }

    /**
     The FSM policy goes first, then what the worker's device selected, then the D-Bus object,
     which keeps its reference in the trash can. Deleting stops at the step that fails.
     */
    method DeletePolicy(fsmPolicy: nat, removes: bool, worker: Option<nat>, unregisters: bool) returns (ok: bool)
      requires Valid()
      modifies this`fsm, this`registered, this`trash, this`devices
      modifies list, list.live`refcount, list.live`next, list.live`pprev
      ensures Valid() && list.live <= old(list.live)
      ensures ok == (fsmPolicy in old(fsm) && removes && unregisters)
      ensures fsm == if removes then old(fsm) - {fsmPolicy} else old(fsm)
      ensures ok ==> exists p :: && p in old(registered) && p.fsmPolicy == fsmPolicy && p in list.live
                                 && registered == old(registered) - {p} && trash == old(trash) + {p}
      ensures !ok ==> registered == old(registered) && trash == old(trash)
      ensures !(fsmPolicy in old(fsm) && removes) || worker == None ==> devices == old(devices)
      ensures fsmPolicy in old(fsm) && removes && worker.Some? ==>
                devices == Cleared(old(devices), IndexOf(old(devices), worker.value))
      ensures fsmPolicy in old(fsm) && removes && worker.Some? && IndexOf(old(devices), worker.value) < |devices| ==>
                devices[IndexOf(old(devices), worker.value)].selected == null
    {
      if fsmPolicy !in fsm { return false; }
      var p := GetPolicy(fsmPolicy);
      if !removes { return false; }
      RemoveFsmPolicy(fsmPolicy);
      ClearWorker(worker);
      if !unregisters { return false; }
      Unregister(p);
      return true;
    }

    method RemoveFsmPolicy(fsmPolicy: nat)
      requires Valid()
      modifies this`fsm
      ensures Valid() && fsm == old(fsm) - {fsmPolicy}
    {
      fsm := fsm - {fsmPolicy};
    }

    /** The device of the worker that the policy named, if there is one, gives up its policy. */
    method ClearWorker(worker: Option<nat>)
      requires Valid()
      modifies this`devices, list, list.live`refcount, list.live`next, list.live`pprev
      ensures Valid() && list.live <= old(list.live)
      ensures worker == None ==> devices == old(devices)
      ensures worker.Some? ==> devices == Cleared(old(devices), IndexOf(old(devices), worker.value))
    {
      if worker.Some? {
        var i := FindDevice(worker.value);
        if i < |devices| { SetPolicy(i, null); }
      }
    }

    method Unregister(p: Policy)
      requires Valid() && p in registered && p.fsmPolicy !in fsm
      modifies this`registered, this`trash
      ensures Valid() && registered == old(registered) - {p} && trash == old(trash) + {p}
    {
      registered := registered - {p};
      trash := trash + {p};
    }

    method RegisterDevice(ifindex: nat)
      requires Valid()
      modifies this`devices
      ensures Valid()
      ensures devices == Joined(old(devices), ifindex, IndexOf(old(devices), ifindex))
      ensures devices != old(devices) ==>
                && |devices| > 0 && devices[0].ifindex == ifindex
                && devices[0].state.Stopped? && devices[0].selected == null
    {
      var i := FindDevice(ifindex);
      if i < |devices| { return; }
      AddDevice(NewManaged(ifindex));
    }

    method AddDevice(m: Managed)
      requires Valid() && m.selected == null
      modifies this`devices
      ensures Valid() && devices == [m] + old(devices)
    {
      forall q: Policy { SelectingPrepend(m, devices, q); }
      devices := [m] + devices;
    }

    /** The device goes away without giving back the policy it selected. */
    method UnregisterDevice(ifindex: nat)
      requires Valid()
      modifies this`devices, this`leaked
      ensures Valid() && old(leaked) <= leaked
      ensures devices == Dropped(old(devices), IndexOf(old(devices), ifindex))
      ensures leaked == old(leaked) + Lost(old(devices), IndexOf(old(devices), ifindex))
    {
      var i := FindDevice(ifindex);
      if i < |devices| { DropDevice(i); }
    }

    method DropDevice(i: nat)
      requires Valid() && i < |devices|
      modifies this`devices, this`leaked
      ensures Valid() && devices == Dropped(old(devices), i) && leaked == old(leaked) + Lost(old(devices), i)
    {
      ghost var was := devices[i].selected;
      Deselect(i);
      if was != null { Leak(was); }
      Remove(i);
    }

    ghost method Leak(p: Policy)
      requires Owned(p)
      modifies this`leaked
      ensures Valid() && leaked == old(leaked) + multiset{p}
    {
      leaked := leaked + multiset{p};
    }

    method Remove(i: nat)
      requires Valid() && i < |devices| && devices[i].selected == null
      modifies this`devices
      ensures Valid() && devices == Dropped(old(devices), i)
    {
      forall q: Policy { SelectingRemove(devices, i, q); }
      devices := devices[..i] + devices[i + 1..];
    }

    /** Frees the D-Bus objects in the trash can, each with its reference. */
    method GarbageCollect()
      requires Valid()
      modifies this`trash, list, list.live`refcount, list.live`next, list.live`pprev
      ensures Valid() && trash == {} && list.live <= old(list.live)
      ensures forall p :: p in old(list.live) && p !in old(trash) ==> p in list.live
    {
      while trash != {}
        invariant Valid() && trash <= old(trash) && list.live <= old(list.live)
        invariant forall p :: p in old(list.live) && p !in old(trash) ==> p in list.live
        decreases trash
      {
        var p :| p in trash;
        Discard(p);
      }
    }

    method Discard(p: Policy)
      requires Valid() && p in trash
      modifies this`trash, list, list.live`next, list.live`pprev, p`refcount
      ensures Valid() && trash == old(trash) - {p}
      ensures list.live == if p.refcount == 0 then old(list.live) - {p} else old(list.live)
    {
      trash := trash - {p};
      Free(p);
    }

    /** Only an update that the FSM accepts gets a new sequence number. */
    method UpdatePolicy(p: Policy, accepted: bool)
      requires Valid() && p in registered
      modifies p`seqno
      ensures Valid() && p.seqno == old(p.seqno) + One(accepted)
    {
      if accepted { p.seqno := p.seqno + 1; }
    }

    /** A policy that is deleted is gone after the next collection exactly when no device, present or lost, holds it. */
    method DeleteAndCollect(fsmPolicy: nat, worker: Option<nat>) returns (p: Policy)
      requires Valid() && fsmPolicy in fsm
      modifies this`fsm, this`registered, this`trash, this`devices
      modifies list, list.live`refcount, list.live`next, list.live`pprev
      ensures Valid() && p in old(registered) && p.fsmPolicy == fsmPolicy
      ensures p !in list.live <==> p !in leaked && forall i :: 0 <= i < |devices| ==> devices[i].selected != p
    {
      p := GetPolicy(fsmPolicy);
      var deleted := DeletePolicy(fsmPolicy, true, worker, true);
      GarbageCollect();
      LiveIffHeld(p);
    }

    /** A live policy is held by somebody, and whatever is held is live. */
    lemma LiveIffHeld(p: Policy)
      requires Valid()
      ensures p in list.live <==>
                || p in registered || p in trash || p in leaked
                || exists i :: 0 <= i < |devices| && devices[i].selected == p
      ensures p in list.live ==> p.refcount >= One(p in registered) + Selecting(devices, p)
      ensures p in list.live ==>
                (p.refcount == One(p in registered) + Selecting(devices, p) <==> p !in trash && p !in leaked)
    {
      if p in list.live && p !in registered && p !in trash && p !in leaked {
        SomebodySelects(devices, p);
      }
    }

    // ----- runs -----

    /** What a recheck does to the first device with the index, in whatever state it is. */
    twostate predicate Rechecked(ifindex: nat, n: nat, ready: bool, start: Start)
      reads this, registered
    {
      var i := IndexOf(old(devices), ifindex);
      if i < |old(devices)| && n in fsm && ready
      then forall p :: p in registered && p.fsmPolicy == n ==> CheckedAt(i, p, start)
      else devices == old(devices)
    }

    method HandleCreate(n: nat, registers: bool)
      requires Valid()
      modifies this`fsm, this`registered, list, list.live`refcount, list.live`next, list.live`pprev
      ensures Valid() && fresh(list.live - old(list.live))
      ensures registers && (forall q :: q in old(list.live) ==> q.fsmPolicy != n) ==> fsm == old(fsm) + {n}
    {
      var q := list.Find(n);
      if q == null { var added := CreatePolicy(n, registers); }
    }

    method HandleUpdate(n: nat, accepted: bool)
      requires Valid()
      modifies list.live`seqno
      ensures Valid()
      ensures forall q :: q in registered ==> q.seqno == old(q.seqno) + One(accepted && q.fsmPolicy == n)
    {
      var p := list.Find(n);
      if p != null && p in registered { UpdatePolicy(p, accepted); }
    }

    method HandleRecheck(ifindex: nat, n: nat, hasWorker: bool, transforms: bool, start: Start)
      requires Valid()
      modifies this`devices, list, list.live`refcount, list.live`next, list.live`pprev
      ensures Valid() && list.live <= old(list.live)
      ensures Rechecked(ifindex, n, hasWorker && transforms, start)
    {
      var i := FindDevice(ifindex);
      if i < |devices| && n in fsm {
        var p := GetPolicy(n);
        var installed := ApplyPolicy(i, p, hasWorker, transforms, start);
      }
    }

    method HandleDevice(e: Event)
      requires Valid() && (e.Enter? || e.UpDone? || e.DownDone?)
      modifies this`devices, list, list.live`refcount, list.live`next, list.live`pprev
      ensures Valid() && list.live <= old(list.live)
      ensures e.UpDone? ==>
                var i := IndexOf(old(devices), e.ifindex);
                devices == if i < |old(devices)| then old(devices)[i := CameUp(old(devices)[i], e.failed, e.dead)]
                           else old(devices)
    {
      var i := FindDevice(e.ifindex);
      if i == |devices| { return; }
      match e {
        case Enter(_, state) => SetDevice(i, devices[i].(state := state));
        case UpDone(_, failed, dead) => DeviceUpDone(i, failed, dead);
        case DownDone(_, failed, dead) => DeviceDownDone(i, failed, dead);
      }
    }

    /** What comes of the events that make a policy, a device and a selection, and of the one that loses it. */
    twostate predicate Outcome(e: Event)
      reads this, registered
    {
      match e
      case Create(n, registers) =>
        && devices == old(devices) && leaked == old(leaked)
        && (registers && (forall q :: q in old(list.live) ==> q.fsmPolicy != n) ==> fsm == old(fsm) + {n})
      case Update(n, accepted) =>
        && fsm == old(fsm) && registered == old(registered) && devices == old(devices)
        && forall q :: q in registered ==> q.seqno == old(q.seqno) + One(accepted && q.fsmPolicy == n)
      case UpDone(ifindex, failed, dead) =>
        var i := IndexOf(old(devices), ifindex);
        devices == if i < |old(devices)| then old(devices)[i := CameUp(old(devices)[i], failed, dead)] else old(devices)
      case Appear(ifindex) =>
        && fsm == old(fsm) && leaked == old(leaked)
        && devices == Joined(old(devices), ifindex, IndexOf(old(devices), ifindex))
      case Recheck(ifindex, n, hasWorker, transforms, start) =>
        && fsm == old(fsm) && leaked == old(leaked)
        && registered == old(registered) && Rechecked(ifindex, n, hasWorker && transforms, start)
        && forall q :: q in registered ==> q.seqno == old(q.seqno)
      case Vanish(ifindex) =>
        var i := IndexOf(old(devices), ifindex);
        devices == Dropped(old(devices), i) && leaked == old(leaked) + Lost(old(devices), i)
      case _ => true
    }

    method Handle(e: Event)
      requires Valid()
      modifies this, list, list.live
      ensures Valid() && old(leaked) <= leaked && fresh(list.live - old(list.live))
      ensures Outcome(e)
    {
      match e {
        case Create(n, registers) => HandleCreate(n, registers);
        case Update(n, accepted) => HandleUpdate(n, accepted);
        case Delete(n, removes, worker, unregisters) =>
          var deleted := DeletePolicy(n, removes, worker, unregisters);
        case Recheck(ifindex, n, hasWorker, transforms, start) =>
          HandleRecheck(ifindex, n, hasWorker, transforms, start);
        case Enter(_, _) => HandleDevice(e);
        case UpDone(_, _, _) => HandleDevice(e);
        case DownDone(_, _, _) => HandleDevice(e);
        case Appear(ifindex) => RegisterDevice(ifindex);
        case Vanish(ifindex) => UnregisterDevice(ifindex);
        case Collect => GarbageCollect();
      }
    }

    /** References stay accounted for through every run; a leaked one never comes back, and its policy stays. */
    method Serve(events: seq<Event>)
      requires Valid()
      modifies this, list, list.live
      ensures Valid() && old(leaked) <= leaked && fresh(list.live - old(list.live))
      ensures forall p :: p in old(leaked) ==> p in list.live
    {
      for k := 0 to |events|
        invariant Valid() && old(leaked) <= leaked && fresh(list.live - old(list.live))
      {
        Handle(events[k]);
      }
    }
  }

  method MakesPolicyAndDevice() returns (nanny: Registry)
    ensures fresh(nanny) && fresh(nanny.list) && fresh(nanny.list.live)
    ensures nanny.Valid() && nanny.fsm == {0} && nanny.devices == [NewManaged(1)] && nanny.leaked == multiset{}
  {
    nanny := new Registry();
    nanny.Handle(Create(0, true));
    nanny.Handle(Appear(1));
  }

  method SelectsPolicy(nanny: Registry)
    requires nanny.Valid() && nanny.fsm == {0} && nanny.devices == [NewManaged(1)]
    modifies nanny, nanny.list, nanny.list.live
    ensures nanny.Valid() && nanny.leaked == old(nanny.leaked) && |nanny.devices| == 1
    ensures nanny.devices[0].ifindex == 1 && nanny.devices[0].selected != null
    ensures fresh(nanny.list.live - old(nanny.list.live))
  {
    ghost var p :| p in nanny.registered && p.fsmPolicy == 0;
    nanny.Handle(Recheck(1, 0, true, true, Start(Some(3), true, false)));
    assert nanny.CheckedAt(0, p, Start(Some(3), true, false));
  }

  /** A device that was started with the policy, whatever became of it since. */
  ghost predicate StartedWith(nanny: Registry, n: nat, ifindex: nat, i: nat, p: Policy)
    reads nanny
  {
    && n in nanny.fsm && p in nanny.registered && p.fsmPolicy == n
    && i < |nanny.devices| && i == IndexOf(nanny.devices, ifindex)
    && nanny.devices[i].selected == p && nanny.devices[i].state in {Starting, Running, Failed}
  }

  /** Checking such a device changes nothing if it has the policy's last version, and starts it anew otherwise. */
  method ChecksVersion(nanny: Registry, n: nat, ifindex: nat, i: nat, p: Policy)
    requires nanny.Valid() && StartedWith(nanny, n, ifindex, i, p)
    modifies nanny, nanny.list, nanny.list.live
    ensures nanny.Valid() && StartedWith(nanny, n, ifindex, i, p) && fresh(nanny.list.live - old(nanny.list.live))
    ensures p.seqno == old(p.seqno) && nanny.devices[i].selectedSeq == p.seqno
    ensures if old(nanny.devices)[i].selectedSeq == p.seqno then nanny.devices == old(nanny.devices)
            else nanny.devices[i].state.Starting?
  {
    var start := Start(Some(3), true, false);
    nanny.Handle(Recheck(ifindex, n, true, true, start));
    assert nanny.CheckedAt(i, p, start);
    assert old(nanny.devices)[i].selectedSeq == p.seqno ==> nanny.devices == old(nanny.devices);
  }

  method Updates(nanny: Registry, n: nat, ifindex: nat, i: nat, p: Policy)
    requires nanny.Valid() && StartedWith(nanny, n, ifindex, i, p)
    modifies nanny, nanny.list, nanny.list.live
    ensures nanny.Valid() && StartedWith(nanny, n, ifindex, i, p) && fresh(nanny.list.live - old(nanny.list.live))
    ensures p.seqno == old(p.seqno) + 1 && nanny.devices[i].selectedSeq < p.seqno
  {
    assert nanny.devices[i].selectedSeq <= p.seqno;
    nanny.Handle(Update(n, true));
  }

  /**
   An accepted update reaches a device that was started with the policy: the next check starts it
   with the new version.
   */
  method UpdateReaches(nanny: Registry, n: nat, ifindex: nat, i: nat, p: Policy)
    requires nanny.Valid() && StartedWith(nanny, n, ifindex, i, p)
    modifies nanny, nanny.list, nanny.list.live
    ensures nanny.Valid() && p.seqno == old(p.seqno) + 1 && i < |nanny.devices|
    ensures nanny.devices[i].selected == p && nanny.devices[i].selectedSeq == p.seqno
    ensures nanny.devices[i].state.Starting?
  {
    Updates(nanny, n, ifindex, i, p);
    ChecksVersion(nanny, n, ifindex, i, p);
  }

  /** A policy is made, a device appears, selects it and vanishes: its reference is lost for good. */
  method LosesReference() returns (nanny: Registry, p: Policy)
    ensures nanny.Valid() && nanny.devices == [] && nanny.leaked == multiset{p} && p in nanny.list.live
  {
    nanny := MakesPolicyAndDevice();
    SelectsPolicy(nanny);
    p := nanny.devices[0].selected;
    nanny.Handle(Vanish(1));
  }

  lemma {:induction false} NotSelected(devices: seq<Managed>, p: Policy, live: set<Policy>)
    requires p !in live
    requires forall i :: 0 <= i < |devices| && devices[i].selected != null ==> devices[i].selected in live
    ensures Selecting(devices, p) == 0
    decreases |devices|
  {
    if |devices| > 0 { NotSelected(devices[..|devices| - 1], p, live); }
  }
}
