/**
 The marking of client/ifreload.c: which interface workers a reload shuts down and sets up.
 Workers are known by their index in the worker array.
 */
module Ifreload {
  import opened Common

  datatype IfType = Unknown | Team | OtherType(number: nat)

  /** Where a worker is to go; `OtherTarget` is anything the marking does not ask for. */
  datatype Target = DeviceReady | DeviceDown | OtherTarget

  /** A device and what the client state attached to it says. */
  datatype Device = Device(persistent: bool, configured: bool, linkType: IfType, masterName: string)

  /** `sameConfig`: the configuration the device was set up with is the worker's current one. */
  datatype Worker = Worker(name: string, netdev: bool, config: bool, sameConfig: bool, iftype: IfType,
                           device: Option<Device>, master: Option<nat>, lower: Option<nat>)

  type Workers = seq<Worker>

  predicate WellFormed(ws: Workers) {
    forall i :: 0 <= i < |ws| ==>
      && (ws[i].master.Some? ==> ws[i].master.value < |ws|)
      && (ws[i].lower.Some? ==> ws[i].lower.value < |ws|)
  }

  // ----- the checks of client/ifcheck.c -----

  predicate Exists(w: Worker) {
    w.device.Some?
  }

  predicate Persistent(w: Worker) {
    w.device.Some? && w.device.value.persistent
  }

  predicate Configured(w: Worker) {
    w.device.Some? && w.device.value.configured
  }

  predicate ConfigMatches(w: Worker) {
    w.config && w.device.Some? && w.sameConfig
  }

  // ----- what is to be marked -----

  /** A worker the reload starts from. */
  predicate Changed(w: Worker, ifname: Option<string>) {
    w.netdev && (ifname.Some? ==> w.name == ifname.value) && !ConfigMatches(w)
  }

  predicate SetUpWith(ws: Workers, x: nat, w: nat)
    requires WellFormed(ws) && x < |ws|
  {
    ws[x].config && (ws[x].master == Some(w) || ws[x].lower == Some(w))
  }

  /** `x` is the master of `c`, and `c` is stacked on `w`. */
  predicate MasterOfStacked(ws: Workers, x: nat, c: nat, w: nat)
    requires WellFormed(ws) && x < |ws| && c < |ws|
  {
    ws[x].config && ws[c].config && ws[c].lower == Some(w) && ws[c].master == Some(x)
  }

  /** `x` is set up because the configuration of `w` changed. */
  ghost predicate UpFor(ws: Workers, x: nat, w: nat)
    requires WellFormed(ws) && x < |ws| && w < |ws|
  {
    && ws[w].config
    && (x == w || SetUpWith(ws, x, w) || exists c: nat :: c < |ws| && MasterOfStacked(ws, x, c, w))
  }

  /** The target a shutdown of `w` itself asks for; none when `w` is to be left alone. */
  function Planned(w: Worker): Option<Target> {
    if Persistent(w) then None
    else if w.config then
      if w.iftype.Team? then Some(DeviceDown)
      else if !w.iftype.Unknown? && w.device.Some? && w.device.value.linkType != w.iftype then Some(DeviceDown)
      else Some(DeviceReady)
    else if Configured(w) || !Exists(w) then Some(DeviceDown)
    else None
  }

  /** A target that a worker among `down` may have: its plan, or DOWN along with its lower device. */
  predicate Aimed(ws: Workers, down: seq<nat>, x: nat, t: Target)
    requires x < |ws|
  {
    Planned(ws[x]) == Some(t) || (t == DeviceDown && ws[x].lower.Some? && ws[x].lower.value in down)
  }

  /** `c` is enslaved by `w` and its configuration changed. */
  predicate ChangedSlave(ws: Workers, c: nat, w: nat)
    requires c < |ws| && w < |ws|
  {
    Exists(ws[c]) && ws[c].device.value.masterName == ws[w].name && !ConfigMatches(ws[c])
  }

  /** `x` cannot exist without `w` and may be shut down. */
  predicate Dependent(ws: Workers, x: nat, w: nat)
    requires x < |ws|
  {
    ws[x].lower == Some(w) && !Persistent(ws[x])
  }

  /** `x` is shut down because `c` is, as a slave of a changed worker. */
  predicate DownForSlave(ws: Workers, x: nat, c: nat)
    requires x < |ws| && c < |ws|
  {
    Planned(ws[c]).Some? && (x == c || (Planned(ws[c]) == Some(DeviceDown) && Dependent(ws, x, c)))
  }

  /**
   After the first `n` workers were looked at as slaves, `w` is to go down: it was planned, or
   its own lower device is a slave of it that goes down (and no later look at `w` as a slave of
   itself has reset that).
   */
  predicate GoesDown(ws: Workers, w: nat, n: nat)
    requires WellFormed(ws) && w < |ws|
  {
    || Planned(ws[w]) == Some(DeviceDown)
    || (&& Exists(ws[w]) && ws[w].lower.Some? && ws[w].lower.value < n
        && ChangedSlave(ws, ws[w].lower.value, w) && Planned(ws[ws[w].lower.value]) == Some(DeviceDown)
        && (ChangedSlave(ws, w, w) && w < n ==> w <= ws[w].lower.value))
  }

  /** `x` is shut down because `w` is. */
  ghost predicate DownFor(ws: Workers, x: nat, w: nat)
    requires WellFormed(ws) && x < |ws| && w < |ws|
  {
    && Planned(ws[w]).Some?
    && (|| x == w
        || (Exists(ws[w]) && DownForSlaves(ws, x, w, |ws|))
        || (GoesDown(ws, w, |ws|) && Dependent(ws, x, w)))
  }

  /** `x` is shut down because one of the first `n` workers changed. */
  ghost predicate DownForAny(ws: Workers, x: nat, ifname: Option<string>, n: nat)
    requires WellFormed(ws) && x < |ws| && n <= |ws|
  {
    exists w: nat :: w < n && Changed(ws[w], ifname) && DownFor(ws, x, w)
  }

  /** `x` is set up because one of the first `n` workers changed. */
  ghost predicate UpForAny(ws: Workers, x: nat, ifname: Option<string>, n: nat)
    requires WellFormed(ws) && x < |ws| && n <= |ws|
  {
    exists w: nat :: w < n && Changed(ws[w], ifname) && UpFor(ws, x, w)
  }

  /** `x` is shut down because one of the first `n` workers is a changed slave of `w`. */
  ghost predicate DownForSlaves(ws: Workers, x: nat, w: nat, n: nat)
    requires x < |ws| && w < |ws| && n <= |ws|
  {
    exists c: nat :: c < n && ChangedSlave(ws, c, w) && DownForSlave(ws, x, c)
  }

  // ----- marking -----

  ghost predicate NoDuplicates(s: seq<nat>) {
    forall i, j :: 0 <= i < j < |s| ==> s[i] != s[j]
  }

  predicate InRange(ws: Workers, s: seq<nat>) {
    forall i :: 0 <= i < |s| ==> s[i] < |ws|
  }

  /** Marked workers are workers, each marked once. */
  ghost predicate Marks(ws: Workers, s: seq<nat>) {
    NoDuplicates(s) && InRange(ws, s)
  }

  method MarkAdd(ws: Workers, marked: seq<nat>, w: nat) returns (r: seq<nat>, added: bool)
    requires Marks(ws, marked) && w < |ws|
    ensures Marks(ws, r) && added == (w !in marked)
    ensures forall x :: x in r <==> x in marked || x == w
  {
    if w in marked { return marked, false; }
    return marked + [w], true;
  }

  class Reload {
    const workers: Workers
    var up: seq<nat>
    var down: seq<nat>
    var target: seq<Target>

    ghost predicate Valid()
      reads this
    {
      WellFormed(workers) && |target| == |workers| && Marks(workers, up) && Marks(workers, down)
    }

    /** Every worker that is shut down has a target that it or its lower device calls for. */
    ghost predicate Targeted()
      requires Valid()
      reads this
    {
      forall x :: x in down ==> Aimed(workers, down, x, target[x])
    }

    constructor (workers: Workers, target: seq<Target>)
      requires WellFormed(workers) && |target| == |workers|
      ensures Valid() && Targeted() && this.workers == workers && this.target == target && up == [] && down == []
    {
      this.workers, this.target, up, down := workers, target, [], [];
    }

    /** Only workers that are shut down have a new target. */
    twostate predicate OthersKeepTargets()
      reads this
    {
      |target| == |old(target)| && forall x: nat :: x < |target| && x !in down ==> target[x] == old(target)[x]
    }

    // ----- set up -----

    method MarkUpSlaveDeps(master: nat)
      requires Valid() && master < |workers|
      modifies this`up
      ensures Valid()
      ensures forall x: nat :: x < |workers| ==>
                (x in up <==> x in old(up) || (workers[x].config && workers[x].master == Some(master)))
    {
      for i := 0 to |workers|
        invariant Valid()
        invariant forall x: nat :: x < |workers| ==>
                    (x in up <==> x in old(up) || (x < i && workers[x].config && workers[x].master == Some(master)))
      {
        if workers[i].master != Some(master) { continue; }
        if !workers[i].config { continue; }
        var added;
        up, added := MarkAdd(workers, up, i);
      }
    }

    method MarkUpMaster(w: nat)
      requires Valid() && w < |workers|
      modifies this`up
      ensures Valid()
      ensures forall x :: x in up <==> x in old(up) || (x == w && workers[w].config)
    {
      if !workers[w].config { return; }
      var added;
      up, added := MarkAdd(workers, up, w);
    }

    method MarkUpLowerDeps(lower: nat)
      requires Valid() && lower < |workers|
      modifies this`up
      ensures Valid()
      ensures forall x: nat :: x < |workers| ==>
                (x in up <==> || x in old(up) || (workers[x].config && workers[x].lower == Some(lower))
                              || exists c: nat :: c < |workers| && MasterOfStacked(workers, x, c, lower))
    {
      for i := 0 to |workers|
        invariant Valid()
        invariant forall x: nat :: x < |workers| ==>
                    (x in up <==> || x in old(up) || (x < i && workers[x].config && workers[x].lower == Some(lower))
                                  || exists c: nat :: c < i && MasterOfStacked(workers, x, c, lower))
      {
        if workers[i].lower != Some(lower) { continue; }
        if !workers[i].config { continue; }
        if workers[i].master.Some? { MarkUpMaster(workers[i].master.value); }
        assert forall x: nat :: x < |workers| ==>
            (MasterOfStacked(workers, x, i, lower) <==> workers[i].master == Some(x) && workers[x].config);
        var added;
        up, added := MarkAdd(workers, up, i);
      }
    }

    method MarkUp(w: nat)
      requires Valid() && w < |workers|
      modifies this`up
      ensures Valid()
      ensures forall x: nat :: x < |workers| ==> (x in up <==> x in old(up) || UpFor(workers, x, w))
    {
      if !workers[w].config { return; }
      MarkUpSlaveDeps(w);
      MarkUpLowerDeps(w);
      var added;
      up, added := MarkAdd(workers, up, w);
    }

    // ----- shut down -----

    method MarkDownLowerDeps(lower: nat)
      requires Valid() && lower < |workers|
      modifies this`down, this`target
      ensures Valid()
      ensures forall x: nat :: x < |workers| ==> (x in down <==> x in old(down) || Dependent(workers, x, lower))
      ensures forall x: nat :: x < |workers| ==>
                target[x] == if Dependent(workers, x, lower) then DeviceDown else old(target)[x]
    {
      for i := 0 to |workers|
        invariant Valid()
        invariant forall x: nat :: x < |workers| ==>
                    (x in down <==> x in old(down) || (x < i && Dependent(workers, x, lower)))
        invariant forall x: nat :: x < |workers| ==>
                    target[x] == if x < i && Dependent(workers, x, lower) then DeviceDown else old(target)[x]
      {
        if workers[i].lower != Some(lower) { continue; }
        if Persistent(workers[i]) { continue; }
        target := target[i := DeviceDown];
        var added;
        down, added := MarkAdd(workers, down, i);
      }
    }

    /** A slave of a changed worker: shut down without looking at slaves of its own. */
    method MarkDownSlave(c: nat)
      requires Valid() && Targeted() && c < |workers|
      modifies this`down, this`target
      ensures Valid() && Targeted()
      ensures forall x: nat :: x < |workers| ==> (x in down <==> x in old(down) || DownForSlave(workers, x, c))
      ensures forall x: nat :: x < |workers| ==>
                target[x] == if Planned(workers[c]) == Some(DeviceDown) && Dependent(workers, x, c) then DeviceDown
                             else if x == c && Planned(workers[c]).Some? then Planned(workers[c]).value
                             else old(target)[x]
    {
      var planned := Planned(workers[c]);
      if planned.None? { return; }
      target := target[c := planned.value];
      if target[c] == DeviceDown { MarkDownLowerDeps(c); }
      var added;
      down, added := MarkAdd(workers, down, c);
    }

    /** The slaves of `w` whose configuration changed; `w`'s own target may change on the way. */
    method MarkDownSlaves(w: nat)
      requires Valid() && Targeted() && w < |workers| && Exists(workers[w])
      requires Planned(workers[w]).Some? && target[w] == Planned(workers[w]).value
      modifies this`down, this`target
      ensures Valid() && Targeted()
      ensures forall x: nat :: x < |workers| ==>
                (x in down <==> x in old(down) || DownForSlaves(workers, x, w, |workers|))
      ensures target[w] == DeviceDown <==> GoesDown(workers, w, |workers|)
      ensures Aimed(workers, down, w, target[w])
      ensures forall x: nat :: x < |target| && x != w && x !in down ==> target[x] == old(target)[x]
    {
      for i := 0 to |workers|
        invariant Valid()
        invariant forall x: nat :: x < |workers| ==>
                    (x in down <==> x in old(down) || DownForSlaves(workers, x, w, i))
        invariant target[w] == DeviceDown <==> GoesDown(workers, w, i)
        invariant Targeted() && Aimed(workers, down, w, target[w])
        invariant forall x: nat :: x < |target| && x != w && x !in down ==> target[x] == old(target)[x]
      {
        if !Exists(workers[i]) { continue; }
        if workers[i].device.value.masterName != workers[w].name { continue; }
        if !ConfigMatches(workers[i]) {
          MarkDownSlave(i);
        }
      }
    }

    method MarkDown(w: nat)
      requires Valid() && Targeted() && w < |workers|
      modifies this`down, this`target
      ensures Valid() && Targeted()
      ensures forall x: nat :: x < |workers| ==> (x in down <==> x in old(down) || DownFor(workers, x, w))
      ensures OthersKeepTargets()
    {
      var planned := Planned(workers[w]);
      if planned.None? { return; }
      target := target[w := planned.value];
      if Exists(workers[w]) { MarkDownSlaves(w); }
      if target[w] == DeviceDown { MarkDownLowerDeps(w); }
      var added;
      down, added := MarkAdd(workers, down, w);
    }

    // ----- both -----

    method MarkWorkersDown(ifname: Option<string>)
      requires Valid() && Targeted()
      modifies this`down, this`target
      ensures Valid() && Targeted() && OthersKeepTargets()
      ensures forall x: nat :: x < |workers| ==>
                (x in down <==> x in old(down) || DownForAny(workers, x, ifname, |workers|))
    {
      for i := 0 to |workers|
        invariant Valid() && Targeted() && OthersKeepTargets()
        invariant forall x: nat :: x < |workers| ==>
                    (x in down <==> x in old(down) || DownForAny(workers, x, ifname, i))
      {
        if !workers[i].netdev { continue; }
        if ifname.Some? && workers[i].name != ifname.value { continue; }
        if !ConfigMatches(workers[i]) { MarkDown(i); }
      }
    }

    method MarkWorkersUp(ifname: Option<string>)
      requires Valid()
      modifies this`up
      ensures Valid()
      ensures forall x: nat :: x < |workers| ==>
                (x in up <==> x in old(up) || UpForAny(workers, x, ifname, |workers|))
    {
      for i := 0 to |workers|
        invariant Valid()
        invariant forall x: nat :: x < |workers| ==>
                    (x in up <==> x in old(up) || UpForAny(workers, x, ifname, i))
      {
        if !workers[i].netdev { continue; }
        if ifname.Some? && workers[i].name != ifname.value { continue; }
        if !ConfigMatches(workers[i]) { MarkUp(i); }
      }
    }

    /** Marks for one interface name, or for all workers: first what goes down, then what comes up. */
    method MarkWorkers(ifname: Option<string>)
      requires Valid() && Targeted()
      modifies this
      ensures Valid() && Targeted() && OthersKeepTargets()
      ensures forall x: nat :: x < |workers| ==>
                (x in down <==> x in old(down) || DownForAny(workers, x, ifname, |workers|))
      ensures forall x: nat :: x < |workers| ==>
                (x in up <==> x in old(up) || UpForAny(workers, x, ifname, |workers|))
    {
      MarkWorkersDown(ifname);
      MarkWorkersUp(ifname);
    }

    /** Drops the marks of workers without devices, stepping the 32-bit index back after each removal. */
    method RemoveMissing()
      requires Valid() && |down| < 0x1_0000_0000
      modifies this`down
      ensures Valid()
      ensures down == Existing(workers, old(down))
    {
      ghost var all := down;
      var i: nat := 0;
      while i < |down|
        invariant i <= |down| < 0x1_0000_0000
        invariant InRange(workers, down)
        invariant AllExist(workers, down[..i])
        invariant Existing(workers, down) == Existing(workers, all)
        decreases |down| - i
      {
        var w := down[i];
        if !Exists(workers[w]) && !Configured(workers[w]) {
          RemoveKeepsExisting(workers, down, w, i);
          StepBackAndOn(i);
          var found;
          down, found := ArrayRemove(down, w);
          if found { i := Uint32(i + 0xffff_ffff); }
        } else {
          assert down[..i + 1] == down[..i] + [w];
        }
        i := Uint32(i + 1);
      }
      assert down[..i] == down;
      ExistingOfAll(workers, down);
      ExistingIsMarks(workers, all);
    }
  }

  // ----- removing -----

  ghost predicate AllExist(ws: Workers, s: seq<nat>) {
    InRange(ws, s) && forall j :: 0 <= j < |s| ==> Exists(ws[s[j]])
  }

  /** In 32-bit arithmetic the index is where it was after a decrement and an increment, even at 0. */
  lemma StepBackAndOn(i: nat)
    requires i < 0x1_0000_0000
    ensures Uint32(Uint32(i + 0xffff_ffff) + 1) == i
  {
  }

  function Existing(ws: Workers, s: seq<nat>): (r: seq<nat>)
    requires InRange(ws, s)
  {
    if |s| == 0 then []
    else if Exists(ws[s[0]]) then [s[0]] + Existing(ws, s[1..])
    else Existing(ws, s[1..])
  }

  function Without(s: seq<nat>, w: nat): seq<nat> {
    if |s| == 0 then [] else if s[0] == w then Without(s[1..], w) else [s[0]] + Without(s[1..], w)
  }

  lemma {:induction false} WithoutSplits(a: seq<nat>, b: seq<nat>, w: nat)
    ensures Without(a + b, w) == Without(a, w) + Without(b, w)
    decreases |a|
  {
    if |a| == 0 { assert a + b == b; } else { assert (a + b)[1..] == a[1..] + b; WithoutSplits(a[1..], b, w); }
  }

  lemma {:induction false} WithoutNothing(s: seq<nat>, w: nat)
    requires w !in s
    ensures Without(s, w) == s
    decreases |s|
  {
    if |s| > 0 { WithoutNothing(s[1..], w); }
  }

  lemma {:induction false} WithoutSelects(s: seq<nat>, w: nat)
    ensures |Without(s, w)| <= |s| && forall x :: x in Without(s, w) ==> x in s
    ensures w in s ==> |Without(s, w)| < |s|
    decreases |s|
  {
    if |s| > 0 { WithoutSelects(s[1..], w); }
  }

  method ArrayRemove(s: seq<nat>, w: nat) returns (r: seq<nat>, found: bool)
    ensures r == Without(s, w) && found == (w in s)
  {
    r, found := s, false;
    var i: nat := 0;
    assert s[..0] + Without(s[0..], w) == Without(s, w);
    while i < |r|
      invariant i <= |r| <= |s|
      invariant r[..i] + Without(r[i..], w) == Without(s, w)
      invariant found <==> |r| < |s|
      decreases |r| - i
    {
      WithoutStep(r, i, w);
      if r[i] == w {
        r := r[..i] + r[i + 1..];
        found := true;
      } else {
        i := i + 1;
      }
    }
    assert r[..i] + [] == r;
    WithoutSelects(s, w);
    if w !in s { WithoutNothing(s, w); }
  }

  lemma WithoutStep(s: seq<nat>, n: nat, w: nat)
    requires n < |s|
    ensures var t := s[..n] + s[n + 1..];
            s[n] == w ==> s[..n] + Without(s[n..], w) == t[..n] + Without(t[n..], w)
    ensures s[n] != w ==> s[..n] + Without(s[n..], w) == s[..n + 1] + Without(s[n + 1..], w)
  {
    var t := s[..n] + s[n + 1..];
    assert s[n..][1..] == s[n + 1..] == t[n..];
    assert t[..n] == s[..n];
    assert s[..n + 1] == s[..n] + [s[n]];
  }

  lemma {:induction false} ExistingWithout(ws: Workers, s: seq<nat>, w: nat)
    requires InRange(ws, s)
    requires w < |ws| && !Exists(ws[w])
    ensures InRange(ws, Without(s, w)) && Existing(ws, Without(s, w)) == Existing(ws, s)
    decreases |s|
  {
    WithoutSelects(s, w);
    if |s| > 0 { ExistingWithout(ws, s[1..], w); }
  }

  /** Removing a missing worker found at `i` leaves the first `i` marks and the existing ones alone. */
  lemma RemoveKeepsExisting(ws: Workers, s: seq<nat>, w: nat, i: nat)
    requires InRange(ws, s)
    requires i < |s| && s[i] == w && w < |ws| && !Exists(ws[w])
    requires AllExist(ws, s[..i])
    ensures i <= |Without(s, w)| < |s| && Without(s, w)[..i] == s[..i]
    ensures InRange(ws, Without(s, w)) && Existing(ws, Without(s, w)) == Existing(ws, s)
  {
    ExistingWithout(ws, s, w);
    WithoutSelects(s, w);
    assert s == s[..i] + s[i..];
    WithoutSplits(s[..i], s[i..], w);
    WithoutNothing(s[..i], w);
  }

  lemma {:induction false} ExistingOfAll(ws: Workers, s: seq<nat>)
    requires AllExist(ws, s)
    ensures Existing(ws, s) == s
    decreases |s|
  {
    if |s| > 0 { ExistingOfAll(ws, s[1..]); }
  }

  /** Filtering marks keeps exactly those with a device, once each. */
  lemma {:induction false} ExistingIsMarks(ws: Workers, s: seq<nat>)
    requires Marks(ws, s)
    ensures Marks(ws, Existing(ws, s))
    ensures forall x: nat :: x < |ws| ==> (x in Existing(ws, s) <==> x in s && Exists(ws[x]))
    decreases |s|
  {
    if |s| > 0 { ExistingIsMarks(ws, s[1..]); }
  }

  // ----- what follows for the marks, from the workers' own fields -----

  /** The plan for a worker: left alone, taken down for good, or only as far as setting it up again needs. */
  lemma PlanFromFields(w: Worker)
    ensures Planned(w) == None <==>
              w.device.Some? && (w.device.value.persistent || (!w.config && !w.device.value.configured))
    ensures Planned(w) == Some(DeviceReady) <==>
              && w.config && (w.device.Some? ==> !w.device.value.persistent) && !w.iftype.Team?
              && (w.device.None? || w.iftype.Unknown? || w.device.value.linkType == w.iftype)
    ensures Planned(w) != Some(OtherTarget)
  {
  }

  /** A device that was not set up by wicked and has no configuration goes down only with its lower device. */
  lemma UnhandledGoesDownWithLower(ws: Workers, x: nat, w: nat)
    requires WellFormed(ws) && x < |ws| && w < |ws| && DownFor(ws, x, w)
    requires !ws[x].config && ws[x].device.Some? && !ws[x].device.value.configured
    ensures ws[x].lower.Some? && DownFor(ws, ws[x].lower.value, w)
  {
    PlanFromFields(ws[x]);
    if Exists(ws[w]) && DownForSlaves(ws, x, w, |ws|) {
      var c: nat :| c < |ws| && ChangedSlave(ws, c, w) && DownForSlave(ws, x, c);
      assert DownForSlave(ws, c, c);
      assert DownForSlaves(ws, c, w, |ws|);
    }
  }

  /** The configuration of a worker that a reload is about has changed: missing, new, or not what the device has. */
  predicate ConfigChanged(w: Worker, ifname: Option<string>) {
    w.netdev && (ifname == None || ifname == Some(w.name)) && !(w.config && w.device.Some? && w.sameConfig)
  }

  /** Unless its device is persistent, such a worker is shut down if wicked has anything to do with it. */
  lemma ChangedGoesDown(ws: Workers, x: nat, ifname: Option<string>)
    requires WellFormed(ws) && x < |ws| && ConfigChanged(ws[x], ifname)
    requires ws[x].device.Some? ==>
               !ws[x].device.value.persistent && (ws[x].config || ws[x].device.value.configured)
    ensures DownForAny(ws, x, ifname, |ws|)
  {
    PlanFromFields(ws[x]);
    assert DownFor(ws, x, x) && Changed(ws[x], ifname);
  }

  /** With a configuration it is set up again, persistent or not. */
  lemma ChangedComesUp(ws: Workers, x: nat, ifname: Option<string>)
    requires WellFormed(ws) && x < |ws| && ConfigChanged(ws[x], ifname) && ws[x].config
    ensures UpForAny(ws, x, ifname, |ws|)
  {
    assert UpFor(ws, x, x) && Changed(ws[x], ifname);
  }

  predicate MayGo(w: Worker) {
    w.device.Some? ==> !w.device.value.persistent
  }

  /** What is stacked on a worker that is deleted goes down with it. */
  lemma StackedGoDown(ws: Workers, x: nat, w: nat, ifname: Option<string>)
    requires WellFormed(ws) && x < |ws| && w < |ws| && ConfigChanged(ws[w], ifname)
    requires ws[x].lower == Some(w) && MayGo(ws[x])
    requires !ws[w].config && MayGo(ws[w]) && (ws[w].device.Some? ==> ws[w].device.value.configured)
    ensures DownForAny(ws, x, ifname, |ws|)
  {
    PlanFromFields(ws[w]);
    assert GoesDown(ws, w, |ws|);
    assert DownFor(ws, x, w) && Changed(ws[w], ifname);
  }

  /** Enslaved devices whose configuration changed as well go down with their master. */
  lemma ChangedSlavesGoDown(ws: Workers, x: nat, w: nat, ifname: Option<string>)
    requires WellFormed(ws) && x < |ws| && w < |ws| && ConfigChanged(ws[w], ifname)
    requires ws[w].device.Some? && MayGo(ws[w]) && (ws[w].config || ws[w].device.value.configured)
    requires ws[x].device.Some? && MayGo(ws[x]) && (ws[x].config || ws[x].device.value.configured)
    requires ws[x].device.value.masterName == ws[w].name && !(ws[x].config && ws[x].sameConfig)
    ensures DownForAny(ws, x, ifname, |ws|)
  {
    PlanFromFields(ws[w]);
    PlanFromFields(ws[x]);
    assert DownForSlave(ws, x, x) && ChangedSlave(ws, x, w);
    assert DownForSlaves(ws, x, w, |ws|);
    assert DownFor(ws, x, w) && Changed(ws[w], ifname);
  }

  /** Configured slaves of a changed worker, workers stacked on it and their masters come up with it. */
  lemma RelatedComeUp(ws: Workers, x: nat, c: nat, w: nat, ifname: Option<string>)
    requires WellFormed(ws) && x < |ws| && c < |ws| && w < |ws| && ConfigChanged(ws[w], ifname) && ws[w].config
    requires ws[c].config && (ws[c].master == Some(w) || ws[c].lower == Some(w))
    requires x == c || (ws[c].lower == Some(w) && ws[c].master == Some(x) && ws[x].config)
    ensures UpForAny(ws, x, ifname, |ws|)
  {
    if x != c { assert MasterOfStacked(ws, x, c, w); } else { assert SetUpWith(ws, x, w); }
    assert UpFor(ws, x, w) && Changed(ws[w], ifname);
  }

  /** Nothing comes up that is not changed or related to what is. */
  lemma OnlyRelatedComeUp(ws: Workers, x: nat, ifname: Option<string>)
    requires WellFormed(ws) && x < |ws| && UpForAny(ws, x, ifname, |ws|)
    ensures ws[x].config
    ensures exists w: nat, c: nat :: w < |ws| && c < |ws| && ConfigChanged(ws[w], ifname)
              && ws[w].config && ws[c].config
              && (|| x == w
                  || (x == c && (ws[c].master == Some(w) || ws[c].lower == Some(w)))
                  || (ws[c].lower == Some(w) && ws[c].master == Some(x)))
  {
    var w: nat :| w < |ws| && Changed(ws[w], ifname) && UpFor(ws, x, w);
    assert ConfigChanged(ws[w], ifname);
    if x != w && !SetUpWith(ws, x, w) {
      var c: nat :| c < |ws| && MasterOfStacked(ws, x, c, w);
      assert ws[c].lower == Some(w);
    } else {
      assert ws[x].config;
    }
  }

  /** Nothing goes down that is not changed, enslaved by what is and changed too, or stacked on one of these. */
  lemma OnlyRelatedGoDown(ws: Workers, x: nat, ifname: Option<string>)
    requires WellFormed(ws) && x < |ws| && DownForAny(ws, x, ifname, |ws|)
    ensures MayGo(ws[x])
    ensures exists w: nat, c: nat :: w < |ws| && c < |ws| && ConfigChanged(ws[w], ifname)
              && (c == w || (ws[c].device.Some? && ws[c].device.value.masterName == ws[w].name
                             && !(ws[c].config && ws[c].sameConfig)))
              && (x == c || ws[x].lower == Some(c))
  {
    var w: nat :| w < |ws| && Changed(ws[w], ifname) && DownFor(ws, x, w);
    assert ConfigChanged(ws[w], ifname);
    PlanFromFields(ws[x]);
    if x != w && !(GoesDown(ws, w, |ws|) && Dependent(ws, x, w)) {
      var c: nat :| c < |ws| && ChangedSlave(ws, c, w) && DownForSlave(ws, x, c);
      assert x == c || ws[x].lower == Some(c);
    } else {
      assert x == w || ws[x].lower == Some(w);
    }
  }

  /** A reload that finds nothing changed marks nothing. */
  lemma NothingChanged(ws: Workers, ifname: Option<string>, x: nat)
    requires WellFormed(ws) && x < |ws| && forall w :: 0 <= w < |ws| ==> !ConfigChanged(ws[w], ifname)
    ensures !DownForAny(ws, x, ifname, |ws|) && !UpForAny(ws, x, ifname, |ws|)
  {
    forall w: nat | w < |ws| ensures !Changed(ws[w], ifname) { assert !ConfigChanged(ws[w], ifname); }
  }

  /** No persistent device is ever shut down. */
  lemma PersistentStaysUp(ws: Workers, x: nat, w: nat)
    requires WellFormed(ws) && x < |ws| && w < |ws| && DownFor(ws, x, w)
    ensures ws[x].device.Some? ==> !ws[x].device.value.persistent
  {
  }

  /** Nothing without a configuration is set up. */
  lemma OnlyConfiguredGoUp(ws: Workers, x: nat, w: nat)
    requires WellFormed(ws) && x < |ws| && w < |ws| && UpFor(ws, x, w)
    ensures ws[x].config
  {
  }
}
