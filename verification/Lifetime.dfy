/**
 Address lifetimes of src/address.c. Lifetimes are 32-bit seconds with two reserved values;
 times are in microseconds and 0 is an unset `struct timeval`.
 */
module Lifetime {

  const EXPIRED: nat := 0
  const INFINITE: nat := 0xffff_ffff

  type Lft = n: nat | n <= 0xffff_ffff

  datatype CacheInfo = CacheInfo(acquired: nat, valid: Lft, preferred: Lft)

  /** The `tv_sec` part of the time from `from` to `to`. */
  function ElapsedSeconds(from: nat, to: nat): nat
    requires from <= to
  {
    (to - from) / 1_000_000
  }

  /** The lifetime left at `current`; an unset `current` stands for `now`. */
  function Left(lifetime: Lft, acquired: nat, current: nat, now: nat): (left: Lft)
    ensures left <= lifetime
  {
    if lifetime == INFINITE || lifetime == EXPIRED || acquired == 0 then lifetime
    else
      var at := if current == 0 then now else current;
      if at > acquired && lifetime >= ElapsedSeconds(acquired, at)
      then lifetime - ElapsedSeconds(acquired, at)
      else EXPIRED
  }

  /**
   A lifetime that is neither reserved value runs down with the clock, to the second, and is
   over exactly that many seconds after it was acquired; at or before that time it counts as over.
   */
  lemma LeftRunsDown(lifetime: Lft, acquired: nat, t1: nat, t2: nat, now: nat)
    requires EXPIRED < lifetime < INFINITE && 0 < acquired && 0 < t1 <= t2
    ensures Left(lifetime, acquired, t1, now) == EXPIRED <==>
              t1 <= acquired || t1 - acquired >= 1_000_000 * lifetime
    ensures acquired < t1 && Left(lifetime, acquired, t2, now) > 0 ==>
              var spent := Left(lifetime, acquired, t1, now) - Left(lifetime, acquired, t2, now);
              ElapsedSeconds(t1, t2) <= spent <= ElapsedSeconds(t1, t2) + 1
  {
  }

  /** Reserved lifetimes, and those acquired at no known time, do not run down; no current time stands for now. */
  lemma LeftStays(lifetime: Lft, acquired: nat, current: nat, now: nat)
    ensures lifetime == EXPIRED || lifetime == INFINITE || acquired == 0 ==>
              Left(lifetime, acquired, current, now) == lifetime
    ensures Left(lifetime, acquired, 0, now) == Left(lifetime, acquired, now, now)
  {
  }

  function Reduce(lft: Lft, dif: nat): Lft {
    if lft > dif then lft - dif else 0
  }

  function Rebase(lft: CacheInfo, base: nat, now: nat): CacheInfo {
    if lft.acquired == 0 then lft
    else if lft.valid == INFINITE && (lft.preferred == INFINITE || lft.preferred == EXPIRED) then lft
    else
      var at := if base == 0 then now else base;
      if at <= lft.acquired then lft
      else
        var dif := ElapsedSeconds(lft.acquired, at);
        if lft.valid == INFINITE then CacheInfo(at, lft.valid, Reduce(lft.preferred, dif))
        else if Reduce(lft.valid, dif) != 0
        then CacheInfo(at, Reduce(lft.valid, dif), Reduce(lft.preferred, dif))
        else CacheInfo(at, 0, EXPIRED)
  }

  /** The in-place form of the source: `res` is overwritten with the rebased `lft`. */
  method RebaseInto(lft: CacheInfo, base: nat, clock: nat) returns (res: CacheInfo)
    ensures res == Rebase(lft, base, clock)
  {
    res := lft;
    if lft.acquired == 0 { return; }
    if lft.valid == INFINITE && (lft.preferred == INFINITE || lft.preferred == EXPIRED) { return; }
    var now := if base == 0 then clock else base;
    if now <= lft.acquired { return; }
    var dif := ElapsedSeconds(lft.acquired, now);
    res := res.(acquired := now);
    if res.valid == INFINITE {
      res := res.(preferred := Reduce(res.preferred, dif));
    } else {
      res := res.(valid := Reduce(res.valid, dif));
      if res.valid != 0 {
        res := res.(preferred := Reduce(res.preferred, dif));
      } else {
        res := res.(preferred := EXPIRED);
      }
    }
  }

  // ----- rebasing and asking -----

  /** Both lifetimes after rebasing are those left at the base time. */
  predicate RebaseAgrees(lft: CacheInfo, base: nat, now: nat) {
    var r := Rebase(lft, base, now);
    r.valid == Left(lft.valid, lft.acquired, base, now) && r.preferred == Left(lft.preferred, lft.acquired, base, now)
  }

  predicate Fixed(lifetime: Lft) {
    lifetime == EXPIRED || lifetime == INFINITE
  }

  /** Rebasing cuts a preferred lifetime that outlives the valid one. */
  predicate PreferredCut(lft: CacheInfo, dif: nat) {
    && lft.valid != INFINITE
    && (if Reduce(lft.valid, dif) != 0 then lft.preferred == INFINITE && dif > 0
        else lft.preferred == INFINITE || lft.preferred > dif)
  }

  /** Exactly when rebasing and asking agree, for all lifetimes and times. */
  lemma RebaseAgreesIff(lft: CacheInfo, base: nat, now: nat)
    ensures var at := if base == 0 then now else base;
            RebaseAgrees(lft, base, now) <==>
              || lft.acquired == 0
              || (at <= lft.acquired && Fixed(lft.valid) && Fixed(lft.preferred))
              || (at > lft.acquired && !PreferredCut(lft, ElapsedSeconds(lft.acquired, at)))
  {
    var at := if base == 0 then now else base;
    if lft.acquired != 0 && at > lft.acquired {
      var dif := ElapsedSeconds(lft.acquired, at);
      assert lft.valid == INFINITE || Rebase(lft, base, now).valid == Reduce(lft.valid, dif);
    }
  }

  /** The promise for well-formed lifetimes: rebasing later agrees and keeps them in order. */
  lemma RebaseInOrder(lft: CacheInfo, base: nat, now: nat)
    requires lft.preferred <= lft.valid
    ensures Rebase(lft, base, now).preferred <= Rebase(lft, base, now).valid
    ensures (if base == 0 then now else base) > lft.acquired ==> RebaseAgrees(lft, base, now)
  {
    RebaseAgreesIff(lft, base, now);
  }

  // ----- many small rebases against one big one -----

  function Last(times: seq<nat>): nat
    requires |times| > 0
  {
    times[|times| - 1]
  }

  function RebaseAll(lft: CacheInfo, times: seq<nat>): CacheInfo {
    if |times| == 0 then lft else Rebase(RebaseAll(lft, times[..|times| - 1]), Last(times), 0)
  }

  /** The time an address was last rebased to: rebasing to an earlier time does nothing. */
  function Latest(acquired: nat, times: seq<nat>): nat {
    if |times| == 0 then acquired else Max(Latest(acquired, times[..|times| - 1]), Last(times))
  }

  function Max(a: nat, b: nat): nat {
    if a > b then a else b
  }

  function Gap(from: nat, to: nat): nat {
    if to > from then ElapsedSeconds(from, to) else 0
  }

  /** What rebasing has made of `lft` after taking off `spent` seconds in all. */
  predicate Spent(lft: CacheInfo, r: CacheInfo, at: nat, spent: nat) {
    && r.valid == (if lft.valid == INFINITE then INFINITE else Reduce(lft.valid, spent))
    && r.preferred == (if lft.preferred == INFINITE then INFINITE else Reduce(lft.preferred, spent))
    && (r.acquired == at || (lft.valid == INFINITE && Fixed(r.preferred)))
  }

  lemma GapSplits(a: nat, b: nat, c: nat)
    requires a <= b <= c
    ensures Gap(a, b) + Gap(b, c) <= Gap(a, c)
    ensures Gap(a, c) <= Gap(a, b) + Gap(b, c) + (if a == b then 0 else 1)
  {
  }

  lemma SpendMore(lft: CacheInfo, r: CacheInfo, at: nat, spent: nat, t: nat)
    requires lft.acquired > 0 && lft.preferred <= lft.valid && t > 0 && at > 0
    requires Spent(lft, r, at, spent)
    ensures Spent(lft, Rebase(r, t, 0), Max(at, t), spent + Gap(at, t))
  {
  }

  lemma {:induction false} TotalSpent(lft: CacheInfo, times: seq<nat>) returns (spent: nat)
    requires lft.acquired > 0 && lft.preferred <= lft.valid
    requires forall i :: 0 <= i < |times| ==> times[i] > 0
    ensures lft.acquired <= Latest(lft.acquired, times)
    ensures Spent(lft, RebaseAll(lft, times), Latest(lft.acquired, times), spent)
    ensures spent <= Gap(lft.acquired, Latest(lft.acquired, times)) <= spent + (if |times| == 0 then 0 else |times| - 1)
    decreases |times|
  {
    if |times| == 0 {
      spent := 0;
    } else {
      var init, t := times[..|times| - 1], Last(times);
      spent := TotalSpent(lft, init);
      var at := Latest(lft.acquired, init);
      SpendMore(lft, RebaseAll(lft, init), at, spent, t);
      GapSplits(lft.acquired, at, Max(at, t));
      spent := spent + Gap(at, t);
    }
  }

  lemma {:induction false} UnsetStays(lft: CacheInfo, times: seq<nat>)
    requires lft.acquired == 0
    ensures RebaseAll(lft, times) == lft
    decreases |times|
  {
    if |times| > 0 { UnsetStays(lft, times[..|times| - 1]); }
  }

  predicate Overstates(many: Lft, once: Lft, seconds: nat) {
    once <= many <= once + seconds
  }

  /** n rebases, in any order, never understate one rebase to the latest time, nor overstate it by n seconds. */
  lemma ManyRebases(lft: CacheInfo, times: seq<nat>)
    requires lft.preferred <= lft.valid
    requires |times| > 0 && forall i :: 0 <= i < |times| ==> times[i] > 0
    ensures var many, once := RebaseAll(lft, times), Rebase(lft, Latest(lft.acquired, times), 0);
            && Overstates(many.valid, once.valid, |times| - 1)
            && Overstates(many.preferred, once.preferred, |times| - 1)
  {
    if lft.acquired == 0 {
      UnsetStays(lft, times);
    } else {
      var spent := TotalSpent(lft, times);
      SpendMore(lft, lft, lft.acquired, 0, Latest(lft.acquired, times));
    }
  }

  /** Instants just under a second apart. */
  function Crawl(n: nat): seq<nat> {
    if n == 0 then [] else Crawl(n - 1) + [1 + 999_999 * n]
  }

  lemma {:induction false} CrawlNeverSpends(lft: CacheInfo, n: nat)
    requires lft.acquired == 1 && lft.valid < INFINITE && lft.preferred <= lft.valid && lft.valid > 0
    ensures RebaseAll(lft, Crawl(n)) == lft.(acquired := 1 + 999_999 * n)
    ensures Latest(1, Crawl(n)) == 1 + 999_999 * n
  {
    if n > 0 {
      CrawlNeverSpends(lft, n - 1);
      assert Crawl(n)[..|Crawl(n)| - 1] == Crawl(n - 1);
    }
  }

  /** The bound is reached: up to a million rebases can overstate by one second each but the first. */
  lemma OverstatementIsReached(n: nat)
    requires 0 < n <= 1_000_000
    ensures |Crawl(n)| == n
    ensures var lft := CacheInfo(1, 2_000_000, 2_000_000);
            RebaseAll(lft, Crawl(n)).valid == Rebase(lft, Latest(1, Crawl(n)), 0).valid + n - 1
  {
    CrawlNeverSpends(CacheInfo(1, 2_000_000, 2_000_000), n);
    CrawlLength(n);
  }

  lemma {:induction false} CrawlLength(n: nat)
    ensures |Crawl(n)| == n
  {
    if n > 0 { CrawlLength(n - 1); }
  }
}
