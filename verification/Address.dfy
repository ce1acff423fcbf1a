/**
 Socket addresses of src/address.c as families and bytes: equality, prefix match, netmasks.
 */
module Address {

  datatype Family = Unspec | Inet | Inet6 | Unsupported

  /** Address bytes per family; 0 where the source has no address data. */
  function Length(f: Family): nat {
    match f
    case Inet => 4
    case Inet6 => 16
    case Unspec | Unsupported => 0
  }

  datatype RawSockaddr = RawSockaddr(family: Family, data: seq<bv8>)

  type Sockaddr = s: RawSockaddr | |s.data| == Length(s.family) witness RawSockaddr(Unspec, [])

  predicate HasData(f: Family) {
    f.Inet? || f.Inet6?
  }

  // ----- bits, most significant first -----

  function Weight(k: nat): bv8
    requires k < 8
  {
    if k == 0 then 0x80 else if k == 1 then 0x40 else if k == 2 then 0x20 else if k == 3 then 0x10
    else if k == 4 then 0x08 else if k == 5 then 0x04 else if k == 6 then 0x02 else 0x01
  }

  predicate Bit(b: bv8, k: nat)
    requires k < 8
  {
    b & Weight(k) != 0
  }

  predicate BitAt(a: seq<bv8>, i: nat)
    requires i < 8 * |a|
  {
    Bit(a[i / 8], i % 8)
  }

  /** The first `n` bits of two addresses are the same. */
  ghost predicate AgreeOn(a: seq<bv8>, b: seq<bv8>, n: nat)
    requires n <= 8 * |a| && |a| == |b|
  {
    forall i: nat :: i < n ==> BitAt(a, i) == BitAt(b, i)
  }

  /** `x << k`, spelled out so that every shift is by a constant. */
  function ShiftLeft(x: bv16, k: nat): bv16
    requires k <= 8
  {
    if k == 0 then x else if k == 1 then x << 1 else if k == 2 then x << 2 else if k == 3 then x << 3
    else if k == 4 then x << 4 else if k == 5 then x << 5 else if k == 6 then x << 6
    else if k == 7 then x << 7 else x << 8
  }

  /** The test of the source for the first `k` bits of one octet. */
  predicate TopEqual(x: bv8, y: bv8, k: nat)
    requires k <= 8
  {
    0xFF00 & ShiftLeft((x ^ y) as bv16, k) == 0
  }

  lemma TopEqualStepLow(x: bv8, y: bv8, k: nat)
    requires k < 4
    ensures TopEqual(x, y, 0)
    ensures TopEqual(x, y, k + 1) <==> TopEqual(x, y, k) && Bit(x, k) == Bit(y, k)
  {
    if k == 0 { } else if k == 1 { } else if k == 2 { } else { }
  }

  lemma TopEqualStepHigh(x: bv8, y: bv8, k: nat)
    requires 4 <= k < 8
    ensures TopEqual(x, y, k + 1) <==> TopEqual(x, y, k) && Bit(x, k) == Bit(y, k)
  {
    if k == 4 { } else if k == 5 { } else if k == 6 { } else { }
  }

  lemma {:induction false} TopEqualBits(x: bv8, y: bv8, k: nat)
    requires k <= 8
    ensures TopEqual(x, y, k) <==> forall j: nat :: j < k ==> Bit(x, j) == Bit(y, j)
  {
    if k == 0 {
      TopEqualStepLow(x, y, 0);
    } else {
      TopEqualBits(x, y, k - 1);
      if k <= 4 { TopEqualStepLow(x, y, k - 1); } else { TopEqualStepHigh(x, y, k - 1); }
    }
  }

  lemma SameOctet(x: bv8, y: bv8)
    requires forall j: nat :: j < 8 ==> Bit(x, j) == Bit(y, j)
    ensures x == y
  {
    TopEqualBits(x, y, 8);
  }

  lemma SameBits(a: seq<bv8>, b: seq<bv8>)
    requires |a| == |b| && AgreeOn(a, b, 8 * |a|)
    ensures a == b
  {
    forall i: nat | i < |a| ensures a[i] == b[i] {
      forall j: nat | j < 8 ensures Bit(a[i], j) == Bit(b[i], j) {
        assert BitAt(a, 8 * i + j) == BitAt(b, 8 * i + j);
      }
      SameOctet(a[i], b[i]);
    }
  }

  lemma WholeOctets(a: seq<bv8>, b: seq<bv8>, k: nat)
    requires |a| == |b| && k <= |a|
    ensures a[..k] == b[..k] <==> AgreeOn(a, b, 8 * k)
  {
    if AgreeOn(a, b, 8 * k) {
      forall i: nat | i < 8 * k ensures BitAt(a[..k], i) == BitAt(b[..k], i) {
        assert BitAt(a, i) == BitAt(b, i);
      }
      SameBits(a[..k], b[..k]);
    }
    if a[..k] == b[..k] {
      forall i: nat | i < 8 * k ensures BitAt(a, i) == BitAt(b, i) {
        assert a[i / 8] == a[..k][i / 8] == b[..k][i / 8] == b[i / 8];
      }
    }
  }

  // ----- equality and prefix match -----

  predicate Equal(a: Sockaddr, b: Sockaddr) {
    if a.family != b.family then false
    else if a.family.Unspec? then true
    else if !HasData(a.family) then false
    else a.data == b.data
  }

  /** Equality is an equivalence on the supported families, all addresses without a family being equal. */
  lemma EqualEquivalence(a: Sockaddr, b: Sockaddr, c: Sockaddr)
    ensures Equal(a, a) <==> !a.family.Unsupported?
    ensures Equal(a, b) <==> Equal(b, a)
    ensures Equal(a, b) && Equal(b, c) ==> Equal(a, c)
    ensures Equal(a, b) ==> a == b
  {
  }

  function Min(a: nat, b: nat): nat {
    if a < b then a else b
  }

  predicate PrefixMatch(prefix: nat, a: Sockaddr, b: Sockaddr) {
    if !HasData(a.family) || !HasData(b.family) || a.family != b.family then false
    else
      var bits := Min(prefix, 8 * |a.data|);
      if bits > 8 then
        if a.data[..bits / 8] != b.data[..bits / 8] then false
        else bits % 8 == 0 || TopEqual(a.data[bits / 8], b.data[bits / 8], bits % 8)
      else bits == 0 || TopEqual(a.data[0], b.data[0], bits)
  }

  lemma OctetAndRest(a: seq<bv8>, b: seq<bv8>, k: nat, r: nat)
    requires |a| == |b| && k < |a| && 0 < r <= 8
    ensures AgreeOn(a, b, 8 * k + r) <==> AgreeOn(a, b, 8 * k) && TopEqual(a[k], b[k], r)
  {
    TopEqualBits(a[k], b[k], r);
    if AgreeOn(a, b, 8 * k + r) {
      forall j: nat | j < r ensures Bit(a[k], j) == Bit(b[k], j) {
        assert BitAt(a, 8 * k + j) == BitAt(b, 8 * k + j);
      }
    }
    if AgreeOn(a, b, 8 * k) && TopEqual(a[k], b[k], r) {
      forall i: nat | i < 8 * k + r ensures BitAt(a, i) == BitAt(b, i) {
        if i >= 8 * k { assert i / 8 == k && i % 8 == i - 8 * k; }
      }
    }
  }

  /** Prefix match compares exactly the bits of the prefix, capped at the address width. */
  lemma PrefixMatchIsAgreement(prefix: nat, a: Sockaddr, b: Sockaddr)
    ensures PrefixMatch(prefix, a, b) <==>
              a.family == b.family && HasData(a.family) && AgreeOn(a.data, b.data, Min(prefix, 8 * |a.data|))
  {
    if a.family == b.family && HasData(a.family) {
      var bits := Min(prefix, 8 * |a.data|);
      if bits > 8 {
        WholeOctets(a.data, b.data, bits / 8);
        if bits % 8 > 0 { OctetAndRest(a.data, b.data, bits / 8, bits % 8); }
      } else if bits > 0 {
        OctetAndRest(a.data, b.data, 0, bits);
      }
    }
  }

  /** For a fixed prefix, matching is an equivalence on the addresses that have data. */
  lemma PrefixMatchEquivalence(prefix: nat, a: Sockaddr, b: Sockaddr, c: Sockaddr)
    ensures PrefixMatch(prefix, a, a) <==> HasData(a.family)
    ensures PrefixMatch(prefix, a, b) <==> PrefixMatch(prefix, b, a)
    ensures PrefixMatch(prefix, a, b) && PrefixMatch(prefix, b, c) ==> PrefixMatch(prefix, a, c)
  {
    PrefixMatchIsAgreement(prefix, a, a);
    PrefixMatchIsAgreement(prefix, a, b);
    PrefixMatchIsAgreement(prefix, b, a);
    PrefixMatchIsAgreement(prefix, b, c);
    PrefixMatchIsAgreement(prefix, a, c);
  }

  lemma PrefixMatchWeakens(p: nat, q: nat, a: Sockaddr, b: Sockaddr)
    requires p <= q && PrefixMatch(q, a, b)
    ensures PrefixMatch(p, a, b)
  {
    PrefixMatchIsAgreement(p, a, b);
    PrefixMatchIsAgreement(q, a, b);
  }

  /** At full length prefix match is equality, except for the family that has no data. */
  lemma FullPrefixIsEquality(prefix: nat, a: Sockaddr, b: Sockaddr)
    requires prefix >= 8 * |a.data|
    ensures PrefixMatch(prefix, a, b) <==> Equal(a, b) && !a.family.Unspec?
  {
    PrefixMatchIsAgreement(prefix, a, b);
    if a.family == b.family { WholeOctets(a.data, b.data, |a.data|); }
  }
}
