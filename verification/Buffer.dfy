/** The reading side of the byte buffers of src/buffer.h, and little-endian integers. */
module Buffer {
  import opened Common

  type byte = b: int | 0 <= b < 256

  class Reader {
    const data: seq<byte>
    var head: nat

    ghost predicate Valid()
      reads this
    {
      head <= |data|
    }

    ghost function Rest(): seq<byte>
      reads this
      requires Valid()
    {
      data[head..]
    }

    constructor (data: seq<byte>)
      ensures Valid() && Rest() == data
    {
      this.data, head := data, 0;
    }

    method Peek(n: nat) returns (r: Option<seq<byte>>)
      requires Valid()
      ensures r == if n <= |Rest()| then Some(Rest()[..n]) else None
    {
      if |data| - head < n { return None; }
      assert Rest()[..n] == data[head..head + n];
      return Some(data[head..head + n]);
    }

    method Pull(n: nat) returns (r: Option<seq<byte>>)
      requires Valid()
      modifies this
      ensures Valid()
      ensures if n <= |old(Rest())| then
                r == Some(old(Rest())[..n]) && Rest() == old(Rest())[n..] && head == old(head) + n
              else
                r == None && Rest() == old(Rest()) && head == old(head)
    {
      if |data| - head < n { return None; }
      assert Rest()[..n] == data[head..head + n];
      r := Some(data[head..head + n]);
      head := head + n;
    }
  }

  // ----- little-endian integers -----

  function Word(lo: byte, hi: byte): nat {
    lo + 256 * hi
  }

  /** The value of up to eight bytes, least significant first. */
  function Value(b: seq<byte>): nat {
    if |b| == 0 then 0 else b[0] + 256 * Value(b[1..])
  }

  /** `n` bytes of `v`, least significant first. */
  function Bytes(v: nat, n: nat): (b: seq<byte>)
    ensures |b| == n
  {
    if n == 0 then [] else [v % 256] + Bytes(v / 256, n - 1)
  }

  function Power256(n: nat): nat {
    if n == 0 then 1 else 256 * Power256(n - 1)
  }

  lemma {:induction false} ValueOfBytes(v: nat, n: nat)
    requires v < Power256(n)
    ensures Value(Bytes(v, n)) == v
    decreases n
  {
    if n > 0 {
      ValueOfBytes(v / 256, n - 1);
      assert Bytes(v, n)[1..] == Bytes(v / 256, n - 1);
    }
  }
}
