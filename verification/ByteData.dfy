/**
 Byte strings and the windows that reads return.
 */
module ByteData {
  import opened Common

  type Byte = b: int | 0 <= b < 256
  type Bytes = seq<Byte>

  const U32 := 0x1_0000_0000
  const U64 := 0x1_0000_0000_0000_0000

  function Max(a: nat, b: nat): nat { if a <= b then b else a }

  /** The bytes of d from lo up to hi, as far as d has them. */
  function Between(d: Bytes, lo: nat, hi: nat): Bytes {
    if lo < Min(hi, |d|) then d[lo..Min(hi, |d|)] else []
  }

  /** What a read of size bytes at an offset of d shows. */
  function Window(d: Bytes, offset: nat, size: nat): Bytes {
    Between(d, offset, offset + size)
  }

  lemma BetweenJoin(d: Bytes, lo: nat, mid: nat, hi: nat)
    requires lo <= mid <= hi
    ensures Between(d, lo, mid) + Between(d, mid, hi) == Between(d, lo, hi)
  {
  }

  lemma BetweenEmpty(d: Bytes, lo: nat)
    ensures Between(d, lo, lo) == []
  {
  }

  lemma Regroup3(a: Bytes, b: Bytes, c: Bytes)
    ensures (a + b) + c == a + (b + c)
  {
  }

  function Sum(sizes: seq<nat>): nat {
    if sizes == [] then 0 else sizes[0] + Sum(sizes[1..])
  }

  // ----- the bytes of a number -----

  /** One byte more below the rest of a number. */
  lemma LowByte(q: nat, b: nat)
    requires b < 0x100
    ensures (0x100 * q + b) / 0x100 == q && (0x100 * q + b) % 0x100 == b
  {
  }

  lemma DivideTwice(n: nat)
    ensures n / 0x1_0000 == n / 0x100 / 0x100
  {
    var a, b := n / 0x100, n / 0x100 / 0x100;
    assert n == 0x100 * a + n % 0x100 && a == 0x100 * b + a % 0x100;
    assert 0 <= n - 0x1_0000 * b < 0x1_0000;
  }

  /** Three bytes below a multiple of 2^24. */
  lemma DropAbove24(q: nat, b0: nat, b1: nat, b2: nat)
    requires b0 < 0x100 && b1 < 0x100 && b2 < 0x100
    ensures var n := 0x100 * (0x100 * (0x100 * q + b2) + b1) + b0;
      n % 0x100 == b0 && n / 0x100 % 0x100 == b1 && n / 0x100 / 0x100 % 0x100 == b2
  {
    var a := 0x100 * q + b2;
    var m := 0x100 * a + b1;
    LowByte(m, b0);
    LowByte(a, b1);
    LowByte(q, b2);
  }

  lemma Remainder24(q: nat, low: nat)
    requires low < 0x100_0000
    ensures (0x100_0000 * q + low) % 0x100_0000 == low
  {
  }

  lemma Remainder32(q: nat, low: nat)
    requires low < U32
    ensures (U32 * q + low) % U32 == low
  {
  }
}
