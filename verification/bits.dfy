/** Bit and byte helpers shared by the 1-Wire driver model.
    A bus bit is a `bool` (true = the line read or written as 1); a byte is
    the driver's `uint8_t`, modelled as `bv8` so that `|`, `&`, `~` and `<<`
    behave exactly as on the 8-bit target. */
module Bits {

  /** The driver's `uint8_t` when it is used as a counter or a length. */
  type uint8 = x: int | 0 <= x < 256

  /** Bit k (0 = least significant) of d, as `d & (1 << k)` tests it. */
  predicate BitOf(d: bv8, k: nat)
    requires k < 8
  {
    d & (1 << k) != 0
  }

  /** The eight bits of d, least significant first: the order in which
      they travel on the bus. */
  function ByteBits(d: bv8): seq<bool>
  {
    seq(8, k requires 0 <= k < 8 => BitOf(d, k))
  }

  /** The bits of a byte sequence, byte after byte, each byte least
      significant bit first. Bit p lives in byte p / 8 at bit p % 8, which
      is exactly how the search engine addresses its ROM buffer. */
  function BytesBits(bs: seq<bv8>): seq<bool>
  {
    seq(8 * |bs|, p requires 0 <= p < 8 * |bs| => BitOf(bs[p / 8], p % 8))
  }

  /** `b << k` for a bit b read as 0 or 1. */
  function Shifted(b: bool, k: nat): bv8
    requires k < 8
  {
    if b then 1 << k else 0
  }

  /** The value built by OR-ing `bits[k] << k` into 0 for k = 0, 1, ...:
      what the receive loop accumulates. */
  function Assemble(bits: seq<bool>): bv8
    requires |bits| <= 8
  {
    if bits == [] then 0
    else Assemble(bits[..|bits| - 1]) | Shifted(bits[|bits| - 1], |bits| - 1)
  }

  /** Receiving one more bit ORs it in at the next position. */
  lemma AssembleSnoc(bits: seq<bool>, b: bool)
    requires |bits| < 8
    ensures Assemble(bits + [b]) == Assemble(bits) | Shifted(b, |bits|)
  {
    assert (bits + [b])[..|bits|] == bits;
  }

  /** Setting bit m with `|= (1 << m)` changes bit m only. */
  lemma SetBit(d: bv8, m: nat, k: nat)
    requires m < 8 && k < 8
    ensures BitOf(d | (1 << m), k) == (k == m || BitOf(d, k))
  {
  }

  /** Clearing bit m with `&= ~(1 << m)` changes bit m only. */
  lemma ClearBit(d: bv8, m: nat, k: nat)
    requires m < 8 && k < 8
    ensures BitOf(d & !(1 << m), k) == (k != m && BitOf(d, k))
  {
  }

  /** Two bytes that agree on every bit are equal. */
  lemma {:induction false} BitsDetermineByte(x: bv8, y: bv8)
    requires forall k :: 0 <= k < 8 ==> BitOf(x, k) == BitOf(y, k)
    ensures x == y
  {
    assert BitOf(x, 0) == BitOf(y, 0) && BitOf(x, 1) == BitOf(y, 1);
    assert BitOf(x, 2) == BitOf(y, 2) && BitOf(x, 3) == BitOf(y, 3);
    assert BitOf(x, 4) == BitOf(y, 4) && BitOf(x, 5) == BitOf(y, 5);
    assert BitOf(x, 6) == BitOf(y, 6) && BitOf(x, 7) == BitOf(y, 7);
  }

  /** OR-ing in bit n when b holds sets bit n and keeps every other bit. */
  lemma OrBit(low: bv8, n: nat, b: bool, k: nat)
    requires n < 8 && k < 8
    ensures BitOf(low | Shifted(b, n), k) == ((k == n && b) || BitOf(low, k))
  {
    if b {
      SetBit(low, n, k);
    } else {
      assert low | 0 == low;
    }
  }

  /** Bit k of the assembled value is the k-th bit received, and every
      position not yet received is still 0. */
  lemma {:induction false} AssembleBit(bits: seq<bool>, k: nat)
    requires |bits| <= 8 && k < 8
    ensures BitOf(Assemble(bits), k) == (k < |bits| && bits[k])
  {
    if bits != [] {
      var n := |bits| - 1;
      AssembleBit(bits[..n], k);
      OrBit(Assemble(bits[..n]), n, bits[n], k);
      assert k < n ==> bits[..n][k] == bits[k];
    }
  }

  /** Receiving the eight bits that sending d puts on the bus yields d. */
  lemma {:induction false} ByteRoundTrip(d: bv8)
    ensures Assemble(ByteBits(d)) == d
  {
    forall k | 0 <= k < 8
      ensures BitOf(Assemble(ByteBits(d)), k) == BitOf(d, k)
    {
      AssembleBit(ByteBits(d), k);
    }
    BitsDetermineByte(Assemble(ByteBits(d)), d);
  }

  /** Sending the byte assembled from eight received bits puts those same
      bits back on the bus. */
  lemma {:induction false} BitsRoundTrip(bits: seq<bool>)
    requires |bits| == 8
    ensures ByteBits(Assemble(bits)) == bits
  {
    forall k | 0 <= k < 8
      ensures ByteBits(Assemble(bits))[k] == bits[k]
    {
      AssembleBit(bits, k);
    }
  }

  /** The bit view of a byte sequence determines the bytes. */
  lemma {:induction false} BytesBitsInjective(xs: seq<bv8>, ys: seq<bv8>)
    requires |xs| == |ys| && BytesBits(xs) == BytesBits(ys)
    ensures xs == ys
  {
    forall i | 0 <= i < |xs|
      ensures xs[i] == ys[i]
    {
      forall k | 0 <= k < 8
        ensures BitOf(xs[i], k) == BitOf(ys[i], k)
      {
        var p := 8 * i + k;
        assert p / 8 == i && p % 8 == k;
        assert BytesBits(xs)[p] == BytesBits(ys)[p];
      }
      BitsDetermineByte(xs[i], ys[i]);
    }
  }

  /** Appending one byte appends its eight bits. */
  lemma {:induction false} BytesBitsSnoc(bs: seq<bv8>, d: bv8)
    ensures BytesBits(bs + [d]) == BytesBits(bs) + ByteBits(d)
  {
    var l, r := BytesBits(bs + [d]), BytesBits(bs) + ByteBits(d);
    assert |l| == |r|;
    forall p | 0 <= p < |l|
      ensures l[p] == r[p]
    {
      if p >= 8 * |bs| {
        assert p / 8 == |bs| && p % 8 == p - 8 * |bs|;
      } else {
        assert p / 8 < |bs|;
      }
    }
  }

  /** The bytes whose bit view is `bits`, eight bits to a byte, least
      significant first. */
  function BitsBytes(bits: seq<bool>): (bs: seq<bv8>)
    requires |bits| % 8 == 0
    ensures |bs| == |bits| / 8
  {
    seq(|bits| / 8, i requires 0 <= i < |bits| / 8 => Assemble(bits[8 * i..8 * i + 8]))
  }

  /** Regrouping the bit view of a byte sequence gives the bytes back. */
  lemma {:induction false} BitsBytesOf(bs: seq<bv8>)
    ensures BitsBytes(BytesBits(bs)) == bs
  {
    var view := BytesBits(bs);
    forall i | 0 <= i < |bs|
      ensures BitsBytes(view)[i] == bs[i]
    {
      forall k | 0 <= k < 8
        ensures view[8 * i..8 * i + 8][k] == ByteBits(bs[i])[k]
      {
        var p := 8 * i + k;
        assert p / 8 == i && p % 8 == k;
      }
      assert view[8 * i..8 * i + 8] == ByteBits(bs[i]);
      ByteRoundTrip(bs[i]);
    }
  }
}
