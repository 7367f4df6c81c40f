/**
 * The bit packing shared by `tree_to_bytes` and `compress` (bits shifted
 * into bytes most significant bit first, the last byte padded with zero low
 * bits) and the unpacking shared by `bytes_to_tree` and `decompress`
 * (each byte written as eight binary digits, the whole cut to a bit count).
 */
module BitPacking {
  import opened HuffmanTree

  function Pow2(n: nat): (p: nat)
    ensures p >= 1
  {
    if n == 0 then 1 else 2 * Pow2(n - 1)
  }

  /** `v << m`. */
  function Shl(v: nat, m: nat): nat
  {
    if m == 0 then v else 2 * Shl(v, m - 1)
  }

  /** The number `bits[lo..hi]` spells, most significant bit first. */
  function ValueOf(bits: seq<Bit>, lo: nat, hi: nat): nat
    requires lo <= hi <= |bits|
    decreases hi - lo
  {
    if hi == lo then 0 else 2 * ValueOf(bits, lo, hi - 1) + BitValue(bits[hi - 1])
  }

  /** Where the group of (at most) eight bits starting at `i` ends. */
  function GroupEnd(bits: seq<Bit>, i: nat): (e: nat)
    requires i <= |bits|
    ensures i <= e <= |bits| && e - i <= 8 && (e < |bits| ==> e == i + 8)
  {
    if i + 8 <= |bits| then i + 8 else |bits|
  }

  /**
   * `bytes_array` while bits are still being shifted in, from the group
   * starting at `i` on: one entry per group of eight bits, the last group
   * possibly incomplete and not yet shifted into place.
   */
  function AccumulateFrom(bits: seq<Bit>, i: nat): (acc: seq<nat>)
    requires i <= |bits|
    ensures |acc| == (|bits| - i + 7) / 8
    decreases |bits| - i
  {
    if i == |bits| then []
    else
      var e := GroupEnd(bits, i);
      [ValueOf(bits, i, e)] + AccumulateFrom(bits, e)
  }

  function Accumulate(bits: seq<Bit>): seq<nat>
  {
    AccumulateFrom(bits, 0)
  }

  /**
   * The packed bytes from the group starting at `i` on: each group of eight
   * bits as a byte, the last group shifted up so that zero bits pad it.
   */
  function PackFrom(bits: seq<Bit>, i: nat): (bytes: seq<Byte>)
    requires i <= |bits|
    ensures |bytes| == (|bits| - i + 7) / 8
    decreases |bits| - i
  {
    if i == |bits| then []
    else
      var e := GroupEnd(bits, i);
      GroupFits(bits, i, e);
      [Shl(ValueOf(bits, i, e), 8 - (e - i))] + PackFrom(bits, e)
  }

  function Pack(bits: seq<Bit>): seq<Byte>
  {
    PackFrom(bits, 0)
  }

  /** The `n` binary digits of `v`, most significant first (`bin(v)[2:].rjust(n, '0')` for `v < 2^n`). */
  function BitsOf(v: nat, n: nat): (bits: seq<Bit>)
    ensures |bits| == n
  {
    if n == 0 then [] else BitsOf(v / 2, n - 1) + [v % 2 == 1]
  }

  /** Every byte as eight binary digits, concatenated. */
  function Unpack(bytes: seq<Byte>): (bits: seq<Bit>)
    ensures |bits| == 8 * |bytes|
  {
    if bytes == [] then [] else BitsOf(bytes[0], 8) + Unpack(bytes[1..])
  }

  /** Python's `s[:size]` for a non-negative `size`. */
  function Prefix<T>(s: seq<T>, size: nat): (p: seq<T>)
    ensures |p| == if size < |s| then size else |s|
    ensures p <= s
  {
    if size < |s| then s[..size] else s
  }

  function Zeros(n: nat): (z: seq<Bit>)
    ensures |z| == n && forall i | 0 <= i < n :: !z[i]
  {
    if n == 0 then [] else Zeros(n - 1) + [false]
  }

  lemma {:induction false} ValueBound(bits: seq<Bit>, lo: nat, hi: nat)
    requires lo <= hi <= |bits|
    ensures ValueOf(bits, lo, hi) < Pow2(hi - lo)
    decreases hi - lo
  {
    if hi > lo {
      ValueBound(bits, lo, hi - 1);
    }
  }

  lemma {:induction false} ShlBound(v: nat, n: nat, m: nat)
    requires v < Pow2(n)
    ensures Shl(v, m) < Pow2(n + m)
  {
    if m > 0 {
      ShlBound(v, n, m - 1);
    }
  }

  /** A group of at most eight bits, shifted to the top of a byte, fits in the byte. */
  lemma GroupFits(bits: seq<Bit>, lo: nat, hi: nat)
    requires lo <= hi <= |bits| && hi - lo <= 8
    ensures Shl(ValueOf(bits, lo, hi), 8 - (hi - lo)) < 256
  {
    ValueBound(bits, lo, hi);
    ShlBound(ValueOf(bits, lo, hi), hi - lo, 8 - (hi - lo));
    assert Pow2(8) == 256;
  }

  /** Appending bits does not change the value of a range that ends before them. */
  lemma {:induction false} ValueFrame(bits: seq<Bit>, more: seq<Bit>, lo: nat, hi: nat)
    requires lo <= hi <= |bits|
    ensures ValueOf(bits + more, lo, hi) == ValueOf(bits, lo, hi)
    decreases hi - lo
  {
    if hi > lo {
      ValueFrame(bits, more, lo, hi - 1);
    }
  }

  /** The entry `bytes_array` gains or rewrites when one more bit is shifted in. */
  predicate Shifted(acc: seq<nat>, full: bool, bit: Bit, next: seq<nat>)
  {
    if full then next == acc + [BitValue(bit)]
    else acc != [] && next == acc[..|acc| - 1] + [acc[|acc| - 1] * 2 + BitValue(bit)]
  }

  /**
   * Shifting one more bit in: a new entry when the bits so far fill whole
   * bytes, otherwise `bytes_array[-1] << 1 | bit`.
   */
  lemma AccumulateSnoc(bits: seq<Bit>, bit: Bit)
    ensures Shifted(Accumulate(bits), |bits| % 8 == 0, bit, Accumulate(bits + [bit]))
  {
    AccumulateFromSnoc(bits, bit, 0);
  }

  lemma {:induction false} AccumulateFromSnoc(bits: seq<Bit>, bit: Bit, i: nat)
    requires i <= |bits|
    ensures Shifted(AccumulateFrom(bits, i), (|bits| - i) % 8 == 0, bit, AccumulateFrom(bits + [bit], i))
    decreases |bits| - i
  {
    var next := bits + [bit];
    if i + 8 <= |bits| {
      var e := i + 8;
      assert GroupEnd(next, i) == e;
      ValueFrame(bits, [bit], i, e);
      AccumulateFromSnoc(bits, bit, e);
      GroupShift(|bits| - e);
      ConsStep(ValueOf(bits, i, e), AccumulateFrom(bits, e), AccumulateFrom(next, e), bit, (|bits| - e) % 8 == 0);
    } else if i == |bits| {
      assert AccumulateFrom(next, i) == [ValueOf(next, i, i + 1)] + AccumulateFrom(next, i + 1);
    } else {
      assert GroupEnd(next, i) == |next|;
      ValueFrame(bits, [bit], i, |bits|);
      assert AccumulateFrom(next, i) == [ValueOf(next, i, |next|)] + AccumulateFrom(next, |next|);
      assert AccumulateFrom(bits, i) == [ValueOf(bits, i, |bits|)] + AccumulateFrom(bits, |bits|);
    }
  }

  /** A step behind a fixed first entry is the same step on the longer accumulator. */
  lemma ConsStep(v: nat, at: seq<nat>, nt: seq<nat>, bit: Bit, full: bool)
    requires Shifted(at, full, bit, nt)
    ensures Shifted([v] + at, full, bit, [v] + nt)
  {
    if !full {
      assert ([v] + at)[..|at|] == [v] + at[..|at| - 1];
    }
  }

  lemma GroupShift(n: nat)
    ensures (n + 8) % 8 == n % 8
  {
  }

  /**
   * The final shift, `bytes_array[-1] << (8 - bits_required % 8)` when the
   * `count` bits do not fill whole bytes.
   */
  function Finish(acc: seq<nat>, count: nat): seq<nat>
  {
    if count % 8 == 0 || acc == [] then acc
    else acc[..|acc| - 1] + [Shl(acc[|acc| - 1], 8 - count % 8)]
  }

  /** The final shift turns the accumulator into the packed bytes. */
  lemma FinishPack(bits: seq<Bit>)
    ensures Pack(bits) == Finish(Accumulate(bits), |bits|)
  {
    FinishPackFrom(bits, 0);
  }

  lemma {:induction false} FinishPackFrom(bits: seq<Bit>, i: nat)
    requires i <= |bits|
    ensures PackFrom(bits, i) == Finish(AccumulateFrom(bits, i), |bits| - i)
    decreases |bits| - i, 1
  {
    if i + 8 < |bits| {
      FinishFullGroup(bits, i);
    } else if i < |bits| {
      FinishLastGroup(bits, i);
    } else {
      FinishEmpty(bits, i);
    }
  }

  /** A full group in front: the rest is finished by induction. */
  lemma {:induction false} FinishFullGroup(bits: seq<Bit>, i: nat)
    requires i + 8 < |bits|
    ensures PackFrom(bits, i) == Finish(AccumulateFrom(bits, i), |bits| - i)
    decreases |bits| - i, 0
  {
    var e := i + 8;
    FinishPackFrom(bits, e);
    assert GroupEnd(bits, i) == e;
    var v := ValueOf(bits, i, e);
    assert PackFrom(bits, i) == [Shl(v, 0)] + PackFrom(bits, e);
    assert AccumulateFrom(bits, i) == [v] + AccumulateFrom(bits, e);
    FinishCons(v, AccumulateFrom(bits, e), |bits| - e);
  }

  lemma FinishEmpty(bits: seq<Bit>, i: nat)
    requires i == |bits|
    ensures PackFrom(bits, i) == Finish(AccumulateFrom(bits, i), |bits| - i)
  {
    assert PackFrom(bits, i) == [] && AccumulateFrom(bits, i) == [];
  }

  lemma FinishLastGroup(bits: seq<Bit>, i: nat)
    requires i < |bits| <= i + 8
    ensures PackFrom(bits, i) == Finish(AccumulateFrom(bits, i), |bits| - i)
  {
    var e := |bits|;
    assert GroupEnd(bits, i) == e;
    var v := ValueOf(bits, i, e);
    assert PackFrom(bits, i) == [Shl(v, 8 - (e - i))];
    assert AccumulateFrom(bits, i) == [v];
    GroupRemainder(e - i);
  }

  /** A full group in front changes neither the padding nor the last entry. */
  lemma FinishCons(v: nat, acc: seq<nat>, count: nat)
    requires count > 0 && |acc| == (count + 7) / 8
    ensures Finish([v] + acc, count + 8) == [Shl(v, 0)] + Finish(acc, count)
  {
    GroupShift(count);
    if count % 8 != 0 {
      assert ([v] + acc)[..|acc|] == [v] + acc[..|acc| - 1];
    }
  }

  lemma GroupRemainder(k: nat)
    requires 0 < k <= 8
    ensures k % 8 == if k == 8 then 0 else k
  {
  }

  /** The binary digits of the number some bits spell are those bits. */
  lemma {:induction false} BitsOfValue(bits: seq<Bit>, lo: nat, hi: nat)
    requires lo <= hi <= |bits|
    ensures BitsOf(ValueOf(bits, lo, hi), hi - lo) == bits[lo..hi]
    decreases hi - lo
  {
    if hi > lo {
      BitsOfValue(bits, lo, hi - 1);
      var v, b := ValueOf(bits, lo, hi - 1), bits[hi - 1];
      HalfStep(v, b);
      assert BitsOf(2 * v + BitValue(b), hi - lo) == BitsOf(v, hi - lo - 1) + [b];
      SliceSnoc(bits, lo, hi);
    }
  }

  lemma SliceSnoc<T>(s: seq<T>, lo: nat, hi: nat)
    requires lo < hi <= |s|
    ensures s[lo..hi] == s[lo..hi - 1] + [s[hi - 1]]
  {
  }

  /** Halving `2 * v + bit` gives `v` back and leaves `bit` over. */
  lemma HalfStep(v: nat, bit: Bit)
    ensures (2 * v + BitValue(bit)) / 2 == v && ((2 * v + BitValue(bit)) % 2 == 1) == bit
  {
  }

  /** Shifting left by `m` appends `m` zero digits. */
  lemma {:induction false} BitsOfShifted(v: nat, n: nat, m: nat)
    ensures BitsOf(Shl(v, m), n + m) == BitsOf(v, n) + Zeros(m)
  {
    if m > 0 {
      BitsOfShifted(v, n, m - 1);
      var w := Shl(v, m - 1);
      assert (2 * w) / 2 == w && (2 * w) % 2 == 0;
    }
  }

  lemma {:induction false} UnpackAppend(a: seq<Byte>, b: seq<Byte>)
    ensures Unpack(a + b) == Unpack(a) + Unpack(b)
  {
    if a != [] {
      assert (a + b)[1..] == a[1..] + b;
      UnpackAppend(a[1..], b);
    } else {
      assert a + b == b;
    }
  }

  lemma UnpackCons(x: Byte, rest: seq<Byte>)
    ensures Unpack([x] + rest) == BitsOf(x, 8) + Unpack(rest)
  {
    assert ([x] + rest)[1..] == rest;
  }

  /** Unpacking the packed bytes gives the bits followed by the zero padding. */
  lemma UnpackPack(bits: seq<Bit>)
    ensures Unpack(Pack(bits)) == bits + Zeros(8 * |Pack(bits)| - |bits|)
  {
    UnpackPackFrom(bits, 0);
    assert bits[0..] == bits;
  }

  lemma {:induction false} UnpackPackFrom(bits: seq<Bit>, i: nat)
    requires i <= |bits|
    ensures 8 * |PackFrom(bits, i)| >= |bits| - i
    ensures Unpack(PackFrom(bits, i)) == bits[i..] + Zeros(8 * |PackFrom(bits, i)| - (|bits| - i))
    decreases |bits| - i, 1
  {
    if i == |bits| {
      assert PackFrom(bits, i) == [] && bits[i..] == [];
    } else if i + 8 < |bits| {
      UnpackPackFull(bits, i);
    } else {
      UnpackPackLast(bits, i);
    }
  }

  /** A full group in front unpacks to its eight bits, the rest by induction. */
  lemma {:induction false} UnpackPackFull(bits: seq<Bit>, i: nat)
    requires i + 8 < |bits|
    ensures 8 * |PackFrom(bits, i)| >= |bits| - i
    ensures Unpack(PackFrom(bits, i)) == bits[i..] + Zeros(8 * |PackFrom(bits, i)| - (|bits| - i))
    decreases |bits| - i, 0
  {
    var e := i + 8;
    assert GroupEnd(bits, i) == e;
    GroupFits(bits, i, e);
    var x, rest := Shl(ValueOf(bits, i, e), 0), PackFrom(bits, e);
    assert PackFrom(bits, i) == [x] + rest;
    UnpackPackFrom(bits, e);
    var pad := 8 * |rest| - (|bits| - e);
    assert 8 * |PackFrom(bits, i)| - (|bits| - i) == pad;
    UnpackCons(x, rest);
    UnpackGroup(bits, i, e);
    assert Zeros(0) == [];
    assert bits[i..] == bits[i..e] + bits[e..];
    assert Unpack(PackFrom(bits, i)) == bits[i..e] + (bits[e..] + Zeros(pad));
  }

  /** The last group unpacks to its bits and the padding. */
  lemma UnpackPackLast(bits: seq<Bit>, i: nat)
    requires i < |bits| <= i + 8
    ensures 8 * |PackFrom(bits, i)| >= |bits| - i
    ensures Unpack(PackFrom(bits, i)) == bits[i..] + Zeros(8 * |PackFrom(bits, i)| - (|bits| - i))
  {
    var e := |bits|;
    assert GroupEnd(bits, i) == e;
    GroupFits(bits, i, e);
    var x := Shl(ValueOf(bits, i, e), 8 - (e - i));
    assert PackFrom(bits, i) == [x] + [];
    UnpackCons(x, []);
    UnpackGroup(bits, i, e);
    assert Unpack([]) == [];
    assert bits[i..] == bits[i..e];
  }

  /** One packed byte unpacks to its group of bits and the padding. */
  lemma UnpackGroup(bits: seq<Bit>, lo: nat, hi: nat)
    requires lo <= hi <= |bits| && hi - lo <= 8
    ensures BitsOf(Shl(ValueOf(bits, lo, hi), 8 - (hi - lo)), 8) == bits[lo..hi] + Zeros(8 - (hi - lo))
  {
    BitsOfShifted(ValueOf(bits, lo, hi), hi - lo, 8 - (hi - lo));
    BitsOfValue(bits, lo, hi);
  }

  /** Cutting the unpacked bytes to the bit count gives back exactly the bits packed. */
  lemma PackRoundTrip(bits: seq<Bit>)
    ensures Prefix(Unpack(Pack(bits)), |bits|) == bits
  {
    UnpackPack(bits);
    assert (bits + Zeros(8 * |Pack(bits)| - |bits|))[..|bits|] == bits;
  }

  /** Bytes after the packed ones are ignored once the bits are cut to the count. */
  lemma PackRoundTripExtra(bits: seq<Bit>, extra: seq<Byte>)
    ensures Prefix(Unpack(Pack(bits) + extra), |bits|) == bits
  {
    UnpackAppend(Pack(bits), extra);
    UnpackPack(bits);
    assert (bits + Zeros(8 * |Pack(bits)| - |bits|) + Unpack(extra))[..|bits|] == bits;
  }

  /** The padding of the last byte is its low bits, and they are zero. */
  lemma PaddingIsZero(bits: seq<Bit>, i: nat)
    requires |bits| <= i < 8 * |Pack(bits)|
    ensures !Unpack(Pack(bits))[i]
  {
    UnpackPack(bits);
  }

  /**
   * The step `tree_to_bytes` and `compress` both take per bit: a new entry
   * when the `count` bits so far fill whole bytes, otherwise
   * `bytes_array[-1] << 1 | bit`.
   */
  method ShiftBit(acc: seq<nat>, ghost bits: seq<Bit>, count: nat, bit: Bit) returns (next: seq<nat>)
    requires acc == Accumulate(bits) && count == |bits|
    ensures next == Accumulate(bits + [bit])
  {
    AccumulateSnoc(bits, bit);
    if count % 8 == 0 {
      next := acc + [BitValue(bit)];
    } else {
      next := acc[..|acc| - 1] + [acc[|acc| - 1] * 2 + BitValue(bit)];
    }
  }

  /**
   * The closing step of both: `bytes_array[-1] << (8 - bits_required % 8)`
   * when the bits do not fill whole bytes, then `bytes(bytes_array)`.
   */
  method FinishBytes(acc: seq<nat>, ghost bits: seq<Bit>, count: nat) returns (bytes: seq<Byte>)
    requires acc == Accumulate(bits) && count == |bits|
    ensures bytes == Pack(bits)
  {
    FinishPack(bits);
    var last := acc;
    if count % 8 != 0 {
      last := acc[..|acc| - 1] + [Shl(acc[|acc| - 1], 8 - count % 8)];
    }
    assert last == Pack(bits);
    bytes := last;
  }
}
