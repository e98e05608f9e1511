// The encoder of negative numbers for builds without 64-bit arithmetic: it works on a
// 32-bit word and feeds the missing sign bits in from above.
module Narrow {
  import opened Bits
  import opened Wire
  import opened Streams

  // The sign bits still to be fed in, above bit 31, when `c` of them are left.
  function Pending(c: nat): nat {
    Shl(Pow2(c) - 1, 32)
  }

  lemma PendingValues()
    ensures Pending(32) == 0xFFFF_FFFF_0000_0000
    ensures Pending(25) == 0x01FF_FFFF_0000_0000
    ensures Pending(18) == 0x3_FFFF_0000_0000
    ensures Pending(11) == 0x7FF_0000_0000
    ensures Pending(4) == 0xF_0000_0000
    ensures Pending(0) == 0
  {
    hide Shl;
    PowValues();
    ShlMul(Pow2(32) - 1, 32);
    ShlMul(Pow2(25) - 1, 32);
    ShlMul(Pow2(18) - 1, 32);
    ShlMul(Pow2(11) - 1, 32);
    ShlMul(Pow2(4) - 1, 32);
    ShlMul(Pow2(0) - 1, 32);
  }

  // 0xFF >> (8 - bits)
  function LowMask(bits: nat): nat
    requires bits <= 7
  {
    0xFF / Pow2(8 - bits)
  }

  lemma LowMasks()
    ensures LowMask(7) == 0x7F && LowMask(4) == 0xF
    ensures Shl(0x7F, 25) == 0xFE00_0000 && Shl(0xF, 25) == 0x1E00_0000
  {
    assert Pow2(1) == 2 && Pow2(4) == 16;
    PowValues();
    ShlMul(0x7F, 25);
    ShlMul(0xF, 25);
  }

  predicate Stage(c: nat) {
    c == 32 || c == 25 || c == 18 || c == 11 || c == 4
  }

  function Fed(c: nat): (bits: nat)
    ensures bits <= 7 && bits <= c
  {
    if c > 7 then 7 else c
  }

  lemma PendingStep(c: nat)
    requires Stage(c)
    ensures Pending(c) == 128 * (Shl(LowMask(Fed(c)), 25) + Pending(c - Fed(c)))
    ensures 0 < LowMask(Fed(c)) <= 0x7F && 0 < Shl(LowMask(Fed(c)), 25) <= 0xFE00_0000
  {
    hide Shl, Pow2, Pending, LowMask;
    LowMasks();
    PendingValues();
  }

  // One round: the 32-bit word together with the pending bits is shifted right by seven.
  lemma FeedBits(value: nat, c: nat)
    requires value < TWO32 && Stage(c)
    ensures var next := BitXor(value / 128, Shl(LowMask(Fed(c)), 25));
            && 0 < next < TWO32
            && (value + Pending(c)) / 128 == next + Pending(c - Fed(c))
            && (value + Pending(c)) % 128 == value % 128
  {
    hide BitXor, Shl, Pow2, Pending, LowMask, Fed;
    PendingStep(c);
    assert value / 128 < Pow2(25) by { PowValues(); }
    DisjointAdd(value / 128, LowMask(Fed(c)), 25);
    Quotient(value + Pending(c), 128, value / 128 + Shl(LowMask(Fed(c)), 25) + Pending(c - Fed(c)), value % 128);
  }

  // pb_encode_negative_varint emits what the 64-bit encoder emits for the sign
  // extension of its argument: ten bytes, which fill its buffer exactly.
  method EncodeNegativeVarint(os: OStream, v: nat) returns (ok: bool)
    requires os.Valid() && 0x8000_0000 <= v < TWO32
    requires os.buf == null ==> os.written + 10 <= SIZE_MAX
    modifies os, os.buf
    ensures |EncVarint(v + TWO64 - TWO32)| == 10
    ensures ok <==> old(os.Fits(10))
    ensures ok ==> os.Emitted(EncVarint(v + TWO64 - TWO32))
    ensures !ok ==> os.Emitted([])
  {
    var data := FillNegative(v);
    ok := os.Write(data);
  }

  // What is left of the wide word after i rounds has at most 64 - 7i bits, and more
  // than 57 - 7i.
  ghost predicate Remaining(wide: nat, i: nat) {
    i < 10 && wide < Pow2(64 - 7 * i) && (i < 9 ==> wide >= Pow2(63 - 7 * i)) && wide > 0
  }

  lemma RemainingNext(wide: nat, i: nat)
    requires Remaining(wide, i)
    ensures i < 9 ==> wide >= 128 && Remaining(wide / 128, i + 1)
    ensures i == 9 ==> wide == 1
  {
    assert Pow2(1) == 2;
    if i < 9 {
      ShiftedDown(wide, 64 - 7 * (i + 1));
      HalvedDown(wide, 63 - 7 * (i + 1));
      PowMonotone(0, 63 - 7 * (i + 1)) by { assert 63 - 7 * (i + 1) >= 0; }
    }
  }

  lemma HalvedDown(w: nat, n: nat)
    requires w >= Pow2(n + 7)
    ensures w / 128 >= Pow2(n)
  {
    PowAdd(7, n);
    assert Pow2(7) == 128;
  }

  // value >>= 7, then as many of the pending sign bits as fit above bit 24.
  method Feed(value: nat, compensation: nat) returns (next: nat, left: nat)
    requires value < TWO32 && (Stage(compensation) || compensation == 0)
    ensures left == compensation - Fed(compensation) && next < TWO32 && (compensation > 0 ==> next > 0)
    ensures next + Pending(left) == (value + Pending(compensation)) / 128
    ensures (value + Pending(compensation)) % 128 == value % 128
  {
    hide BitXor, Shl, Pow2, Pending, LowMask, Fed;
    next, left := value / 128, compensation;
    NothingPending();
    if compensation != 0 {
      FeedBits(value, compensation);
      var bits := Fed(compensation);
      next := BitXor(next, Shl(LowMask(bits), 25));
      left := compensation - bits;
    }
  }

  lemma WideStep(wide: nat, i: nat)
    requires Remaining(wide, i)
    ensures i < 9 ==> Remaining(wide / 128, i + 1) && EncVarint(wide) == [wide % 128 + 128] + EncVarint(wide / 128)
    ensures i == 9 ==> wide == 1 && EncVarint(wide) == [1]
  {
    RemainingNext(wide, i);
  }

  // The buffer after i rounds.
  ghost predicate Filled(all: bytes, done: bytes, i: nat, wide: nat) {
    && |done| == i
    && if i < 10 then Remaining(wide, i) && all == done + EncVarint(wide)
       else i == 10 && wide == 0 && done[9] == 129 && all == done[..9] + [1]
  }

  lemma FilledNext(all: bytes, done: bytes, i: nat, wide: nat)
    requires Filled(all, done, i, wide) && i < 10
    ensures Filled(all, done + [wide % 128 + 128], i + 1, wide / 128)
  {
    WideStep(wide, i);
    if i == 9 { assert (done + [129])[..9] == done; }
  }

  lemma FilledFirst(v: nat)
    requires 0x8000_0000 <= v < TWO32
    ensures v + Pending(32) == v + TWO64 - TWO32
    ensures Filled(EncVarint(v + TWO64 - TWO32), [], 0, v + Pending(32))
  {
    hide EncVarint;
    PendingValues();
    PowValues();
    assert [] + EncVarint(v + TWO64 - TWO32) == EncVarint(v + TWO64 - TWO32);
  }

  // The sign bits left after i rounds: 32, 25, 18, 11, 4, then none.
  function LeftAfter(i: nat): (c: nat)
    ensures Stage(c) || c == 0
  {
    if i <= 4 then 32 - 7 * i else 0
  }

  lemma LeftNext(i: nat)
    ensures LeftAfter(i) - Fed(LeftAfter(i)) == LeftAfter(i + 1)
    ensures LeftAfter(0) == 32 && (i >= 5 ==> LeftAfter(i) == 0) && (i < 5 ==> LeftAfter(i) > 0)
  {
  }

  lemma WhenFull(all: bytes, done: bytes, i: nat, wide: nat)
    requires Filled(all, done, i, wide)
    ensures i == 10 <==> wide == 0
    ensures i == 10 ==> done[9] == 129 && all == done[..9] + [1]
    ensures |done| == i <= 10
  {
    hide EncVarint, Pow2;
  }

  method FillNegative(v: nat) returns (data: bytes)
    requires 0x8000_0000 <= v < TWO32
    ensures data == EncVarint(v + TWO64 - TWO32) && |data| == 10
  {
    hide EncVarint, Pending, Remaining, Filled, Fed, LeftAfter;
    var buffer := new byte[10];
    var value: nat, i: nat, compensation: nat := v, 0, 32;
    ghost var all := EncVarint(v + TWO64 - TWO32);
    FilledFirst(v);
    LeftNext(0);
    NothingPending();
    assert buffer[..0] == [];
    while value != 0
      invariant i <= 10 && value < TWO32 && compensation == LeftAfter(i)
      invariant compensation > 0 ==> value > 0
      invariant Filled(all, buffer[..i], i, value + Pending(compensation))
      decreases 10 - i
      modifies buffer
    {
      ghost var done, wide := buffer[..i], value + Pending(compensation);
      WhenFull(all, done, i, wide);
      FilledNext(all, done, i, wide);
      LeftNext(i);
      buffer[i] := value % 128 + 128;
      value, compensation := Feed(value, compensation);
      i := i + 1;
      assert buffer[..i] == done + [wide % 128 + 128];
    }
    WhenFull(all, buffer[..i], i, Pending(compensation));
    ghost var done := buffer[..9];
    buffer[i - 1] := buffer[i - 1] % 128;
    data := buffer[..i];
    assert data == done + [1];
  }

  lemma NothingPending()
    ensures Pending(0) == 0
  {
    PendingValues();
  }
}
