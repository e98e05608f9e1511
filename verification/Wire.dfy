// The byte-level formats of the Protocol Buffers encoding, as values: base-128
// varints, zigzag integers, little-endian words and record tags. Encoders are total
// functions to byte strings; decoders say which value a prefix of the input denotes
// and how many bytes that prefix has.
module Wire {
  import opened Bits

  type byte = b: int | 0 <= b < 256
  type bytes = seq<byte>

  // The outcome of reading from the front of a byte string.
  datatype Read<+T> = Ok(value: T, n: nat) | Fail

  // The same read, when k more bytes precede what it consumed.
  function After<T>(k: nat, r: Read<T>): Read<T> {
    match r
    case Ok(v, n) => Ok(v, k + n)
    case Fail => Fail
  }

  // The width of size_t is a build parameter: 16, 32 or 64 bits.
  type SizeLimit = n: nat | n == 0xFFFF || n == 0xFFFF_FFFF || n == TWO64 - 1 witness 0xFFFF
  const SIZE_MAX: SizeLimit

  // The longest block: its length is a uint32_t on the wire and a size_t in memory.
  const LENGTH_MAX: nat := if SIZE_MAX < TWO32 then SIZE_MAX else TWO32 - 1

  // ---------- base-128 varints ----------

  function EncVarint(v: nat): (r: bytes)
    ensures |r| >= 1
  {
    if v < 128 then [v] else [v % 128 + 128] + EncVarint(v / 128)
  }

  // Reads at most `fuel` groups of seven bits, least significant group first.
  function Groups(s: bytes, fuel: nat): (r: Read<nat>)
    ensures r.Ok? ==> 1 <= r.n <= |s| && r.n <= fuel
  {
    if fuel == 0 || s == [] then Fail
    else if s[0] < 128 then Ok(s[0], 1)
    else
      match Groups(s[1..], fuel - 1)
      case Ok(v, n) => Ok(s[0] - 128 + 128 * v, n + 1)
      case Fail => Fail
  }

  // A 64-bit varint: ten groups at most, kept modulo 2^64.
  function DecVarint(s: bytes): (r: Read<nat>)
    ensures r.Ok? ==> r.value < TWO64 && 1 <= r.n <= |s| && r.n <= 10
  {
    match Groups(s, 10)
    case Ok(v, n) => Ok(v % TWO64, n)
    case Fail => Fail
  }

  lemma ShiftedDown(w: nat, n: nat)
    requires w < Pow2(n + 7)
    ensures w / 128 < Pow2(n)
  {
    PowAdd(7, n);
    assert Pow2(7) == 128;
  }

  lemma {:induction false} GroupsOfEnc(v: nat, t: bytes, fuel: nat)
    requires fuel > 0 && v < Pow2(7 * fuel)
    ensures Groups(EncVarint(v) + t, fuel) == Ok(v, |EncVarint(v)|)
  {
    if v >= 128 {
      assert fuel > 1 by { assert Pow2(7) == 128; }
      ShiftedDown(v, 7 * (fuel - 1));
      GroupsOfEnc(v / 128, t, fuel - 1);
      assert (EncVarint(v) + t)[1..] == EncVarint(v / 128) + t;
    }
  }

  // Decoding inverts encoding on every 64-bit value, in at most ten bytes.
  lemma VarintRoundTrip(v: nat, t: bytes)
    requires v < TWO64
    ensures DecVarint(EncVarint(v) + t) == Ok(v, |EncVarint(v)|)
    ensures |EncVarint(v)| <= 10
  {
    hide Pow2, Groups, EncVarint;
    PowValues();
    PowMonotone(64, 70);
    GroupsOfEnc(v, t, 10);
  }

  // ---------- the separate 32-bit varint reader ----------

  // A byte at bit position 32 or later may only repeat the sign of the result.
  predicate Overflows(b: byte, bitpos: nat, result: nat) {
    && bitpos >= 32 && b % 128 != 0
    && (result / 0x8000_0000 == 0 || b != if bitpos < 63 then 255 else 1)
  }

  function Collect(b: byte, bitpos: nat, result: nat): nat {
    if bitpos >= 32 then result else BitOr(result, Shl(b % 128, bitpos) % TWO32)
  }

  // Continues after the first byte, at bit position `bitpos`; the position is kept in
  // an 8-bit counter, so it wraps around in very long encodings.
  function Varint32From(s: bytes, bitpos: nat, result: nat): (r: Read<nat>)
    ensures r.Ok? ==> 1 <= r.n <= |s|
    decreases |s|
  {
    if s == [] || Overflows(s[0], bitpos, result) then Fail
    else if s[0] >= 128 then
      After(1, Varint32From(s[1..], (bitpos + 7) % 256, Collect(s[0], bitpos, result)))
    else if bitpos == 28 && s[0] >= 16 then Fail
    else Ok(Collect(s[0], bitpos, result), 1)
  }

  function DecVarint32(s: bytes): (r: Read<nat>)
    ensures r.Ok? ==> 1 <= r.n <= |s|
  {
    if s == [] then Fail
    else if s[0] < 128 then Ok(s[0], 1)
    else After(1, Varint32From(s[1..], 7, s[0] % 128))
  }

  lemma CollectBound(b: byte, bitpos: nat, result: nat)
    requires result < TWO32
    ensures Collect(b, bitpos, result) < TWO32
  {
    PowValues();
    OrBound(result, Shl(b % 128, bitpos) % TWO32, 32);
  }

  lemma {:induction false} Varint32FromBound(s: bytes, bitpos: nat, result: nat)
    requires result < TWO32
    ensures Varint32From(s, bitpos, result).Ok? ==> Varint32From(s, bitpos, result).value < TWO32
    decreases |s|
  {
    if s != [] {
      CollectBound(s[0], bitpos, result);
      Varint32FromBound(s[1..], (bitpos + 7) % 256, Collect(s[0], bitpos, result));
    }
  }

  // The result always fits the 32-bit destination.
  lemma Varint32Bound(s: bytes)
    ensures DecVarint32(s).Ok? ==> DecVarint32(s).value < TWO32
  {
    if s != [] && s[0] >= 128 {
      Varint32FromBound(s[1..], 7, s[0] % 128);
    }
  }

  // Which 64-bit values the 32-bit reader accepts in canonical form: those that fit,
  // and those whose bits 31 and 63 are set and whose groups at bit positions 35, 42,
  // 49 and 56 are all zeros or all ones. Bits 32 to 34 are not examined.
  predicate SignGroups(w: nat, groups: nat) {
    if groups == 0 then w == 1
    else (w % 128 == 0 || w % 128 == 127) && SignGroups(w / 128, groups - 1)
  }

  const SIGN_GROUPS: nat := 4

  predicate Fits32(v: nat) {
    v < TWO32 || (v / 0x8000_0000 % 2 == 1 && SignGroups(v / 0x8_0000_0000, SIGN_GROUPS))
  }

  lemma {:induction false} NoSign(g: nat)
    ensures !SignGroups(0, g)
  {
    if g > 0 { NoSign(g - 1); }
  }

  lemma EncTail(w: nat, t: bytes)
    requires w >= 128
    ensures EncVarint(w) + t == [w % 128 + 128] + (EncVarint(w / 128) + t)
    ensures |EncVarint(w)| == 1 + |EncVarint(w / 128)|
  {
  }

  // The groups from bit position 35 on; `left` groups may follow this one.
  lemma {:induction false} Varint32High(w: nat, left: nat, bound: nat, r: nat, t: bytes)
    requires left <= 4 && 0 < w < bound && bound == Pow2(1 + 7 * left)
    ensures Varint32From(EncVarint(w) + t, 63 - 7 * left, r) ==
            if r / 0x8000_0000 != 0 && SignGroups(w, left) then Ok(r, |EncVarint(w)|) else Fail
    decreases left
  {
    hide BitOr, Shl;
    if left > 0 {
      assert bound == 128 * Pow2(1 + 7 * (left - 1)) by { PowAdd(7, 1 + 7 * (left - 1)); assert Pow2(7) == 128; }
      if w >= 128 {
        EncTail(w, t);
        assert (EncVarint(w) + t)[1..] == EncVarint(w / 128) + t;
        Varint32High(w / 128, left - 1, Pow2(1 + 7 * (left - 1)), r, t);
      } else {
        NoSign(left - 1);
      }
    } else {
      assert bound == 2;
    }
  }

  // What the reader must answer at bit position n, r being collected and w to come.
  predicate Reads32(w: nat, n: nat, r: nat, v: nat, t: bytes) {
    Varint32From(EncVarint(w) + t, n, r) == if Fits32(v) then Ok(v % TWO32, |EncVarint(w)|) else Fail
  }

  // The group at bit position 28, of which four bits fit, when it is the last one.
  lemma Varint32Last(w: nat, r: nat, t: bytes)
    requires 0 < w < 128 && r < 0x1000_0000
    ensures Reads32(w, 28, r, r + w * 0x1000_0000, t)
  {
    hide Varint32From, Collect;
    ReadGroup28(w, t, r);
    CollectLast(w, r);
    Bits28(w, r);
    NoSign(SIGN_GROUPS);
  }

  lemma FitsCut(w: nat, r: nat)
    requires 16 <= w && r < 0x1000_0000
    ensures var v := r + w * 0x1000_0000;
            var r' := r + w % 16 * 0x1000_0000;
            && v % TWO32 == r'
            && Fits32(v) == (r' / 0x8000_0000 != 0 && SignGroups(w / 128, SIGN_GROUPS))
  {
    hide SignGroups;
    Bits28(w, r);
    Bit31(w, r);
    Bit31(w % 16, r);
    assert w / 8 % 2 == w % 16 / 8;
  }

  lemma LastGroup(w: nat)
    ensures (w % 128 + 128) % 16 == w % 16 && w % 128 + 128 < 256
  {
  }

  // The group at bit position 28 when others follow it.
  lemma LastStep(w: nat, r: nat, t: bytes)
    requires w >= 128 && r < 0x1000_0000
    ensures Varint32From(EncVarint(w) + t, 28, r) ==
            After(1, Varint32From(EncVarint(w / 128) + t, 35, r + w % 16 * 0x1000_0000))
    ensures |EncVarint(w)| == 1 + |EncVarint(w / 128)|
  {
    hide Varint32From, Collect, EncVarint;
    var b := w % 128 + 128;
    LastGroup(w);
    CollectLast(b, r);
    EncTail(w, t);
    ReadGroup28(b, EncVarint(w / 128) + t, r);
  }

  lemma Varint32Cut(w: nat, r: nat, t: bytes)
    requires 128 <= w < 0x10_0000_0000 && r < 0x1000_0000
    ensures Reads32(w, 28, r, r + w * 0x1000_0000, t)
  {
    hide Varint32From, Collect, SignGroups, EncVarint, Fits32, Pow2;
    var r' := r + w % 16 * 0x1000_0000;
    LastStep(w, r, t);
    Varint32High(w / 128, SIGN_GROUPS, 0x2000_0000, r', t) by { PowValues(); }
    FitsCut(w, r);
  }

  lemma Multiples(d: int, m: nat)
    ensures d >= 1 ==> d * m >= m
    ensures d <= -1 ==> d * m + m <= 0
  {
    if d >= 1 {
      assert (d - 1) * m >= 0;
    } else if d <= -1 {
      assert (-d - 1) * m >= 0;
    }
  }

  lemma Quotient(v: nat, m: nat, q: nat, r: nat)
    requires r < m && v == q * m + r
    ensures v / m == q && v % m == r
  {
    var d: int := q - v / m;
    assert d * m == v % m - r;
    Multiples(d, m);
  }

  // One step of wrapping around, in either direction.
  lemma Wrap(x: int, m: nat)
    requires m > 0
    ensures 0 <= x % m < m && (x >= 0 ==> x % m <= x)
    ensures 0 <= x < m ==> x % m == x
    ensures m <= x < 2 * m ==> x % m == x - m
    ensures -(m as int) <= x < 0 ==> x % m == x + m
  {
    if 0 <= x < m {
      Quotient(x, m, 0, x);
    } else if m <= x < 2 * m {
      Quotient(x, m, 1, x - m);
    } else if -(m as int) <= x < 0 {
      assert x == -1 * m + (x + m);
      var d: int := x / m + 1;
      assert d * m == x + m - x % m;
      Multiples(d, m);
    }
  }

  lemma Bits28(w: nat, r: nat)
    requires r < 0x1000_0000
    ensures var v := r + w * 0x1000_0000;
            && v % TWO32 == r + w % 16 * 0x1000_0000
            && v / 0x8_0000_0000 == w / 128
            && (v < TWO32 <==> w < 16)
  {
    var v := r + w * 0x1000_0000;
    Quotient(v, TWO32, w / 16, r + w % 16 * 0x1000_0000);
    Quotient(v, 0x8_0000_0000, w / 128, r + w % 128 * 0x1000_0000);
  }

  lemma Bit31(w: nat, r: nat)
    requires r < 0x1000_0000
    ensures (r + w * 0x1000_0000) / 0x8000_0000 == w / 8
  {
    Quotient(r + w * 0x1000_0000, 0x8000_0000, w / 8, r + w % 8 * 0x1000_0000);
  }

  lemma ReadGroup28(b: byte, rest: bytes, r: nat)
    ensures Varint32From([b] + rest, 28, r) ==
            if b >= 128 then After(1, Varint32From(rest, 35, Collect(b, 28, r)))
            else if b >= 16 then Fail else Ok(Collect(b, 28, r), 1)
  {
    assert ([b] + rest)[1..] == rest;
  }

  lemma CollectLast(b: byte, r: nat)
    requires r < 0x1000_0000
    ensures Collect(b, 28, r) == r + b % 16 * 0x1000_0000
  {
    hide BitOr, Shl, Pow2;
    PowValues();
    ShlMul(b % 128, 28);
    ShlMul(b % 16, 28);
    Quotient(b % 128 * 0x1000_0000, TWO32, b % 128 / 16, b % 16 * 0x1000_0000);
    DisjointAdd(r, b % 16, 28);
  }

  // One of the groups at bit positions 7, 14 and 21: nothing is cut off.
  lemma CollectLow(b: byte, k: nat, r: nat)
    requires 1 <= k <= 3 && r < Pow2(7 * k)
    ensures Collect(b, 7 * k, r) == r + Shl(b % 128, 7 * k) < Pow2(7 * k + 7)
  {
    hide BitOr, Shl, Pow2;
    PowValues();
    ShlBound(b % 128, 7, 7 * k);
    PowMonotone(7 * k + 7, 32);
    DisjointAdd(r, b % 128, 7 * k);
  }

  lemma SplitGroup(w: nat, n: nat)
    ensures Shl(w, n) == Shl(w % 128, n) + Shl(w / 128, n + 7)
  {
    ShlAdd(w / 128, 7, n);
    ShlSum(w % 128, 128 * (w / 128), n);
    ShlMul(w / 128, 7);
    PowValues();
  }

  lemma ReadGroup(b: byte, rest: bytes, bitpos: nat, r: nat)
    requires bitpos < 28
    ensures Varint32From([b] + rest, bitpos, r) ==
            if b < 128 then Ok(Collect(b, bitpos, r), 1)
            else After(1, Varint32From(rest, bitpos + 7, Collect(b, bitpos, r)))
  {
    assert ([b] + rest)[1..] == rest;
  }

  lemma Varint32OneLeft(w: nat, k: nat, r: nat, t: bytes)
    requires 1 <= k <= 3 && w < 128 && r < Pow2(7 * k)
    ensures Reads32(w, 7 * k, r, r + Shl(w, 7 * k), t)
  {
    hide Varint32From, Collect, Shl, SignGroups, Pow2;
    assert Collect(w, 7 * k, r) == r + Shl(w, 7 * k) < TWO32 by {
      CollectLow(w, k, r);
      PowMonotone(7 * k + 7, 32);
      PowValues();
    }
    ReadGroup(w, t, 7 * k, r);
  }

  lemma Varint32MoreLeft(w: nat, k: nat, r: nat, t: bytes)
    requires 1 <= k <= 3 && w >= 128 && r < Pow2(7 * k)
    requires Reads32(w / 128, 7 * k + 7, r + Shl(w % 128, 7 * k), r + Shl(w, 7 * k), t)
    ensures Reads32(w, 7 * k, r, r + Shl(w, 7 * k), t)
  {
    hide Varint32From, Collect, Shl, Fits32;
    CollectLow(w % 128 + 128, k, r);
    EncTail(w, t);
    ReadGroup(w % 128 + 128, EncVarint(w / 128) + t, 7 * k, r);
  }

  // The groups at bit positions 7 to 28 are collected.
  lemma {:induction false} Varint32Low(w: nat, k: nat, r: nat, t: bytes)
    requires 1 <= k <= 4 && 0 < w < Pow2(64 - 7 * k) && r < Pow2(7 * k)
    ensures Reads32(w, 7 * k, r, r + Shl(w, 7 * k), t)
    decreases 4 - k
  {
    hide Varint32From, Fits32, Shl, Pow2, EncVarint;
    if k == 4 {
      assert Shl(w, 28) == w * 0x1000_0000 by { ShlMul(w, 28); PowValues(); }
      assert r < 0x1000_0000 && w < 0x10_0000_0000 by { PowValues(); }
      if w < 128 { Varint32Last(w, r, t); } else { Varint32Cut(w, r, t); }
    } else if w < 128 {
      Varint32OneLeft(w, k, r, t);
    } else {
      CollectLow(w % 128, k, r);
      ShiftedDown(w, 64 - 7 * (k + 1));
      Varint32Low(w / 128, k + 1, r + Shl(w % 128, 7 * k), t);
      SplitGroup(w, 7 * k);
      Varint32MoreLeft(w, k, r, t);
    }
  }

  // Exactly what the 32-bit reader does with the canonical encoding of a 64-bit
  // value: it either rejects it or yields its low 32 bits, consuming all of it.
  lemma Varint32OnCanonical(v: nat, t: bytes)
    requires v < TWO64
    ensures DecVarint32(EncVarint(v) + t) ==
            if Fits32(v) then Ok(v % TWO32, |EncVarint(v)|) else Fail
  {
    if v < 128 {
      assert DecVarint32(EncVarint(v) + t) == Ok(v, 1);
    } else {
      Varint32TwoBytes(v, t);
    }
  }

  lemma Varint32TwoBytes(v: nat, t: bytes)
    requires 128 <= v < TWO64
    ensures DecVarint32(EncVarint(v) + t) ==
            if Fits32(v) then Ok(v % TWO32, |EncVarint(v)|) else Fail
  {
    hide Fits32, Varint32From, Shl, Pow2;
    EncTail(v, t);
    assert (EncVarint(v) + t)[1..] == EncVarint(v / 128) + t;
    assert v / 128 < Pow2(57) && v % 128 < Pow2(7) by { PowValues(); }
    assert v % 128 + Shl(v / 128, 7) == v by { ShlMul(v / 128, 7); PowValues(); }
    Varint32Low(v / 128, 1, v % 128, t);
  }

  lemma SignGroups4(w: nat)
    requires w < 0x2000_0000
    ensures SignGroups(w, 4) ==> w >= 0x1000_0000
    ensures w == 0x1FFF_FFFF || w == 0x1000_0000 ==> SignGroups(w, 4)
  {
    var a := w / 128;
    var b := a / 128;
    var c := b / 128;
    assert SignGroups(w, 4) == ((w % 128 == 0 || w % 128 == 127) && SignGroups(a, 3));
    assert SignGroups(a, 3) == ((a % 128 == 0 || a % 128 == 127) && SignGroups(b, 2));
    assert SignGroups(b, 2) == ((b % 128 == 0 || b % 128 == 127) && SignGroups(c, 1));
    assert SignGroups(c, 1) == ((c % 128 == 0 || c % 128 == 127) && c / 128 == 1);
  }

  // Every 32-bit value, and every sign-extended negative one, is read back as its low
  // 32 bits; everything in [2^32, 2^63) is rejected.
  lemma Varint32Cases(v: nat, t: bytes)
    requires v < TWO64
    ensures v < TWO32 || v >= TWO64 - 0x8000_0000
            ==> DecVarint32(EncVarint(v) + t) == Ok(v % TWO32, |EncVarint(v)|)
    ensures TWO32 <= v < 0x8000_0000_0000_0000 ==> DecVarint32(EncVarint(v) + t) == Fail
  {
    hide DecVarint32, SignGroups;
    Varint32OnCanonical(v, t);
    SignGroups4(v / 0x8_0000_0000);
  }

  // An accepted value above 2^63 need not be a sign extension: this one has bits 31
  // and 63 only.
  lemma Varint32AcceptsNonExtension()
    ensures DecVarint32(EncVarint(0x8000_0000_8000_0000)).Ok?
  {
    hide DecVarint32, SignGroups, EncVarint;
    var v := 0x8000_0000_8000_0000;
    Varint32OnCanonical(v, []);
    assert EncVarint(v) + [] == EncVarint(v);
    SignGroups4(v / 0x8_0000_0000);
  }

  // ---------- zigzag ----------

  function ZigZag(v: int): (z: nat) {
    if v < 0 then -2 * v - 1 else 2 * v
  }

  function UnZigZag(z: nat): int {
    if z % 2 == 1 then -1 - z / 2 else z / 2
  }

  lemma ZigZagRoundTrip(v: int)
    requires -0x8000_0000_0000_0000 <= v < 0x8000_0000_0000_0000
    ensures ZigZag(v) < TWO64 && UnZigZag(ZigZag(v)) == v
  {
  }

  // ---------- little-endian words ----------

  function EncFixed(v: nat, width: nat): (r: bytes)
    ensures |r| == width
  {
    if width == 0 then [] else [v % 256] + EncFixed(v / 256, width - 1)
  }

  function FixedValue(s: bytes): nat {
    if s == [] then 0 else s[0] + 256 * FixedValue(s[1..])
  }

  lemma {:induction false} FixedRoundTrip(v: nat, width: nat)
    requires v < Pow2(8 * width)
    ensures FixedValue(EncFixed(v, width)) == v
  {
    if width > 0 {
      PowAdd(8, 8 * (width - 1));
      assert Pow2(8) == 256;
      FixedRoundTrip(v / 256, width - 1);
    }
  }

  lemma {:induction false} FixedValueBound(s: bytes)
    ensures FixedValue(s) < Pow2(8 * |s|)
  {
    if s != [] {
      FixedValueBound(s[1..]);
      PowAdd(8, 8 * (|s| - 1));
      assert Pow2(8) == 256;
    }
  }

  // ---------- tags and raw data ----------

  const WT_VARINT: nat := 0
  const WT_64BIT: nat := 1
  const WT_STRING: nat := 2
  const WT_32BIT: nat := 5

  function EncTag(wireType: nat, tag: nat): bytes {
    EncVarint(tag * 8 + wireType)
  }

  datatype TagRead = Tag(tag: nat, wireType: nat, n: nat) | Terminator(n: nat) | BadTag

  // A zero tag word ends the message.
  function DecTag(s: bytes): (r: TagRead)
    ensures r.Tag? ==> 1 <= r.n <= |s| && r.wireType < 8
    ensures r.Terminator? ==> 1 <= r.n <= |s|
  {
    match DecVarint32(s)
    case Fail => BadTag
    case Ok(v, n) => if v == 0 then Terminator(n) else Tag(v / 8, v % 8, n)
  }

  lemma TagRoundTrip(wireType: nat, tag: nat, t: bytes)
    requires wireType < 8 && 0 < tag * 8 + wireType < TWO32
    ensures DecTag(EncTag(wireType, tag) + t) == Tag(tag, wireType, |EncTag(wireType, tag)|)
  {
    hide DecVarint32, EncVarint;
    Varint32Cases(tag * 8 + wireType, t);
  }

  // Exactly n raw bytes.
  function Raw(s: bytes, n: nat): (r: Read<bytes>)
    ensures r.Ok? ==> r.n == n <= |s| && |r.value| == n
  {
    if n <= |s| then Ok(s[..n], n) else Fail
  }

  // A length-delimited region: the length as a 32-bit varint, then that many bytes.
  function DecBlock(s: bytes): (r: Read<bytes>)
    ensures r.Ok? ==> 1 + |r.value| <= r.n <= |s| && r.value == s[r.n - |r.value|..r.n]
  {
    match DecVarint32(s)
    case Fail => Fail
    case Ok(size, n) => if size <= |s| - n then Ok(s[n..n + size], n + size) else Fail
  }

  function EncBlock(data: bytes): (r: bytes) {
    EncVarint(|data|) + data
  }

  lemma BlockRoundTrip(data: bytes, t: bytes)
    requires |data| < TWO32
    ensures DecBlock(EncBlock(data) + t) == Ok(data, |EncBlock(data)|)
  {
    hide DecVarint32, EncVarint;
    Varint32Cases(|data|, data + t);
    var s := EncBlock(data) + t;
    assert s == EncVarint(|data|) + (data + t);
    assert s[|EncVarint(|data|)|..|EncBlock(data)|] == data;
  }

  // Skips a varint of any length.
  function SkipVarint(s: bytes): (r: Read<()>)
    ensures r.Ok? ==> 1 <= r.n <= |s|
  {
    if s == [] then Fail
    else if s[0] < 128 then Ok((), 1)
    else After(1, SkipVarint(s[1..]))
  }

  // Conversion to size_t.
  function Narrow(x: nat): (r: nat)
    ensures r <= x && r <= SIZE_MAX
    ensures x <= SIZE_MAX ==> r == x
    ensures SIZE_MAX < x <= 2 * SIZE_MAX + 1 ==> r == x - SIZE_MAX - 1
  {
    Wrap(x, SIZE_MAX + 1);
    x % (SIZE_MAX + 1)
  }

  // pb_skip_string. The 32-bit length is passed on as a size_t.
  function SkipString(s: bytes): (r: Read<()>)
    ensures r.Ok? ==> 1 <= r.n <= |s|
  {
    match DecVarint32(s)
    case Fail => Fail
    case Ok(length, n) =>
      if Narrow(length) <= |s| - n then Ok((), n + Narrow(length)) else Fail
  }

  // The length of the block that is announced at the front, and the bytes that are there.
  function Announced(s: bytes): nat {
    match DecVarint32(s)
    case Ok(length, _) => length
    case Fail => 0
  }

  function Behind(s: bytes): nat {
    match DecVarint32(s)
    case Ok(_, n) => |s| - n
    case Fail => 0
  }

  // Skipping is exact when it takes the announced block if that is there, and fails if not.
  predicate SkipsBlock(s: bytes) {
    SkipString(s) == match DecBlock(s)
                     case Ok(_, n) => Ok((), n)
                     case Fail => Fail
  }

  lemma SkipExact(s: bytes)
    ensures SkipsBlock(s) <==> Announced(s) <= SIZE_MAX || Narrow(Announced(s)) > Behind(s)
  {
    hide DecVarint32;
    var r := DecVarint32(s);
    if r.Ok? && r.value > SIZE_MAX { Wrap(r.value, SIZE_MAX + 1); }
  }

  // With a 16-bit size_t, a block of 65536 bytes that are not there is skipped by taking
  // its length alone.
  lemma SkipTruncates(t: bytes)
    requires SIZE_MAX == 0xFFFF
    ensures SkipString([0x80, 0x80, 0x04] + t) == Ok((), 3)
              && (|t| < 0x1_0000 ==> DecBlock([0x80, 0x80, 0x04] + t).Fail?)
  {
    var s := [0x80, 0x80, 0x04] + t;
    assert EncVarint(0x1_0000) == [0x80, 0x80, 0x04] by { assert EncVarint(0x200) == [0x80, 0x04]; }
    hide DecVarint32, EncVarint;
    Varint32Cases(0x1_0000, t);
  }

  function SkipField(wireType: nat, s: bytes): (r: Read<()>)
    ensures r.Ok? ==> r.n <= |s|
  {
    if wireType == WT_VARINT then SkipVarint(s)
    else if wireType == WT_64BIT then if 8 <= |s| then Ok((), 8) else Fail
    else if wireType == WT_STRING then SkipString(s)
    else if wireType == WT_32BIT then if 4 <= |s| then Ok((), 4) else Fail
    else Fail
  }

  lemma {:induction false} SkipOfVarint(v: nat, t: bytes)
    ensures SkipVarint(EncVarint(v) + t) == Ok((), |EncVarint(v)|)
  {
    if v >= 128 {
      SkipOfVarint(v / 128, t);
      assert (EncVarint(v) + t)[1..] == EncVarint(v / 128) + t;
    }
  }

  // ---------- locality: a successful read looks only at what it consumes ----------

  lemma {:induction false} GroupsLocal(s: bytes, t: bytes, fuel: nat)
    requires Groups(s, fuel).Ok?
    ensures Groups(s + t, fuel) == Groups(s, fuel)
  {
    if s[0] >= 128 {
      GroupsLocal(s[1..], t, fuel - 1);
      assert (s + t)[1..] == s[1..] + t;
    }
  }

  lemma {:induction false} Varint32FromLocal(s: bytes, t: bytes, bitpos: nat, result: nat)
    requires Varint32From(s, bitpos, result).Ok?
    ensures Varint32From(s + t, bitpos, result) == Varint32From(s, bitpos, result)
    decreases |s|
  {
    if s[0] >= 128 {
      Varint32FromLocal(s[1..], t, (bitpos + 7) % 256, Collect(s[0], bitpos, result));
      assert (s + t)[1..] == s[1..] + t;
    }
  }

  lemma Varint32Local(s: bytes, t: bytes)
    requires DecVarint32(s).Ok?
    ensures DecVarint32(s + t) == DecVarint32(s)
  {
    if s[0] >= 128 {
      Varint32FromLocal(s[1..], t, 7, s[0] % 128);
      assert (s + t)[1..] == s[1..] + t;
    }
  }

  lemma BlockLocal(s: bytes, t: bytes)
    requires DecBlock(s).Ok?
    ensures DecBlock(s + t) == DecBlock(s)
  {
    Varint32Local(s, t);
    var n := DecBlock(s).n;
    var k := n - |DecBlock(s).value|;
    assert (s + t)[k..n] == s[k..n];
  }

  lemma {:induction false} SkipVarintLocal(s: bytes, t: bytes)
    requires SkipVarint(s).Ok?
    ensures SkipVarint(s + t) == SkipVarint(s)
  {
    if s[0] >= 128 {
      SkipVarintLocal(s[1..], t);
      assert (s + t)[1..] == s[1..] + t;
    }
  }

  lemma SkipLocal(wireType: nat, s: bytes, t: bytes)
    requires SkipField(wireType, s).Ok?
    ensures SkipField(wireType, s + t) == SkipField(wireType, s)
  {
    if wireType == WT_VARINT {
      SkipVarintLocal(s, t);
    } else if wireType == WT_STRING {
      Varint32Local(s, t);
    }
  }
}
