// The bytes of a structure determine what is transmitted of it: two valid messages that
// the same bytes hold have the same encoding.
module Readback {
  import opened Bits
  import opened Wire
  import opened Fields
  import opened Encoding
  import opened Decoding
  import opened Format
  import opened Values
  import opened Schema
  import opened Layout
  import opened Footprint
  import opened FlatDefaults
  import opened Images

  // ---------- values ----------

  // Bytes that start alike, as far as both go.
  ghost predicate Alike(x: bytes, y: bytes) {
    forall k :: 0 <= k < |x| && k < |y| ==> x[k] == y[k]
  }

  lemma HeldAlike(mem: bytes, at: int, x: bytes, y: bytes)
    requires IsAt(mem, at, x) && IsAt(mem, at, y)
    ensures Alike(x, y)
  {
    forall k | 0 <= k < |x| && k < |y|
      ensures x[k] == y[k]
    {
      assert x[k] == mem[at..at + |x|][k] == mem[at + k];
      assert y[k] == mem[at..at + |y|][k] == mem[at + k];
    }
  }

  lemma ModulusPow(size: nat)
    requires IntWidth(size)
    ensures Pow2(8 * size) == Modulus(size)
  {
    PowValues();
    CountPowers();
  }

  lemma IntImage(f: Field, i: int)
    requires IntWidth(f.dataSize)
    ensures |Image(f, VInt(i))| == f.dataSize && FixedValue(Image(f, VInt(i))) == i % Modulus(f.dataSize)
  {
    hide EncFixed, FixedValue, Pow2;
    ModulusPow(f.dataSize);
    FixedRoundTrip(i % Modulus(f.dataSize), f.dataSize);
  }

  lemma IntOnce(f: Field, x: int, y: int)
    requires (InSigned(x, f.dataSize) && InSigned(y, f.dataSize))
               || (InUnsigned(x, f.dataSize) && InUnsigned(y, f.dataSize))
    requires Alike(Image(f, VInt(x)), Image(f, VInt(y)))
    ensures x == y
  {
    hide Image, FixedValue;
    IntImage(f, x);
    IntImage(f, y);
    assert Image(f, VInt(x)) == Image(f, VInt(y));
    Wrap(x, Modulus(f.dataSize));
    Wrap(y, Modulus(f.dataSize));
  }

  // A text ends at its first NUL.
  lemma TextOnce(x: bytes, y: bytes)
    requires 0 !in x && 0 !in y && |x| <= |y| && Alike(x + [0], y + [0])
    ensures x == y
  {
    assert (x + [0])[|x|] == (y + [0])[|x|];
    forall k | 0 <= k < |x|
      ensures x[k] == y[k]
    {
      assert (x + [0])[k] == (y + [0])[k];
    }
  }

  lemma TextsOnce(x: bytes, y: bytes)
    requires 0 !in x && 0 !in y && Alike(x + [0], y + [0])
    ensures x == y
  {
    if |x| <= |y| { TextOnce(x, y); } else { TextOnce(y, x); }
  }

  lemma PartsAlike(p: bytes, x: bytes, q: bytes, y: bytes)
    requires |p| == |q| && Alike(p + x, q + y)
    ensures p == q && Alike(x, y)
  {
    forall k | 0 <= k < |p|
      ensures p[k] == q[k]
    {
      assert (p + x)[k] == (q + y)[k];
    }
    forall k | 0 <= k < |x| && k < |y|
      ensures x[k] == y[k]
    {
      assert (p + x)[|p| + k] == (q + y)[|p| + k];
    }
  }

  lemma BlobOnce(x: bytes, y: bytes)
    requires |x| <= PB_SIZE_MAX && |y| <= PB_SIZE_MAX
    requires Alike(EncFixed(|x|, COUNT_BYTES) + x, EncFixed(|y|, COUNT_BYTES) + y)
    ensures x == y
  {
    hide EncFixed, FixedValue;
    CountImage(|x|);
    CountImage(|y|);
    PartsAlike(EncFixed(|x|, COUNT_BYTES), x, EncFixed(|y|, COUNT_BYTES), y);
  }

  // The bytes of a member hold one value.
  lemma ScalarOnce(mem: bytes, f: Field, at: int, x: Value, y: Value)
    requires FitsField(f) && !f.ltype.TSubmessage? && ValidScalar(f, x) && ValidScalar(f, y)
    requires HoldsValue(mem, f, at, x) && HoldsValue(mem, f, at, y)
    ensures x == y
  {
    hide Fits, EncFixed, FixedValue, IsAt, Alike;
    HeldAlike(mem, at, Image(f, x), Image(f, y));
    match f.ltype
    case TBool => BoolOnce(x.b, y.b);
    case TBytes => BlobOnce(x.bs, y.bs);
    case TString => TextsOnce(x.bs, y.bs);
    case TFixedLengthBytes => InlineOnce(x.bs, y.bs);
    case TVarint => IntOnce(f, x.i, y.i);
    case TUVarint => IntOnce(f, x.i, y.i);
    case TSVarint => IntOnce(f, x.i, y.i);
    case TFixed32 => IntOnce(f, x.i, y.i);
    case TFixed64 => IntOnce(f, x.i, y.i);
  }

  lemma BoolOnce(x: bool, y: bool)
    requires Alike([if x then 1 else 0], [if y then 1 else 0])
    ensures x == y
  {
    assert [if x then 1 else 0][0] == [if y then 1 else 0][0];
  }

  lemma InlineOnce(x: bytes, y: bytes)
    requires |x| == |y| && Alike(x, y)
    ensures x == y
  {
  }

  // ---------- structures ----------

  lemma {:induction false} ValueOnce(mem: bytes, f: Field, at: int, x: Value, y: Value)
    requires FitsField(f) && ValidValue(f, x) && ValidValue(f, y)
    requires HoldsValue(mem, f, at, x) && HoldsValue(mem, f, at, y)
    ensures EncValue(f, x) == EncValue(f, y) && (IsZero(f, x) <==> IsZero(f, y))
    ensures f.ltype.TSubmessage? || x == y
    decreases f, 0
  {
    hide Fits, EncBlock, EncMsg, EncScalar, ValidScalar, Image, Holds, Valid;
    if f.ltype.TSubmessage? {
      EncodedOnce(mem, f.sub, f.dataSize, at, x.m, y.m);
    } else {
      ScalarOnce(mem, f, at, x, y);
    }
  }

  lemma {:induction false} RecordsOnce(mem: bytes, f: Field, data: int, x: seq<Value>, y: seq<Value>)
    requires FitsField(f) && |x| == |y|
    requires forall k :: 0 <= k < |x| ==> ValidValue(f, x[k]) && ValidValue(f, y[k])
    requires forall k :: 0 <= k < |x| ==> HoldsValue(mem, f, ItemAt(f, data, k), x[k])
    requires forall k :: 0 <= k < |y| ==> HoldsValue(mem, f, ItemAt(f, data, k), y[k])
    ensures EncRecords(f, x) == EncRecords(f, y)
    ensures Packable(f.ltype) ==> EncPacked(f, x) == EncPacked(f, y)
    decreases f, 1, |x|
  {
    hide FitsField, EncValue, ValidValue, HoldsValue, EncTag;
    if x != [] {
      ValueOnce(mem, f, ItemAt(f, data, 0), x[0], y[0]);
      forall k | 0 <= k < |x[1..]|
        ensures HoldsValue(mem, f, ItemAt(f, data + f.dataSize, k), x[1..][k])
        ensures HoldsValue(mem, f, ItemAt(f, data + f.dataSize, k), y[1..][k])
      {
        NextItem(f, data, k);
      }
      RecordsOnce(mem, f, data + f.dataSize, x[1..], y[1..]);
    }
  }

  lemma NextItem(f: Field, data: int, k: nat)
    ensures ItemAt(f, data + f.dataSize, k) == ItemAt(f, data, k + 1)
  {
  }

  lemma {:induction false} SlotOnce(mem: bytes, f: Field, data: int, cell: int, x: Slot, y: Slot)
    requires FitsField(f) && ValidSlot(f, x) && ValidSlot(f, y)
    requires HoldsField(mem, f, data, cell, x) && HoldsField(mem, f, data, cell, y)
    ensures EncField(f, x) == EncField(f, y) && (IsDefault(f, x) <==> IsDefault(f, y))
    decreases f, 2
  {
    hide FitsField, EncValue, ValidValue, HoldsValue, EncTag, IsZero, EncRecords, EncPacked;
    Shape(f);
    match f.htype
    case Required => ValueOnce(mem, f, data, x.v, y.v);
    case Optional =>
      if f.sizeOffset != 0 { FlagOnce(mem, cell, x.has, y.has); }
      if f.sizeOffset == 0 || x.has { ValueOnce(mem, f, data, x.v, y.v); }
    case Repeated =>
      RecordsOnce(mem, f, data, ItemsOf(x), ItemsOf(y));
    case Oneof =>
      if x.which == f.tag { ValueOnce(mem, f, data, x.v, y.v); }
  }

  lemma FlagOnce(mem: bytes, cell: int, x: bool, y: bool)
    requires IsAt(mem, cell, [if x then 1 else 0]) && IsAt(mem, cell, [if y then 1 else 0])
    ensures x == y
  {
    hide IsAt;
    HeldAlike(mem, cell, [if x then 1 else 0], [if y then 1 else 0]);
    BoolOnce(x, y);
  }

  // Two valid messages that the same bytes hold are transmitted alike.
  lemma {:induction false} EncodedOnce(mem: bytes, fields: seq<Field>, size: nat, base: int, x: Message, y: Message)
    requires Fits(fields, size) && Valid(fields, x) && Valid(fields, y)
    requires Holds(mem, fields, base, x) && Holds(mem, fields, base, y)
    ensures EncMsg(fields, x) == EncMsg(fields, y) && (AllDefault(fields, x, 0) <==> AllDefault(fields, y, 0))
    decreases fields, |fields| + 1
  {
    hide Separate, FitsField, HoldsField, ValidSlot, EncFrom, DistinctTags, Offset, SizeAddress;
    FromOnce(mem, fields, size, base, x, y, 0);
  }

  lemma {:induction false} FromOnce(mem: bytes, fields: seq<Field>, size: nat, base: int, x: Message, y: Message,
        i: nat)
    requires Fits(fields, size) && Valid(fields, x) && Valid(fields, y) && i <= |fields|
    requires Holds(mem, fields, base, x) && Holds(mem, fields, base, y)
    ensures EncFrom(fields, x, i) == EncFrom(fields, y, i) && (AllDefault(fields, x, i) <==> AllDefault(fields, y, i))
    decreases fields, |fields| - i
  {
    hide Separate, FitsField, HoldsField, ValidSlot, EncField, IsDefault, DistinctTags, Offset, SizeAddress;
    if i < |fields| {
      SlotOnce(mem, fields[i], base + Offset(fields, i), base + SizeAddress(fields, i), Get(x, Offset(fields, i)),
               Get(y, Offset(fields, i)));
      FromOnce(mem, fields, size, base, x, y, i + 1);
    }
  }

  // ---------- numbers that are zero ----------

  lemma {:induction false} FixedZero(data: bytes)
    ensures FixedValue(data) == 0 <==> forall k :: 0 <= k < |data| ==> data[k] == 0
  {
    if data != [] {
      FixedZero(data[1..]);
      assert forall k :: 0 < k < |data| ==> data[k] == data[1..][k - 1];
    }
  }

  lemma ZeroImage(f: Field, v: Value)
    requires FitsField(f) && Packable(f.ltype) && ValidScalar(f, v)
    ensures |Image(f, v)| == f.dataSize
    ensures IsZero(f, v) <==> forall k :: 0 <= k < f.dataSize ==> Image(f, v)[k] == 0
  {
    hide Fits, Image, FixedValue;
    if f.ltype.TBool? {
      BoolImage(f, v.b);
      assert f.dataSize == 1 && (Image(f, v)[0] == 0 <==> !v.b);
    } else {
      IntImage(f, v.i);
      FixedZero(Image(f, v));
      IntZero(f, v.i);
    }
  }

  lemma BoolImage(f: Field, b: bool)
    ensures Image(f, VBool(b)) == [if b then 1 else 0]
  {
  }

  lemma IntZero(f: Field, x: int)
    requires InSigned(x, f.dataSize) || InUnsigned(x, f.dataSize)
    ensures x % Modulus(f.dataSize) == 0 <==> x == 0
  {
    Wrap(x, Modulus(f.dataSize));
  }

  // The last branch of pb_check_proto3_default_value compares the bytes of a number with
  // zero, which tells whether the number is.
  method CheckBytes(mem: bytes, f: Field, at: nat, ghost v: Value) returns (zero: bool)
    requires FitsField(f) && Packable(f.ltype) && ValidScalar(f, v) && HoldsValue(mem, f, at, v)
    ensures zero <==> IsZero(f, v)
  {
    hide FitsField, Image, IsZero, ValidScalar, HoldsValue;
    ZeroImage(f, v);
    HeldImage(mem, f, at, v);
    var i := 0;
    while i < f.dataSize
      invariant i <= f.dataSize && forall k :: 0 <= k < i ==> Image(f, v)[k] == 0
    {
      assert mem[at + i] == mem[at..at + |Image(f, v)|][i];
      if mem[at + i] != 0 { return false; }
      i := i + 1;
    }
    zero := true;
  }

  lemma HeldImage(mem: bytes, f: Field, at: nat, v: Value)
    requires Packable(f.ltype) && ValidScalar(f, v) && HoldsValue(mem, f, at, v)
    ensures IsAt(mem, at, Image(f, v))
  {
    hide Image;
  }

  // ---------- what is stored ----------

  lemma Weights(size: nat)
    requires IntWidth(size)
    ensures Weight(256, size) == Modulus(size)
  {
    WordWeights();
    assert Weight(256, 1) == 0x100 && Weight(256, 2) == 0x1_0000;
  }

  // A number is stored in two's complement, the least significant byte first.
  lemma NumberStored(f: Field, v: Value)
    requires FitsField(f) && Packable(f.ltype) && !f.ltype.TBool? && ValidScalar(f, v)
    ensures |Image(f, v)| == f.dataSize
    ensures Positional(256, Image(f, v)) == if v.i < 0 then v.i + Weight(256, f.dataSize) else v.i
  {
    hide Fits, EncFixed, Positional, Weight;
    Weights(f.dataSize);
    Wrap(v.i, Modulus(f.dataSize));
    WordSent(v.i % Modulus(f.dataSize), f.dataSize);
  }

  // A string ends with a NUL, and bytes follow their count.
  lemma DataStored(f: Field, v: Value)
    requires FitsField(f) && !Packable(f.ltype) && ValidScalar(f, v)
    ensures match f.ltype
            case TString => Image(f, v) == v.bs + [0]
            case TBytes =>
              && |Image(f, v)| == Header() + |v.bs| && Image(f, v)[Header()..] == v.bs
              && Positional(256, Image(f, v)[..Header()]) == |v.bs|
            case _ => Image(f, v) == v.bs
  {
    hide Fits, EncFixed, Positional, Weight;
    if f.ltype.TBytes? {
      Weights(COUNT_BYTES);
      WordSent(|v.bs|, COUNT_BYTES);
      assert Image(f, v)[..Header()] == EncFixed(|v.bs|, COUNT_BYTES);
    }
  }
}
