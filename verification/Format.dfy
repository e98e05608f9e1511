// The wire format in numerals: what the bytes of a transmission are, without the functions
// that read them back. What is read of arbitrary bytes is in Reception.
module Format {
  import opened Bits
  import opened Wire
  import opened Fields
  import opened Encoding
  import opened Decoding
  import opened Values
  import opened Schema

  // ---------- numbers in a positional system, least significant digit first ----------

  function Weight(base: nat, k: nat): (w: nat) {
    if k == 0 then 1 else base * Weight(base, k - 1)
  }

  function Positional(base: nat, digits: seq<nat>): nat {
    if digits == [] then 0
    else
      var k := |digits| - 1;
      Positional(base, digits[..k]) + digits[k] * Weight(base, k)
  }

  lemma {:induction false} LeadingDigit(base: nat, d: nat, digits: seq<nat>)
    ensures Positional(base, [d] + digits) == d + base * Positional(base, digits)
  {
    var all := [d] + digits;
    if digits == [] {
      assert all[..0] == [];
    } else {
      var k := |digits| - 1;
      LeadingDigit(base, d, digits[..k]);
      assert all[..k + 1] == [d] + digits[..k];
      Distribute(base, Positional(base, digits[..k]), digits[k], Weight(base, k));
    }
  }

  lemma Distribute(a: nat, b: nat, c: nat, w: nat)
    ensures a * (b + c * w) == a * b + c * (a * w)
  {
    assert a * (c * w) == c * (a * w);
  }

  // The groups of seven bits of a varint.
  function Septets(s: bytes): (r: seq<nat>)
    ensures |r| == |s|
  {
    seq(|s|, k requires 0 <= k < |s| => s[k] % 128)
  }

  // All bytes but the last have the continuation bit.
  predicate Varint(s: bytes) {
    s != [] && s[|s| - 1] < 128 && forall k :: 0 <= k < |s| - 1 ==> s[k] >= 128
  }

  lemma FirstSeptet(s: bytes)
    requires s != []
    ensures Positional(128, Septets(s)) == s[0] % 128 + 128 * Positional(128, Septets(s[1..]))
  {
    assert Septets(s) == [s[0] % 128] + Septets(s[1..]);
    LeadingDigit(128, s[0] % 128, Septets(s[1..]));
  }

  // A number is sent with base-128 digits, the least significant first and none too many.
  lemma {:induction false} VarintSent(v: nat)
    ensures var r := EncVarint(v);
            && Varint(r) && Positional(128, Septets(r)) == v
            && (|r| > 1 ==> r[|r| - 1] != 0)
  {
    var r := EncVarint(v);
    FirstSeptet(r);
    if v < 128 {
      assert Septets(r[1..]) == [];
    } else {
      VarintSent(v / 128);
      assert r[1..] == EncVarint(v / 128);
      assert forall k :: 0 < k < |r| ==> r[k] == r[1..][k - 1];
    }
  }

  lemma VarintTail(s: bytes)
    requires |s| > 1
    ensures Varint(s) <==> s[0] >= 128 && Varint(s[1..])
  {
    var t := s[1..];
    assert forall k :: 0 < k < |s| ==> s[k] == t[k - 1];
    assert forall k :: 0 <= k < |t| ==> t[k] == s[k + 1];
  }

  lemma OneGroup(s: bytes)
    requires |s| == 1
    ensures (Varint(s) <==> s[0] < 128) && Positional(128, Septets(s)) == s[0] % 128
  {
    FirstSeptet(s);
    assert Septets(s[1..]) == [];
  }

  lemma {:induction false} GroupsRead(s: bytes, fuel: nat, v: nat, n: nat)
    ensures Groups(s, fuel) == Ok(v, n) <==>
            && 1 <= n <= |s| && n <= fuel && Varint(s[..n])
            && v == Positional(128, Septets(s[..n]))
    decreases fuel
  {
    hide Varint, Positional, Septets;
    if 1 <= n <= |s| && n <= fuel {
      var t := s[..n];
      FirstSeptet(t);
      if n == 1 {
        OneGroup(t);
      } else {
        assert t[1..] == s[1..][..n - 1];
        VarintTail(t);
        GroupsRead(s[1..], fuel - 1, Positional(128, Septets(t[1..])), n - 1);
        if Groups(s, fuel) == Ok(v, n) && s[0] >= 128 {
          GroupsRead(s[1..], fuel - 1, Groups(s[1..], fuel - 1).value, n - 1);
        }
      }
    }
  }

  // pb_decode_varint on arbitrary bytes: at most ten groups, kept modulo 2^64.
  lemma VarintRead(s: bytes, v: nat, n: nat)
    ensures DecVarint(s) == Ok(v, n) <==>
            && 1 <= n <= 10 && n <= |s| && Varint(s[..n])
            && v == Positional(128, Septets(s[..n])) % 0x1_0000_0000_0000_0000
  {
    hide Groups, Varint, Positional;
    if 1 <= n <= |s| { GroupsRead(s, 10, Positional(128, Septets(s[..n])), n); }
    var g := Groups(s, 10);
    if g.Ok? { GroupsRead(s, 10, g.value, g.n); }
  }

  // ---------- records ----------

  // The wire types of the encoding, by the type of a field.
  function WireNumber(l: LType): nat {
    match l
    case TFixed64 => 1
    case TFixed32 => 5
    case TBytes => 2
    case TString => 2
    case TFixedLengthBytes => 2
    case TSubmessage => 2
    case _ => 0
  }

  // A record starts with the varint of eight times the tag plus the wire type.
  lemma RecordSent(f: Field, v: Value)
    requires !f.ltype.TExtension?
    ensures EncRecord(f, v) == EncVarint(8 * f.tag + WireNumber(f.ltype)) + EncValue(f, v)
  {
    hide EncVarint, EncScalar, EncMsg;
  }

  // An array of numbers is one block under wire type 2; other arrays are records one by one.
  lemma ArraySent(f: Field, items: seq<Value>)
    ensures items == [] ==> EncArray(f, items) == []
    ensures items != [] && Packable(f.ltype) ==>
              EncArray(f, items) == EncVarint(8 * f.tag + 2) + EncVarint(|EncPacked(f, items)|) + EncPacked(f, items)
    ensures !Packable(f.ltype) ==> EncArray(f, items) == EncRecords(f, items)
  {
    hide EncVarint, EncPacked;
    if items == [] { assert EncRecords(f, items) == []; }
  }

  // The entries are sent in their order.
  lemma {:induction false} EntriesSent(f: Field, items: seq<Value>, v: Value)
    ensures EncRecords(f, items + [v]) == EncRecords(f, items) + EncRecord(f, v)
    ensures EncPacked(f, items + [v]) == EncPacked(f, items) + EncScalar(f, v)
    decreases |items|
  {
    hide EncRecord, EncScalar;
    var all := items + [v];
    if items == [] {
      assert all[1..] == [];
      assert EncRecords(f, all) == EncRecord(f, v) + EncRecords(f, []);
    } else {
      EntriesSent(f, items[1..], v);
      assert all[1..] == items[1..] + [v];
    }
  }

  // The fields sent before field i, one behind the other.
  function SentBefore(fields: seq<Field>, m: Message, i: nat): bytes
    requires i <= |fields|
  {
    if i == 0 then [] else SentBefore(fields, m, i - 1) + EncField(fields[i - 1], Get(m, Offset(fields, i - 1)))
  }

  lemma {:induction false} SentFrom(fields: seq<Field>, m: Message, i: nat)
    requires i <= |fields|
    ensures SentBefore(fields, m, i) + EncFrom(fields, m, i) == EncMsg(fields, m)
  {
    hide EncField, Offset;
    if i > 0 { SentFrom(fields, m, i - 1); }
  }

  // A message is sent field by field in the order of its descriptor.
  lemma MessageSent(fields: seq<Field>, m: Message)
    ensures EncMsg(fields, m) == SentBefore(fields, m, |fields|)
  {
    hide EncMsg, SentBefore;
    SentFrom(fields, m, |fields|);
  }

  // ---------- what is not sent ----------

  predicate OfKind(f: Field, v: Value) {
    match f.ltype
    case TBool => v.VBool?
    case TBytes => v.VBytes?
    case TString => v.VBytes?
    case TFixedLengthBytes => v.VBytes?
    case TSubmessage => v.VMsg?
    case _ => v.VInt?
  }

  // The number zero, or no text.
  predicate Zeros(f: Field, v: Value) {
    match f.ltype
    case TBool => v == VBool(false)
    case TBytes => v == VBytes([])
    case TString => v.VBytes? && (v.bs == [] || v.bs[0] == 0)
    case TFixedLengthBytes => f.dataSize == 0
    case TSubmessage => v.VMsg? && AllDefault(f.sub, v.m, 0)
    case _ => v == VInt(0)
  }

  lemma RecordNotEmpty(f: Field, v: Value)
    ensures EncRecord(f, v) != []
  {
    hide EncVarint, EncValue;
    assert |EncTag(WireTypeOf(f.ltype), f.tag)| >= 1;
  }

  // Nothing is sent of a field exactly when it is an empty array, its has-flag is false,
  // another member of its union is in effect, or it is zero and has no has-flag.
  lemma Omitted(f: Field, s: Slot)
    requires match f.htype
             case Required => s.One?
             case Optional => if f.sizeOffset != 0 then s.Opt? else s.One? && OfKind(f, s.v)
             case Repeated => s.Many? || s.Fixed?
             case Oneof => s.Union?
    ensures EncField(f, s) == [] <==>
            match f.htype
            case Required => false
            case Optional => if f.sizeOffset != 0 then !s.has else Zeros(f, s.v)
            case Repeated => s.items == []
            case Oneof => s.which != f.tag
  {
    hide EncVarint, EncRecord, EncPacked, AllDefault;
    if f.htype.Repeated? {
      if s.items != [] {
        RecordNotEmpty(f, s.items[0]);
        ArraySent(f, s.items);
        assert EncRecords(f, s.items) == EncRecord(f, s.items[0]) + EncRecords(f, s.items[1..]);
      }
    } else {
      RecordNotEmpty(f, ValueOf(s));
    }
  }

  // Every union has a member in effect or none.
  ghost predicate Selected(fields: seq<Field>, m: Message) {
    forall i :: 0 <= i < |fields| ==> SelectedAt(fields, m, i)
  }

  ghost predicate SelectedAt(fields: seq<Field>, m: Message, i: nat)
    requires i < |fields|
  {
    var s := Get(m, Offset(fields, i));
    fields[i].htype.Oneof? && s.Union? ==>
      s.which == 0 ||
      exists k :: 0 <= k < |fields| && fields[k].htype.Oneof? && Offset(fields, k) == Offset(fields, i) &&
                  fields[k].tag == s.which
  }

  lemma {:induction false} NothingFrom(fields: seq<Field>, m: Message, i: nat)
    requires i <= |fields|
    ensures EncFrom(fields, m, i) == [] <==>
            forall k :: i <= k < |fields| ==> EncField(fields[k], Get(m, Offset(fields, k))) == []
    decreases |fields| - i
  {
    hide EncField, Offset;
    if i < |fields| { NothingFrom(fields, m, i + 1); }
  }

  lemma {:induction false} DefaultFrom(fields: seq<Field>, m: Message, i: nat)
    requires i <= |fields|
    ensures AllDefault(fields, m, i) <==>
            forall k :: i <= k < |fields| ==> IsDefault(fields[k], Get(m, Offset(fields, k)))
    decreases |fields| - i
  {
    hide IsDefault, Offset;
    if i < |fields| { DefaultFrom(fields, m, i + 1); }
  }
  // What the default check and the encoder make of a field.
  ghost predicate Skips(f: Field, s: Slot) {
    if f.htype.Oneof? then
      s.Union? && (IsDefault(f, s) <==> s.which == 0) && (EncField(f, s) == [] <==> s.which != f.tag)
    else IsDefault(f, s) <==> EncField(f, s) == []
  }

  lemma SlotSkips(f: Field, s: Slot)
    requires WellFormedField(f) && ValidSlot(f, s)
    ensures Skips(f, s) && f.tag != 0
  {
    hide EncField, AllDefault, Present;
    Omitted(f, s);
    if s.One? { assert IsZero(f, s.v) <==> Zeros(f, s.v); }
  }

  lemma FieldSkips(fields: seq<Field>, m: Message, i: nat)
    requires WellFormed(fields) && Valid(fields, m) && i < |fields|
    ensures Skips(fields[i], Get(m, Offset(fields, i))) && fields[i].tag != 0
  {
    hide Skips, Offset, Valid, WellFormed;
    FieldOk(fields, i);
    ValidAt(fields, m, i);
    SlotSkips(fields[i], Get(m, Offset(fields, i)));
  }

  lemma ValidAt(fields: seq<Field>, m: Message, i: nat)
    requires WellFormed(fields) && Valid(fields, m) && i < |fields|
    ensures ValidSlot(fields[i], Get(m, Offset(fields, i)))
  {
    hide ValidSlot;
  }

  // Nothing is sent of a submessage that is default, and something of any other.
  lemma NothingSent(fields: seq<Field>, m: Message)
    requires WellFormed(fields) && Valid(fields, m) && Selected(fields, m)
    ensures AllDefault(fields, m, 0) <==> EncMsg(fields, m) == []
  {
    hide EncField, IsDefault, WellFormed, Valid, Offset, EncFrom, AllDefault;
    NothingFrom(fields, m, 0);
    DefaultFrom(fields, m, 0);
    forall i | 0 <= i < |fields|
      ensures Skips(fields[i], Get(m, Offset(fields, i))) && fields[i].tag != 0 && SelectedAt(fields, m, i)
    {
      FieldSkips(fields, m, i);
    }
  }

  // ---------- values ----------

  // The two's complement word of a signed number.
  function Word64(i: int): int {
    if i < 0 then i + 0x1_0000_0000_0000_0000 else i
  }

  // A signed number is sent as a word of 64 bits whatever its width: a negative one takes
  // ten bytes.
  lemma SignedSent(f: Field, v: Value)
    requires f.ltype.TVarint? && ValidScalar(f, v)
    ensures 0 <= Word64(v.i) < 0x1_0000_0000_0000_0000 && EncScalar(f, v) == EncVarint(Word64(v.i))
    ensures |EncScalar(f, v)| == 10 <==> v.i < 0
  {
    hide EncVarint;
    Wrap(v.i, TWO64);
    VarintLength(Word64(v.i));
  }

  lemma VarintLength(v: nat)
    requires v < 0x1_0000_0000_0000_0000
    ensures |EncVarint(v)| == 10 <==> v >= 0x8000_0000_0000_0000
  {
    hide EncVarint, Pow2;
    PowValues();
    LengthBelow(v, 9);
    VarintRoundTrip(v, []);
    if v < 0x8000_0000_0000_0000 { LengthAtMost(v, 9); }
  }

  lemma {:induction false} LengthAtMost(v: nat, n: nat)
    requires n >= 1 && v < Pow2(7 * n)
    ensures |EncVarint(v)| <= n
  {
    if v >= 128 {
      assert n > 1 by { assert Pow2(7) == 128; }
      ShiftedDown(v, 7 * (n - 1));
      LengthAtMost(v / 128, n - 1);
    }
  }

  lemma {:induction false} LengthBelow(v: nat, n: nat)
    ensures |EncVarint(v)| <= n ==> v < Pow2(7 * n)
  {
    hide Pow2;
    if n > 0 {
      PowValues();
      PowAdd(7, 7 * (n - 1));
      if v >= 128 { LengthBelow(v / 128, n - 1); }
    }
  }

  // A receiver with as many bits or more reads the same number.
  lemma WiderReceiver(f: Field, g: Field, v: Value, t: bytes)
    requires f.ltype.TVarint? && ValidScalar(f, v) && g.ltype.TVarint?
    requires f.dataSize <= g.dataSize && IntWidth(g.dataSize)
    ensures DecScalar(g, EncScalar(f, v) + t) == Ok(v, |EncScalar(f, v)|)
  {
    hide EncVarint;
    NumberRoundTrip(g, v, t);
  }

  lemma UnsignedSent(f: Field, v: Value)
    requires f.ltype.TUVarint? && ValidScalar(f, v)
    ensures v.i >= 0 && EncScalar(f, v) == EncVarint(v.i)
  {
    hide EncVarint;
    Quotient(v.i, TWO64, 0, v.i);
  }

  // Zigzag numbers are interleaved: 0, -1, 1, -2.
  lemma ZigZagSent(f: Field, v: Value)
    requires f.ltype.TSVarint? && ValidScalar(f, v)
    ensures EncScalar(f, v) == EncVarint(if v.i < 0 then -1 - 2 * v.i else 2 * v.i)
  {
    hide EncVarint;
    Quotient(ZigZag(v.i), TWO64, 0, ZigZag(v.i));
  }

  lemma BoolSent(f: Field, b: bool)
    requires f.ltype.TBool?
    ensures EncScalar(f, VBool(b)) == [if b then 1 else 0]
  {
  }

  lemma {:induction false} WordSent(v: nat, width: nat)
    requires v < Weight(256, width)
    ensures |EncFixed(v, width)| == width && Positional(256, EncFixed(v, width)) == v
  {
    if width > 0 {
      Divided(v, width);
      WordSent(v / 256, width - 1);
      assert EncFixed(v, width) == [v % 256] + EncFixed(v / 256, width - 1);
      LeadingDigit(256, v % 256, EncFixed(v / 256, width - 1));
    }
  }

  lemma Divided(v: nat, width: nat)
    requires width > 0 && v < Weight(256, width)
    ensures v / 256 < Weight(256, width - 1)
  {
  }

  lemma WordWeights()
    ensures Weight(256, 4) == 0x1_0000_0000 && Weight(256, 8) == 0x1_0000_0000_0000_0000
  {
    assert Weight(256, 2) == 0x1_0000;
    assert Weight(256, 4) == 0x1_0000_0000;
    assert Weight(256, 6) == 0x1_0000_0000_0000;
  }

  // Fixed words have four and eight bytes, the least significant first.
  lemma FixedSent(f: Field, v: Value)
    requires (f.ltype.TFixed32? || f.ltype.TFixed64?) && ValidScalar(f, v)
    ensures |EncScalar(f, v)| == if f.ltype.TFixed32? then 4 else 8
    ensures Positional(256, EncScalar(f, v)) == v.i
  {
    hide EncFixed, Positional, Weight;
    WordWeights();
    var width := if f.ltype.TFixed32? then 4 else 8;
    Quotient(v.i, Weight(256, width), 0, v.i);
    WordSent(v.i, width);
  }

  // Bytes are sent behind their length, a string up to its first NUL.
  lemma DataSent(f: Field, data: bytes, k: nat)
    requires f.ltype.TBytes? || f.ltype.TString? || f.ltype.TFixedLengthBytes?
    requires k <= |data| && if f.ltype.TString? then 0 !in data[..k] && (k < |data| ==> data[k] == 0) else k == |data|
    ensures EncScalar(f, VBytes(data)) == EncVarint(k) + data[..k]
  {
    hide EncVarint;
    if f.ltype.TString? {
      FirstNul(data, k);
    } else {
      assert data[..k] == data;
    }
  }

  lemma {:induction false} FirstNul(data: bytes, k: nat)
    requires k <= |data| && 0 !in data[..k] && (k < |data| ==> data[k] == 0)
    ensures UpToNul(data) == data[..k]
  {
    if k > 0 {
      assert data[..k][0] == data[0];
      assert data[1..][..k - 1] == data[..k][1..];
      FirstNul(data[1..], k - 1);
      assert data[..k] == [data[0]] + data[1..][..k - 1];
    }
  }

  // How large the count in front of the bytes of a bytes field is.
  function Header(): nat {
    match PB_SIZE_MAX
    case 0xFF => 1
    case 0xFFFF => 2
    case _ => 4
  }

  // A scalar is refused only for a width that no integer has, and bytes for a length that
  // their member has no room for.
  lemma Refused(f: Field, v: Value)
    requires !f.ltype.TSubmessage? && !f.ltype.TExtension? && OfKind(f, v)
    ensures !Encodable(f, v) <==>
            match f.ltype
            case TVarint => f.dataSize !in {1, 2, 4, 8}
            case TUVarint => f.dataSize !in {1, 2, 4, 8}
            case TSVarint => f.dataSize !in {1, 2, 4, 8}
            case TBytes => |v.bs| + Header() > f.dataSize
            case _ => false
  {
  }

  // Of an array nothing is sent when its count is too large or any entry is refused, and of a
  // message when any field is.
  lemma MessageRefused(fields: seq<Field>, m: Message)
    ensures !EncodableFrom(fields, m, 0) <==>
            exists i :: 0 <= i < |fields| && FieldRefused(fields[i], Get(m, Offset(fields, i)))
  {
    RefusedFrom(fields, m, 0);
  }

  predicate FieldRefused(f: Field, s: Slot) {
    if f.htype.Repeated? then
      |ItemsOf(s)| > f.arraySize || exists k :: 0 <= k < |ItemsOf(s)| && !Encodable(f, ItemsOf(s)[k])
    else EncField(f, s) != [] && !Encodable(f, ValueOf(s))
  }

  lemma {:induction false} RefusedFrom(fields: seq<Field>, m: Message, i: nat)
    requires i <= |fields|
    ensures !EncodableFrom(fields, m, i) <==>
            exists k :: i <= k < |fields| && FieldRefused(fields[k], Get(m, Offset(fields, k)))
    decreases |fields| - i
  {
    hide Offset, EncodableField, FieldRefused;
    if i < |fields| {
      SlotRefused(fields[i], Get(m, Offset(fields, i)));
      RefusedFrom(fields, m, i + 1);
    }
  }

  lemma SlotRefused(f: Field, s: Slot)
    ensures FieldRefused(f, s) <==> !EncodableField(f, s)
  {
    hide Encodable, EncRecord, Present;
    if !f.htype.Repeated? { RecordNotEmpty(f, ValueOf(s)); }
  }

  // A submessage is sent behind the length of its encoding.
  lemma SubmessageSent(f: Field, v: Value)
    requires f.ltype.TSubmessage? && v.VMsg?
    ensures EncValue(f, v) == EncVarint(|EncMsg(f.sub, v.m)|) + EncMsg(f.sub, v.m)
  {
    hide EncVarint, EncMsg;
  }
}
