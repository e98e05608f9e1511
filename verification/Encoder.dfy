// pb_encode.c over an output stream. Every method is proved against Encoding: it
// succeeds exactly when the structure is encodable and the stream has room, and then
// it appends exactly the specified bytes, or counts them on a sizing stream.
module Encoder {
  import opened Bits
  import opened Wire
  import opened Streams
  import opened Fields
  import opened FieldIterator
  import opened Encoding
  import opened Schema

  // What the C types of the structure guarantee about values that are present; they are
  // given, whatever wrote them.
  ghost predicate MatchesValue(f: Field, v: Value)
    decreases f, 0
  {
    && !v.VRaw?
    && match f.ltype
       case TVarint => InRange64(AsInt(v))
       case TSVarint => InRange64(AsInt(v))
       case TString => |AsBytes(v)| <= f.dataSize
       case TFixedLengthBytes => |AsBytes(v)| == f.dataSize
       case TSubmessage => Matches(f.sub, AsMsg(v))
       case _ => true
  }

  predicate InRange64(i: int) {
    -0x8000_0000_0000_0000 <= i < 0x8000_0000_0000_0000
  }

  // The has-flag or which-tag of the field says that it has a value.
  predicate Holds(f: Field, s: Slot) {
    match f.htype
    case Required => true
    case Optional => f.sizeOffset != 0 ==> s.Opt? && s.has
    case Oneof => s.Union? && s.which == f.tag
    case Repeated => false
  }

  ghost predicate MatchesSlot(f: Field, s: Slot)
    decreases f, 1
  {
    if f.htype.Repeated? then forall k :: 0 <= k < |ItemsOf(s)| ==> MatchesValue(f, ItemsOf(s)[k])
    else Holds(f, s) ==> MatchesValue(f, ValueOf(s))
  }

  ghost predicate Matches(fields: seq<Field>, m: Message)
    decreases fields
  {
    forall i :: 0 <= i < |fields| ==> MatchesSlot(fields[i], Get(m, Offset(fields, i)))
  }

  // ---------- field encoders ----------

  method EncodeScalar(os: OStream, f: Field, v: Value) returns (ok: bool)
    requires os.Valid() && WellFormedField(f) && MatchesValue(f, v) && !f.ltype.TSubmessage?
    requires os.written + |EncScalar(f, v)| <= SIZE_MAX
    modifies os, os.buf
    ensures ok <==> Encodable(f, v) && old(os.Fits(|EncScalar(f, v)|))
    ensures ok ==> os.Emitted(EncScalar(f, v))
    ensures !ok ==> os.Within()
  {
    hide EncVarint, EncFixed, WellFormedField;
    match f.ltype
    case TBool => ok := os.EncodeVarint(if AsBool(v) then 1 else 0);
    case TVarint => ok := EncodeInt(os, f, v);
    case TUVarint => ok := EncodeInt(os, f, v);
    case TSVarint => ok := EncodeZigZag(os, f, v);
    case TFixed32 => ok := os.EncodeFixed(AsInt(v) % TWO32, 4);
    case TFixed64 => ok := os.EncodeFixed(AsInt(v) % TWO64, 8);
    case TBytes =>
      var size := |AsBytes(v)|;
      if size + BYTES_OFFSET > f.dataSize { return false; }
      ok := os.EncodeString(AsBytes(v));
    case TString => ok := EncodeCString(os, AsBytes(v));
    case TFixedLengthBytes => ok := os.EncodeString(AsBytes(v));
    case TExtension => ok := false;
  }

  method EncodeInt(os: OStream, f: Field, v: Value) returns (ok: bool)
    requires os.Valid() && os.written + |EncVarint(AsInt(v) % TWO64)| <= SIZE_MAX
    modifies os, os.buf
    ensures ok <==> IntWidth(f.dataSize) && old(os.Fits(|EncVarint(AsInt(v) % TWO64)|))
    ensures ok ==> os.Emitted(EncVarint(AsInt(v) % TWO64))
    ensures !ok ==> os.Within()
  {
    if f.dataSize != 1 && f.dataSize != 2 && f.dataSize != 4 && f.dataSize != 8 { return false; }
    ok := os.EncodeVarint(AsInt(v) % TWO64);
  }

  method EncodeZigZag(os: OStream, f: Field, v: Value) returns (ok: bool)
    requires os.Valid() && InRange64(AsInt(v)) && os.written + |EncVarint(ZigZag(AsInt(v)) % TWO64)| <= SIZE_MAX
    modifies os, os.buf
    ensures ok <==> IntWidth(f.dataSize) && old(os.Fits(|EncVarint(ZigZag(AsInt(v)) % TWO64)|))
    ensures ok ==> os.Emitted(EncVarint(ZigZag(AsInt(v)) % TWO64))
    ensures !ok ==> os.Within()
  {
    if f.dataSize != 1 && f.dataSize != 2 && f.dataSize != 4 && f.dataSize != 8 { return false; }
    Quotient(ZigZag(AsInt(v)), TWO64, 0, ZigZag(AsInt(v)));
    ok := os.EncodeSvarint(AsInt(v));
  }

  lemma NextChar(data: bytes, i: nat)
    requires i < |data| && data[i] != 0
    ensures data[..i] + UpToNul(data[i..]) == data[..i + 1] + UpToNul(data[i + 1..])
  {
    var rest := data[i..];
    assert rest[1..] == data[i + 1..];
    assert UpToNul(rest) == [data[i]] + UpToNul(data[i + 1..]);
    Regroup(data[..i], [data[i]], UpToNul(data[i + 1..]));
    assert data[..i + 1] == data[..i] + [data[i]];
  }

  lemma Regroup(a: bytes, b: bytes, c: bytes)
    ensures a + (b + c) == (a + b) + c
  {
  }

  // The bounded strlen of pb_enc_string.
  method StringLength(data: bytes) returns (size: nat)
    ensures size <= |data| && data[..size] == UpToNul(data)
  {
    size := 0;
    assert data[0..] == data;
    while size < |data| && data[size] != 0
      invariant size <= |data|
      invariant UpToNul(data) == data[..size] + UpToNul(data[size..])
    {
      NextChar(data, size);
      size := size + 1;
    }
  }

  method EncodeCString(os: OStream, data: bytes) returns (ok: bool)
    requires os.Valid() && os.written + |EncBlock(UpToNul(data))| <= SIZE_MAX
    modifies os, os.buf
    ensures ok <==> old(os.Fits(|EncBlock(UpToNul(data))|))
    ensures ok ==> os.Emitted(EncBlock(UpToNul(data)))
    ensures !ok ==> os.Within()
  {
    hide EncBlock;
    var size := StringLength(data);
    ok := os.EncodeString(data[..size]);
  }

  method EncodeTag(os: OStream, wireType: nat, tag: nat) returns (ok: bool)
    requires os.Valid() && wireType < 8 && tag < TWO32
    requires os.written + |EncTag(wireType, tag)| <= SIZE_MAX
    modifies os, os.buf
    ensures ok <==> old(os.Fits(|EncTag(wireType, tag)|))
    ensures ok ==> os.Emitted(EncTag(wireType, tag))
    ensures !ok ==> os.Within()
  {
    ok := os.EncodeVarint(tag * 8 + wireType);
  }

  method EncodeValue(os: OStream, f: Field, v: Value) returns (ok: bool)
    requires os.Valid() && WellFormedField(f) && MatchesValue(f, v)
    requires os.written + |EncValue(f, v)| <= SIZE_MAX
    modifies os, os.buf
    ensures ok <==> Encodable(f, v) && old(os.Fits(|EncValue(f, v)|))
    ensures ok ==> os.Emitted(EncValue(f, v))
    ensures !ok ==> os.Within()
    decreases f, 1
  {
    if f.ltype.TSubmessage? {
      ok := EncodeSubmessage(os, f.sub, AsMsg(v));
    } else {
      ok := EncodeScalar(os, f, v);
    }
  }

  // pb_encode_submessage: a sizing pass, then the bytes through a substream. The check
  // that both passes agree cannot fail.
  method EncodeSubmessage(os: OStream, fields: seq<Field>, m: Message) returns (ok: bool)
    requires os.Valid() && WellFormed(fields) && Matches(fields, m)
    requires os.written + |EncBlock(EncMsg(fields, m))| <= SIZE_MAX
    modifies os, os.buf
    ensures ok <==> EncodableFrom(fields, m, 0) && old(os.Fits(|EncBlock(EncMsg(fields, m))|))
    ensures ok ==> os.Emitted(EncBlock(EncMsg(fields, m)))
    ensures !ok ==> os.Within()
    decreases fields, |fields| + 2
  {
    hide WellFormed, Matches, EncodableFrom, EncMsg, EncVarint, Output.Plus, Output.Extends, OStream.Out;
    ghost var o, enc := os.Out(), EncMsg(fields, m);
    ghost var prefix := EncVarint(|enc|);
    PlusPlus(o, prefix, enc);
    PlusPlus(o, [], []);
    var sizing := new OStream.Sizing();
    ok := Encode(sizing, fields, m);
    PlusExtends(o, [], os.Out());
    if !ok { return; }
    var size := sizing.written;
    ok := os.EncodeVarint(size);
    if !ok { return; }
    if os.buf == null {
      os.Count(size);
      return;
    }
    PlusExtends(o, prefix, os.Out());
    if WrapAdd(os.written, size) > os.maxSize { return false; }
    var sub := new OStream.Limited(os, size);
    ghost var outer, inner := os.Out(), sub.Out();
    var status := Encode(sub, fields, m);
    os.Resume(sub, inner, outer, enc);
    if sub.written != size {
      assert false;
      return false;
    }
    return status;
  }

  // ---------- arrays ----------

  // Size of the packed entries: computed, or measured on a sizing stream.
  method PackedSize(f: Field, items: seq<Value>) returns (ok: bool, size: nat)
    requires WellFormedField(f) && Packable(f.ltype) && |EncPacked(f, items)| <= SIZE_MAX
    requires forall k :: 0 <= k < |items| ==> MatchesValue(f, items[k])
    ensures ok ==> size == |EncPacked(f, items)|
    ensures ok <==> forall k :: 0 <= k < |items| ==> Encodable(f, items[k])
  {
    if f.ltype.TFixed32? {
      PackedWords(f, items, 4);
      return true, 4 * |items|;
    } else if f.ltype.TFixed64? {
      PackedWords(f, items, 8);
      return true, 8 * |items|;
    }
    var sizing := new OStream.Sizing();
    ok := EncodeEntries(sizing, f, items);
    size := sizing.written;
  }

  lemma {:induction false} PackedWords(f: Field, items: seq<Value>, width: nat)
    requires (f.ltype.TFixed32? && width == 4) || (f.ltype.TFixed64? && width == 8)
    ensures |EncPacked(f, items)| == width * |items|
    ensures forall k :: 0 <= k < |items| ==> Encodable(f, items[k])
  {
    if items != [] { PackedWords(f, items[1..], width); }
  }

  lemma {:induction false} PackedConcat(f: Field, a: seq<Value>, b: seq<Value>)
    ensures EncPacked(f, a + b) == EncPacked(f, a) + EncPacked(f, b)
  {
    hide EncScalar;
    if a == [] {
      assert a + b == b;
    } else {
      assert (a + b)[1..] == a[1..] + b;
      PackedConcat(f, a[1..], b);
    }
  }

  lemma PackedSplit(f: Field, items: seq<Value>, i: nat)
    requires i < |items|
    ensures EncPacked(f, items[..i + 1]) == EncPacked(f, items[..i]) + EncScalar(f, items[i])
    ensures |EncPacked(f, items[..i + 1])| <= |EncPacked(f, items)|
  {
    hide EncScalar;
    assert items[..i + 1] == items[..i] + [items[i]];
    PackedConcat(f, items[..i], [items[i]]);
    assert items == items[..i + 1] + items[i + 1..];
    PackedConcat(f, items[..i + 1], items[i + 1..]);
    assert EncPacked(f, [items[i]]) == EncScalar(f, items[i]);
  }

  // The entries of a packed run, one after the other.
  method EncodeEntries(os: OStream, f: Field, items: seq<Value>) returns (ok: bool)
    requires os.Valid() && WellFormedField(f) && Packable(f.ltype) && os.written + |EncPacked(f, items)| <= SIZE_MAX
    requires forall k :: 0 <= k < |items| ==> MatchesValue(f, items[k])
    modifies os, os.buf
    ensures ok <==> (forall k :: 0 <= k < |items| ==> Encodable(f, items[k])) && old(os.Fits(|EncPacked(f, items)|))
    ensures ok ==> os.Emitted(EncPacked(f, items))
    ensures !ok ==> os.Within()
  {
    hide EncScalar, EncPacked, WellFormedField, MatchesValue, Encodable, OStream.Out, Output.Plus, Output.Extends;
    PackedEmpty(f);
    ghost var o := os.Out();
    PlusPlus(o, [], []);
    var i := 0;
    while i < |items|
      invariant i <= |items|
      invariant forall k :: 0 <= k < i ==> Encodable(f, items[k])
      invariant os.Valid() && os.Out() == o.Plus(EncPacked(f, items[..i]))
    {
      PackedSplit(f, items, i);
      ok := EncodeScalar(os, f, items[i]);
      PlusPlus(o, EncPacked(f, items[..i]), EncScalar(f, items[i]));
      PlusExtends(o, EncPacked(f, items[..i]), os.Out());
      if !ok { return; }
      i := i + 1;
    }
    assert items[..i] == items;
    ok := true;
  }

  lemma PackedEmpty(f: Field)
    ensures EncPacked(f, []) == []
  {
  }

  method EncodeRecord(os: OStream, f: Field, v: Value) returns (ok: bool)
    requires os.Valid() && WellFormedField(f) && MatchesValue(f, v)
    requires os.written + |EncRecord(f, v)| <= SIZE_MAX
    modifies os, os.buf
    ensures ok <==> Encodable(f, v) && old(os.Fits(|EncRecord(f, v)|))
    ensures ok ==> os.Emitted(EncRecord(f, v))
    ensures !ok ==> os.Within()
    decreases f, 2
  {
    hide EncTag, EncValue, MatchesValue, Encodable, OStream.Out, Output.Plus, Output.Extends;
    assert f.tag < TWO32;
    ghost var o, tag := os.Out(), EncTag(WireTypeOf(f.ltype), f.tag);
    ok := EncodeTag(os, WireTypeOf(f.ltype), f.tag);
    if !ok { return; }
    ok := EncodeValue(os, f, v);
    PlusPlus(o, tag, EncValue(f, v));
    PlusExtends(o, tag, os.Out());
  }

  lemma {:induction false} RecordsConcat(f: Field, a: seq<Value>, b: seq<Value>)
    ensures EncRecords(f, a + b) == EncRecords(f, a) + EncRecords(f, b)
    decreases |a|
  {
    hide EncRecord;
    if a == [] {
      assert a + b == b;
    } else {
      assert (a + b)[1..] == a[1..] + b;
      RecordsConcat(f, a[1..], b);
    }
  }

  lemma RecordsSplit(f: Field, items: seq<Value>, i: nat)
    requires i < |items|
    ensures EncRecords(f, items[..i + 1]) == EncRecords(f, items[..i]) + EncRecord(f, items[i])
    ensures |EncRecords(f, items[..i + 1])| <= |EncRecords(f, items)|
  {
    hide EncRecord;
    assert items[..i + 1] == items[..i] + [items[i]];
    RecordsConcat(f, items[..i], [items[i]]);
    assert items == items[..i + 1] + items[i + 1..];
    RecordsConcat(f, items[..i + 1], items[i + 1..]);
    assert EncRecords(f, [items[i]]) == EncRecord(f, items[i]) + EncRecords(f, []);
  }

  // An array that is not packed: one record for each entry.
  method EncodeRecords(os: OStream, f: Field, items: seq<Value>) returns (ok: bool)
    requires os.Valid() && WellFormedField(f) && os.written + |EncRecords(f, items)| <= SIZE_MAX
    requires forall k :: 0 <= k < |items| ==> MatchesValue(f, items[k])
    modifies os, os.buf
    ensures ok <==> (forall k :: 0 <= k < |items| ==> Encodable(f, items[k])) && old(os.Fits(|EncRecords(f, items)|))
    ensures ok ==> os.Emitted(EncRecords(f, items))
    ensures !ok ==> os.Within()
    decreases f, 3
  {
    hide EncRecord, EncRecords, WellFormedField, MatchesValue, Encodable, OStream.Out, Output.Plus, Output.Extends;
    RecordsEmpty(f);
    ghost var o := os.Out();
    PlusPlus(o, [], []);
    var i := 0;
    while i < |items|
      invariant i <= |items|
      invariant forall k :: 0 <= k < i ==> Encodable(f, items[k])
      invariant os.Valid() && os.Out() == o.Plus(EncRecords(f, items[..i]))
    {
      RecordsSplit(f, items, i);
      ok := EncodeRecord(os, f, items[i]);
      PlusPlus(o, EncRecords(f, items[..i]), EncRecord(f, items[i]));
      PlusExtends(o, EncRecords(f, items[..i]), os.Out());
      if !ok { return; }
      i := i + 1;
    }
    assert items[..i] == items;
    ok := true;
  }

  lemma RecordsEmpty(f: Field)
    ensures EncRecords(f, []) == []
  {
  }

  // encode_array
  method EncodeArray(os: OStream, f: Field, items: seq<Value>) returns (ok: bool)
    requires os.Valid() && WellFormedField(f) && os.written + |EncArray(f, items)| <= SIZE_MAX
    requires forall k :: 0 <= k < |items| ==> MatchesValue(f, items[k])
    modifies os, os.buf
    ensures ok <==>
      && |items| <= f.arraySize && (forall k :: 0 <= k < |items| ==> Encodable(f, items[k]))
      && old(os.Fits(|EncArray(f, items)|))
    ensures ok ==> os.Emitted(EncArray(f, items))
    ensures !ok ==> os.Within()
    decreases f, 4
  {
    hide EncRecords, EncPacked, MatchesValue, Encodable, EncTag, EncVarint;
    if |items| == 0 {
      PlusPlus(os.Out(), [], []);
      return true;
    }
    if |items| > f.arraySize { return false; }
    if Packable(f.ltype) {
      ok := EncodePacked(os, f, items);
    } else {
      ok := EncodeRecords(os, f, items);
    }
  }

  method EncodePacked(os: OStream, f: Field, items: seq<Value>) returns (ok: bool)
    requires os.Valid() && WellFormedField(f) && Packable(f.ltype)
    requires os.written + |EncTag(WT_STRING, f.tag) + EncBlock(EncPacked(f, items))| <= SIZE_MAX
    requires forall k :: 0 <= k < |items| ==> MatchesValue(f, items[k])
    modifies os, os.buf
    ensures ok <==>
      && (forall k :: 0 <= k < |items| ==> Encodable(f, items[k]))
      && old(os.Fits(|EncTag(WT_STRING, f.tag) + EncBlock(EncPacked(f, items))|))
    ensures ok ==> os.Emitted(EncTag(WT_STRING, f.tag) + EncBlock(EncPacked(f, items)))
    ensures !ok ==> os.Within()
  {
    hide EncPacked, MatchesValue, Encodable, EncTag, EncVarint, OStream.Out, Output.Plus, Output.Extends;
    assert f.tag < TWO32;
    ghost var o := os.Out();
    ghost var tag, data := EncTag(WT_STRING, f.tag), EncPacked(f, items);
    ghost var prefix := EncVarint(|data|);
    PlusPlus(o, tag, prefix);
    PlusPlus(o, tag + prefix, data);
    assert tag + prefix + data == tag + EncBlock(data);
    ok := EncodeTag(os, WT_STRING, f.tag);
    if !ok { return; }
    var size;
    ok, size := PackedSize(f, items);
    PlusExtends(o, tag, os.Out());
    if !ok { return; }
    ok := os.EncodeVarint(size);
    PlusPlus(o.Plus(tag), [], []);
    PlusExtends(o, tag, os.Out());
    if !ok { return; }
    if os.buf == null {
      os.Count(size);
      return;
    }
    ok := EncodeEntries(os, f, items);
    PlusExtends(o, tag + prefix, os.Out());
  }

  // ---------- proto3 defaults ----------

  // pb_check_proto3_default_value
  method CheckDefault(f: Field, s: Slot) returns (isDefault: bool)
    requires WellFormedField(f)
    ensures isDefault <==> IsDefault(f, s)
    decreases f, 1
  {
    if f.htype.Required? {
      return false;
    } else if f.htype.Repeated? {
      return f.sizeOffset != 0 && |ItemsOf(s)| == 0;
    } else if f.htype.Oneof? {
      return !s.Union? || s.which == 0;
    } else if f.sizeOffset != 0 {
      return !s.Opt? || !s.has;
    }
    isDefault := CheckZero(f, ValueOf(s));
  }

  method CheckZero(f: Field, v: Value) returns (isZero: bool)
    requires WellFormedField(f)
    ensures isZero <==> IsZero(f, v)
    decreases f, 0
  {
    match f.ltype
    case TBytes => isZero := |AsBytes(v)| == 0;
    case TString => isZero := |AsBytes(v)| == 0 || AsBytes(v)[0] == 0;
    case TFixedLengthBytes => isZero := f.dataSize == 0;
    case TSubmessage => isZero := CheckAll(f.sub, AsMsg(v));
    case TBool => isZero := !AsBool(v);
    case TVarint => isZero := AsInt(v) == 0;
    case TUVarint => isZero := AsInt(v) == 0;
    case TSVarint => isZero := AsInt(v) == 0;
    case TFixed32 => isZero := AsInt(v) == 0;
    case TFixed64 => isZero := AsInt(v) == 0;
    case TExtension => isZero := AsInt(v) == 0;
  }

  // Looks at all fields of a submessage, until one is not default.
  method CheckAll(fields: seq<Field>, m: Message) returns (all: bool)
    requires WellFormed(fields)
    ensures all <==> AllDefault(fields, m, 0)
    decreases fields
  {
    hide IsDefault, WellFormed, Offset, RequiredBefore, SizeAddress;
    TagsNonzero(fields);
    var iter := new FieldIter(fields);
    if fields == [] { return true; }
    var more := true;
    while more
      invariant iter.Valid() && iter.start == fields && fresh(iter)
      invariant if more then AllDefault(fields, m, 0) == AllDefault(fields, m, iter.pos) else AllDefault(fields, m, 0)
      decreases if more then |fields| - iter.pos else 0
      modifies iter
    {
      ghost var i := iter.pos;
      FieldOk(fields, i);
      var skipped := CheckDefault(fields[iter.pos], Get(m, iter.pData));
      if !skipped { return false; }
      more := iter.Next();
      assert AllDefault(fields, m, i) == AllDefault(fields, m, i + 1);
      assert AllDefault(fields, m, |fields|);
    }
    all := true;
  }

  // ---------- fields and messages ----------

  // encode_basic_field, for static allocation
  method EncodeField(os: OStream, f: Field, s: Slot) returns (ok: bool)
    requires os.Valid() && WellFormedField(f) && MatchesSlot(f, s)
    requires os.written + |EncField(f, s)| <= SIZE_MAX
    modifies os, os.buf
    ensures ok <==> EncodableField(f, s) && old(os.Fits(|EncField(f, s)|))
    ensures ok ==> os.Emitted(EncField(f, s))
    ensures !ok ==> os.Within()
    decreases f, 5
  {
    hide MatchesValue, Encodable, EncRecord, EncArray, IsZero;
    var implicitHas := true;
    if f.sizeOffset == 0 && f.htype.Optional? {
      var isDefault := CheckDefault(f, s);
      implicitHas := !isDefault;
    }
    match f.htype
    case Required =>
      ok := EncodeRecord(os, f, ValueOf(s));
    case Optional =>
      if (if f.sizeOffset != 0 then s.Opt? && s.has else implicitHas) {
        ok := EncodeRecord(os, f, ValueOf(s));
      } else {
        ok := true;
      }
    case Repeated =>
      ok := EncodeArray(os, f, ItemsOf(s));
    case Oneof =>
      if s.Union? && s.which == f.tag {
        ok := EncodeRecord(os, f, ValueOf(s));
      } else {
        ok := true;
      }
  }

  // What the fields before i contributed.
  ghost predicate EncodedUpTo(fields: seq<Field>, m: Message, i: nat, done: bytes)
    requires i <= |fields|
  {
    && EncMsg(fields, m) == done + EncFrom(fields, m, i)
    && EncodableFrom(fields, m, 0) == EncodableFrom(fields, m, i)
  }

  lemma EncodedNone(fields: seq<Field>, m: Message)
    ensures EncodedUpTo(fields, m, 0, [])
  {
    assert [] + EncMsg(fields, m) == EncMsg(fields, m);
  }

  lemma MatchesAt(fields: seq<Field>, m: Message, i: nat)
    requires Matches(fields, m) && i < |fields|
    ensures MatchesSlot(fields[i], Get(m, Offset(fields, i)))
  {
  }

  lemma EncodedNext(fields: seq<Field>, m: Message, i: nat, done: bytes)
    requires i < |fields| && EncodedUpTo(fields, m, i, done)
    ensures |done| + |EncField(fields[i], Get(m, Offset(fields, i)))| <= |EncMsg(fields, m)|
    ensures EncodableField(fields[i], Get(m, Offset(fields, i))) ==>
      EncodedUpTo(fields, m, i + 1, done + EncField(fields[i], Get(m, Offset(fields, i))))
    ensures !EncodableField(fields[i], Get(m, Offset(fields, i))) ==> !EncodableFrom(fields, m, 0)
  {
    hide EncField, EncodableField, Offset;
    var e := EncField(fields[i], Get(m, Offset(fields, i)));
    assert done + (e + EncFrom(fields, m, i + 1)) == done + e + EncFrom(fields, m, i + 1);
  }

  lemma EncodedAll(fields: seq<Field>, m: Message, done: bytes)
    requires EncodedUpTo(fields, m, |fields|, done)
    ensures EncMsg(fields, m) == done && EncodableFrom(fields, m, 0)
  {
    assert EncFrom(fields, m, |fields|) == [];
    assert done + [] == done;
  }

  // One round of pb_encode, with `done` already written behind the output o.
  method EncodeNext(os: OStream, iter: FieldIter, m: Message, ghost o: Output, ghost done: bytes)
    returns (ok: bool, ghost now: bytes)
    requires os.Valid() && iter.Valid() && iter.start != [] && WellFormed(iter.start) && Matches(iter.start, m)
    requires os.Out() == o.Plus(done) && o.written + |EncMsg(iter.start, m)| <= SIZE_MAX
    requires EncodedUpTo(iter.start, m, iter.pos, done)
    modifies os, os.buf
    ensures ok ==> os.Valid() && os.Out() == o.Plus(now) && EncodedUpTo(iter.start, m, iter.pos + 1, now)
    ensures !ok ==> os.Valid() && o.Extends(os.Out())
    ensures !ok && EncodableFrom(iter.start, m, 0) ==>
      o.written + |EncMsg(iter.start, m)| > if os.buf == null then SIZE_MAX else os.maxSize
    decreases iter.start, |iter.start|
  {
    hide WellFormed, Matches, MatchesSlot, EncMsg, EncField, EncodableField, EncodableFrom, EncodedUpTo,
      Offset, RequiredBefore, SizeAddress, OStream.Out, Output.Plus, Output.Extends, OStream.Valid, Get;
    ghost var i := iter.pos;
    ghost var s := Get(m, Offset(iter.start, i));
    FieldOk(iter.start, i);
    MatchesAt(iter.start, m, i);
    EncodedNext(iter.start, m, i, done);
    now := done + EncField(iter.start[i], s);
    ok := EncodeField(os, iter.start[iter.pos], Get(m, iter.pData));
    PlusPlus(o, done, EncField(iter.start[i], s));
    PlusExtends(o, done, os.Out());
  }

  // pb_encode
  method Encode(os: OStream, fields: seq<Field>, m: Message) returns (ok: bool)
    requires os.Valid() && WellFormed(fields) && Matches(fields, m)
    requires os.written + |EncMsg(fields, m)| <= SIZE_MAX
    modifies os, os.buf
    ensures ok <==> EncodableFrom(fields, m, 0) && old(os.Fits(|EncMsg(fields, m)|))
    ensures ok ==> os.Emitted(EncMsg(fields, m))
    ensures !ok ==> os.Within()
    decreases fields, |fields| + 1
  {
    hide WellFormed, Matches, EncMsg, EncodableFrom, EncodedUpTo, OStream.Out, Output.Plus, Output.Extends,
      Offset, RequiredBefore, SizeAddress;
    TagsNonzero(fields);
    EncodedNone(fields, m);
    var iter := new FieldIter(fields);
    ghost var o, done := os.Out(), [];
    PlusPlus(o, [], []);
    var more := fields != [];
    while more
      invariant iter.Valid() && iter.start == fields && fresh(iter)
      invariant os.Valid() && os.Out() == o.Plus(done)
      invariant EncodedUpTo(fields, m, if more then iter.pos else |fields|, done)
      invariant more ==> fields != []
      decreases if more then |fields| - iter.pos else 0
    {
      ok, done := EncodeNext(os, iter, m, o, done);
      if !ok { return; }
      more := iter.Next();
    }
    EncodedAll(fields, m, done);
    ok := true;
  }

  // pb_encode_nullterminated
  method EncodeNullTerminated(os: OStream, fields: seq<Field>, m: Message) returns (ok: bool)
    requires os.Valid() && WellFormed(fields) && Matches(fields, m)
    requires os.written + |EncMsg(fields, m)| + 1 <= SIZE_MAX
    modifies os, os.buf
    ensures ok <==> EncodableFrom(fields, m, 0) && old(os.Fits(|EncMsg(fields, m)| + 1))
    ensures ok ==> os.Emitted(EncMsg(fields, m) + [0])
    ensures !ok ==> os.Within()
  {
    hide WellFormed, Matches, EncMsg, EncodableFrom, Output.Plus, Output.Extends, OStream.Out;
    ghost var o, enc := os.Out(), EncMsg(fields, m);
    PlusPlus(o, enc, [0]);
    PlusPlus(o.Plus(enc), [], []);
    ok := Encode(os, fields, m);
    if !ok { return; }
    PlusExtends(o, enc, os.Out());
    ok := os.Write([0]);
  }

  // pb_get_encoded_size: the sizing pass equals what the writing pass writes.
  method EncodedSize(fields: seq<Field>, m: Message) returns (ok: bool, size: nat)
    requires WellFormed(fields) && Matches(fields, m) && |EncMsg(fields, m)| <= SIZE_MAX
    ensures ok <==> EncodableFrom(fields, m, 0)
    ensures ok ==> size == |EncMsg(fields, m)|
  {
    hide WellFormed, Matches, EncMsg, EncodableFrom;
    var stream := new OStream.Sizing();
    ok := Encode(stream, fields, m);
    size := stream.written;
  }

  // ---------- valid structures ----------

  lemma {:induction false} ValueEncodes(f: Field, v: Value)
    requires WellFormedField(f) && ValidValue(f, v)
    ensures MatchesValue(f, v) && Encodable(f, v)
    decreases f, 0
  {
    hide LayoutOk, EncMsg;
    if f.ltype.TSubmessage? { ValidEncodes(f.sub, v.m); }
  }

  lemma {:induction false} SlotEncodes(f: Field, s: Slot)
    requires WellFormedField(f) && ValidSlot(f, s)
    ensures MatchesSlot(f, s) && EncodableField(f, s)
    decreases f, 1
  {
    hide WellFormedField, ValidValue, MatchesValue, Encodable, IsZero;
    if f.htype.Repeated? {
      forall k | 0 <= k < |ItemsOf(s)|
        ensures MatchesValue(f, ItemsOf(s)[k]) && Encodable(f, ItemsOf(s)[k])
      {
        ValueEncodes(f, ItemsOf(s)[k]);
      }
    } else if Holds(f, s) {
      ValueEncodes(f, ValueOf(s));
    }
  }

  // Every valid structure is encoded without an error, given room in the stream.
  lemma {:induction false} ValidEncodes(fields: seq<Field>, m: Message)
    requires WellFormed(fields) && Valid(fields, m)
    ensures Matches(fields, m) && EncodableFrom(fields, m, 0)
    decreases fields, |fields| + 2
  {
    hide MatchesSlot, EncodableField, ValidSlot, Get, Offset;
    forall i | 0 <= i < |fields|
      ensures MatchesSlot(fields[i], Get(m, Offset(fields, i))) && EncodableField(fields[i], Get(m, Offset(fields, i)))
    {
      FieldOk(fields, i);
      SlotEncodes(fields[i], Get(m, Offset(fields, i)));
    }
    AllEncode(fields, m, 0);
  }

  lemma {:induction false} AllEncode(fields: seq<Field>, m: Message, i: nat)
    requires i <= |fields|
    requires forall k :: i <= k < |fields| ==> EncodableField(fields[k], Get(m, Offset(fields, k)))
    ensures EncodableFrom(fields, m, i)
    decreases |fields| - i
  {
    hide EncodableField, Get, Offset;
    if i < |fields| { AllEncode(fields, m, i + 1); }
  }
}
