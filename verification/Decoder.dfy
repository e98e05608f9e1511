// pb_decode.c over an input stream, without dynamic allocation. Every method is proved
// against Decoding: it accepts exactly the inputs the specification accepts, and then
// yields its value and consumes exactly its bytes.
module Decoder {
  import opened Bits
  import opened Wire
  import opened Streams
  import opened Fields
  import opened FieldIterator
  import opened Encoding
  import opened Decoding
  import opened Locality
  import opened Schema
  import opened Transfer
  import Messages
  import opened Nesting

  // ---------- integers of the width of a field ----------

  // The C conversion to a signed type of `size` bytes.
  function CastSigned(v: int, size: nat): int {
    var m := v % Modulus(size);
    if m < Modulus(size) / 2 then m else m - Modulus(size)
  }

  lemma CastKeeps(v: int, size: nat)
    requires IntWidth(size)
    ensures CastSigned(v, size) == v <==> InSigned(v, size)
  {
    Wrap(v, Modulus(size));
    assert 0 <= v % Modulus(size) < Modulus(size);
  }

  // The clamping of pb_dec_varint and pb_dec_svarint: the stored value must not differ.
  method StoreSigned(f: Field, svalue: int) returns (ok: bool, v: Value)
    ensures ok <==> InSigned(svalue, f.dataSize)
    ensures ok ==> v == VInt(svalue)
  {
    if f.dataSize == 8 || f.dataSize == 4 || f.dataSize == 2 || f.dataSize == 1 {
      CastKeeps(svalue, f.dataSize);
      var clamped := CastSigned(svalue, f.dataSize);
      return clamped == svalue, VInt(clamped);
    }
    return false, VInt(0);
  }

  method DecodeNumber(s: IStream, f: Field) returns (ok: bool, v: Value)
    requires s.Valid() && (f.ltype.TVarint? || f.ltype.TUVarint? || f.ltype.TSVarint?)
    modifies s
    ensures s.Valid() && s.End() <= old(s.End())
    ensures ok <==> DecNumber(f, old(s.Rest())).Ok?
    ensures ok ==> v == DecNumber(f, old(s.Rest())).value && s.Consumed(DecNumber(f, old(s.Rest())).n)
  {
    hide DecVarint;
    v := VInt(0);
    if f.ltype.TSVarint? {
      var got, value := s.DecodeSvarint();
      if !got { return false, v; }
      ok, v := StoreSigned(f, value);
    } else {
      var got, value := s.DecodeVarint();
      if !got { return false, v; }
      if f.ltype.TVarint? {
        // narrow fields are cast to int32 first
        var svalue := if f.dataSize == 8 then CastSigned(value, 8) else CastSigned(value, 4);
        assert svalue == SignedValue(value, f.dataSize) by { Wrap(value, TWO64); }
        ok, v := StoreSigned(f, svalue);
      } else if f.dataSize == 8 || f.dataSize == 4 || f.dataSize == 2 || f.dataSize == 1 {
        var clamped := value % Modulus(f.dataSize);
        assert clamped == value <==> value < Modulus(f.dataSize) by { Wrap(value, Modulus(f.dataSize)); }
        return clamped == value, VInt(clamped);
      } else {
        ok := false;
      }
    }
  }

  // The size checks of pb_dec_bytes, pb_dec_string and pb_dec_fixed_length_bytes.
  method CheckSize(f: Field, size: nat) returns (ok: bool)
    requires f.dataSize <= DATA_MAX && size < TWO32 && (f.atype.Pointer? ==> f.ltype.TFixedLengthBytes?)
    requires f.ltype.TBytes? || f.ltype.TString? || f.ltype.TFixedLengthBytes?
    ensures ok <==> Takes(f, size)
  {
    if f.ltype.TBytes? {
      // the sum is computed as a size_t
      var allocSize := Narrow(Narrow(size) + BYTES_OFFSET);
      ok := size <= PB_SIZE_MAX && size <= allocSize <= f.dataSize;
    } else if f.ltype.TString? {
      // the length plus one is computed in 32 bits, then converted to size_t
      Wrap(size + 1, TWO32);
      var allocSize := Narrow((size + 1) % TWO32);
      ok := allocSize >= size && allocSize <= f.dataSize;
    } else {
      ok := size <= PB_SIZE_MAX && (size == 0 || size == f.dataSize);
    }
  }

  method DecodeData(s: IStream, f: Field) returns (ok: bool, v: Value)
    requires s.Valid() && f.dataSize <= DATA_MAX
    requires f.atype.Pointer? ==> f.ltype.TFixedLengthBytes?
    requires f.ltype.TBytes? || f.ltype.TString? || f.ltype.TFixedLengthBytes?
    modifies s
    ensures s.Valid() && s.End() <= old(s.End())
    ensures ok <==> DecData(f, old(s.Rest())).Ok?
    ensures ok ==> v == DecData(f, old(s.Rest())).value && s.Consumed(DecData(f, old(s.Rest())).n)
  {
    hide DecVarint32, Takes;
    v := VBytes([]);
    var got, size, _ := s.DecodeVarint32();
    if !got { return false, v; }
    ok := CheckSize(f, size);
    if !ok { return; }
    var data;
    ok, data := s.Read(size);
    v := if f.ltype.TFixedLengthBytes? && size == 0 then VBytes(seq(f.dataSize, _ => 0)) else VBytes(data);
  }

  method DecodeScalar(s: IStream, f: Field) returns (ok: bool, v: Value)
    requires s.Valid() && f.dataSize <= DATA_MAX && !f.ltype.TSubmessage?
    requires !(f.atype.Pointer? && (f.ltype.TBytes? || f.ltype.TString?))
    modifies s
    ensures s.Valid() && s.End() <= old(s.End())
    ensures ok <==> DecScalar(f, old(s.Rest())).Ok?
    ensures ok ==> v == DecScalar(f, old(s.Rest())).value && s.Consumed(DecScalar(f, old(s.Rest())).n)
  {
    hide DecVarint32, DecNumber, DecData, FixedValue;
    v := VInt(0);
    match f.ltype
    case TBool =>
      var got, value, _ := s.DecodeVarint32();
      ok, v := got, VBool(value != 0);
    case TVarint => ok, v := DecodeNumber(s, f);
    case TUVarint => ok, v := DecodeNumber(s, f);
    case TSVarint => ok, v := DecodeNumber(s, f);
    case TFixed32 =>
      var got, value := s.DecodeFixed(4);
      ok, v := got, VInt(value);
    case TFixed64 =>
      var got, value := s.DecodeFixed(8);
      ok, v := got, VInt(value);
    case TBytes => ok, v := DecodeData(s, f);
    case TString => ok, v := DecodeData(s, f);
    case TFixedLengthBytes => ok, v := DecodeData(s, f);
    case TExtension => ok := false;
  }

  // ---------- default values ----------

  // pb_message_set_to_defaults
  method SetToDefaults(fields: seq<Field>, was: Message) returns (m: Message)
    requires WellFormed(fields)
    ensures m == DefaultMsg(fields, was)
    decreases fields, 1
  {
    hide WellFormed, Offset, RequiredBefore, SizeAddress, DefaultSlot;
    TagsNonzero(fields);
    var iter := new FieldIter(fields);
    m := map[];
    if fields == [] { return; }
    var more := true;
    while more
      invariant iter.Valid() && iter.start == fields && fresh(iter)
      invariant m == DefaultUpTo(fields, if more then iter.pos else |fields|, was)
      decreases if more then |fields| - iter.pos else 0
      modifies iter
    {
      FieldOk(fields, iter.pos);
      var slot := SetToDefault(fields[iter.pos], Get(was, iter.pData));
      m := m[iter.pData := slot];
      more := iter.Next();
    }
  }

  // pb_field_set_to_default, for static allocation. The data of an array or a oneof is
  // not initialized; the count of an array without one lands on its data.
  method SetToDefault(f: Field, was: Slot) returns (slot: Slot)
    requires WellFormedField(f)
    ensures slot == DefaultSlot(f, was)
    decreases f, 2
  {
    hide DefaultMsg, Uninitialized;
    var initData := true;
    slot := was;
    if f.htype.Optional? && f.sizeOffset != 0 {
      slot := Opt(false, ValueOf(was));
    } else if f.htype.Repeated? {
      slot := if f.sizeOffset != 0 then Many([]) else Fixed(Uninitialized(f, ItemsOf(was)));
      initData := false;
    } else if f.htype.Oneof? {
      slot := Union(0, VRaw);
      initData := false;
    }
    if initData {
      var v := f.init;
      if f.ltype.TSubmessage? {
        var m := SetToDefaults(f.sub, AsMsg(ValueOf(was)));
        v := VMsg(m);
      }
      slot := if slot.Opt? && f.htype.Optional? && f.sizeOffset != 0 then Opt(false, v) else One(v);
    }
  }

  // ---------- fields ----------

  // What decoding a field relies on; the terminator has it too.
  ghost predicate Decodable(f: Field) {
    !f.atype.Pointer? && f.dataSize <= DATA_MAX && (f.ltype.TSubmessage? ==> WellFormed(f.sub))
  }

  // The packed case of decode_static_field: entries of a substream while there is room,
  // after which nothing of it may be left.
  method DecodePacked(s: IStream, f: Field, slot: Slot, counter: nat) returns (ok: bool, r: Slot, c: nat)
    requires s.Valid() && Decodable(f) && Packable(f.ltype)
    modifies s
    ensures s.Valid() && s.End() <= old(s.End())
    ensures var block := DecBlock(old(s.Rest()));
            && (ok <==> block.Ok? && DecPacked(f, block.value, slot, counter).Some?)
            && (ok ==> DecPacked(f, block.value, slot, counter) == Some((r, c)) && s.Consumed(block.n))
  {
    hide WellFormed, DecBlock, DecScalar, PutItem;
    r, c := slot, counter;
    var got, sub := s.MakeSubstream();
    if !got { return false, r, c; }
    ghost var data := sub.Rest();
    var status := true;
    while sub.left > 0 && CountOf(f, r, c) < f.arraySize && status
      invariant s.Valid() && sub.Valid() && fresh(sub) && sub.buf == s.buf
      invariant sub.End() + s.left <= old(s.End()) && (status ==> sub.End() + s.left == old(s.End()))
      invariant s.left == old(s.left) - DecBlock(old(s.Rest())).n
      invariant status ==> DecPacked(f, data, slot, counter) == DecPacked(f, sub.Rest(), r, c)
      invariant !status ==> DecPacked(f, data, slot, counter).None?
      decreases status, sub.left
      modifies sub
    {
      var v;
      status, v := DecodeScalar(sub, f);
      if status { r, c := PutItem(f, r, c, v), Bump(f, c); }
    }
    if sub.left != 0 { return false, r, c; }
    var closed := s.CloseSubstream(sub);
    ok := status;
  }

  lemma SubmessageValue(f: Field, s: bytes, slot: Slot)
    requires f.ltype.TSubmessage?
    ensures var block := DecBlock(s);
            var r := if block.Ok? then DecMsg(f.sub, block.value, BaseMsg(f, slot)) else Fail;
            DecValue(f, s, slot) == if r.Ok? then Ok(VMsg(r.value), block.n) else Fail
    ensures var block := DecBlock(s);
            ValueDepth(f, s, slot) == if block.Ok? then 1 + Depth(f.sub, block.value, Start(BaseMsg(f, slot))) else 0
  {
    hide DecBlock, DecMsg, BaseMsg;
  }

  lemma SubmessageDecodable(f: Field)
    requires Decodable(f) && f.ltype.TSubmessage?
    ensures !f.atype.Pointer? && WellFormed(f.sub)
  {
    hide WellFormed;
  }

  // A new array entry or union member starts from its defaults.
  method SubmessageBase(f: Field, slot: Slot) returns (base: Message)
    requires Decodable(f) && f.ltype.TSubmessage?
    ensures base == BaseMsg(f, slot)
  {
    hide WellFormed, DefaultMsg, Decodable;
    SubmessageDecodable(f);
    if f.htype.Repeated? || f.htype.Oneof? {
      base := SetToDefaults(f.sub, map[]);
    } else {
      base := AsMsg(ValueOf(slot));
    }
  }

  method DecodeSubmessage(s: IStream, f: Field, slot: Slot)
    returns (ok: bool, v: Value, ghost depth: nat)
    requires s.Valid() && Decodable(f) && f.ltype.TSubmessage?
    modifies s
    ensures s.Valid() && s.End() <= old(s.End())
    ensures ok <==> DecValue(f, old(s.Rest()), slot).Ok?
    ensures ok ==> v == DecValue(f, old(s.Rest()), slot).value && s.Consumed(DecValue(f, old(s.Rest()), slot).n)
    ensures depth == ValueDepth(f, old(s.Rest()), slot)
    decreases s.left, 0
  {
    hide DecBlock, WellFormed, DecMsg, BaseMsg, DecValue, Depth, ValueDepth, Decodable, IStream.Rest;
    ghost var rest := s.Rest();
    SubmessageValue(f, rest, slot);
    SubmessageDecodable(f);
    v, depth := VInt(0), 0;
    var got, sub := s.MakeSubstream();
    if !got { return false, v, 0; }
    var base := SubmessageBase(f, slot);
    var m;
    ok, m, depth := DecodeNoinit(sub, f.sub, base);
    v, depth := VMsg(m), 1 + depth;
    var closed := s.CloseSubstream(sub);
    if ok { s.Advanced(DecBlock(rest).n); }
  }

  method DecodeValue(s: IStream, f: Field, slot: Slot) returns (ok: bool, v: Value, ghost depth: nat)
    requires s.Valid() && Decodable(f)
    modifies s
    ensures s.Valid() && s.End() <= old(s.End())
    ensures ok <==> DecValue(f, old(s.Rest()), slot).Ok?
    ensures ok ==> v == DecValue(f, old(s.Rest()), slot).value && s.Consumed(DecValue(f, old(s.Rest()), slot).n)
    ensures depth == ValueDepth(f, old(s.Rest()), slot)
    decreases s.left, 1
  {
    if f.ltype.TSubmessage? {
      ok, v, depth := DecodeSubmessage(s, f, slot);
    } else {
      ok, v := DecodeScalar(s, f);
      depth := 0;
    }
  }

  lemma NotPointer(f: Field)
    requires Decodable(f)
    ensures !f.atype.Pointer?
  {
  }

  // decode_static_field
  method DecodeField(s: IStream, wireType: nat, f: Field, slot: Slot, counter: nat)
    returns (ok: bool, r: Slot, c: nat, ghost depth: nat)
    requires s.Valid() && Decodable(f)
    modifies s
    ensures s.Valid() && s.End() <= old(s.End())
    ensures ok <==> DecField(f, wireType, old(s.Rest()), slot, counter).Ok?
    ensures ok ==> DecField(f, wireType, old(s.Rest()), slot, counter).value == (r, c)
    ensures ok ==> s.Consumed(DecField(f, wireType, old(s.Rest()), slot, counter).n)
    ensures depth == FieldDepth(f, old(s.Rest()), slot, counter)
    decreases s.left, 2
  {
    hide Decodable, DecBlock, DecPacked, DecValue, PutItem, Depth;
    NotPointer(f);
    r, c, depth := slot, counter, 0;
    if f.htype.Repeated? && wireType == WT_STRING && Packable(f.ltype) {
      ok, r, c := DecodePacked(s, f, slot, counter);
    } else if f.htype.Repeated? && CountOf(f, slot, counter) >= f.arraySize {
      ok := false;
    } else {
      var v;
      ok, v, depth := DecodeValue(s, f, slot);
      r, c := StoreValue(f, slot, counter, v), Bump(f, counter);
    }
  }

  // ---------- required fields ----------

  // The bits of fields_seen are the members of `seen`.
  ghost predicate SeenBits(words: seq<nat>, seen: set<nat>) {
    && |words| == 2 && words[0] < TWO32 && words[1] < TWO32
    && (forall j :: 0 <= j < 64 ==> (Bit(words[j / 32], j % 32) <==> j in seen))
  }

  lemma {:induction false} MarkBit(words: seq<nat>, seen: set<nat>, index: nat)
    requires SeenBits(words, seen) && index < 64
    ensures SeenBits(words[index / 32 := BitOr(words[index / 32], Shl(1, index % 32))], seen + {index})
  {
    hide Bit, BitOr, Shl, Pow2;
    var w, k := words[index / 32], index % 32;
    var w' := BitOr(w, Shl(1, k));
    ShlMul(1, k);
    assert w' < TWO32 by {
      PowValues();
      ShlBound(1, 1, k) by { assert Pow2(1) == 2 by { PowOne(); } }
      PowMonotone(k + 1, 32);
      PowPositive(k);
      OrBound(w, Shl(1, k), 32);
    }
    forall j | 0 <= j < 64
      ensures Bit(words[index / 32 := w'][j / 32], j % 32) <==> j in seen + {index}
    {
      if j / 32 == index / 32 {
        BitOfOr(w, Shl(1, k), j % 32);
        BitOfPow2(k, j % 32);
      }
    }
  }

  lemma PowOne()
    ensures Pow2(1) == 2
  {
  }

  lemma PowPositive(k: nat)
    ensures Pow2(k + 1) == 2 * Pow2(k)
  {
  }

  // A word equals the mask of its n low bits exactly when those are set and no other.
  lemma MaskEqual(w: nat, n: nat)
    requires w < TWO32 && n <= 32
    ensures w == Pow2(n) - 1 <==> forall i :: 0 <= i < 32 ==> (Bit(w, i) <==> i < n)
  {
    hide Pow2;
    var mask := Pow2(n) - 1;
    forall i | 0 <= i < 32
      ensures Bit(mask, i) <==> i < n
    {
      BitOfMask(n, i);
    }
    PowMonotone(n, 32);
    PowValues();
    if forall i :: 0 <= i < 32 ==> (Bit(w, i) <==> i < n) {
      SameBits(w, mask, 32);
    }
  }

  // Word i of fields_seen against the mask of its n low bits.
  lemma WordMask(words: seq<nat>, seen: set<nat>, i: nat, n: nat)
    requires SeenBits(words, seen) && i < 2 && n <= 32
    ensures words[i] == Pow2(n) - 1 <==>
            forall j: nat :: 32 * i <= j < 32 * i + 32 ==> (j in seen <==> j < 32 * i + n)
  {
    hide Pow2;
    MaskEqual(words[i], n);
    forall j: nat | 32 * i <= j < 32 * i + 32
      ensures Bit(words[i], j % 32) <==> j in seen
      ensures j % 32 == j - 32 * i
    {
      assert j / 32 == i;
    }
    if forall j: nat :: 32 * i <= j < 32 * i + 32 ==> (j in seen <==> j < 32 * i + n) {
      forall r | 0 <= r < 32
        ensures Bit(words[i], r) <==> r < n
      {
        var j: nat := 32 * i + r;
        assert j % 32 == r;
        assert j in seen <==> j < 32 * i + n;
      }
    }
  }

  // The check at the end of pb_decode_noinit: counts the required fields by going on
  // from wherever the iterator is, then compares whole words and the remaining bits.
  method CheckRequired(iter: FieldIter, words: array<nat>, ghost seen: set<nat>) returns (ok: bool)
    requires iter.Valid() && words.Length == 2 && SeenBits(words[..], seen)
    requires iter.start != [] ==> forall r :: r in seen ==> r < RequiredBefore(iter.start, |iter.start|)
    modifies iter
    ensures ok <==> RequiredDone(iter.start, seen)
  {
    hide Bit, Pow2, RequiredBefore, FieldIter.Valid, SeenBits;
    var count := CountRequired(iter);
    if count > MAX_REQUIRED_FIELDS { count := MAX_REQUIRED_FIELDS; }
    assert Pow2(32) - 1 == TWO32 - 1 by { PowValues(); }
    var i := 0;
    while i < count / 32
      invariant i <= count / 32
      invariant forall r: nat :: r < 32 * i ==> r in seen
    {
      WordMask(words[..], seen, i, 32);
      if words[i] != TWO32 - 1 { return false; }
      i := i + 1;
    }
    if count % 32 != 0 {
      WordMask(words[..], seen, count / 32, count % 32);
      if words[count / 32] != Pow2(count % 32) - 1 { return false; }
    }
    ok := true;
  }

  // The number of required fields of a descriptor.
  method CountRequired(iter: FieldIter) returns (count: nat)
    requires iter.Valid()
    modifies iter
    ensures count == RequiredBefore(iter.start, |iter.start|)
  {
    ghost var n := |iter.start|;
    var more, lastType := true, HType.Required;
    count := 0;
    while more
      invariant iter.Valid()
      invariant !more && n > 0 ==> count == RequiredBefore(iter.start, n - 1) && lastType == iter.start[n - 1].htype
      invariant !more && n == 0 ==> count == 0
      decreases more, n - iter.pos
    {
      count := iter.requiredFieldIndex;
      lastType := FieldAt(iter.start, iter.pos).htype;
      more := iter.Next();
    }
    if lastType.Required? && FieldAt(iter.start, iter.pos).tag != 0 {
      count := count + 1;
    }
  }

  // ---------- the loop over all fields ----------

  // The iterator finds the field that the specification looks up, from any position.
  method FindField(iter: FieldIter, tag: nat) returns (found: bool)
    requires iter.Valid() && WellFormed(iter.start)
    modifies iter
    ensures iter.Valid()
    ensures Lookup(iter.start, tag) == if found then Some(iter.pos) else None
  {
    hide FieldIter.Valid, WellFormed;
    TagsNonzero(iter.start);
    found := iter.Find(tag);
    FoundIsLookup(iter.start, tag, found, iter.pos);
  }

  lemma FoundIsLookup(fields: seq<Field>, tag: nat, found: bool, pos: nat)
    requires DistinctTags(fields) && (if fields == [] then pos == 0 else pos < |fields|)
    requires found ==> Matches(FieldAt(fields, pos), tag)
    requires tag != 0 ==> (found <==> exists i :: 0 <= i < |fields| && Matches(fields[i], tag))
    requires fields == [] ==> (found <==> tag == 0)
    ensures Lookup(fields, tag) == if found then Some(pos) else None
  {
    if fields != [] {
      if found {
        LookupKnown(fields, pos);
      } else {
        forall i | 0 <= i < |fields|
          ensures fields[i].tag != tag
        {
          assert Matches(fields[i], tag) <==> fields[i].tag == tag;
        }
      }
    }
  }

  datatype Status = More | End | Bad

  // Everything the loop of pb_decode_noinit keeps between two records.
  ghost predicate Running(fields: seq<Field>, s0: bytes, into: Message, rest: bytes, st: State, status: Status) {
    && |rest| <= |s0| && InBounds(fields, st)
    && match status
       case More => DecLoop(fields, s0, Start(into)) == Shift(|s0| - |rest|, DecLoop(fields, rest, st))
       case End => DecLoop(fields, s0, Start(into)) == Done(st, |s0| - |rest|, true)
       case Bad => false
  }

  // Indices in the state of the loop are within the descriptor.
  ghost predicate InBounds(fields: seq<Field>, st: State) {
    && (fields != [] ==> forall r :: r in st.seen ==> r < RequiredBefore(fields, |fields|))
    && (st.fixedField.Some? ==> st.fixedField.value < |fields|)
  }

  lemma RunningStep(fields: seq<Field>, s0: bytes, into: Message, rest: bytes, st: State)
    requires Running(fields, s0, into, rest, st, More) && rest != []
    ensures var r := Step(fields, rest, st);
            && (r.Next? ==> Running(fields, s0, into, rest[r.n..], r.st, More))
            && (r.Stop? ==> Running(fields, s0, into, rest[r.n..], st, End))
            && (r.Error? ==> DecMsg(fields, s0, into).Fail?)
    ensures st.fixedField.Some? ==> st.fixedField.value < |fields|
  {
    var r := Step(fields, rest, st);
    if r.Next? { StepKeeps(fields, rest, st); }
  }

  lemma StepKeeps(fields: seq<Field>, s: bytes, st: State)
    requires InBounds(fields, st) && Step(fields, s, st).Next?
    ensures InBounds(fields, Step(fields, s, st).st)
  {
    hide DecTag, DecField, Wire.SkipField, RequiredBefore;
    var known := Lookup(fields, DecTag(s).tag);
    if known.Some? && known.value < |fields| && fields[known.value].htype.Required? {
      RequiredMonotone(fields, known.value, |fields|);
    }
  }

  lemma FieldDecodable(fields: seq<Field>, i: nat)
    requires WellFormed(fields) && i <= |fields|
    ensures Decodable(FieldAt(fields, i))
  {
    if i < |fields| { assert WellFormedField(fields[i]); }
  }

  // The count of an array is in the structure exactly when its descriptor has an offset
  // for it.
  lemma CountAddress(fields: seq<Field>, i: nat)
    requires i <= |fields| && FieldAt(fields, i).htype.Repeated?
    ensures SizeAddress(fields, i) == Offset(fields, i) <==> FieldAt(fields, i).sizeOffset == 0
  {
    hide Offset;
  }

  // One record of a field that was found.
  method DecodeKnown(s: IStream, wireType: nat, iter: FieldIter, m: Message, fixedField: Option<nat>, fixedCount: nat,
        ghost seen: set<nat>)
    returns (ok: bool, m': Message, fixedField': Option<nat>, fixedCount': nat, ghost depth: nat)
    requires s.Valid() && iter.Valid() && WellFormed(iter.start)
    requires fixedField.Some? ==> fixedField.value < |iter.start|
    modifies s
    ensures s.Valid() && s.End() <= old(s.End())
    ensures var r := DecKnown(iter.start, iter.pos, wireType, old(s.Rest()), State(m, seen, fixedField, fixedCount));
            && (ok <==> r.Next?)
            && (ok ==> s.Consumed(r.n))
            && (ok ==> r.st == State(m', MarkSeen(iter.start, iter.pos, seen), fixedField', fixedCount'))
    ensures depth == KnownDepth(iter.start, iter.pos, old(s.Rest()), State(m, seen, fixedField, fixedCount))
    decreases s.left, 3
  {
    hide FieldDepth, DecField, WellFormed, Offset, SizeAddress, RequiredBefore, MarkSeen, Decodable, Get;
    ghost var fields := iter.start;
    m', fixedField', fixedCount', depth := m, fixedField, fixedCount, 0;
    var f := FieldAt(iter.start, iter.pos);
    FieldDecodable(iter.start, iter.pos);
    if f.htype.Repeated? { CountAddress(iter.start, iter.pos); }
    if f.htype.Repeated? && iter.pSize == iter.pData {
      if fixedField != Some(iter.pos) {
        if fixedField.Some? && fixedCount != iter.start[fixedField.value].arraySize {
          return false, m', fixedField', fixedCount', 0;
        }
        fixedField', fixedCount' := Some(iter.pos), 0;
      }
    }
    var slot, c;
    ok, slot, c, depth := DecodeField(s, wireType, f, Get(m, iter.pData), fixedCount');
    if !ok { return; }
    m', fixedCount' := m[iter.pData := slot], c;
  }

  // fields_seen, for a required field that can be tracked.
  method MarkField(iter: FieldIter, words: array<nat>, ghost seen: set<nat>)
    requires iter.Valid() && words.Length == 2 && SeenBits(words[..], seen)
    modifies words
    ensures SeenBits(words[..], MarkSeen(iter.start, iter.pos, seen))
  {
    hide SeenBits, RequiredBefore, Bit, BitOr, Shl;
    var index := iter.requiredFieldIndex;
    if FieldAt(iter.start, iter.pos).htype.Required? && index < MAX_REQUIRED_FIELDS {
      MarkBit(words[..], seen, index);
      ghost var was := words[..];
      words[index / 32] := BitOr(words[index / 32], Shl(1, index % 32));
      assert words[..] == was[index / 32 := words[index / 32]];
    }
  }

  // The step of a record whose tag has been read.
  ghost function Tagged(fields: seq<Field>, tag: nat, wireType: nat, body: bytes, st: State): StepResult {
    match Lookup(fields, tag)
    case Some(i) => DecKnown(fields, i, wireType, body, st)
    case None =>
      match Wire.SkipField(wireType, body)
      case Ok(_, n) => Next(st, n)
      case Fail => Error
  }

  // A record after its tag: skipped when no field has the tag.
  method DecodeTagged(s: IStream, tag: nat, wireType: nat, iter: FieldIter, words: array<nat>, m: Message,
      fixedField: Option<nat>, fixedCount: nat, ghost seen: set<nat>)
    returns (ok: bool, m': Message, fixedField': Option<nat>, fixedCount': nat, ghost seen': set<nat>, ghost depth: nat)
    requires s.Valid() && iter.Valid() && WellFormed(iter.start)
    requires words.Length == 2 && SeenBits(words[..], seen)
    requires fixedField.Some? ==> fixedField.value < |iter.start|
    modifies s, iter, words
    ensures s.Valid() && s.End() <= old(s.End()) && iter.Valid()
    ensures var r := Tagged(iter.start, tag, wireType, old(s.Rest()), State(m, seen, fixedField, fixedCount));
            && (ok <==> r.Next?)
            && (ok ==> s.Consumed(r.n) && r.st == State(m', seen', fixedField', fixedCount'))
    ensures SeenBits(words[..], seen')
    ensures depth == TaggedDepth(iter.start, tag, old(s.Rest()), State(m, seen, fixedField, fixedCount))
    decreases s.left, 4
  {
    hide WellFormed, Offset, SizeAddress, RequiredBefore, SeenBits, MarkSeen, Lookup, FieldIter.Valid, DecKnown,
      Wire.SkipField, KnownDepth;
    m', fixedField', fixedCount', seen', depth := m, fixedField, fixedCount, seen, 0;
    var found := FindField(iter, tag);
    if !found {
      ok := s.SkipField(wireType);
      return;
    }
    MarkField(iter, words, seen);
    seen' := MarkSeen(iter.start, iter.pos, seen);
    ok, m', fixedField', fixedCount', depth := DecodeKnown(s, wireType, iter, m, fixedField, fixedCount, seen);
  }

  // One round of the loop of pb_decode_noinit; its local variables are passed in and out.
  method DecodeRecord(s: IStream, iter: FieldIter, words: array<nat>, m: Message,
      fixedField: Option<nat>, fixedCount: nat, ghost seen: set<nat>)
    returns (status: Status, m': Message, fixedField': Option<nat>, fixedCount': nat, ghost seen': set<nat>,
        ghost depth: nat)
    requires s.Valid() && iter.Valid() && WellFormed(iter.start) && s.left > 0
    requires words.Length == 2 && SeenBits(words[..], seen)
    requires fixedField.Some? ==> fixedField.value < |iter.start|
    modifies s, iter, words
    ensures s.Valid() && s.End() <= old(s.End()) && iter.Valid()
    ensures var r := Step(iter.start, old(s.Rest()), State(m, seen, fixedField, fixedCount));
            && (status.More? <==> r.Next?) && (status.End? <==> r.Stop?)
            && (status.More? ==> s.Consumed(r.n) && r.st == State(m', seen', fixedField', fixedCount'))
            && (status.End? ==> s.Consumed(r.n))
            && (status.End? ==> m' == m && seen' == seen && fixedField' == fixedField && fixedCount' == fixedCount)
    ensures !status.Bad? ==> SeenBits(words[..], seen')
    ensures depth == RecordDepth(iter.start, old(s.Rest()), State(m, seen, fixedField, fixedCount))
    decreases s.left, 5
  {
    hide Step, WellFormed, SeenBits, FieldIter.Valid, DecTag, Tagged, TaggedDepth;
    ghost var fields, rest, st := iter.start, s.Rest(), State(m, seen, fixedField, fixedCount);
    m', fixedField', fixedCount', seen', depth := m, fixedField, fixedCount, seen, 0;
    var got, wireType, tag, eof := s.DecodeTag();
    if !got {
      StepEnds(fields, rest, st);
      status := if eof then End else Bad;
      return;
    }
    StepTagged(fields, rest, st, tag, wireType, s.Rest());
    var ok;
    ok, m', fixedField', fixedCount', seen', depth :=
      DecodeTagged(s, tag, wireType, iter, words, m, fixedField, fixedCount, seen);
    status := if ok then More else Bad;
  }

  // pb_decode_noinit
  method DecodeNoinit(s: IStream, fields: seq<Field>, into: Message)
    returns (ok: bool, m: Message, ghost depth: nat)
    requires s.Valid() && WellFormed(fields)
    modifies s
    ensures s.Valid() && s.End() <= old(s.End())
    ensures ok <==> DecMsg(fields, old(s.Rest()), into).Ok?
    ensures ok ==> m == DecMsg(fields, old(s.Rest()), into).value && s.Consumed(DecMsg(fields, old(s.Rest()), into).n)
    ensures depth == Depth(fields, old(s.Rest()), Start(into)) && 2 * depth <= old(s.left)
    decreases s.left, 6
  {
    hide Depth, RecordDepth, DecLoop, DecMsg, Step, WellFormed, SeenBits, Running, RequiredDone, FieldIter.Valid,
      InBounds;
    TagsNonzero(fields);
    var iter := new FieldIter(fields);
    var words := new nat[2](_ => 0);
    var fixedField: Option<nat>, fixedCount: nat := None, 0;
    m, depth := into, 0;
    ghost var s0, seen: set<nat> := s.Rest(), {};
    NothingSeen(words[..]);
    RunningStart(fields, s0, into);
    var status := More;
    while s.left > 0 && status.More?
      invariant s.Valid() && s.End() == old(s.End()) && s.left <= old(s.left)
      invariant iter.Valid() && iter.start == fields && fresh(iter) && fresh(words) && words.Length == 2
      invariant SeenBits(words[..], seen) && !status.Bad?
      invariant Running(fields, s0, into, s.Rest(), State(m, seen, fixedField, fixedCount), status)
      invariant Depth(fields, s0, Start(into)) ==
                if status.More?
                then Max(depth, Depth(fields, s.Rest(), State(m, seen, fixedField, fixedCount)))
                else depth
      decreases status.More?, s.left
    {
      ghost var rest, st := s.Rest(), State(m, seen, fixedField, fixedCount);
      RunningStep(fields, s0, into, rest, st);
      DepthNext(fields, rest, st);
      ghost var here;
      status, m, fixedField, fixedCount, seen, here := DecodeRecord(s, iter, words, m, fixedField, fixedCount, seen);
      depth := Max(depth, here);
      if status.Bad? { return false, m, depth; }
    }
    ghost var st := State(m, seen, fixedField, fixedCount);
    RunEnds(fields, s0, into, s.Rest(), st, status);
    if fixedField.Some? && fixedCount != iter.start[fixedField.value].arraySize { return false, m, depth; }
    ok := CheckRequired(iter, words, seen);
  }

  // What is left to check when the loop has ended.
  lemma RunEnds(fields: seq<Field>, s0: bytes, into: Message, rest: bytes, st: State, status: Status)
    requires Running(fields, s0, into, rest, st, status) && (status.More? ==> rest == [])
    ensures fields != [] ==> forall r :: r in st.seen ==> r < RequiredBefore(fields, |fields|)
    ensures st.fixedField.Some? ==> st.fixedField.value < |fields|
    ensures DecMsg(fields, s0, into) ==
            if FixedDone(fields, st) && RequiredDone(fields, st.seen) then Ok(st.msg, |s0| - |rest|) else Fail
  {
    if status.More? { LoopEnd(fields, st); }
  }

  lemma StepEnds(fields: seq<Field>, s: bytes, st: State)
    requires !DecTag(s).Tag?
    ensures Step(fields, s, st) == if DecTag(s).Terminator? then Stop(DecTag(s).n) else Error
  {
    hide DecTag;
  }

  lemma StepTagged(fields: seq<Field>, s: bytes, st: State, tag: nat, wireType: nat, body: bytes)
    requires DecTag(s).Tag? && DecTag(s).tag == tag && DecTag(s).wireType == wireType && body == s[DecTag(s).n..]
    ensures var r := Tagged(fields, tag, wireType, body, st);
            Step(fields, s, st) == if r.Next? then Next(r.st, DecTag(s).n + r.n) else Error
  {
    hide DecTag, Lookup, Wire.SkipField;
    var i := Lookup(fields, tag);
    if i.Some? {
      var r := DecKnown(fields, i.value, wireType, body, st);
    }
  }

  lemma NothingSeen(words: seq<nat>)
    requires words == [0, 0]
    ensures SeenBits(words, {})
  {
    forall j | 0 <= j < 64
      ensures !Bit(words[j / 32], j % 32)
    {
      NoBits(j % 32);
    }
  }

  lemma RunningStart(fields: seq<Field>, s0: bytes, into: Message)
    ensures Running(fields, s0, into, s0, Start(into), More)
  {
    hide DecLoop;
  }

  // pb_decode
  method Decode(s: IStream, fields: seq<Field>, was: Message) returns (ok: bool, m: Message, ghost depth: nat)
    requires s.Valid() && WellFormed(fields)
    modifies s
    ensures s.Valid() && s.End() <= old(s.End())
    ensures ok <==> Decoding.Decode(fields, old(s.Rest()), was).Ok?
    ensures ok ==> m == Decoding.Decode(fields, old(s.Rest()), was).value
    ensures ok ==> s.Consumed(Decoding.Decode(fields, old(s.Rest()), was).n)
    ensures 2 * depth <= old(s.left)
  {
    hide DecMsg, WellFormed, DefaultMsg, Depth;
    m := SetToDefaults(fields, was);
    ok, m, depth := DecodeNoinit(s, fields, m);
  }

  // pb_decode_delimited. On success the stream is exactly behind the delimited region. A
  // failed decode gives up the bytes of the region as well, but the cursor may stay inside
  // it, because substreams of failed submessages are not closed.
  method DecodeDelimited(s: IStream, fields: seq<Field>, was: Message) returns (ok: bool, m: Message)
    requires s.Valid() && WellFormed(fields)
    modifies s
    ensures s.Valid() && s.End() <= old(s.End())
    ensures DecBlock(old(s.Rest())).Ok? ==> s.left == old(s.left) - DecBlock(old(s.Rest())).n
    ensures ok <==> Messages.DecodeDelimited(fields, old(s.Rest()), was).Ok?
    ensures ok ==> m == Messages.DecodeDelimited(fields, old(s.Rest()), was).value
    ensures ok ==> s.Consumed(Messages.DecodeDelimited(fields, old(s.Rest()), was).n)
  {
    hide DecBlock, WellFormed, Decoding.Decode;
    m := was;
    var got, sub := s.MakeSubstream();
    if !got { return false, m; }
    var status;
    ghost var depth;
    status, m, depth := Decode(sub, fields, was);
    var closed := s.CloseSubstream(sub);
    ok := status;
  }
}
