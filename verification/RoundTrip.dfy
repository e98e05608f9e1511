// Round trip and schema evolution: what the receiver's structure holds after a
// transmission into default values.
module RoundTrip {
  import opened Wire
  import opened Fields
  import opened Encoding
  import opened Decoding
  import opened Values
  import opened Schema

  // ---------- agreement of two structures ----------

  ghost predicate AgreesValue(d: Field, x: Value, f: Field, v: Value)
    decreases f, 0
  {
    if f.ltype.TSubmessage? then x.VMsg? && v.VMsg? && Agrees(d.sub, x.m, f.sub, v.m) else x == v
  }

  // The observable content of a slot: a value counts only if it is present.
  ghost predicate AgreesSlot(d: Field, x: Slot, f: Field, s: Slot)
    decreases f, 1
  {
    match f.htype
    case Required => x.One? && s.One? && AgreesValue(d, x.v, f, s.v)
    case Optional =>
      if f.sizeOffset != 0 then x.Opt? && s.Opt? && x.has == s.has && (s.has ==> AgreesValue(d, x.v, f, s.v))
      else x.One? && s.One? && AgreesValue(d, x.v, f, s.v)
    case Repeated =>
      && x.Many? == s.Many? && |ItemsOf(x)| == |ItemsOf(s)|
      && forall k :: 0 <= k < |ItemsOf(s)| ==> AgreesValue(d, ItemsOf(x)[k], f, ItemsOf(s)[k])
    case Oneof =>
      && x.Union? && s.Union? && (x.which == d.tag <==> s.which == f.tag)
      && (s.which == f.tag ==> AgreesValue(d, x.v, f, s.v))
  }

  // A field nothing was received for: what the defaults left of some earlier contents,
  // and not the selected union member.
  ghost predicate Fresh(d: Field, x: Slot) {
    if d.htype.Oneof? then x.Union? && x.which != d.tag
    else exists was: Slot :: x == DefaultSlot(d, was)
  }

  // The slot y of field d holds what msg says about it in one of the first i fields of
  // src, and its default if none of them is this field.
  ghost predicate HoldsUpTo(d: Field, y: Slot, src: seq<Field>, msg: Message, i: nat)
    requires i <= |src|
    decreases src, 0
  {
    && (forall k :: 0 <= k < i && src[k].tag == d.tag ==> AgreesSlot(d, y, src[k], Get(msg, Offset(src, k))))
    && ((forall k :: 0 <= k < i ==> src[k].tag != d.tag) ==> Fresh(d, y))
  }

  ghost predicate AgreesUpTo(dst: seq<Field>, x: Message, src: seq<Field>, msg: Message, i: nat)
    requires i <= |src|
    decreases src, 1
  {
    forall j :: 0 <= j < |dst| ==> HoldsUpTo(dst[j], Get(x, Offset(dst, j)), src, msg, i)
  }

  // x (fields dst) holds all that msg (fields src) says about the fields both know, and
  // defaults in the fields only dst has.
  ghost predicate Agrees(dst: seq<Field>, x: Message, src: seq<Field>, msg: Message)
    decreases src, 2
  {
    AgreesUpTo(dst, x, src, msg, |src|)
  }

  // ---------- what evolution needs beyond compatible shapes ----------

  // Fields that share a union for the receiver share one for the sender.
  ghost predicate SameUnions(dst: seq<Field>, src: seq<Field>)
    decreases src
  {
    && (forall i, k, j, l :: 0 <= i < |src| && 0 <= k < |src| && 0 <= j < |dst| && 0 <= l < |dst|
          && src[i].tag == dst[j].tag && src[k].tag == dst[l].tag && Leader(dst, j) == Leader(dst, l)
          ==> Leader(src, i) == Leader(src, k))
    && (forall i, j :: 0 <= i < |src| && 0 <= j < |dst| && src[i].tag == dst[j].tag && src[i].ltype.TSubmessage? ==>
          SameUnions(dst[j].sub, src[i].sub))
  }

  // Fields without a has-flag default to zero, as in proto3.
  ghost predicate ZeroDefaults(fields: seq<Field>)
    decreases fields
  {
    forall j :: 0 <= j < |fields| ==>
      && (fields[j].ltype.TSubmessage? ==> ZeroDefaults(fields[j].sub))
      && (fields[j].htype.Optional? && fields[j].sizeOffset == 0 && !fields[j].ltype.TSubmessage? ==>
            fields[j].init == Zero(fields[j]))
  }

  ghost predicate Evolves(dst: seq<Field>, src: seq<Field>) {
    WellFormed(dst) && WellFormed(src) && Compatible(dst, src) && SameUnions(dst, src) && ZeroDefaults(dst)
  }

  ghost predicate EvolvesField(d: Field, f: Field) {
    && WellFormedField(d) && WellFormedField(f) && SameShape(d, f)
    && (f.ltype.TSubmessage? ==> Evolves(d.sub, f.sub))
    && (d.htype.Optional? && d.sizeOffset == 0 && !d.ltype.TSubmessage? ==> d.init == Zero(d))
  }

  lemma FieldEvolves(dst: seq<Field>, src: seq<Field>, j: nat, i: nat)
    requires Evolves(dst, src) && j < |dst| && i < |src| && dst[j].tag == src[i].tag
    ensures EvolvesField(dst[j], src[i])
  {
    assert WellFormedField(dst[j]) && WellFormedField(src[i]);
    assert SameShape(dst[j], src[i]);
  }

  // ---------- defaults ----------

  lemma {:induction false} DefaultAt(fields: seq<Field>, n: nat, j: nat, was: Message)
    requires LayoutOk(fields) && j < n <= |fields|
    ensures var offset := Offset(fields, j);
            Get(DefaultUpTo(fields, n, was), offset) == DefaultSlot(fields[j], Get(was, offset))
    decreases n
  {
    hide LayoutOk, InitValue, Offset;
    if j == n - 1 {
    } else {
      DefaultAt(fields, n - 1, j, was);
      StorageDisjoint(fields, j, n - 1);
      if Offset(fields, j) == Offset(fields, n - 1) {
        LeaderShared(fields, j, n - 1);
      }
    }
  }

  // Two fields with one leader are members of one union.
  lemma {:induction false} LeaderShared(fields: seq<Field>, j: nat, k: nat)
    requires j < k < |fields| && Leader(fields, j) == Leader(fields, k)
    ensures fields[j].htype.Oneof? && fields[k].htype.Oneof?
    decreases k
  {
    if j < k - 1 {
      LeaderMonotone(fields, j, k - 1);
      LeaderShared(fields, j, k - 1);
    }
  }

  lemma DefaultsAreFresh(dst: seq<Field>, was: Message, j: nat)
    requires WellFormed(dst) && j < |dst|
    ensures Fresh(dst[j], Get(DefaultMsg(dst, was), Offset(dst, j)))
  {
    DefaultAt(dst, |dst|, j, was);
    assert WellFormedField(dst[j]);
  }

  lemma {:induction false} AbsorbAgrees(dst: seq<Field>, was: Message, src: seq<Field>, msg: Message)
    requires Evolves(dst, src) && Valid(src, msg)
    ensures Absorb(dst, DefaultMsg(dst, was), src, msg).Some?
    ensures Agrees(dst, Absorb(dst, DefaultMsg(dst, was), src, msg).value, src, msg)
    decreases src, |src| + 1
  {
    hide AbsorbFrom, Evolves, Valid, DefaultMsg, Fresh, AgreesSlot;
    forall j | 0 <= j < |dst|
      ensures Fresh(dst[j], Get(DefaultMsg(dst, was), Offset(dst, j)))
    {
      assert WellFormed(dst) by { EvolvesParts(dst, src); }
      DefaultsAreFresh(dst, was, j);
    }
    AbsorbAgreesFrom(dst, DefaultMsg(dst, was), src, msg, 0);
  }

  lemma EvolvesParts(dst: seq<Field>, src: seq<Field>)
    requires Evolves(dst, src)
    ensures WellFormed(dst) && WellFormed(src) && Compatible(dst, src) && LayoutOk(dst) && LayoutOk(src)
  {
  }

  // Field i of the sender, when the receiver does not know it.
  lemma UnknownAgrees(dst: seq<Field>, x: Message, src: seq<Field>, msg: Message, i: nat)
    requires i < |src| && AgreesUpTo(dst, x, src, msg, i)
    requires forall j :: 0 <= j < |dst| ==> dst[j].tag != src[i].tag
    ensures AgreesUpTo(dst, x, src, msg, i + 1)
  {
    hide AgreesSlot, Fresh, Offset, Get;
  }

  // Field i of the sender, when it is not transmitted.
  lemma {:induction false} SkippedAgrees(dst: seq<Field>, x: Message, src: seq<Field>, msg: Message, i: nat, j: nat)
    requires Evolves(dst, src) && Valid(src, msg)
    requires i < |src| && j < |dst| && dst[j].tag == src[i].tag && AgreesUpTo(dst, x, src, msg, i)
    requires !Present(src[i], Get(msg, Offset(src, i)))
    ensures AgreesUpTo(dst, x, src, msg, i + 1)
    decreases src[i], 5
  {
    hide AgreesSlot, Fresh, Offset, Get, Evolves, EvolvesField, Present, ValidSlot;
    UniqueTags(dst, src, i, j);
    FieldEvolves(dst, src, j, i);
    assert ValidSlot(src[i], Get(msg, Offset(src, i)));
    assert HoldsUpTo(dst[j], Get(x, Offset(dst, j)), src, msg, i);
    AbsentAgrees(dst[j], Get(x, Offset(dst, j)), src[i], Get(msg, Offset(src, i)));
  }

  lemma UniqueTags(dst: seq<Field>, src: seq<Field>, i: nat, j: nat)
    requires Evolves(dst, src) && i < |src| && j < |dst| && dst[j].tag == src[i].tag
    ensures forall k :: 0 <= k < |src| && src[k].tag == src[i].tag ==> k == i
    ensures forall k :: 0 <= k < |dst| && dst[k].tag == dst[j].tag ==> k == j
    ensures src[i].tag != 0 && Lookup(dst, src[i].tag) == Some(j)
  {
    assert WellFormedField(src[i]);
    LookupKnown(dst, j);
  }

  // Writing field j leaves what was received for other fields: they are stored apart,
  // or they are members of its union that the sender has not selected.
  lemma OthersAgree(dst: seq<Field>, x: Message, src: seq<Field>, msg: Message, i: nat, j: nat, slot: Slot, l: nat)
    requires Evolves(dst, src) && Valid(src, msg)
    requires i < |src| && j < |dst| && dst[j].tag == src[i].tag && AgreesUpTo(dst, x, src, msg, i)
    requires Present(src[i], Get(msg, Offset(src, i)))
    requires dst[j].htype.Oneof? ==> slot.Union? && slot.which == dst[j].tag
    requires l < |dst| && l != j
    ensures HoldsUpTo(dst[l], Get(x[Offset(dst, j) := slot], Offset(dst, l)), src, msg, i + 1)
  {
    hide Evolves, Present, LayoutOk, WellFormed, Compatible, Valid, HoldsUpTo, Fresh, Offset;
    EvolvesParts(dst, src);
    UniqueTags(dst, src, i, j);
    StorageDisjoint(dst, j, l);
    assert HoldsUpTo(dst[l], Get(x, Offset(dst, l)), src, msg, i);
    if Offset(dst, j) == Offset(dst, l) {
      if j < l { LeaderShared(dst, j, l); } else { LeaderShared(dst, l, j); }
      UnionReplaced(dst, x, src, msg, i, j, slot, l);
    } else {
      HoldsLater(dst[l], Get(x, Offset(dst, l)), src, msg, i);
    }
  }

  lemma HoldsLater(d: Field, y: Slot, src: seq<Field>, msg: Message, i: nat)
    requires i < |src| && src[i].tag != d.tag && HoldsUpTo(d, y, src, msg, i)
    ensures HoldsUpTo(d, y, src, msg, i + 1)
  {
    hide AgreesSlot, Fresh, Get, Offset;
  }

  lemma UnionReplaced(dst: seq<Field>, x: Message, src: seq<Field>, msg: Message, i: nat, j: nat, slot: Slot, l: nat)
    requires Evolves(dst, src) && Valid(src, msg)
    requires i < |src| && j < |dst| && dst[j].tag == src[i].tag
    requires Present(src[i], Get(msg, Offset(src, i)))
    requires l < |dst| && l != j && dst[j].htype.Oneof? && dst[l].htype.Oneof?
    requires slot.Union? && slot.which == dst[j].tag
    requires Leader(dst, j) == Leader(dst, l) && dst[l].tag != dst[j].tag
    ensures HoldsUpTo(dst[l], slot, src, msg, i + 1)
  {
    hide Evolves, Valid, Present, Offset, Get;
    forall k | 0 <= k < i + 1 && src[k].tag == dst[l].tag
      ensures AgreesSlot(dst[l], slot, src[k], Get(msg, Offset(src, k)))
    {
      UnionElsewhere(dst, src, msg, i, j, k, l);
    }
  }

  lemma UnionElsewhere(dst: seq<Field>, src: seq<Field>, msg: Message, i: nat, j: nat, k: nat, l: nat)
    requires Evolves(dst, src) && Valid(src, msg)
    requires i < |src| && j < |dst| && dst[j].tag == src[i].tag
    requires k < |src| && l < |dst| && dst[l].tag == src[k].tag && l != j
    requires Leader(dst, j) == Leader(dst, l) && dst[j].htype.Oneof? && dst[l].htype.Oneof?
    requires Present(src[i], Get(msg, Offset(src, i)))
    ensures Get(msg, Offset(src, k)).Union? && Get(msg, Offset(src, k)).which != src[k].tag
    ensures src[k].htype.Oneof? && dst[j].tag != dst[l].tag
  {
    UniqueTags(dst, src, i, j);
    EvolvesParts(dst, src);
    assert Leader(src, i) == Leader(src, k);
    StorageDisjoint(src, i, k);
    FieldEvolves(dst, src, l, k);
    FieldEvolves(dst, src, j, i);
    assert ValidSlot(src[k], Get(msg, Offset(src, k)));
  }

  // Field i of the sender, when it is transmitted.
  lemma {:induction false} WrittenAgrees(dst: seq<Field>, x: Message, src: seq<Field>, msg: Message, i: nat, j: nat)
    returns (slot: Slot)
    requires Evolves(dst, src) && Valid(src, msg)
    requires i < |src| && j < |dst| && dst[j].tag == src[i].tag && AgreesUpTo(dst, x, src, msg, i)
    requires Present(src[i], Get(msg, Offset(src, i)))
    ensures AbsorbSlot(dst[j], Get(x, Offset(dst, j)), src[i], Get(msg, Offset(src, i))) == Some(slot)
    ensures AgreesUpTo(dst, x[Offset(dst, j) := slot], src, msg, i + 1)
    decreases src[i], 5
  {
    hide AgreesSlot, Offset, Evolves, EvolvesField, Present, ValidSlot, Fresh, AbsorbSlot;
    UniqueTags(dst, src, i, j);
    FieldEvolves(dst, src, j, i);
    var was, s := Get(x, Offset(dst, j)), Get(msg, Offset(src, i));
    assert ValidSlot(src[i], s);
    assert HoldsUpTo(dst[j], was, src, msg, i);
    PresentAgrees(dst[j], was, src[i], s);
    slot := AbsorbSlot(dst[j], was, src[i], s).value;
    forall l | 0 <= l < |dst| && l != j
      ensures HoldsUpTo(dst[l], Get(x[Offset(dst, j) := slot], Offset(dst, l)), src, msg, i + 1)
    {
      OthersAgree(dst, x, src, msg, i, j, slot, l);
    }
    HoldsNow(dst[j], slot, src, msg, i);
    assert Get(x[Offset(dst, j) := slot], Offset(dst, j)) == slot;
  }

  lemma HoldsNow(d: Field, slot: Slot, src: seq<Field>, msg: Message, i: nat)
    requires i < |src| && src[i].tag == d.tag && AgreesSlot(d, slot, src[i], Get(msg, Offset(src, i)))
    requires forall k :: 0 <= k < |src| && src[k].tag == src[i].tag ==> k == i
    ensures HoldsUpTo(d, slot, src, msg, i + 1)
  {
    hide AgreesSlot, Fresh, Get, Offset;
  }

  lemma {:induction false} AbsorbAgreesFrom(dst: seq<Field>, x: Message, src: seq<Field>, msg: Message, i: nat)
    requires Evolves(dst, src) && Valid(src, msg) && i <= |src| && AgreesUpTo(dst, x, src, msg, i)
    ensures AbsorbFrom(dst, x, src, msg, i).Some?
    ensures Agrees(dst, AbsorbFrom(dst, x, src, msg, i).value, src, msg)
    decreases src, |src| - i
  {
    hide Evolves, Valid, AgreesUpTo, AbsorbSlot, Present, Lookup, Offset;
    if i < |src| {
      var known := Lookup(dst, src[i].tag);
      KnownOrNot(dst, src, i);
      if known.None? {
        UnknownAgrees(dst, x, src, msg, i);
        AbsorbAgreesFrom(dst, x, src, msg, i + 1);
      } else if !Present(src[i], Get(msg, Offset(src, i))) {
        SkippedAgrees(dst, x, src, msg, i, known.value);
        AbsorbAgreesFrom(dst, x, src, msg, i + 1);
      } else {
        var slot := WrittenAgrees(dst, x, src, msg, i, known.value);
        AbsorbAgreesFrom(dst, x[Offset(dst, known.value) := slot], src, msg, i + 1);
      }
    }
  }

  lemma KnownOrNot(dst: seq<Field>, src: seq<Field>, i: nat)
    requires Evolves(dst, src) && i < |src|
    ensures var known := Lookup(dst, src[i].tag);
            if known.Some? then known.value < |dst| && dst[known.value].tag == src[i].tag
            else forall j :: 0 <= j < |dst| ==> dst[j].tag != src[i].tag
  {
    assert WellFormedField(src[i]);
  }

  // ---------- values ----------

  lemma {:induction false} ValueAgrees(d: Field, was: Message, f: Field, v: Value)
    requires EvolvesField(d, f) && ValidValue(f, v)
    ensures AbsorbValue(d, DefaultMsg(d.sub, was), f, v).Some?
    ensures AgreesValue(d, AbsorbValue(d, DefaultMsg(d.sub, was), f, v).value, f, v)
    decreases f, 0
  {
    if f.ltype.TSubmessage? {
      AbsorbAgrees(d.sub, was, f.sub, v.m);
    }
  }

  // The slot of an array after `xs` were put behind the first c entries.
  function Filled(d: Field, slot: Slot, c: nat, xs: seq<Value>): Slot
    requires FixedCount(d) ==> c + |xs| <= |ItemsOf(slot)|
  {
    if FixedCount(d) then Fixed(ItemsOf(slot)[..c] + xs + ItemsOf(slot)[c + |xs|..]) else Many(ItemsOf(slot) + xs)
  }

  lemma FilledNext(d: Field, slot: Slot, c: nat, x: Value, rest: seq<Value>)
    requires FixedCount(d) ==> c + 1 + |rest| <= |ItemsOf(slot)|
    ensures Filled(d, PutItem(d, slot, c, x), Bump(d, c), rest) == Filled(d, slot, c, [x] + rest)
  {
    var items := ItemsOf(slot);
    if FixedCount(d) {
      assert items[c := x][..c + 1] + rest == items[..c] + ([x] + rest);
      assert items[c := x][c + 1 + |rest|..] == items[c + |[x] + rest|..];
    } else {
      assert items + [x] + rest == items + ([x] + rest);
    }
  }

  lemma FilledNone(d: Field, slot: Slot, c: nat)
    requires if FixedCount(d) then slot.Fixed? && c <= |slot.items| else slot.Many?
    ensures Filled(d, slot, c, []) == slot
  {
    if FixedCount(d) {
      assert slot.items[..c] + [] + slot.items[c..] == slot.items;
    } else {
      assert slot.items + [] == slot.items;
    }
  }

  // The entries of an array, behind those received before.
  lemma {:induction false} ItemsAgree(d: Field, f: Field, items: seq<Value>, slot: Slot, c: nat)
    returns (xs: seq<Value>)
    requires EvolvesField(d, f) && d.htype.Repeated?
    requires forall k :: 0 <= k < |items| ==> ValidValue(f, items[k])
    requires CountOf(d, slot, c) + |items| <= d.arraySize
    requires if FixedCount(d) then slot.Fixed? && |slot.items| == d.arraySize else slot.Many?
    ensures |xs| == |items| && forall k :: 0 <= k < |items| ==> AgreesValue(d, xs[k], f, items[k])
    ensures AbsorbItems(d, slot, c, f, items).Some?
    ensures AbsorbItems(d, slot, c, f, items).value.0 == Filled(d, slot, c, xs)
    decreases f, 1, |items|
  {
    hide EvolvesField, ValidValue, AgreesValue, AbsorbValue, DefaultMsg, Filled;
    ShapeOf(d, f);
    if items == [] {
      xs := [];
      FilledNone(d, slot, c);
    } else {
      ValueAgrees(d, map[], f, items[0]);
      var x := AbsorbValue(d, DefaultMsg(d.sub, map[]), f, items[0]).value;
      var rest := ItemsAgree(d, f, items[1..], PutItem(d, slot, c, x), Bump(d, c));
      xs := [x] + rest;
      FilledNext(d, slot, c, x, rest);
      forall k | 0 <= k < |items|
        ensures AgreesValue(d, xs[k], f, items[k])
      {
        if k > 0 { assert items[k] == items[1..][k - 1] && xs[k] == rest[k - 1]; }
      }
    }
  }

  // ---------- one field ----------

  // Nothing is transmitted for an absent field, and its default agrees with it.
  lemma {:induction false} AbsentAgrees(d: Field, x: Slot, f: Field, s: Slot)
    requires EvolvesField(d, f) && ValidSlot(f, s) && Fresh(d, x) && !Present(f, s)
    ensures AgreesSlot(d, x, f, s)
    decreases f, 1
  {
    if f.htype.Optional? && f.sizeOffset == 0 {
      var was: Slot :| x == DefaultSlot(d, was);
      ZeroAgrees(d, ValueOf(was), f, s.v);
    } else {
      assert SameShape(d, f) by { ShapeOf(d, f); }
    }
  }

  lemma ShapeOf(d: Field, f: Field)
    requires EvolvesField(d, f)
    ensures SameShape(d, f) && f.tag >= 1 && f.dataSize >= 1 && d.atype.Static? && f.atype.Static?
  {
  }

  lemma {:induction false} ZeroAgrees(d: Field, was: Value, f: Field, v: Value)
    requires EvolvesField(d, f) && ValidValue(f, v) && IsZero(f, v)
    requires f.htype.Optional? && f.sizeOffset == 0
    ensures AgreesValue(d, InitValue(d, was), f, v)
    decreases f, 0
  {
    if f.ltype.TSubmessage? {
      DefaultsAgree(d.sub, AsMsg(was), f.sub, v.m);
    } else {
    }
  }

  lemma {:induction false} AllDefaultAt(fields: seq<Field>, m: Message, i: nat, k: nat)
    requires i <= k < |fields| && AllDefault(fields, m, i)
    ensures IsDefault(fields[k], Get(m, Offset(fields, k)))
    decreases k - i
  {
    hide IsDefault;
    if i < k { AllDefaultAt(fields, m, i + 1, k); }
  }

  lemma DefaultIsAbsent(f: Field, s: Slot)
    requires WellFormedField(f) && ValidSlot(f, s) && IsDefault(f, s)
    ensures !Present(f, s)
  {
    hide ValidValue, IsZero, WellFormed;
  }

  // A submessage that counts as all default agrees with the default structure.
  lemma {:induction false} DefaultsAgree(dst: seq<Field>, was: Message, src: seq<Field>, msg: Message)
    requires Evolves(dst, src) && Valid(src, msg) && AllDefault(src, msg, 0)
    ensures Agrees(dst, DefaultMsg(dst, was), src, msg)
    decreases src
  {
    hide EvolvesField, ValidSlot, AllDefault, AgreesSlot, Fresh, DefaultMsg;
    forall j | 0 <= j < |dst|
      ensures HoldsUpTo(dst[j], Get(DefaultMsg(dst, was), Offset(dst, j)), src, msg, |src|)
    {
      DefaultsAreFresh(dst, was, j);
      forall k | 0 <= k < |src| && src[k].tag == dst[j].tag
        ensures AgreesSlot(dst[j], Get(DefaultMsg(dst, was), Offset(dst, j)), src[k], Get(msg, Offset(src, k)))
      {
        FieldEvolves(dst, src, j, k);
        AllDefaultAt(src, msg, 0, k);
        assert ValidSlot(src[k], Get(msg, Offset(src, k)));
        assert WellFormedField(src[k]);
        DefaultIsAbsent(src[k], Get(msg, Offset(src, k)));
        AbsentAgrees(dst[j], Get(DefaultMsg(dst, was), Offset(dst, j)), src[k], Get(msg, Offset(src, k)));
      }
    }
  }

  lemma {:induction false} PresentArrayAgrees(d: Field, x: Slot, f: Field, s: Slot)
    requires EvolvesField(d, f) && ValidSlot(f, s) && Fresh(d, x) && f.htype.Repeated?
    ensures AbsorbSlot(d, x, f, s).Some?
    ensures AgreesSlot(d, AbsorbSlot(d, x, f, s).value, f, s)
    decreases f, 2
  {
    hide EvolvesField, AgreesValue, ValidValue, AbsorbItems, EncPacked, InitValue;
    ShapeOf(d, f);
    var xs := ItemsAgree(d, f, ItemsOf(s), x, 0);
    if FixedCount(d) {
      assert x.items[..0] + xs + x.items[|xs|..] == xs;
    } else {
      assert [] + xs == xs;
    }
  }

  // A submessage that arrives in a fresh slot is merged into defaults.
  lemma FreshBase(d: Field, x: Slot) returns (was: Message)
    requires Fresh(d, x) && !d.htype.Repeated? && d.atype.Static?
    ensures d.ltype.TSubmessage? ==> BaseMsg(d, x) == DefaultMsg(d.sub, was)
  {
    hide DefaultUpTo;
    was := map[];
    if !d.htype.Oneof? {
      var slot: Slot :| x == DefaultSlot(d, slot);
      was := AsMsg(ValueOf(slot));
      assert d.ltype.TSubmessage? ==> InitValue(d, ValueOf(slot)) == VMsg(DefaultMsg(d.sub, was));
    }
  }

  // A transmitted field arrives whole in a fresh slot.
  lemma {:induction false} PresentAgrees(d: Field, x: Slot, f: Field, s: Slot)
    requires EvolvesField(d, f) && ValidSlot(f, s) && Fresh(d, x) && Present(f, s)
    ensures AbsorbSlot(d, x, f, s).Some?
    ensures AgreesSlot(d, AbsorbSlot(d, x, f, s).value, f, s)
    ensures d.htype.Oneof? ==> AbsorbSlot(d, x, f, s).value.Union? && AbsorbSlot(d, x, f, s).value.which == d.tag
    decreases f, 3
  {
    hide EvolvesField, AgreesValue, ValidValue, IsZero, AbsorbFrom, DefaultMsg;
    ShapeOf(d, f);
    if f.htype.Repeated? {
      PresentArrayAgrees(d, x, f, s);
    } else {
      var was := FreshBase(d, x);
      ValueAgrees(d, was, f, ValueOf(s));
      assert AbsorbValue(d, BaseMsg(d, x), f, ValueOf(s)) == AbsorbValue(d, DefaultMsg(d.sub, was), f, ValueOf(s));
    }
  }
}
