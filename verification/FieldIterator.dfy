// The circular iterator over the fields of a structure (pb_common.c).
module FieldIterator {
  import opened Fields
  import opened Layout

  // The addresses are the offsets of the member at `pos` and of its has_, _count or
  // which_ member, as offsetof gives them.
  ghost predicate AtMember(fields: seq<Field>, pos: nat, pData: nat, pSize: int) {
    forall members: seq<Member> :: Describes(fields, members) && NoFalseUnion(fields, members) && pos < |members| ==>
      pData == members[pos].at && pSize == members[pos].cellAt
  }

  lemma SumsAtMember(fields: seq<Field>, pos: nat)
    requires pos <= |fields|
    ensures AtMember(fields, pos, Offset(fields, pos), SizeAddress(fields, pos))
  {
    hide Offset, SizeAddress, Entry;
    forall members: seq<Member> | Describes(fields, members) && NoFalseUnion(fields, members) && pos < |members|
      ensures Offset(fields, pos) == members[pos].at && SizeAddress(fields, pos) == members[pos].cellAt
    {
      TrueOffset(fields, members, pos);
    }
  }

  predicate Matches(f: Field, tag: nat) {
    f.tag == tag && !f.ltype.TExtension?
  }

  // Stepping d entries on from p in a circle of n.
  function Around(p: nat, d: nat, n: nat): int {
    if p + d < n then p + d else p + d - n
  }

  class FieldIter {
    const start: seq<Field>
    var pos: nat
    var requiredFieldIndex: nat
    var pData: nat
    var pSize: int

    // The terminator is reached only in an empty descriptor; the addresses and the
    // required index are those of the field at `pos`, in every structure that the
    // descriptor can have been made for.
    ghost predicate Valid()
      reads this
    {
      && (forall i :: 0 <= i < |start| ==> start[i].tag != 0)
      && (if start == [] then pos == 0 else pos < |start|)
      && requiredFieldIndex == RequiredBefore(start, pos)
      && pData == Offset(start, pos)
      && pSize == SizeAddress(start, pos)
      && AtMember(start, pos, pData, pSize)
    }

    constructor (fields: seq<Field>)
      requires forall i :: 0 <= i < |fields| ==> fields[i].tag != 0
      ensures Valid() && start == fields && pos == 0
    {
      start := fields;
      pos, requiredFieldIndex := 0, 0;
      pData := FieldAt(fields, 0).dataOffset;
      pSize := FieldAt(fields, 0).dataOffset + FieldAt(fields, 0).sizeOffset;
      new;
      SumsAtMember(fields, 0);
    }

    // pb_field_iter_begin
    method Begin() returns (some: bool)
      requires forall i :: 0 <= i < |start| ==> start[i].tag != 0
      modifies this
      ensures Valid() && pos == 0
      ensures some <==> start != []
    {
      pos := 0;
      requiredFieldIndex := 0;
      pData := FieldAt(start, pos).dataOffset;
      pSize := pData + FieldAt(start, pos).sizeOffset;
      SumsAtMember(start, 0);
      some := FieldAt(start, pos).tag != 0;
    }

    // pb_field_iter_next: false when it wraps around to the first field.
    method Next() returns (more: bool)
      requires Valid()
      modifies this
      ensures Valid()
      ensures more <==> old(pos) + 1 < |start|
      ensures pos == if more then old(pos) + 1 else 0
    {
      var prev := FieldAt(start, pos);
      if prev.tag == 0 { return false; }
      pos := pos + 1;
      if FieldAt(start, pos).tag == 0 {
        var _ := Begin();
        return false;
      }
      var cur := FieldAt(start, pos);
      SumsAtMember(start, pos);
      var prevSize := prev.dataSize;
      if prev.htype.Oneof? && cur.htype.Oneof? && cur.dataOffset == PB_SIZE_MAX {
        return true;
      } else if prev.atype.Static? && prev.htype.Repeated? {
        prevSize := prevSize * prev.arraySize;
      } else if prev.atype.Pointer? {
        prevSize := POINTER_SIZE;
      }
      if prev.htype.Required? {
        requiredFieldIndex := requiredFieldIndex + 1;
      }
      pData := pData + prevSize + cur.dataOffset;
      pSize := pData + cur.sizeOffset;
      more := true;
    }

    // pb_field_iter_find: the nearest field with this tag going around from `pos`. A
    // nonzero tag is found exactly when some field has it; otherwise one whole lap
    // brings the iterator back. (Tag zero is also "found" in an empty descriptor.)
    method Find(tag: nat) returns (found: bool)
      requires Valid()
      modifies this
      ensures Valid()
      ensures found ==> Matches(FieldAt(start, pos), tag)
      ensures tag != 0 ==> (found <==> exists i :: 0 <= i < |start| && Matches(start[i], tag))
      ensures start == [] ==> (found <==> tag == 0)
      ensures start != [] && found ==>
        exists d :: 0 <= d < |start| && pos == Around(old(pos), d, |start|) &&
          forall e :: 0 <= e < d ==> !Matches(start[Around(old(pos), e, |start|)], tag)
      ensures !found ==> pos == old(pos)
    {
      var first := pos;
      ghost var d := 0;
      ghost var n := |start|;
      while true
        invariant Valid() && first == old(pos)
        invariant 0 <= d && (if start == [] then d == 0 else d < n)
        invariant start != [] ==> pos == Around(first, d, n)
        invariant start != [] ==> forall e :: 0 <= e < d ==> !Matches(start[Around(first, e, n)], tag)
        decreases n - d
      {
        if FieldAt(start, pos).tag == tag && !FieldAt(start, pos).ltype.TExtension? {
          return true;
        }
        var _ := Next();
        d := d + 1;
        if pos == first { break; }
      }
      if start != [] {
        forall i | 0 <= i < n
          ensures !Matches(start[i], tag)
        {
          var e := if i >= first then i - first else i + n - first;
          assert i == Around(first, e, n);
        }
      }
      return false;
    }
  }

  lemma PosInside(iter: FieldIter)
    requires iter.Valid()
    ensures if iter.start == [] then iter.pos == 0 else iter.pos < |iter.start|
  {
    hide Offset, SizeAddress, RequiredBefore;
  }
}
