// Structures as the C compiler lays them out, and the descriptors that the macros of pb.h
// make of them.
module Layout {
  import opened Fields

  // A member of a structure that a descriptor entry is about: offsetof and sizeof of the
  // member, and offsetof of its has_, _count or which_ member (its own if it has none).
  // `inUnion` marks every member of a union but the first (placement UNION). A submessage
  // has members of its own.
  datatype Member = Member(at: nat, size: nat, cellAt: nat, inUnion: bool, sub: seq<Member>)

  // PB_DATAOFFSET_FIRST, PB_DATAOFFSET_OTHER and PB_DATAOFFSET_UNION
  function DataOffset(members: seq<Member>, i: nat): int
    requires i < |members|
  {
    if i == 0 then members[0].at
    else if members[i].inUnion then PB_SIZE_MAX
    else members[i].at - members[i - 1].at - members[i - 1].size
  }

  // The entries that PB_FIELD and PB_ONEOF_FIELD write for these members: pb_membersize,
  // pb_delta and the data offsets. The members of a union have one address and one tag.
  ghost predicate Describes(fields: seq<Field>, members: seq<Member>) {
    && |fields| == |members|
    && (forall i :: 0 <= i < |fields| ==> Entry(fields, members, i))
  }

  ghost predicate Entry(fields: seq<Field>, members: seq<Member>, i: nat)
    requires |fields| == |members| && i < |fields|
  {
    && Extent(fields[i]) == members[i].size
    && fields[i].sizeOffset == members[i].cellAt - members[i].at
    && fields[i].dataOffset == DataOffset(members, i)
    && (members[i].inUnion ==>
          && i > 0 && fields[i - 1].htype.Oneof? && fields[i].htype.Oneof?
          && members[i].at == members[i - 1].at && members[i].cellAt == members[i - 1].cellAt)
  }

  // The iterator takes a data offset of PB_SIZE_MAX between two oneof members for the
  // placement UNION. A gap of that size is mistaken for it.
  ghost predicate FalseUnion(fields: seq<Field>, members: seq<Member>, i: nat)
    requires |fields| == |members| && i < |fields|
  {
    !members[i].inUnion && Continues(fields, i)
  }

  ghost predicate NoFalseUnion(fields: seq<Field>, members: seq<Member>)
    requires |fields| == |members|
  {
    forall i :: 0 <= i < |fields| ==> !FalseUnion(fields, members, i)
  }

  // The running sums of the iterator are the true offsets, across arrays, pointers and
  // unions.
  lemma {:induction false} TrueOffset(fields: seq<Field>, members: seq<Member>, i: nat)
    requires Describes(fields, members) && i < |fields|
    requires forall k :: 0 <= k <= i ==> !FalseUnion(fields, members, k)
    ensures Offset(fields, i) == members[i].at && SizeAddress(fields, i) == members[i].cellAt
    decreases i
  {
    assert Entry(fields, members, i) && !FalseUnion(fields, members, i);
    if i > 0 {
      TrueOffset(fields, members, i - 1);
      assert Entry(fields, members, i - 1);
    }
  }

  // They are the true offsets of all fields exactly when no gap is mistaken for a union.
  lemma TrueOffsetsIff(fields: seq<Field>, members: seq<Member>)
    requires Describes(fields, members)
    ensures (forall i :: 0 <= i < |fields| ==> Offset(fields, i) == members[i].at) <==> NoFalseUnion(fields, members)
  {
    if NoFalseUnion(fields, members) {
      forall i | 0 <= i < |fields|
        ensures Offset(fields, i) == members[i].at
      {
        TrueOffset(fields, members, i);
      }
    } else {
      var n: nat :| n < |fields| && FalseUnion(fields, members, n);
      var i := FirstFalse(fields, members, n);
      FalseOffset(fields, members, i);
    }
  }

  lemma {:induction false} FirstFalse(fields: seq<Field>, members: seq<Member>, n: nat) returns (i: nat)
    requires |fields| == |members| && n < |fields| && FalseUnion(fields, members, n)
    ensures i < |fields| && FalseUnion(fields, members, i)
    ensures forall k :: 0 <= k < i ==> !FalseUnion(fields, members, k)
    decreases n
  {
    if k: nat :| k < n && FalseUnion(fields, members, k) {
      i := FirstFalse(fields, members, k);
    } else {
      i := n;
    }
  }

  // The first gap that is mistaken makes its field share the address of the one before.
  lemma FalseOffset(fields: seq<Field>, members: seq<Member>, i: nat)
    requires Describes(fields, members) && i < |fields| && FalseUnion(fields, members, i)
    requires forall k :: 0 <= k < i ==> !FalseUnion(fields, members, k)
    ensures i > 0 && Offset(fields, i) == members[i - 1].at
    ensures members[i].at == members[i - 1].at + members[i - 1].size + PB_SIZE_MAX
  {
    TrueOffset(fields, members, i - 1);
    assert Entry(fields, members, i);
  }

  // With 8-bit sizes: two oneofs of a byte each, 256 bytes apart.
  lemma GapMistaken()
    ensures var members := [Member(1, 1, 0, false, []), Member(257, 1, 256, false, [])];
            var fields := [Field(1, Static, Oneof, TBool, 1, -1, 1, 0, [], VBool(false)),
                           Field(2, Static, Oneof, TBool, 255, -1, 1, 0, [], VBool(false))];
            && Describes(fields, members)
            && Offset(fields, 1) == if PB_SIZE_MAX == 255 then 1 else 257
  {
    var members := [Member(1, 1, 0, false, []), Member(257, 1, 256, false, [])];
    var fields := [Field(1, Static, Oneof, TBool, 1, -1, 1, 0, [], VBool(false)),
                   Field(2, Static, Oneof, TBool, 255, -1, 1, 0, [], VBool(false))];
    assert Entry(fields, members, 0) && Entry(fields, members, 1);
    assert Offset(fields, 0) == 1;
  }

  // ---------- what the C compiler guarantees ----------

  // Bytes of the has_, _count or which_ member of a field.
  function CellSize(f: Field): nat {
    match f.htype
    case Required => 0
    case Optional => if f.sizeOffset != 0 then 1 else 0
    case Repeated => if f.sizeOffset != 0 then COUNT_BYTES else 0
    case Oneof => COUNT_BYTES
  }

  // The first member of the union that member i belongs to.
  function UnionOf(members: seq<Member>, i: nat): (u: nat)
    requires i < |members|
    ensures u <= i
  {
    if i > 0 && members[i].inUnion then UnionOf(members, i - 1) else i
  }

  predicate Apart(a: int, m: nat, b: int, n: nat) {
    a + m <= b || b + n <= a
  }

  // Members i and j with storage of their own.
  predicate Different(members: seq<Member>, i: nat, j: nat)
    requires i < |members| && j < |members|
  {
    UnionOf(members, i) != UnionOf(members, j)
  }

  // Members of a structure of `size` bytes follow each other without overlap, those of
  // one union excepted; has_, _count and which_ members lie between them.
  ghost predicate Laid(fields: seq<Field>, members: seq<Member>, size: nat)
    requires |fields| == |members|
  {
    && (forall i :: 0 <= i < |fields| ==> 0 < members[i].size && members[i].at + members[i].size <= size)
    && (forall i :: 0 <= i < |fields| ==> members[i].cellAt + CellSize(fields[i]) <= size)
    && (forall i, j :: 0 <= i < j < |fields| && Different(members, i, j) ==>
          members[i].at + members[i].size <= members[j].at)
    && (forall i, j :: 0 <= i < |fields| && 0 <= j < |fields| && CellSize(fields[i]) > 0 ==>
          Apart(members[i].cellAt, CellSize(fields[i]), members[j].at, members[j].size))
    && (forall i, j :: 0 <= i < |fields| && 0 <= j < |fields| && Different(members, i, j) ==>
          CellSize(fields[i]) > 0 && CellSize(fields[j]) > 0 ==>
            Apart(members[i].cellAt, CellSize(fields[i]), members[j].cellAt, CellSize(fields[j])))
  }

  // ---------- the same in terms of computed addresses ----------

  // Every field and its cell lie inside `size` bytes, and apart from those of others.
  ghost predicate Separate(fields: seq<Field>, size: nat) {
    && (forall i :: 0 <= i < |fields| ==> 0 < Extent(fields[i]) && Offset(fields, i) + Extent(fields[i]) <= size)
    && (forall i :: 0 <= i < |fields| ==>
         0 <= SizeAddress(fields, i) && SizeAddress(fields, i) + CellSize(fields[i]) <= size)
    && (forall i, j :: 0 <= i < j < |fields| && Leader(fields, i) != Leader(fields, j) ==>
          Offset(fields, i) + Extent(fields[i]) <= Offset(fields, j))
    && (forall i, j :: 0 <= i < |fields| && 0 <= j < |fields| && CellSize(fields[i]) > 0 ==>
          Apart(SizeAddress(fields, i), CellSize(fields[i]), Offset(fields, j), Extent(fields[j])))
    && (forall i, j :: 0 <= i < |fields| && 0 <= j < |fields| && Leader(fields, i) != Leader(fields, j) ==>
          CellSize(fields[i]) > 0 && CellSize(fields[j]) > 0 ==>
            Apart(SizeAddress(fields, i), CellSize(fields[i]), SizeAddress(fields, j), CellSize(fields[j])))
  }

  lemma {:induction false} LeaderIsUnion(fields: seq<Field>, members: seq<Member>, i: nat)
    requires Describes(fields, members) && NoFalseUnion(fields, members) && i < |fields|
    ensures Leader(fields, i) == UnionOf(members, i)
    decreases i
  {
    assert Entry(fields, members, i) && !FalseUnion(fields, members, i);
    if i > 0 { LeaderIsUnion(fields, members, i - 1); }
  }

  // What the compiler guarantees of a structure holds of the addresses the iterator
  // computes for its descriptor.
  lemma LaidSeparate(fields: seq<Field>, members: seq<Member>, size: nat)
    requires Describes(fields, members) && NoFalseUnion(fields, members) && Laid(fields, members, size)
    ensures Separate(fields, size)
  {
    hide Offset, SizeAddress, Leader, UnionOf, CellSize, Continues;
    forall i | 0 <= i < |fields|
      ensures Offset(fields, i) == members[i].at && SizeAddress(fields, i) == members[i].cellAt
      ensures Leader(fields, i) == UnionOf(members, i) && Extent(fields[i]) == members[i].size
    {
      TrueOffset(fields, members, i);
      LeaderIsUnion(fields, members, i);
      assert Entry(fields, members, i);
    }
    forall i, j | 0 <= i < |fields| && 0 <= j < |fields|
      ensures Different(members, i, j) <==> Leader(fields, i) != Leader(fields, j)
    {
    }
  }

  // So does what StorageDisjoint relies on.
  lemma SeparateLayout(fields: seq<Field>, size: nat)
    requires Separate(fields, size)
    ensures LayoutOk(fields)
  {
    hide Offset, SizeAddress, CellSize, RunEnd, Continues, Leader, Apart, Extent;
    forall i | 0 < i < |fields| && !Continues(fields, i)
      ensures RunEnd(fields, i - 1) <= Offset(fields, i)
    {
      RunBefore(fields, size, i - 1, i);
    }
  }

  lemma {:induction false} RunBefore(fields: seq<Field>, size: nat, k: nat, i: nat)
    requires Separate(fields, size) && k < i < |fields| && !Continues(fields, i)
    ensures RunEnd(fields, k) <= Offset(fields, i)
    decreases k
  {
    hide Separate, Offset, Extent;
    SeparateRuns(fields, size, k, i);
    if k > 0 { RunBefore(fields, size, k - 1, i); }
  }

  lemma SeparateRuns(fields: seq<Field>, size: nat, k: nat, i: nat)
    requires Separate(fields, size) && k < i < |fields| && !Continues(fields, i)
    ensures Offset(fields, k) + Extent(fields[k]) <= Offset(fields, i)
  {
    hide Offset, SizeAddress, CellSize, Continues, Apart, Extent;
    assert Leader(fields, k) <= k < i == Leader(fields, i);
  }
}
