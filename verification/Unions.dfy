// A oneof whose members own allocations, when a record for a static submessage arrives. The
// member in effect is released only if it is another one.
module Unions {
  import opened Wire
  import opened Fields
  import opened Encoding
  import opened Decoding
  import opened Heap
  import opened Release
  import PointerDecoder

  // A member of a union, as a field of its own.
  function Alone(f: Field): Field {
    f.(htype := HType.Optional, sizeOffset := 0)
  }

  ghost predicate Member(f: Field) {
    f.htype.Oneof? && HeapField(Alone(f))
  }

  // What the storage owned and nothing owns any more.
  ghost function Lost(g: Field, c: Cell, h: Heap, now: Heap): set<Addr> {
    FieldReach(Alone(g), c, h) * now.Keys
  }

  // decode_field and decode_static_field, up to the call of pb_dec_submessage: `c` is the
  // storage of the union as the member `g` in effect has it.
  method EnterMember(mem: Memory, g: Field, c: Cell, which: nat, f: Field) returns (which': nat, m: Struct)
    requires Member(g) && Member(f) && f.atype.Static? && f.ltype.TSubmessage?
    requires FieldSep(Alone(g), c, mem.live, false)
    requires if which == 0 then FieldReach(Alone(g), c, mem.live) == {} else which == g.tag
    requires which == f.tag ==> g == f
    modifies mem`live
    ensures which' == f.tag
    ensures Sep(f.sub, m, mem.live, true) && Reach(f.sub, m, mem.live) == {}
    ensures mem.live == if which == f.tag then old(mem.live) else FieldOthers(Alone(g), c, old(mem.live))
    ensures Lost(g, c, old(mem.live), mem.live) == if which == f.tag then FieldReach(Alone(g), c, old(mem.live)) else {}
  {
    hide Sep, Reach, FieldSep, FieldReach, HeapField;
    ghost var h := mem.live;
    FieldReachLive(Alone(g), c, h, false);
    if which != 0 && which != f.tag {
      var _ := ReleaseField(mem, Alone(g), c);
    }
    PointerDecoder.ZeroSep(f.sub, mem.live, false);
    assert HeapFields(f.sub) by { SubHeap(f); }
    m := PointerDecoder.SetToDefaults(f.sub, PointerDecoder.ZeroStruct(f.sub), mem.live);
    which' := f.tag;
  }

  lemma SubHeap(f: Field)
    requires Member(f) && f.ltype.TSubmessage?
    ensures HeapFields(f.sub)
  {
    hide HeapFields;
  }

  // Allocations are lost exactly when the record repeats the member in effect and that one
  // owns some.
  ghost predicate Loses(g: Field, c: Cell, which: nat, f: Field, h: Heap) {
    var now := if which == 0 || which == f.tag then h else FieldOthers(Alone(g), c, h);
    Lost(g, c, h, now) != {}
  }

  lemma LosesIff(g: Field, c: Cell, which: nat, f: Field, h: Heap)
    requires FieldSep(Alone(g), c, h, false)
    requires if which == 0 then FieldReach(Alone(g), c, h) == {} else which == g.tag
    ensures Loses(g, c, which, f, h) <==> which == f.tag && FieldReach(Alone(g), c, h) != {}
  {
    hide FieldSep, FieldReach;
    FieldReachLive(Alone(g), c, h, false);
    var r := FieldReach(Alone(g), c, h);
    assert r * h.Keys == r;
    assert r * (h - r).Keys == {};
  }

  // A submessage in a oneof that holds a string behind a pointer: a second record of it
  // loses the string.
  lemma RepeatedIsLost()
    ensures var text := Field(1, Pointer, Optional, TString, 0, 0, 1, 0, [], VBytes([]));
            var f := Field(2, Static, Oneof, TSubmessage, 0, 2, 8, 0, [text], VInt(0));
            var c, h := Inline([[Ptr(7, 0)]], 0, false), map[7 := Data(3, [VBytes([104, 105])])];
            (PB_SIZE_MAX <= SIZE_MAX ==> Member(f)) && FieldSep(Alone(f), c, h, true) && Loses(f, c, 2, f, h)
  {
    var text := Field(1, Pointer, Optional, TString, 0, 0, 1, 0, [], VBytes([]));
    var f := Field(2, Static, Oneof, TSubmessage, 0, 2, 8, 0, [text], VInt(0));
    var m, h := [Ptr(7, 0)], map[7 := Data(3, [VBytes([104, 105])])];
    var c := Inline([m], 0, false);
    assert Extent(text) > 0 && LayoutOk([text]);
    assert PB_SIZE_MAX <= SIZE_MAX ==> HeapField(text) && HeapFields([text]);
    OneText(text, h);
    assert ItemsSep([text], [m], 1, h, true) && ItemsReach([text], [m], h) == {7} by { OneItem(text, m, h); }
    assert FieldSep(Alone(f), c, h, true) && FieldReach(Alone(f), c, h) == {7};
    PointerDecoder.Untidy(Alone(f), c, h);
    hide FieldSep, FieldReach;
    LosesIff(f, c, 2, f, h);
  }

  lemma OneText(text: Field, h: Heap)
    requires text.atype.Pointer? && text.htype.Optional? && text.ltype.TString?
    requires h == map[7 := Data(3, [VBytes([104, 105])])]
    ensures FieldSep(text, Ptr(7, 0), h, true) && FieldReach(text, Ptr(7, 0), h) == {7}
  {
    assert BlockSep(text, 7, 0, h, true);
    Owned(text, 7, 0, h);
  }

  lemma OneItem(text: Field, m: Struct, h: Heap)
    requires m == [Ptr(7, 0)] && FieldSep(text, m[0], h, true) && FieldReach(text, m[0], h) == {7}
    ensures ItemsSep([text], [m], 1, h, true) && ItemsReach([text], [m], h) == {7}
  {
    hide FieldSep, FieldReach;
    assert [text][0] == text;
    assert Sep([text], m, h, true) && Reach([text], m, h) == {7} by {
      assert 7 in FieldReach([text][0], m[0], h);
    }
    assert [m][0] == m;
    assert 7 in Reach([text], [m][0], h);
  }
}
