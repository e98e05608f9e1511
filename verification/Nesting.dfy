// How deep the decoder recurses: every level takes at least a tag byte and a length byte
// of the input, whatever the descriptors.
module Nesting {
  import opened Wire
  import opened Fields
  import opened Encoding
  import opened Decoding

  function Max(a: nat, b: nat): nat { if a < b then b else a }

  // Levels of submessages entered by the loop of pb_decode_noinit, also when it fails.
  function Depth(fields: seq<Field>, s: bytes, st: State): (d: nat)
    ensures 2 * d <= |s|
    decreases |s|, 3
  {
    if s == [] then 0
    else
      var first := RecordDepth(fields, s, st);
      match Step(fields, s, st)
      case Next(st', n) => Max(first, Depth(fields, s[n..], st'))
      case _ => first
  }

  function RecordDepth(fields: seq<Field>, s: bytes, st: State): (d: nat)
    ensures 2 * d <= |s|
    decreases |s|, 2
  {
    match DecTag(s)
    case Tag(tag, _, n) => TaggedDepth(fields, tag, s[n..], st)
    case _ => 0
  }

  function TaggedDepth(fields: seq<Field>, tag: nat, s: bytes, st: State): (d: nat)
    ensures d > 0 ==> 2 * d <= |s| + 1
    decreases |s|, 7
  {
    match Lookup(fields, tag)
    case Some(i) => KnownDepth(fields, i, s, st)
    case None => 0
  }

  function KnownDepth(fields: seq<Field>, i: nat, s: bytes, st: State): (d: nat)
    requires i <= |fields|
    ensures d > 0 ==> 2 * d <= |s| + 1
    decreases |s|, 6
  {
    match EnterFixed(fields, i, st)
    case Some(st0) => FieldDepth(FieldAt(fields, i), s, Get(st0.msg, Offset(fields, i)), st0.fixedCount)
    case None => 0
  }

  function FieldDepth(f: Field, s: bytes, slot: Slot, counter: nat): (d: nat)
    ensures d > 0 ==> 2 * d <= |s| + 1
    decreases |s|, 5
  {
    if f.htype.Repeated? && CountOf(f, slot, counter) >= Capacity(f) then 0 else ValueDepth(f, s, slot)
  }

  function ValueDepth(f: Field, s: bytes, slot: Slot): (d: nat)
    ensures d > 0 ==> 2 * d <= |s| + 1
    decreases |s|, 4
  {
    if !f.ltype.TSubmessage? then 0
    else
      match DecBlock(s)
      case Ok(data, _) => 1 + Depth(f.sub, data, Start(BaseMsg(f, slot)))
      case Fail => 0
  }

  lemma DepthNext(fields: seq<Field>, s: bytes, st: State)
    requires s != []
    ensures var r := Step(fields, s, st);
            Depth(fields, s, st) ==
            if r.Next?
            then Max(RecordDepth(fields, s, st), Depth(fields, s[r.n..], r.st))
            else RecordDepth(fields, s, st)
  {
    hide Step;
  }

  // ---------- the bound is reached ----------

  // A type with d levels of optional submessages below each other.
  function Chain(d: nat): seq<Field> {
    if d == 0 then []
    else [Field(1, Static, Optional, TSubmessage, 1, -1, 1, 0, Chain(d - 1), VInt(0))]
  }

  // One record at every level.
  function Nested(d: nat): (s: bytes)
    requires d <= 64
    ensures |s| == 2 * d
  {
    if d == 0 then [] else [10, 2 * (d - 1)] + Nested(d - 1)
  }

  // Two bytes of input for every level.
  lemma {:induction false} DepthReached(d: nat, m: Message)
    requires d <= 64
    ensures Depth(Chain(d), Nested(d), Start(m)) == d
    decreases d
  {
    hide Depth, RecordDepth, BaseMsg, DecBlock, DecTag;
    if d > 0 {
      var f, s, body := Chain(d)[0], Nested(d), Nested(d)[1..];
      NestedBytes(d, s, body);
      DepthReached(d - 1, BaseMsg(f, Get(m, 1)));
      RecordReached(d, f, s, body, m);
      DepthNext([f], s, Start(m));
    }
  }

  lemma NestedBytes(d: nat, s: bytes, body: bytes)
    requires 0 < d <= 64 && s == Nested(d) && body == s[1..]
    ensures DecTag(s) == Tag(1, 2, 1) && DecBlock(body) == Ok(Nested(d - 1), 2 * d - 1)
  {
    assert body[1..1 + 2 * (d - 1)] == Nested(d - 1);
  }

  lemma RecordReached(d: nat, f: Field, s: bytes, body: bytes, m: Message)
    requires d > 0 && f.tag == 1 && f.htype.Optional? && f.ltype.TSubmessage? && f.dataOffset == 1
    requires |s| >= 1 && s[1..] == body && DecTag(s) == Tag(1, 2, 1) && DecBlock(body).Ok?
    requires Depth(f.sub, DecBlock(body).value, Start(BaseMsg(f, Get(m, 1)))) == d - 1
    ensures RecordDepth([f], s, Start(m)) == d
  {
    hide DecBlock, BaseMsg, DecTag, Depth;
    assert Lookup([f], 1) == Some(0) && Offset([f], 0) == 1;
    assert ValueDepth(f, body, Get(m, 1)) == d;
    assert FieldDepth(f, body, Get(m, 1), 0) == d;
    assert KnownDepth([f], 0, body, Start(m)) == d;
  }
}
