// Packed and unpacked arrays: how a list is cut into packed runs and single entries
// does not matter.
module Packed {
  import opened Bits
  import opened Wire
  import opened Fields
  import opened Encoding
  import opened Decoding
  import opened Values
  import opened Locality
  import opened Schema
  import opened Transfer

  datatype Chunk = Run(xs: seq<Value>) | Single(x: Value)

  function Entries(c: Chunk): seq<Value> {
    match c
    case Run(xs) => xs
    case Single(x) => [x]
  }

  function Flatten(chunks: seq<Chunk>): seq<Value> {
    if chunks == [] then [] else Entries(chunks[0]) + Flatten(chunks[1..])
  }

  function EncChunk(f: Field, c: Chunk): bytes {
    match c
    case Run(xs) => EncTag(WT_STRING, f.tag) + EncBlock(EncPacked(f, xs))
    case Single(x) => EncRecord(f, x)
  }

  function EncChunks(f: Field, chunks: seq<Chunk>): bytes {
    if chunks == [] then [] else EncChunk(f, chunks[0]) + EncChunks(f, chunks[1..])
  }

  // A run short enough for its length prefix.
  predicate ValidChunk(f: Field, c: Chunk) {
    && (forall k :: 0 <= k < |Entries(c)| ==> ValidScalar(f, Entries(c)[k]))
    && |EncPacked(f, Entries(c))| < TWO32
  }

  // Field j of the descriptor is an array of scalars.
  ghost predicate ScalarArray(fields: seq<Field>, j: nat) {
    && j < |fields| && WellFormedField(fields[j]) && fields[j].htype.Repeated? && Packable(fields[j].ltype)
    && Lookup(fields, fields[j].tag) == Some(j)
  }

  // Storing entries one after the other, with the check for room before each.
  lemma {:induction false} AbsorbItemsConcat(d: Field, slot: Slot, c: nat, xs: seq<Value>, ys: seq<Value>)
    ensures AbsorbItems(d, slot, c, d, xs + ys) ==
            match AbsorbItems(d, slot, c, d, xs)
            case Some(r) => AbsorbItems(d, r.0, r.1, d, ys)
            case None => None
    decreases |xs|
  {
    if xs == [] {
      assert xs + ys == ys;
    } else {
      assert (xs + ys)[1..] == xs[1..] + ys;
      var v := AbsorbValue(d, BaseMsg(d, slot), d, xs[0]);
      if CountOf(d, slot, c) < Capacity(d) && v.Some? {
        AbsorbItemsConcat(d, PutItem(d, slot, c, v.value), Bump(d, c), xs[1..], ys);
      }
    }
  }

  lemma ChunkStep(fields: seq<Field>, j: nat, c: Chunk, t: bytes, st: State)
    requires ScalarArray(fields, j) && ValidChunk(fields[j], c) && EnterFixed(fields, j, st).Some?
    ensures var e := EnterFixed(fields, j, st).value;
            DecLoop(fields, EncChunk(fields[j], c) + t, st) ==
            Outcome(fields, j, st,
              AbsorbItems(fields[j], Get(e.msg, Offset(fields, j)), e.fixedCount, fields[j], Entries(c)),
              |EncChunk(fields[j], c)|, t)
  {
    hide DecLoop, Lookup, WellFormedField, EncPacked, EncTag, EncBlock, DecBlock, DecPacked, EnterFixed, DecScalar,
      EncValue, ValidScalar;
    UnfoldField(fields[j]);
    var f := fields[j];
    var e := EnterFixed(fields, j, st).value;
    var slot := Get(e.msg, Offset(fields, j));
    match c
    case Run(xs) =>
      var data := EncPacked(f, xs);
      PackedTransfer(f, f, xs, slot, e.fixedCount);
      BlockRoundTrip(data, t);
      KnownRecord(fields, j, WT_STRING, f.tag, EncBlock(data), t, st);
    case Single(x) =>
      assert Entries(c)[0] == x;
      assert SameShape(f, f);
      RecordTransfer(fields, j, f, x, t, st);
      var v := AbsorbValue(f, BaseMsg(f, slot), f, x);
      assert v == Some(x);
      assert [x][1..] == [];
  }

  // Any cut of a list into runs, empty ones included, and single entries is received
  // as the list itself, stored entry by entry.
  lemma {:induction false} ChunksStored(fields: seq<Field>, j: nat, chunks: seq<Chunk>, t: bytes, st: State)
    requires ScalarArray(fields, j) && EnterFixed(fields, j, st).Some? && chunks != []
    requires j < |fields| && forall k :: 0 <= k < |chunks| ==> ValidChunk(fields[j], chunks[k])
    ensures var e := EnterFixed(fields, j, st).value;
            DecLoop(fields, EncChunks(fields[j], chunks) + t, st) ==
            Outcome(fields, j, st,
              AbsorbItems(fields[j], Get(e.msg, Offset(fields, j)), e.fixedCount, fields[j], Flatten(chunks)),
              |EncChunks(fields[j], chunks)|, t)
    decreases |chunks|
  {
    hide DecLoop, ScalarArray, ValidChunk, EncChunk, AbsorbItems, EnterFixed, AfterField, Offset, Get, Entries, Shift;
    RepeatedArray(fields, j);
    var f, e := fields[j], EnterFixed(fields, j, st).value;
    var slot := Get(e.msg, Offset(fields, j));
    var first, more := EncChunk(f, chunks[0]), chunks[1..];
    var rest := EncChunks(f, more);
    assert EncChunks(f, chunks) == first + rest && Flatten(chunks) == Entries(chunks[0]) + Flatten(more);
    assert first + rest + t == first + (rest + t);
    ChunkStep(fields, j, chunks[0], rest + t, st);
    AbsorbItemsConcat(f, slot, e.fixedCount, Entries(chunks[0]), Flatten(more));
    var r := AbsorbItems(f, slot, e.fixedCount, f, Entries(chunks[0]));
    if more == [] {
      assert rest + t == t;
      assert Entries(chunks[0]) + [] == Entries(chunks[0]);
    } else if r.Some? {
      var all := AbsorbItems(f, r.value.0, r.value.1, f, Flatten(more));
      var st1 := AfterField(fields, j, st, r.value);
      OutcomeTwice(fields, j, st, r.value, all, |first|, |rest|, t);
      AfterTwice(fields, j, st, r.value);
      ChunksStored(fields, j, more, t, st1);
      AfterCount(fields, j, st, r.value);
    }
  }

  // The counter after a field of an array.
  lemma AfterCount(fields: seq<Field>, j: nat, st: State, r: (Slot, nat))
    requires j < |fields| && EnterFixed(fields, j, st).Some?
    ensures AfterField(fields, j, st, r).fixedCount == r.1
  {
  }

  lemma RepeatedArray(fields: seq<Field>, j: nat)
    requires ScalarArray(fields, j)
    ensures j < |fields| && fields[j].htype.Repeated? && !fields[j].ltype.TSubmessage?
  {
  }

  lemma NothingStored(was: seq<Value>, c: nat)
    requires c <= |was|
    ensures was[..c] + [] + was[c..] == was && was + [] == was
  {
  }

  // One entry and then the rest, in the array that holds the entries before.
  lemma FixedStored(was: seq<Value>, c: nat, items: seq<Value>)
    requires items != [] && c + |items| <= |was|
    ensures var put := was[c := items[0]];
            put[..c + 1] + items[1..] + put[c + |items|..] == was[..c] + items + was[c + |items|..]
  {
    var put := was[c := items[0]];
    assert put[..c + 1] == was[..c] + [items[0]];
    assert put[c + |items|..] == was[c + |items|..];
    assert put[..c + 1] + items[1..] == was[..c] + items;
  }

  // What storing a list means: a counted array grows by it, an array with a fixed
  // count has it behind the entries received before; a list too long is refused.
  lemma {:induction false} ListStored(f: Field, slot: Slot, c: nat, items: seq<Value>)
    requires f.htype.Repeated? && !f.ltype.TSubmessage? && CountOf(f, slot, c) <= Capacity(f)
    requires if FixedCount(f) then f.atype.Static? && slot.Fixed? && |slot.items| == f.arraySize else slot.Many?
    ensures AbsorbItems(f, slot, c, f, items) ==
            if CountOf(f, slot, c) + |items| > Capacity(f) then None
            else if FixedCount(f) then Some((Fixed(slot.items[..c] + items + slot.items[c + |items|..]), c + |items|))
            else Some((Many(slot.items + items), c))
    decreases |items|
  {
    if items == [] {
      NothingStored(slot.items, if FixedCount(f) then c else 0);
    } else if CountOf(f, slot, c) < Capacity(f) {
      var slot1 := PutItem(f, slot, c, items[0]);
      ListStored(f, slot1, Bump(f, c), items[1..]);
      if !FixedCount(f) {
        assert slot.items + [items[0]] + items[1..] == slot.items + items;
      } else if c + |items| <= Capacity(f) {
        FixedStored(slot.items, c, items);
      }
    }
  }

  // Two ways of cutting the same list lead to the same structure, or both fail.
  lemma PackedEquivalence(fields: seq<Field>, j: nat, a: seq<Chunk>, b: seq<Chunk>, st: State)
    requires ScalarArray(fields, j) && EnterFixed(fields, j, st).Some? && a != [] && b != []
    requires forall k :: 0 <= k < |a| ==> ValidChunk(fields[j], a[k])
    requires forall k :: 0 <= k < |b| ==> ValidChunk(fields[j], b[k])
    requires Flatten(a) == Flatten(b)
    ensures var x := DecLoop(fields, EncChunks(fields[j], a), st);
            var y := DecLoop(fields, EncChunks(fields[j], b), st);
            x.Done? == y.Done? && (x.Done? ==> x.st == y.st && !x.stopped && !y.stopped)
  {
    ChunksAlone(fields, j, a, st);
    ChunksAlone(fields, j, b, st);
  }

  lemma ChunksAlone(fields: seq<Field>, j: nat, chunks: seq<Chunk>, st: State)
    requires ScalarArray(fields, j) && EnterFixed(fields, j, st).Some? && chunks != []
    requires forall k :: 0 <= k < |chunks| ==> ValidChunk(fields[j], chunks[k])
    ensures var e := EnterFixed(fields, j, st).value;
            DecLoop(fields, EncChunks(fields[j], chunks), st) ==
            match AbsorbItems(fields[j], Get(e.msg, Offset(fields, j)), e.fixedCount, fields[j], Flatten(chunks))
            case Some(r) => Done(AfterField(fields, j, st, r), |EncChunks(fields[j], chunks)|, false)
            case None => Failed
  {
    assert j < |fields|;
    ChunksStored(fields, j, chunks, [], st);
    assert EncChunks(fields[j], chunks) + [] == EncChunks(fields[j], chunks);
    var e := EnterFixed(fields, j, st).value;
    var r := AbsorbItems(fields[j], Get(e.msg, Offset(fields, j)), e.fixedCount, fields[j], Flatten(chunks));
    if r.Some? { LoopEnd(fields, AfterField(fields, j, st, r.value)); }
  }
}
