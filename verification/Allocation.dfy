// The size computations of allocate_field and of the growing array of a packed run.
module Allocation {
  import opened Bits
  import opened Wire
  import opened Fields
  import opened Decoding
  import opened Streams
  import opened Heap
  import opened Release

  // Sizes below one half word each have a product that fits.
  const CHECK_LIMIT: nat :=
    if SIZE_MAX == 0xFFFF then 0x100 else if SIZE_MAX == 0xFFFF_FFFF then 0x1_0000 else 0x1_0000_0000

  lemma ProductBelow(a: nat, b: nat, x: nat, y: nat)
    requires a <= x && b <= y
    ensures a * b <= x * y
  {
    assert a * b <= x * b <= x * y;
  }

  lemma HalfWords(dataSize: nat, arraySize: nat)
    requires dataSize < CHECK_LIMIT && arraySize < CHECK_LIMIT
    ensures dataSize * arraySize <= SIZE_MAX
  {
    ProductBelow(dataSize, arraySize, CHECK_LIMIT - 1, CHECK_LIMIT - 1);
  }

  // The division that replaces the product.
  lemma DivisionTest(dataSize: nat, arraySize: nat, limit: nat)
    requires arraySize > 0
    ensures limit / arraySize < dataSize <==> limit < dataSize * arraySize
  {
    var q, r := limit / arraySize, limit % arraySize;
    assert limit == q * arraySize + r && r < arraySize;
    if dataSize <= q {
      ProductBelow(dataSize, arraySize, q, arraySize);
    } else {
      ProductBelow(q + 1, arraySize, dataSize, arraySize);
      assert (q + 1) * arraySize == q * arraySize + arraySize;
    }
  }

  // The checks of allocate_field accept exactly the sizes, none of them zero, whose
  // product is a size_t.
  method CheckSizes(dataSize: nat, arraySize: nat) returns (ok: bool)
    requires dataSize <= SIZE_MAX && arraySize <= SIZE_MAX
    ensures ok <==> dataSize != 0 && arraySize != 0 && dataSize * arraySize <= SIZE_MAX
  {
    if dataSize == 0 || arraySize == 0 { return false; }
    if dataSize >= CHECK_LIMIT || arraySize >= CHECK_LIMIT {
      DivisionTest(dataSize, arraySize, SIZE_MAX);
      if SIZE_MAX / arraySize < dataSize { return false; }
    } else {
      HalfWords(dataSize, arraySize);
    }
    ok := true;
  }

  // allocate_field: 0 on failure, which leaves the old allocation in place. `block` is
  // what the allocation holds afterwards. A size that is no size_t counts as denied.
  method AllocateField(mem: Memory, p: Addr, dataSize: nat, arraySize: nat, block: Block) returns (q: Addr)
    requires dataSize <= SIZE_MAX && arraySize <= SIZE_MAX && (p == 0 || (p in mem.live && Kept(mem.live[p], block)))
    modifies mem
    ensures q == 0 ==> mem.live == old(mem.live) && mem.denied
    ensures q != 0 ==> mem.denied == old(mem.denied)
    ensures q != 0 ==> 0 < dataSize * arraySize <= SIZE_MAX
    ensures q != 0 ==> (q == p || q !in old(mem.live)) && mem.live == Moved(old(mem.live), p, q, block)
  {
    var ok := CheckSizes(dataSize, arraySize);
    if !ok {
      mem.denied := true;
      return 0;
    }
    ProductBelow(1, 1, dataSize, arraySize);
    q := mem.Realloc(p, block);
  }

  lemma QuotientSmall(a: nat, d: nat)
    requires d > 0
    ensures 0 <= a / d <= a
  {
    ProductBelow(a / d, 1, a / d, d);
  }

  // The new capacity of the array of a packed run of which `left` bytes remain: a guess
  // of the number of entries to come, or one more entry when that would be too many.
  method Grow(count: nat, capacity: nat, left: nat, dataSize: nat) returns (n: nat)
    requires capacity == count && count < PB_SIZE_MAX && left > 0 && dataSize > 0
    ensures count < n <= PB_SIZE_MAX && n <= count + left
  {
    QuotientSmall(left - 1, dataSize);
    var remain := (left - 1) / dataSize + 1;
    // unsigned arithmetic: the difference must not underflow
    var room: nat := PB_SIZE_MAX - capacity;
    n := if remain < room then capacity + remain else capacity + 1;
  }

  // The number of bytes to allocate for a string or bytes value of a received length;
  // 0 when the length is refused. The sum of a string is computed in 32 bits.
  method TextSize(f: Field, size: nat) returns (n: nat)
    requires Text(f.ltype) && size < TWO32
    ensures n <= SIZE_MAX
    ensures n ==
            if (f.ltype.TBytes? && size > PB_SIZE_MAX) || (f.ltype.TString? && size + 1 == TWO32) then 0
            else if size + Extra(f) > SIZE_MAX then 0
            else size + Extra(f)
    ensures f.atype.Pointer? ==> (n != 0 <==> Takes(f, size))
  {
    if f.ltype.TBytes? {
      if size > PB_SIZE_MAX { return 0; }
      n := Narrow(Narrow(size) + BYTES_OFFSET);
    } else {
      Wrap(size + 1, TWO32);
      n := Narrow((size + 1) % TWO32);
    }
    if n < size { return 0; }
  }
}
