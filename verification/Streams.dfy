// pb_istream_t and pb_ostream_t over memory buffers, and the readers and writers of
// single wire values, as the C code performs them: byte by byte, in place.
module Streams {
  import opened Bits
  import opened Wire

  // ---------- input ----------

  class IStream {
    const buf: bytes
    var pos: nat    // the cursor, `state` in the C structure
    var left: nat   // bytes_left

    ghost predicate Valid()
      reads this
    {
      pos + left <= |buf|
    }

    // What this stream may still read.
    ghost function Rest(): (r: bytes)
      requires Valid()
      reads this
      ensures |r| == left
    {
      buf[pos..pos + left]
    }

    // Where the readable region ends.
    ghost function End(): nat
      reads this
    {
      pos + left
    }

    // Exactly n bytes were consumed and the end of the readable region did not move.
    twostate predicate Consumed(n: nat)
      reads this
    {
      && old(Valid()) && Valid()
      && n <= old(left) && pos == old(pos) + n && left == old(left) - n
      && Rest() == old(Rest())[n..]
    }

    twostate lemma Advanced(n: nat)
      requires old(Valid()) && Valid() && n <= old(left)
      requires pos == old(pos) + n && left == old(left) - n
      ensures Consumed(n)
    {
    }

    constructor FromBuffer(data: bytes)
      ensures Valid() && buf == data && pos == 0 && left == |data| && Rest() == data
    {
      buf := data;
      pos, left := 0, |data|;
    }

    // The substream of MakeSubstream: a structure copy with a smaller limit.
    constructor Limited(parent: IStream, size: nat)
      requires parent.Valid() && size <= parent.left
      ensures Valid() && buf == parent.buf && pos == parent.pos && left == size
      ensures Rest() == parent.Rest()[..size]
    {
      buf := parent.buf;
      pos, left := parent.pos, size;
    }

    method Read(count: nat) returns (ok: bool, data: bytes)
      requires Valid()
      modifies this
      ensures Valid() && End() <= old(End())
      ensures ok <==> Raw(old(Rest()), count).Ok?
      ensures ok ==> data == old(Rest())[..count] && Consumed(count)
      ensures !ok ==> Consumed(0)
    {
      if count == 0 { return true, []; }
      if left < count { return false, []; }
      data := buf[pos..pos + count];
      pos, left := pos + count, left - count;
      ok := true;
    }

    method ReadByte() returns (ok: bool, b: byte)
      requires Valid()
      modifies this
      ensures Valid() && End() <= old(End())
      ensures ok <==> old(left) > 0
      ensures ok ==> b == old(Rest())[0] && Consumed(1)
      ensures !ok ==> Consumed(0)
    {
      if left == 0 { return false, 0; }
      b := buf[pos];
      pos, left := pos + 1, left - 1;
      ok := true;
    }

    // pb_decode_varint: adds seven bits a round at `bitpos`.
    method DecodeVarint() returns (ok: bool, dest: nat)
      requires Valid()
      modifies this
      ensures Valid() && End() <= old(End())
      ensures ok <==> DecVarint(old(Rest())).Ok?
      ensures ok ==> dest == DecVarint(old(Rest())).value && Consumed(DecVarint(old(Rest())).n)
    {
      ghost var s := Rest();
      ghost var k: nat := 0;
      var bitpos: nat, result: nat, more := 0, 0, true;
      dest := 0;
      CollectedNone(s);
      while more
        invariant Valid() && End() == old(End()) && Consumed(k) && k <= 10 && bitpos == 7 * k
        invariant more ==> Collected(s, k, result)
        invariant !more ==> DecVarint(s) == Ok(result, k)
        decreases more, left
      {
        if bitpos >= 64 { return false, 0; }
        var got, b := ReadByte();
        if !got { return false, 0; }
        CollectedNext(s, k, result, b);
        result := BitOr(result, Shl(b % 128, bitpos) % TWO64);
        bitpos := bitpos + 7;
        more := b >= 128;
        k := k + 1;
      }
      return true, result;
    }

    // pb_decode_varint32_eof: the narrow reader, with its 8-bit position counter.
    method DecodeVarint32() returns (ok: bool, dest: nat, eof: bool)
      requires Valid()
      modifies this
      ensures Valid() && End() <= old(End())
      ensures ok <==> DecVarint32(old(Rest())).Ok?
      ensures ok ==> dest == DecVarint32(old(Rest())).value < TWO32 && Consumed(DecVarint32(old(Rest())).n)
      ensures eof <==> old(left) == 0
    {
      ghost var s := Rest();
      Varint32Bound(s);
      var got, b := ReadByte();
      if !got { return false, 0, true; }
      if b < 128 { return true, b, false; }
      ghost var k: nat := 1;
      var bitpos: nat, result: nat, more := 7, b % 128, true;
      assert Reading32(s, k, bitpos, result) by { Reading32First(s, b); }
      while more
        invariant Valid() && End() == old(End()) && Consumed(k)
        invariant bitpos < 256 && (more ==> Reading32(s, k, bitpos, result))
        invariant !more ==>
          DecVarint32(s) == if bitpos == 35 && b / 16 % 8 != 0 then Fail else Ok(result, k)
        decreases more, left
      {
        got, b := ReadByte();
        Reading32Next(s, k, bitpos, result);
        if !got { return false, 0, false; }
        if bitpos >= 32 {
          var signExtension := if bitpos < 63 then 255 else 1;
          if b % 128 != 0 && (result / 0x8000_0000 == 0 || b != signExtension) { return false, 0, false; }
        } else {
          result := BitOr(result, Shl(b % 128, bitpos) % TWO32);
        }
        bitpos := (bitpos + 7) % 256;
        more := b >= 128;
        k := k + 1;
      }
      if bitpos == 35 && b / 16 % 8 != 0 { return false, 0, false; }
      return true, result, false;
    }

    // pb_decode_tag. At the end of the message, `eof` is set.
    method DecodeTag() returns (ok: bool, wireType: nat, tag: nat, eof: bool)
      requires Valid()
      modifies this
      ensures Valid() && End() <= old(End())
      ensures ok <==> DecTag(old(Rest())).Tag?
      ensures ok ==> Consumed(DecTag(old(Rest())).n)
      ensures ok ==> DecTag(old(Rest())) == Tag(tag, wireType, DecTag(old(Rest())).n)
      ensures !ok ==> (eof <==> old(left) == 0 || DecTag(old(Rest())).Terminator?)
      ensures old(left) > 0 && !ok && eof ==> Consumed(DecTag(old(Rest())).n)
    {
      var got, temp, end := DecodeVarint32();
      if !got { return false, 0, 0, end; }
      if temp == 0 { return false, 0, 0, true; }
      return true, temp % 8, temp / 8, false;
    }

    method SkipVarint() returns (ok: bool)
      requires Valid()
      modifies this
      ensures Valid() && End() <= old(End())
      ensures ok <==> Wire.SkipVarint(old(Rest())).Ok?
      ensures ok ==> Consumed(Wire.SkipVarint(old(Rest())).n)
    {
      ghost var s := Rest();
      ghost var k: nat := 0;
      var more := true;
      assert s[0..] == s;
      while more
        invariant Valid() && End() == old(End()) && Consumed(k)
        invariant Wire.SkipVarint(s) == if more then After(k, Wire.SkipVarint(s[k..])) else Ok((), k)
        decreases more, left
      {
        var got, data := Read(1);
        if !got { return false; }
        assert s[k..][1..] == s[k + 1..];
        more := data[0] >= 128;
        k := k + 1;
      }
      return true;
    }

    method SkipField(wireType: nat) returns (ok: bool)
      requires Valid()
      modifies this
      ensures Valid() && End() <= old(End())
      ensures ok <==> Wire.SkipField(wireType, old(Rest())).Ok?
      ensures ok ==> Consumed(Wire.SkipField(wireType, old(Rest())).n)
    {
      if wireType == WT_VARINT {
        ok := SkipVarint();
      } else if wireType == WT_64BIT {
        var got, _ := Read(8);
        ok := got;
      } else if wireType == WT_STRING {
        ok := SkipString();
      } else if wireType == WT_32BIT {
        var got, _ := Read(4);
        ok := got;
      } else {
        ok := false;
      }
    }

    method SkipString() returns (ok: bool)
      requires Valid()
      modifies this
      ensures Valid() && End() <= old(End())
      ensures ok <==> Wire.SkipString(old(Rest())).Ok?
      ensures ok ==> Consumed(Wire.SkipString(old(Rest())).n)
    {
      var got, length, _ := DecodeVarint32();
      if !got { return false; }
      var skipped, _ := Read(Narrow(length));
      return skipped;
    }

    // pb_make_string_substream: the parent gives up `size` bytes of its limit at once;
    // its cursor follows when the substream is closed.
    method MakeSubstream() returns (ok: bool, sub: IStream)
      requires Valid()
      modifies this
      ensures Valid() && End() <= old(End())
      ensures ok <==> DecBlock(old(Rest())).Ok?
      ensures ok ==> fresh(sub) && sub.Valid() && sub.buf == buf && sub.pos == pos
      ensures ok ==> sub.Rest() == DecBlock(old(Rest())).value
      ensures ok ==> pos + sub.left + left == old(pos + left) && left == old(left) - DecBlock(old(Rest())).n
      ensures !ok ==> sub == this
    {
      var got, size, _ := DecodeVarint32();
      if !got || left < size { return false, this; }
      sub := new IStream.Limited(this, size);
      left := left - size;
      ok := true;
    }

    // pb_close_string_substream: whatever the substream did not read is skipped, so the
    // parent resumes right after the delimited region.
    method CloseSubstream(sub: IStream) returns (ok: bool)
      requires Valid() && sub.Valid() && sub != this && sub.buf == buf
      requires sub.pos + sub.left + left <= |buf|
      modifies this, sub
      ensures Valid() && ok && left == old(left)
      ensures pos == old(sub.pos + sub.left)
    {
      if sub.left > 0 {
        var got, _ := sub.Read(sub.left);
        if !got { return false; }
      }
      pos := sub.pos;
      ok := true;
    }

    method DecodeSvarint() returns (ok: bool, dest: int)
      requires Valid()
      modifies this
      ensures Valid() && End() <= old(End())
      ensures ok <==> DecVarint(old(Rest())).Ok?
      ensures ok ==> dest == UnZigZag(DecVarint(old(Rest())).value) && Consumed(DecVarint(old(Rest())).n)
    {
      var got, value := DecodeVarint();
      if !got { return false, 0; }
      if value % 2 == 1 {
        // the complement of the shifted word, read as a signed number
        dest := TWO64 - 1 - value / 2 - TWO64;
      } else {
        dest := value / 2;
      }
      ok := true;
    }

    method DecodeFixed(width: nat) returns (ok: bool, dest: nat)
      requires Valid() && width <= 8
      modifies this
      ensures Valid() && End() <= old(End())
      ensures ok <==> Raw(old(Rest()), width).Ok?
      ensures ok ==> dest == FixedValue(old(Rest())[..width]) && Consumed(width)
    {
      var got, data := Read(width);
      if !got { return false, 0; }
      dest := 0;
      var i := 0;
      while i < width
        invariant Valid() && End() == old(End()) && Consumed(width)
        invariant i <= width && dest == FixedValue(data[..i]) && dest < Pow2(8 * i)
      {
        FixedSnoc(data[..i], data[i]);
        assert data[..i] + [data[i]] == data[..i + 1];
        DisjointAdd(dest, data[i], 8 * i);
        FixedValueBound(data[..i + 1]);
        dest := BitOr(dest, Shl(data[i], 8 * i));
        i := i + 1;
      }
      assert data[..width] == data;
      ok := true;
    }
  }

  // The loop of DecodeVarint after k bytes: what is still to come completes `result`.
  ghost predicate Collected(s: bytes, k: nat, result: nat) {
    && k <= 10 && k <= |s|
    && (k < 10 ==> result < Pow2(7 * k))
    && DecVarint(s) ==
       match Groups(s[k..], 10 - k)
       case Ok(v, n) => Ok((result + Shl(v, 7 * k)) % TWO64, k + n)
       case Fail => Fail
  }

  lemma CollectedNone(s: bytes)
    ensures Collected(s, 0, 0)
  {
    assert s[0..] == s;
  }

  // One group below bit 63 is added whole; of the last one only a single bit fits.
  lemma GroupAdded(k: nat, result: nat, g: nat)
    requires k < 10 && result < Pow2(7 * k) && g < 128
    ensures var result' := BitOr(result, Shl(g, 7 * k) % TWO64);
            && result' == (result + Shl(g, 7 * k)) % TWO64
            && (k < 9 ==> result' == result + Shl(g, 7 * k) < Pow2(7 * (k + 1)))
  {
    hide BitOr, Shl, Pow2;
    PowValues();
    if k < 9 {
      ShlBound(g, 7, 7 * k);
      PowMonotone(7 * k + 7, 63);
      DisjointAdd(result, g, 7 * k);
    } else {
      LastGroup(result, g);
    }
  }

  lemma LastGroup(result: nat, g: nat)
    requires result < 0x8000_0000_0000_0000 && g < 128
    ensures BitOr(result, Shl(g, 63) % TWO64) == (result + Shl(g, 63)) % TWO64
  {
    hide BitOr, Shl, Pow2;
    PowValues();
    ShlMul(g, 63);
    ShlMul(g % 2, 63);
    var top := g % 2 * 0x8000_0000_0000_0000;
    Quotient(Shl(g, 63), TWO64, g / 2, top);
    Quotient(result + Shl(g, 63), TWO64, g / 2, result + top);
    DisjointAdd(result, g % 2, 63);
  }

  lemma CollectedNext(s: bytes, k: nat, result: nat, b: byte)
    requires Collected(s, k, result) && k < 10 && k < |s| && b == s[k]
    ensures var result' := BitOr(result, Shl(b % 128, 7 * k) % TWO64);
            if b >= 128 then Collected(s, k + 1, result') else DecVarint(s) == Ok(result', k + 1)
  {
    hide BitOr, Shl, Pow2;
    var result' := BitOr(result, Shl(b % 128, 7 * k) % TWO64);
    GroupAdded(k, result, b % 128);
    assert s[k..][1..] == s[k + 1..];
    if b >= 128 {
      var rest := Groups(s[k + 1..], 10 - (k + 1));
      if rest.Ok? {
        var w := b - 128 + 128 * rest.value;
        assert k < 9;
        assert w % 128 == b % 128 && w / 128 == rest.value;
        SplitGroup(w, 7 * k);
      }
    }
  }

  // The loop of DecodeVarint32 after k bytes.
  ghost predicate Reading32(s: bytes, k: nat, bitpos: nat, result: nat) {
    k <= |s| && DecVarint32(s) == After(k, Varint32From(s[k..], bitpos, result))
  }

  lemma Reading32First(s: bytes, b: byte)
    requires s != [] && b == s[0] >= 128
    ensures Reading32(s, 1, 7, b % 128)
  {
    hide Varint32From;
  }

  lemma Reading32Next(s: bytes, k: nat, bitpos: nat, result: nat)
    requires Reading32(s, k, bitpos, result) && bitpos < 256
    ensures if k == |s| || Overflows(s[k], bitpos, result) then DecVarint32(s) == Fail
            else if s[k] >= 128 then Reading32(s, k + 1, (bitpos + 7) % 256, Collect(s[k], bitpos, result))
            else DecVarint32(s) ==
                 if (bitpos + 7) % 256 == 35 && s[k] / 16 % 8 != 0 then Fail
                 else Ok(Collect(s[k], bitpos, result), k + 1)
  {
    hide BitOr, Shl, DecVarint32;
    if k < |s| { assert s[k..][1..] == s[k + 1..]; }
  }

  lemma {:induction false} FixedSnoc(s: bytes, b: byte)
    ensures FixedValue(s + [b]) == FixedValue(s) + Shl(b, 8 * |s|)
  {
    if s == [] {
      assert FixedValue([b]) == b;
    } else {
      FixedSnoc(s[1..], b);
      assert (s + [b])[1..] == s[1..] + [b];
      ShlAdd(b, 8 * (|s| - 1), 8);
      ShlMul(Shl(b, 8 * (|s| - 1)), 8);
      assert Pow2(8) == 256;
    }
  }

  // ---------- output ----------

  // An output stream as seen from outside: the buffer before the cursor (`image`) and
  // behind the limit (`tail`), neither of which a sizing stream has.
  datatype Output = Output(sizing: bool, written: nat, image: bytes, tail: bytes) {

    function Plus(enc: bytes): (o: Output)
      ensures o.written == written + |enc| && o.sizing == sizing
    {
      Output(sizing, written + |enc|, if sizing then image else image + enc, tail)
    }

    predicate Extends(o: Output) {
      sizing == o.sizing && image <= o.image && tail == o.tail
    }
  }

  lemma PlusPlus(o: Output, a: bytes, b: bytes)
    ensures o.Plus(a).Plus(b) == o.Plus(a + b)
    ensures o.Plus([]) == o
  {
    assert o.image + a + b == o.image + (a + b);
    assert o.image + [] == o.image;
  }

  lemma PlusExtends(o: Output, a: bytes, after: Output)
    ensures o.Extends(o.Plus(a))
    ensures o.Plus(a).Extends(after) ==> o.Extends(after)
  {
  }

  class OStream {
    const buf: array?<byte>   // null in the sizing stream, which only counts
    const maxSize: nat
    var pos: nat              // the cursor, `state` in the C structure
    var written: nat          // bytes_written

    ghost predicate Valid()
      reads this
    {
      && maxSize <= SIZE_MAX && written <= SIZE_MAX
      && (buf != null ==> written <= maxSize && pos + (maxSize - written) <= buf.Length)
    }

    // The first byte of the buffer this stream must not touch.
    ghost function End(): nat
      requires Valid()
      reads this
    {
      if buf != null then pos + (maxSize - written) else 0
    }

    // What a caller can observe of the stream.
    ghost function Out(): (o: Output)
      requires Valid()
      reads this, buf
      ensures o.written == written && o.sizing == (buf == null)
    {
      if buf == null then Output(true, written, [], []) else Output(false, written, buf[..pos], buf[End()..])
    }

    // Room for n more bytes; a sizing stream has room as long as it can count.
    ghost predicate Fits(n: nat)
      reads this
    {
      written + n <= if buf == null then SIZE_MAX else maxSize
    }

    // Only bytes from the old cursor up to the limit may have changed.
    twostate predicate Within()
      reads this, buf
    {
      old(Valid()) && Valid() && old(Out()).Extends(Out())
    }

    // Exactly the bytes `enc` were appended at the cursor; a sizing stream counted them.
    twostate predicate Emitted(enc: bytes)
      reads this, buf
    {
      old(Valid()) && Valid() && Out() == old(Out()).Plus(enc)
    }

    constructor FromBuffer(a: array<byte>, size: nat)
      requires size <= a.Length && size <= SIZE_MAX
      ensures Valid() && buf == a && maxSize == size && pos == 0 && written == 0
    {
      buf, maxSize := a, size;
      pos, written := 0, 0;
    }

    // PB_OSTREAM_SIZING
    constructor Sizing()
      ensures Valid() && buf == null && written == 0 && pos == 0
    {
      buf, maxSize := null, 0;
      pos, written := 0, 0;
    }

    // `inner` is what a substream of this stream with room for n bytes looks like.
    ghost predicate Opens(inner: Output, outer: Output, n: nat)
      requires Valid()
      reads this
    {
      && buf != null && written + n <= maxSize && !outer.sizing && outer.written == written
      && |outer.image| == pos && inner == Output(false, 0, outer.image, inner.tail)
      && End() - pos - n <= |inner.tail| && outer.tail == inner.tail[End() - pos - n..]
    }

    // The substream of EncodeSubmessage: same buffer and cursor, its own limit.
    constructor Limited(parent: OStream, size: nat)
      requires parent.Valid() && parent.buf != null && parent.written + size <= parent.maxSize
      ensures Valid() && buf == parent.buf && maxSize == size && written == 0
      ensures parent.Opens(Out(), parent.Out(), size)
    {
      buf, maxSize := parent.buf, size;
      pos, written := parent.pos, 0;
    }

    // Takes over what the substream wrote.
    method Resume(sub: OStream, ghost inner: Output, ghost outer: Output, ghost enc: bytes)
      requires Valid() && sub.Valid() && sub.buf == buf && Opens(inner, outer, |enc|)
      requires sub.maxSize == |enc| && sub.Out() == inner.Plus(enc)
      modifies this`pos, this`written
      ensures Valid() && Out() == outer.Plus(enc)
    {
      ghost var k := End() - pos - |enc|;
      written := WrapAdd(written, sub.written);
      pos := sub.pos;
      assert |buf[..pos]| == |outer.image + enc|;
      assert buf[End()..] == buf[pos..][k..];
    }

    // pb_write. Sums of sizes wrap around at the width of size_t.
    method Write(data: bytes) returns (ok: bool)
      requires Valid() && |data| <= SIZE_MAX
      requires buf == null ==> written + |data| <= SIZE_MAX
      modifies this, buf
      ensures ok <==> old(Fits(|data|))
      ensures ok ==> Emitted(data)
      ensures !ok ==> Emitted([])
    {
      var count := |data|;
      var sum := WrapAdd(written, count);
      if count > 0 && buf != null {
        if sum < written || sum > maxSize { return false; }
        ghost var end := End();
        BufWrite(data);
        assert buf[end..] == old(buf[end..]);
      }
      written := sum;
      ok := true;
    }

    // pb_write with a null buffer, on a sizing stream.
    method Count(n: nat)
      requires Valid() && buf == null && written + n <= SIZE_MAX
      modifies this`written
      ensures Valid() && forall enc: bytes :: |enc| == n ==> Out() == old(Out()).Plus(enc)
    {
      written := WrapAdd(written, n);
    }

    // buf_write: copies byte by byte.
    method BufWrite(data: bytes)
      requires buf != null && pos + |data| <= buf.Length
      modifies this`pos, buf
      ensures pos == old(pos) + |data|
      ensures buf[..pos] == old(buf[..pos]) + data
      ensures forall k :: pos <= k < buf.Length ==> buf[k] == old(buf[k])
    {
      var dest := pos;
      pos := dest + |data|;
      var i := 0;
      while i < |data|
        invariant i <= |data|
        invariant buf[..dest + i] == old(buf[..dest]) + data[..i]
        invariant forall k :: dest + i <= k < buf.Length ==> buf[k] == old(buf[k])
        modifies buf
      {
        buf[dest + i] := data[i];
        i := i + 1;
      }
    }

    method EncodeVarint(v: nat) returns (ok: bool)
      requires Valid() && v < TWO64
      requires buf == null ==> written + |EncVarint(v)| <= SIZE_MAX
      modifies this, buf
      ensures ok <==> old(Fits(|EncVarint(v)|))
      ensures ok ==> Emitted(EncVarint(v))
      ensures !ok ==> Emitted([])
    {
      VarintRoundTrip(v, []);
      if v <= 0x7F {
        ok := Write([v]);
      } else {
        var data := FillVarint(v);
        ok := Write(data);
      }
    }

    method EncodeSvarint(value: int) returns (ok: bool)
      requires Valid() && -0x8000_0000_0000_0000 <= value < 0x8000_0000_0000_0000
      requires buf == null ==> written + |EncVarint(ZigZag(value))| <= SIZE_MAX
      modifies this, buf
      ensures ok <==> old(Fits(|EncVarint(ZigZag(value))|))
      ensures ok ==> Emitted(EncVarint(ZigZag(value)))
      ensures !ok ==> Emitted([])
    {
      // the shifted two's complement word, complemented when negative
      var zigzagged: nat;
      if value < 0 {
        zigzagged := TWO64 - 1 - 2 * (value + TWO64) % TWO64;
        assert 2 * (value + TWO64) % TWO64 == 2 * value + TWO64 by {
          Quotient(2 * (value + TWO64), TWO64, 1, 2 * value + TWO64);
        }
      } else {
        zigzagged := 2 * value;
      }
      ok := EncodeVarint(zigzagged);
    }

    method EncodeFixed(v: nat, width: nat) returns (ok: bool)
      requires Valid() && width <= 8
      requires buf == null ==> written + width <= SIZE_MAX
      modifies this, buf
      ensures ok <==> old(Fits(width))
      ensures ok ==> Emitted(EncFixed(v, width))
      ensures !ok ==> Emitted([])
    {
      var data: bytes, rest: nat, i: nat := [], v, 0;
      while i < width
        invariant i <= width && |data| == i
        invariant EncFixed(v, width) == data + EncFixed(rest, width - i)
        modifies {}
      {
        NextByte(data, rest, width - i);
        data, rest, i := data + [rest % 256], rest / 256, i + 1;
      }
      assert EncFixed(v, width) == data;
      ok := Write(data);
    }

    // pb_encode_string
    method EncodeString(data: bytes) returns (ok: bool)
      requires Valid() && written + |EncBlock(data)| <= SIZE_MAX
      modifies this, buf
      ensures ok <==> old(Fits(|EncBlock(data)|))
      ensures ok ==> Emitted(EncBlock(data))
      ensures !ok ==> Within()
    {
      ghost var o := Out();
      var prefix := EncodeVarint(|data|);
      PlusPlus(o, if prefix then EncVarint(|data|) else [], data);
      PlusPlus(o, if prefix then EncVarint(|data|) else [], []);
      PlusExtends(o, if prefix then EncVarint(|data|) else [], o);
      if !prefix { return false; }
      ok := Write(data);
    }
  }

  lemma NextByte(data: bytes, rest: nat, n: nat)
    requires n > 0
    ensures data + EncFixed(rest, n) == data + [rest % 256] + EncFixed(rest / 256, n - 1)
  {
    var tail := EncFixed(rest / 256, n - 1);
    assert EncFixed(rest, n) == [rest % 256] + tail;
    assert data + ([rest % 256] + tail) == data + [rest % 256] + tail;
  }

  // The loop of pb_encode_varint: fills a ten-byte buffer with continued bytes, then
  // clears the continuation bit of the last one.
  method FillVarint(v: nat) returns (data: bytes)
    requires 0x7F < v < TWO64
    ensures data == EncVarint(v)
  {
    hide Pow2, EncVarint;
    var buffer := new byte[10];
    var value: nat, i: nat := v, 0;
    ghost var done: bytes := [];
    assert v < Pow2(64 - 7 * 0) by { PowValues(); }
    assert done + EncVarint(v) == EncVarint(v);
    while value != 0
      invariant i <= 10 && buffer[..i] == done
      invariant value != 0 ==> i < 10 && value < Pow2(64 - 7 * i) && EncVarint(v) == done + EncVarint(value)
      invariant value == 0 ==> Unfinished(done, EncVarint(v))
      modifies buffer
    {
      hide Unfinished;
      VarintByte(value, i);
      AddByte(done, value, EncVarint(v));
      done := done + [value % 128 + 128];
      buffer[i] := value % 128 + 128;
      value := value / 128;
      i := i + 1;
    }
    buffer[i - 1] := buffer[i - 1] % 128;
    data := buffer[..i];
    assert data == done[..i - 1] + [done[i - 1] - 128];
  }

  // The encoding with the continuation bit of its last byte still set.
  ghost predicate Unfinished(done: bytes, encoding: bytes) {
    var n := |done| - 1;
    done != [] && done[n] >= 128 && encoding == done[..n] + [done[n] - 128]
  }

  lemma AddByte(done: bytes, value: nat, encoding: bytes)
    requires value != 0 && encoding == done + EncVarint(value)
    requires EncVarint(value) == if value < 128 then [value] else [value % 128 + 128] + EncVarint(value / 128)
    ensures var next := done + [value % 128 + 128];
            if value / 128 == 0 then Unfinished(next, encoding) else encoding == next + EncVarint(value / 128)
  {
    hide EncVarint;
    var next := done + [value % 128 + 128];
    if value < 128 {
      assert next[..|done|] == done;
    } else {
      assert done + ([value % 128 + 128] + EncVarint(value / 128)) == next + EncVarint(value / 128);
    }
  }

  // Unsigned addition at the width of size_t.
  function WrapAdd(a: nat, b: nat): (r: nat)
    requires a <= SIZE_MAX && b <= SIZE_MAX
    ensures r == if a + b <= SIZE_MAX then a + b else a + b - SIZE_MAX - 1
  {
    Wrap(a + b, SIZE_MAX + 1);
    (a + b) % (SIZE_MAX + 1)
  }

  lemma VarintByte(value: nat, i: nat)
    requires value != 0 && i < 10 && value < Pow2(64 - 7 * i)
    ensures value >= 128 ==> i < 9 && value / 128 < Pow2(64 - 7 * (i + 1))
    ensures EncVarint(value) == if value < 128 then [value] else [value % 128 + 128] + EncVarint(value / 128)
  {
    if value >= 128 {
      assert Pow2(1) == 2;
      ShiftedDown(value, 64 - 7 * (i + 1));
    }
  }
}
