// What is made of arbitrary bytes, in numerals: which payloads of a scalar are accepted and
// as what, what skipping takes, and what a structure holds after its defaults and after a
// whole run.
module Reception {
  import opened Bits
  import opened Wire
  import opened Fields
  import opened Encoding
  import opened Decoding
  import opened Records
  import opened Schema
  import opened Format
  import opened Required
  import opened RoundTrip

  // ---------- tags and unknown fields ----------

  // The tag word is eight times the tag plus the wire type; zero ends the message.
  lemma TagRead(s: bytes, v: nat, n: nat)
    requires DecVarint32(s) == Ok(v, n)
    ensures v == 0 ==> DecTag(s) == Terminator(n)
    ensures forall tag: nat, k: nat :: v != 0 && k < 8 && v == 8 * tag + k ==> DecTag(s) == Tag(tag, k, n)
  {
    hide DecVarint32;
  }

  // What an unknown field takes, by its wire type: a varint, eight bytes, a block, or four
  // bytes. Groups and unassigned wire types are refused.
  lemma SkipTakes(s: bytes)
    ensures forall n: nat :: SkipField(0, s) == Ok((), n) <==> 1 <= n <= |s| && Varint(s[..n])
    ensures SkipField(1, s) == if |s| >= 8 then Ok((), 8) else Fail
    ensures SkipField(2, s) == SkipString(s)
    ensures SkipField(5, s) == if |s| >= 4 then Ok((), 4) else Fail
    ensures forall k: nat :: k == 3 || k == 4 || k >= 6 ==> SkipField(k, s) == Fail
  {
    hide SkipString, Varint;
    forall n: nat
      ensures SkipField(0, s) == Ok((), n) <==> 1 <= n <= |s| && Varint(s[..n])
    {
      VarintSkipped(s, n);
    }
  }

  lemma {:induction false} VarintSkipped(s: bytes, n: nat)
    ensures SkipVarint(s) == Ok((), n) <==> 1 <= n <= |s| && Varint(s[..n])
    decreases |s|
  {
    hide Varint;
    if 1 <= n <= |s| {
      var t := s[..n];
      if n == 1 {
        OneGroup(t);
      } else {
        assert t[1..] == s[1..][..n - 1];
        VarintTail(t);
        VarintSkipped(s[1..], n - 1);
      }
    }
  }

  // ---------- numbers ----------

  lemma KindRead(f: Field, s: bytes)
    requires DecScalar(f, s).Ok?
    ensures OfKind(f, DecScalar(f, s).value) && !f.ltype.TSubmessage? && !f.ltype.TExtension?
  {
    hide DecVarint, DecVarint32, DecBlock;
  }

  // The range of a signed or unsigned number with so many bytes.
  predicate Signed(i: int, size: nat) {
    match size
    case 1 => -0x80 <= i < 0x80
    case 2 => -0x8000 <= i < 0x8000
    case 4 => -0x8000_0000 <= i < 0x8000_0000
    case 8 => -0x8000_0000_0000_0000 <= i < 0x8000_0000_0000_0000
    case _ => false
  }

  predicate Unsigned(i: int, size: nat) {
    match size
    case 1 => 0 <= i < 0x100
    case 2 => 0 <= i < 0x1_0000
    case 4 => 0 <= i < 0x1_0000_0000
    case 8 => 0 <= i < 0x1_0000_0000_0000_0000
    case _ => false
  }

  lemma SameRanges(i: int, size: nat)
    ensures Signed(i, size) <==> InSigned(i, size)
    ensures Unsigned(i, size) <==> InUnsigned(i, size)
  {
  }

  // A signed number is the varint modulo 2^64, but modulo 2^32 in a member of one, two or
  // four bytes: there the high half of the word makes no difference.
  lemma SignedRead(f: Field, s: bytes, i: int, n: nat)
    requires f.ltype.TVarint?
    ensures DecScalar(f, s) == Ok(VInt(i), n) <==>
            && DecVarint(s).Ok? && DecVarint(s).n == n && Signed(i, f.dataSize)
            && (DecVarint(s).value - i) % (if f.dataSize == 8 then 0x1_0000_0000_0000_0000 else 0x1_0000_0000) == 0
  {
    hide DecVarint;
    SameRanges(i, f.dataSize);
    if DecVarint(s).Ok? && Signed(i, f.dataSize) {
      var v := DecVarint(s).value;
      if f.dataSize == 8 { Word(v, i, TWO64); } else { Word(v % TWO32, i, TWO32); LowWord(v, i); }
    }
  }

  // The only number in the signed range of a word that is congruent to it.
  lemma Word(v: nat, i: int, m: nat)
    requires v < m && m % 2 == 0 && m > 0 && -(m / 2) <= i < m / 2
    ensures (v - i) % m == 0 <==> i == if v < m / 2 then v else v - m
  {
    Wrap(v - i, m);
    Wrap(v - i - m, m);
  }

  lemma LowWord(v: nat, i: int)
    ensures (v - i) % 0x1_0000_0000 == 0 <==> (v % 0x1_0000_0000 - i) % 0x1_0000_0000 == 0
  {
    var q := v / 0x1_0000_0000;
    assert v - i == v % 0x1_0000_0000 - i + q * 0x1_0000_0000;
  }

  // The same of the encoding of a 64-bit word: -1 of an int32 may come in five bytes or ten.
  lemma SignedReceived(f: Field, v: nat, t: bytes, i: int)
    requires f.ltype.TVarint? && v < 0x1_0000_0000_0000_0000
    ensures DecScalar(f, EncVarint(v) + t) == Ok(VInt(i), |EncVarint(v)|) <==>
            Signed(i, f.dataSize) &&
            (v - i) % (if f.dataSize == 8 then 0x1_0000_0000_0000_0000 else 0x1_0000_0000) == 0
  {
    hide DecVarint, EncVarint;
    VarintRoundTrip(v, t);
    SignedRead(f, EncVarint(v) + t, i, |EncVarint(v)|);
  }

  lemma UnsignedRead(f: Field, s: bytes, i: int, n: nat)
    requires f.ltype.TUVarint?
    ensures DecScalar(f, s) == Ok(VInt(i), n) <==>
            DecVarint(s) == Ok(i, n) && Unsigned(i, f.dataSize)
  {
    hide DecVarint;
    SameRanges(i, f.dataSize);
  }

  // Even words are the numbers from zero up, odd ones the negative numbers from -1 down.
  lemma ZigZagRead(f: Field, s: bytes, i: int, n: nat)
    requires f.ltype.TSVarint?
    ensures DecScalar(f, s) == Ok(VInt(i), n) <==>
            DecVarint(s) == Ok(if i < 0 then -1 - 2 * i else 2 * i, n) && Signed(i, f.dataSize)
  {
    hide DecVarint;
    SameRanges(i, f.dataSize);
  }

  // Any number but zero is true.
  lemma BoolRead(f: Field, s: bytes, b: bool, n: nat)
    requires f.ltype.TBool?
    ensures DecScalar(f, s) == Ok(VBool(b), n) <==>
            DecVarint32(s).Ok? && DecVarint32(s).n == n && b == (DecVarint32(s).value != 0)
  {
    hide DecVarint32;
  }

  lemma {:induction false} WordValue(s: bytes)
    ensures FixedValue(s) == Positional(256, s)
  {
    if s != [] {
      WordValue(s[1..]);
      LeadingDigit(256, s[0], s[1..]);
      assert [s[0]] + s[1..] == s;
    }
  }

  // Fixed words are the next four or eight bytes, the least significant first.
  lemma FixedRead(f: Field, s: bytes)
    requires f.ltype.TFixed32? || f.ltype.TFixed64?
    ensures var width := if f.ltype.TFixed32? then 4 else 8;
            DecScalar(f, s) == if |s| >= width then Ok(VInt(Positional(256, s[..width])), width) else Fail
  {
    hide FixedValue, Positional;
    var width := if f.ltype.TFixed32? then 4 else 8;
    if |s| >= width { WordValue(s[..width]); }
  }

  // ---------- texts ----------

  // A length, then as many bytes.
  lemma BlockRead(s: bytes, data: bytes, n: nat)
    ensures DecBlock(s) == Ok(data, n) <==>
            && DecVarint32(s).Ok? && n == DecVarint32(s).n + |data| <= |s|
            && DecVarint32(s).value == |data| && s[n - |data|..n] == data
  {
    hide DecVarint32;
  }

  predicate AllZero(data: bytes) {
    forall k :: 0 <= k < |data| ==> data[k] == 0
  }

  lemma ZeroData(data: bytes, size: nat)
    ensures data == seq(size, _ => 0) <==> |data| == size && AllZero(data)
  {
  }

  // A static string needs room for its terminator, bytes for their count; inline bytes come
  // whole or not at all, and are zero then.
  lemma DataRead(f: Field, s: bytes, data: bytes, n: nat)
    requires f.atype.Static? && (f.ltype.TBytes? || f.ltype.TString? || f.ltype.TFixedLengthBytes?)
    ensures DecScalar(f, s) == Ok(VBytes(data), n) <==>
            && DecBlock(s).Ok? && DecBlock(s).n == n
            && var block := DecBlock(s).value;
               match f.ltype
               case TString => data == block && |data| + 1 <= f.dataSize
               case TBytes => data == block && |data| + Header() <= f.dataSize
               case _ => |data| == f.dataSize && (data == block || (block == [] && AllZero(data)))
  {
    hide DecBlock;
    ZeroData(data, f.dataSize);
  }

  // Behind a pointer only the sizes of the allocation are limits: for a string the 32-bit
  // length with its terminator, for bytes the count, and for both a size_t.
  lemma DataAllocated(f: Field, s: bytes, data: bytes, n: nat)
    requires f.atype.Pointer? && (f.ltype.TBytes? || f.ltype.TString?)
    ensures DecScalar(f, s) == Ok(VBytes(data), n) <==>
            && DecBlock(s) == Ok(data, n)
            && (if f.ltype.TString? then |data| + 1 < 0x1_0000_0000 && |data| + 1 <= SIZE_MAX
                else |data| <= PB_SIZE_MAX && |data| + Header() <= SIZE_MAX)
  {
    hide DecBlock;
  }
}
