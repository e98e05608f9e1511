// Round trips of single values: the integer, word, bytes and string codecs of a field.
module Values {
  import opened Bits
  import opened Wire
  import opened Fields
  import opened Encoding
  import opened Decoding

  // A value the field codec can carry: it fits data_size, and a string ends before
  // the last byte of its buffer and has no NUL inside.
  predicate ValidScalar(f: Field, v: Value) {
    match f.ltype
    case TBool => v.VBool?
    case TVarint => v.VInt? && InSigned(v.i, f.dataSize)
    case TSVarint => v.VInt? && InSigned(v.i, f.dataSize)
    case TUVarint => v.VInt? && InUnsigned(v.i, f.dataSize)
    case TFixed32 => v.VInt? && 0 <= v.i < TWO32
    case TFixed64 => v.VInt? && 0 <= v.i < TWO64
    case TBytes => v.VBytes? && |v.bs| + BYTES_OFFSET <= f.dataSize
    case TString => v.VBytes? && |v.bs| + 1 <= f.dataSize && 0 !in v.bs
    case TFixedLengthBytes => v.VBytes? && |v.bs| == f.dataSize
    case _ => false
  }

  lemma SignedRoundTrip(v: int, size: nat)
    requires InSigned(v, size)
    ensures SignedValue(v % TWO64, size) == v
  {
    if v >= 0 {
      Quotient(v, TWO64, 0, v);
    } else {
      Wrap(v, TWO64);
    }
    if size != 8 {
      if v >= 0 {
        Quotient(v, TWO32, 0, v);
      } else {
        Quotient(v + TWO64, TWO32, 0xFFFF_FFFF, v + TWO32);
      }
    }
  }

  lemma NumberRoundTrip(f: Field, v: Value, t: bytes)
    requires f.ltype.TVarint? || f.ltype.TUVarint? || f.ltype.TSVarint?
    requires ValidScalar(f, v)
    ensures DecScalar(f, EncScalar(f, v) + t) == Ok(v, |EncScalar(f, v)|)
  {
    hide DecVarint, EncVarint;
    if f.ltype.TVarint? {
      SignedRoundTrip(v.i, f.dataSize);
      VarintRoundTrip(v.i % TWO64, t);
    } else if f.ltype.TSVarint? {
      ZigZagRoundTrip(v.i);
      Quotient(ZigZag(v.i), TWO64, 0, ZigZag(v.i));
      VarintRoundTrip(ZigZag(v.i), t);
    } else {
      Quotient(v.i, TWO64, 0, v.i);
      VarintRoundTrip(v.i, t);
    }
  }

  lemma WordRoundTrip(f: Field, v: Value, t: bytes)
    requires f.ltype.TFixed32? || f.ltype.TFixed64?
    requires ValidScalar(f, v)
    ensures DecScalar(f, EncScalar(f, v) + t) == Ok(v, |EncScalar(f, v)|)
  {
    var width := if f.ltype.TFixed32? then 4 else 8;
    PowValues();
    Quotient(v.i, if f.ltype.TFixed32? then TWO32 else TWO64, 0, v.i);
    FixedRoundTrip(v.i, width);
    assert (EncFixed(v.i, width) + t)[..width] == EncFixed(v.i, width);
  }

  lemma DataRoundTrip(f: Field, v: Value, t: bytes)
    requires f.atype.Static?
    requires f.ltype.TBytes? || f.ltype.TString? || f.ltype.TFixedLengthBytes?
    requires ValidScalar(f, v) && f.dataSize <= PB_SIZE_MAX
    ensures DecScalar(f, EncScalar(f, v) + t) == Ok(v, |EncScalar(f, v)|)
  {
    hide DecBlock, EncBlock;
    BlockRoundTrip(v.bs, t);
    if v.bs == [] {
      assert seq(0, _ => 0) == v.bs;
    }
  }

  // Decoding inverts encoding for every value of every scalar field type and width,
  // consuming exactly what was written.
  lemma ScalarRoundTrip(f: Field, v: Value, t: bytes)
    requires f.atype.Static?
    requires ValidScalar(f, v) && f.dataSize <= PB_SIZE_MAX
    ensures DecScalar(f, EncScalar(f, v) + t) == Ok(v, |EncScalar(f, v)|)
    ensures |EncScalar(f, v)| >= 1
  {
    if f.ltype.TBool? {
      Varint32Cases(if v.b then 1 else 0, t);
    } else if Packable(f.ltype) {
      if f.ltype.TFixed32? || f.ltype.TFixed64? {
        WordRoundTrip(f, v, t);
      } else {
        NumberRoundTrip(f, v, t);
      }
    } else {
      DataRoundTrip(f, v, t);
    }
  }

  // The unsigned and zigzag decoders reject exactly the values that do not fit.
  lemma RangeChecked(f: Field, v: nat, t: bytes)
    requires v < TWO64
    ensures f.ltype.TUVarint? ==>
      (DecScalar(f, EncVarint(v) + t).Ok? <==> InUnsigned(v, f.dataSize))
    ensures f.ltype.TSVarint? ==>
      (DecScalar(f, EncVarint(v) + t).Ok? <==> InSigned(UnZigZag(v), f.dataSize))
  {
    hide DecVarint, EncVarint;
    VarintRoundTrip(v, t);
  }

  // Every string of at most data_size bytes is transmitted, but it is received exactly
  // when it leaves room for a terminator.
  lemma StringReceived(f: Field, v: Value, t: bytes)
    requires f.atype.Static?
    requires f.ltype.TString? && f.dataSize <= PB_SIZE_MAX
    requires v.VBytes? && |v.bs| <= f.dataSize && 0 !in v.bs
    ensures Encodable(f, v)
    ensures DecScalar(f, EncScalar(f, v) + t).Ok? <==> |v.bs| < f.dataSize
  {
    hide DecBlock, EncBlock;
    BlockRoundTrip(v.bs, t);
  }
}
