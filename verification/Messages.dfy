// Whole messages: round trip, schema evolution, merging, delimited and terminated
// records, as consequences of Transfer and RoundTrip.
module Messages {
  import opened Bits
  import opened Wire
  import opened Fields
  import opened Encoding
  import opened Decoding
  import opened Locality
  import opened Order
  import opened Schema
  import opened Transfer
  import opened RoundTrip

  // Decoding a message with another version of its descriptor, into memory with any
  // contents, consumes it all and yields every field both versions know; new fields are
  // as the defaults leave them.
  lemma Evolution(dst: seq<Field>, src: seq<Field>, msg: Message, was: Message)
    requires Evolves(dst, src) && Valid(src, msg)
    ensures var r := Decode(dst, EncMsg(src, msg), was);
            r.Ok? && r.n == |EncMsg(src, msg)| && Agrees(dst, r.value, src, msg)
  {
    hide Agrees, Valid, WellFormed, Compatible, SameUnions, ZeroDefaults, EncMsg, DecMsg, Absorb;
    MsgTransfer(dst, src, msg, DefaultMsg(dst, was));
    AbsorbAgrees(dst, was, src, msg);
  }

  lemma {:induction false} SelfCompatible(fields: seq<Field>)
    requires WellFormed(fields)
    ensures Compatible(fields, fields) && SameUnions(fields, fields)
    decreases fields
  {
    hide LayoutOk;
    forall i, j | 0 <= i < |fields| && 0 <= j < |fields| && fields[j].tag == fields[i].tag
      ensures i == j && SameShape(fields[j], fields[i])
      ensures fields[i].ltype.TSubmessage? ==> SameUnions(fields[j].sub, fields[i].sub)
    {
      assert WellFormedField(fields[i]);
      if fields[i].ltype.TSubmessage? { SelfCompatible(fields[i].sub); }
    }
  }

  // The round trip: pb_decode of what pb_encode wrote rebuilds the structure, up to the
  // contents of absent fields.
  lemma WholeMessage(fields: seq<Field>, msg: Message, was: Message)
    requires WellFormed(fields) && ZeroDefaults(fields) && Valid(fields, msg)
    ensures var r := Decode(fields, EncMsg(fields, msg), was);
            r.Ok? && r.n == |EncMsg(fields, msg)| && Agrees(fields, r.value, fields, msg)
  {
    hide Agrees, Valid, WellFormed, Compatible, SameUnions, ZeroDefaults, EncMsg, DecMsg;
    SelfCompatible(fields);
    Evolution(fields, fields, msg, was);
  }

  // ---------- merging ----------

  // Two messages one after the other are received as if merged one by one: arrays are
  // appended, scalars replaced, submessages merged. It fails exactly when an array of
  // the receiver is too small.
  lemma MergeOfTwo(dst: seq<Field>, src: seq<Field>, a: Message, b: Message, into: Message)
    requires WellFormed(dst) && WellFormed(src) && Compatible(dst, src) && NoFixedCount(dst)
    requires Valid(src, a) && Valid(src, b)
    ensures DecMsg(dst, EncMsg(src, a) + EncMsg(src, b), into) ==
            match Absorb(dst, into, src, a)
            case None => Fail
            case Some(m1) =>
              match Absorb(dst, m1, src, b)
              case None => Fail
              case Some(m2) => Ok(m2, |EncMsg(src, a)| + |EncMsg(src, b)|)
  {
    hide Valid, WellFormed, Compatible, DecLoop, AbsorbFrom, EncFrom, Lookup, RequiredDone, NoFixedCount;
    var ea, eb := EncMsg(src, a), EncMsg(src, b);
    var st1 := FromTransfer(dst, src, a, 0, eb, Start(into));
    var m1 := Absorb(dst, into, src, a);
    if m1.Some? {
      var st2 := FromTransfer(dst, src, b, 0, [], st1);
      assert eb + [] == eb;
      if Absorb(dst, m1.value, src, b).Some? {
        LoopEnd(dst, st2);
        AllRequired(dst, src, st2.seen);
      }
    }
  }

  // ---------- delimited and terminated messages ----------

  // pb_decode_delimited, into a structure that held `was`.
  function DecodeDelimited(fields: seq<Field>, s: bytes, was: Message): (r: Read<Message>)
    ensures r.Ok? ==> 1 <= r.n <= |s|
  {
    match DecBlock(s)
    case Fail => Fail
    case Ok(data, n) =>
      match Decode(fields, data, was)
      case Ok(m, _) => Ok(m, n)
      case Fail => Fail
  }

  // pb_encode_delimited, once for each message.
  function EncDelimited(fields: seq<Field>, msgs: seq<Message>): bytes {
    if msgs == [] then [] else EncBlock(EncMsg(fields, msgs[0])) + EncDelimited(fields, msgs[1..])
  }

  // Reads delimited messages into one structure, until the end of the input.
  function DecodeAll(fields: seq<Field>, s: bytes, was: Message): Option<seq<Message>>
    decreases |s|
  {
    if s == [] then Some([])
    else
      match DecodeDelimited(fields, s, was)
      case Fail => None
      case Ok(m, n) =>
        match DecodeAll(fields, s[n..], m)
        case None => None
        case Some(ms) => Some([m] + ms)
  }

  // The substream of a delimited message ends the message, whatever follows, and the
  // parent goes on exactly behind it, however little of it was read.
  lemma DelimitedExact(fields: seq<Field>, data: bytes, t: bytes, was: Message)
    requires |data| < TWO32
    ensures DecodeDelimited(fields, EncBlock(data) + t, was) ==
            match Decode(fields, data, was)
            case Ok(m, _) => Ok(m, |EncBlock(data)|)
            case Fail => Fail
  {
    hide Decode, DecBlock, EncBlock;
    BlockRoundTrip(data, t);
  }

  // A sequence of delimited messages is read back message by message.
  lemma {:induction false} DelimitedStream(dst: seq<Field>, src: seq<Field>, msgs: seq<Message>, was: Message)
    returns (xs: seq<Message>)
    requires Evolves(dst, src)
    requires forall k :: 0 <= k < |msgs| ==> Valid(src, msgs[k]) && |EncMsg(src, msgs[k])| < TWO32
    ensures DecodeAll(dst, EncDelimited(src, msgs), was) == Some(xs) && |xs| == |msgs|
    ensures forall k :: 0 <= k < |msgs| ==> Agrees(dst, xs[k], src, msgs[k])
    decreases |msgs|
  {
    hide Agrees, Valid, Evolves, EncMsg, Decode, DecodeDelimited, EncBlock;
    if msgs == [] {
      xs := [];
    } else {
      var data, rest := EncMsg(src, msgs[0]), EncDelimited(src, msgs[1..]);
      Evolution(dst, src, msgs[0], was);
      DelimitedExact(dst, data, rest, was);
      var first := Decode(dst, data, was).value;
      assert |EncBlock(data)| >= 1 by { BlockNotEmpty(data); }
      assert (EncBlock(data) + rest)[|EncBlock(data)|..] == rest;
      var tail := DelimitedStream(dst, src, msgs[1..], first);
      xs := [first] + tail;
      forall k | 0 <= k < |msgs|
        ensures Agrees(dst, xs[k], src, msgs[k])
      {
        if k > 0 { assert msgs[k] == msgs[1..][k - 1] && xs[k] == tail[k - 1]; }
      }
    }
  }

  lemma BlockNotEmpty(data: bytes)
    ensures |EncBlock(data)| >= 1
  {
  }

  // pb_encode_nullterminated: a zero byte ends the message and hides what follows it.
  lemma NullTerminated(dst: seq<Field>, src: seq<Field>, msg: Message, into: Message, t: bytes)
    requires WellFormed(dst) && WellFormed(src) && Compatible(dst, src) && Valid(src, msg)
    ensures DecMsg(dst, EncMsg(src, msg) + [0] + t, into) ==
            match Absorb(dst, into, src, msg)
            case Some(m) => Ok(m, |EncMsg(src, msg)| + 1)
            case None => Fail
  {
    hide Valid, WellFormed, Compatible, DecLoop, AbsorbFrom, EncFrom, RequiredDone;
    assert EncMsg(src, msg) + [0] + t == EncMsg(src, msg) + ([0] + t);
    var st2 := FromTransfer(dst, src, msg, 0, [0] + t, Start(into));
    if Absorb(dst, into, src, msg).Some? {
      ZeroStops(dst, t, st2);
      AllRequired(dst, src, st2.seen);
    }
  }

  lemma ZeroStops(dst: seq<Field>, t: bytes, st: State)
    ensures DecLoop(dst, [0] + t, st) == Done(st, 1, true)
  {
    assert DecTag([0] + t) == Terminator(1);
    assert Step(dst, [0] + t, st) == Stop(1);
  }
}
