// The 32-bit varint reader against the 64-bit one, on arbitrary input: overlong
// encodings, truncated ones and values that do not fit.
module Varint32 {
  import opened Bits
  import opened Wire

  // Both readers take bytes up to the first one without a continuation bit.
  lemma {:induction false} SameLength(s: bytes, fuel: nat, bitpos: nat, result: nat)
    requires Varint32From(s, bitpos, result).Ok?
    ensures var n := Varint32From(s, bitpos, result).n;
            (Groups(s, fuel).Ok? <==> n <= fuel) && (n <= fuel ==> Groups(s, fuel).n == n)
    decreases |s|
  {
    hide Collect;
    if s[0] >= 128 && fuel > 0 {
      SameLength(s[1..], fuel - 1, (bitpos + 7) % 256, Collect(s[0], bitpos, result));
    }
  }

  // Bits from 32 on do not change the low word.
  lemma HighBits(result: nat, g: nat, n: nat)
    requires result < TWO32 && n >= 32
    ensures (result + Shl(g, n)) % TWO32 == result
  {
    hide Shl, Pow2;
    ShlAdd(g, n - 32, 32);
    ShlMul(Shl(g, n - 32), 32);
    PowValues();
    Quotient(result + Shl(g, n), TWO32, Shl(g, n - 32), result);
  }

  // Of the group at bit 28 only four bits are in the low word.
  lemma FourBits(b: byte, result: nat)
    requires result < 0x1000_0000
    ensures (result + b % 128 * 0x1000_0000) % TWO32 == result + b % 16 * 0x1000_0000
  {
    var q, r := b % 128 / 16, b % 16;
    assert b % 128 == 16 * q + r && r < 16;
    Quotient(result + (16 * q + r) * 0x1000_0000, TWO32, q, result + r * 0x1000_0000);
  }

  // One more group below bit 32.
  lemma LowGroup(b: byte, k: nat, result: nat)
    requires 1 <= k <= 4 && result < Pow2(7 * k)
    ensures Collect(b, 7 * k, result) == (result + Shl(b % 128, 7 * k)) % TWO32
    ensures k < 4 ==> Collect(b, 7 * k, result) < Pow2(7 * k + 7)
  {
    hide BitOr, Shl, Pow2, Collect;
    PowValues();
    if k == 4 {
      CollectLast(b, result);
      ShlMul(b % 128, 28);
      FourBits(b, result);
    } else {
      CollectLow(b, k, result);
      PowMonotone(7 * k + 7, 32);
      Quotient(result + Shl(b % 128, 7 * k), TWO32, 0, result + Shl(b % 128, 7 * k));
    }
  }

  lemma AddMod(a: nat, b: nat)
    ensures (a % TWO32 + b) % TWO32 == (a + b) % TWO32
  {
    Quotient(a, TWO32, a / TWO32, a % TWO32);
    var x := a % TWO32 + b;
    Quotient(a + b, TWO32, a / TWO32 + x / TWO32, x % TWO32);
  }

  lemma GroupParts(b: byte, rest: nat)
    requires b >= 128
    ensures (b - 128 + 128 * rest) % 128 == b % 128 && (b - 128 + 128 * rest) / 128 == rest
  {
    Quotient(b - 128 + 128 * rest, 128, rest, b - 128);
    Quotient(b, 128, 1, b - 128);
  }

  // After k groups: what the narrow reader accepts within ten bytes is the low word of
  // what the wide one reads.
  lemma {:induction false} LowWord(s: bytes, k: nat, result: nat)
    requires 1 <= k < 10 && result < TWO32 && (k <= 4 ==> result < Pow2(7 * k))
    requires Varint32From(s, 7 * k, result).Ok? && Groups(s, 10 - k).Ok?
    ensures Varint32From(s, 7 * k, result).value == (result + Shl(Groups(s, 10 - k).value, 7 * k)) % TWO32
    decreases |s|
  {
    hide BitOr, Shl, Pow2, Collect, Overflows;
    var b, g := s[0], Groups(s, 10 - k).value;
    if k >= 5 {
      HighBits(result, g, 7 * k);
      Unchanged(s, 7 * k, 10 - k, result);
    } else {
      LowGroup(b, k, result);
      if b >= 128 {
        var rest := Groups(s[1..], 10 - (k + 1)).value;
        var next := Collect(b, 7 * k, result);
        CollectBound(b, 7 * k, result);
        LowWord(s[1..], k + 1, next);
        GroupParts(b, rest);
        SplitGroup(g, 7 * k);
        AddMod(result + Shl(b % 128, 7 * k), Shl(rest, 7 * k + 7));
      }
    }
  }

  // From bit 32 on nothing is collected, as long as the position does not wrap around.
  lemma {:induction false} Unchanged(s: bytes, bitpos: nat, fuel: nat, result: nat)
    requires bitpos >= 32 && bitpos + 7 * fuel <= 256 && Groups(s, fuel).Ok? && Varint32From(s, bitpos, result).Ok?
    ensures Varint32From(s, bitpos, result).value == result
    decreases |s|
  {
    hide BitOr, Shl;
    if s[0] >= 128 { Unchanged(s[1..], bitpos + 7, fuel - 1, result); }
  }

  // One of the first k bytes has no continuation bit.
  predicate EndsWithin(s: bytes, k: nat) {
    exists i :: 0 <= i < k && i < |s| && s[i] < 128
  }

  lemma {:induction false} GroupsEnd(s: bytes, fuel: nat)
    ensures Groups(s, fuel).Ok? <==> EndsWithin(s, fuel)
    decreases fuel
  {
    if fuel > 0 && s != [] && s[0] >= 128 {
      GroupsEnd(s[1..], fuel - 1);
      if EndsWithin(s[1..], fuel - 1) {
        var i :| 0 <= i < fuel - 1 && i < |s[1..]| && s[1..][i] < 128;
        assert s[i + 1] < 128;
      }
      if EndsWithin(s, fuel) {
        var i :| 0 <= i < fuel && i < |s| && s[i] < 128;
        assert s[1..][i - 1] < 128;
      }
    }
  }

  // Whatever the input: a value the narrow reader accepts is the low word of the varint,
  // read from the same bytes, exactly when one of the first ten bytes ends it; the wide
  // reader refuses longer ones.
  lemma LowWordOfVarint(s: bytes)
    requires DecVarint32(s).Ok?
    ensures DecVarint(s).Ok? <==> EndsWithin(s, 10)
    ensures EndsWithin(s, 10) ==>
              DecVarint(s).n == DecVarint32(s).n && DecVarint32(s).value == DecVarint(s).value % TWO32
  {
    hide BitOr, Shl, Pow2, Collect, Overflows, EndsWithin;
    GroupsEnd(s, 10);
    if s[0] >= 128 {
      SameLength(s[1..], 9, 7, s[0] % 128);
      if DecVarint32(s).n <= 10 {
        PowValues();
        LowWord(s[1..], 1, s[0] % 128);
        var g := Groups(s[1..], 9).value;
        FirstGroup(s[0] % 128, g);
      }
    } else {
      Quotient(s[0], TWO64, 0, s[0]);
      Quotient(s[0], TWO32, 0, s[0]);
    }
  }

  lemma FirstGroup(b: nat, g: nat)
    ensures (b + Shl(g, 7)) % TWO32 == (b + 128 * g) % TWO64 % TWO32
  {
    hide Shl, Pow2;
    ShlMul(g, 7);
    PowValues();
    var x := b + 128 * g;
    Quotient(x % TWO64, TWO32, x % TWO64 / TWO32, x % TWO64 % TWO32);
    Quotient(x, TWO32, x / TWO64 * TWO32 + x % TWO64 / TWO32, x % TWO64 % TWO32);
  }

  // ---------- what is accepted ----------

  // The low word of what has been read and of the groups to come.
  function LowOf(s: bytes, k: nat, result: nat): nat
    requires k < 10 && Groups(s, 10 - k).Ok?
  {
    (result + Shl(Groups(s, 10 - k).value, 7 * k)) % TWO32
  }

  // From the sixth byte on groups are zero, or repeat the sign of the low word up to bit 63.
  predicate Extends(b: byte, k: nat, low: nat) {
    b == 0 || b == 128 || (low >= 0x8000_0000 && b == if k < 9 then 255 else 1)
  }

  // The bytes of s stand at the positions from k on.
  predicate Accepts(s: bytes, n: nat, k: nat, low: nat)
    requires n <= |s|
  {
    && (n >= 1 && k + n == 5 ==> s[n - 1] < 16)
    && forall j :: 0 <= j < n && k + j >= 5 ==> Extends(s[j], k + j, low)
  }

  lemma ExtendsUnlessOverflow(b: byte, k: nat, low: nat)
    requires 5 <= k < 10 && low < TWO32
    ensures Overflows(b, 7 * k, low) <==> !Extends(b, k, low)
  {
  }

  lemma OneHigh(s: bytes, k: nat, low: nat)
    requires s != [] && k >= 5
    ensures Accepts(s, 1, k, low) <==> Extends(s[0], k, low)
  {
    hide Extends;
  }

  lemma {:induction false} HighAccepted(s: bytes, k: nat, result: nat)
    requires 5 <= k < 10 && result < TWO32 && Groups(s, 10 - k).Ok?
    ensures Varint32From(s, 7 * k, result).Ok? <==> Accepts(s, Groups(s, 10 - k).n, k, result)
    decreases |s|
  {
    hide BitOr, Shl, Pow2, Accepts, Extends, Overflows;
    ExtendsUnlessOverflow(s[0], k, result);
    if s[0] >= 128 {
      HighAccepted(s[1..], k + 1, result);
      AcceptsNext(s, Groups(s, 10 - k).n, k, result);
    } else {
      OneHigh(s, k, result);
    }
  }

  lemma AcceptsNext(s: bytes, n: nat, k: nat, low: nat)
    requires 1 < n <= |s|
    ensures Accepts(s, n, k, low) <==>
            Accepts(s[1..], n - 1, k + 1, low) && (k >= 5 ==> Extends(s[0], k, low))
  {
    hide Extends;
    var t := s[1..];
    assert forall j :: 0 <= j < n - 1 ==> t[j] == s[j + 1];
    if Accepts(t, n - 1, k + 1, low) {
      forall j | 0 < j < n && k + j >= 5
        ensures Extends(s[j], k + j, low)
      {
        assert Extends(t[j - 1], k + 1 + (j - 1), low);
      }
    }
    if Accepts(s, n, k, low) {
      forall j | 0 <= j < n - 1 && k + 1 + j >= 5
        ensures Extends(t[j], k + 1 + j, low)
      {
        assert Extends(s[j + 1], k + (j + 1), low);
      }
    }
  }

  lemma {:induction false} LowAccepted(s: bytes, k: nat, result: nat)
    requires 1 <= k <= 5 && result < TWO32 && (k <= 4 ==> result < Pow2(7 * k)) && Groups(s, 10 - k).Ok?
    ensures Varint32From(s, 7 * k, result).Ok? <==> Accepts(s, Groups(s, 10 - k).n, k, LowOf(s, k, result))
    decreases |s|
  {
    hide BitOr, Shl, Pow2, Collect, Accepts;
    var b, r := s[0], Groups(s, 10 - k);
    if k == 5 {
      HighBits(result, r.value, 35);
      HighAccepted(s, 5, result);
    } else {
      LowGroup(b, k, result);
      if b >= 128 {
        var rest, next := Groups(s[1..], 10 - (k + 1)).value, Collect(b, 7 * k, result);
        CollectBound(b, 7 * k, result);
        LowAccepted(s[1..], k + 1, next);
        GroupParts(b, rest);
        SplitGroup(r.value, 7 * k);
        AddMod(result + Shl(b % 128, 7 * k), Shl(rest, 7 * k + 7));
        AcceptsNext(s, r.n, k, LowOf(s, k, result));
      } else {
        OneAccepted(s, k, LowOf(s, k, result));
      }
    }
  }

  lemma OneAccepted(s: bytes, k: nat, low: nat)
    requires s != [] && 1 <= k <= 4
    ensures Accepts(s, 1, k, low) <==> (k == 4 ==> s[0] < 16)
  {
  }

  // Of the varints of at most ten bytes the narrow reader accepts those whose fifth byte, if
  // it is the last, has four bits, and whose further bytes are zero or extend the sign.
  lemma Varint32Accepts(s: bytes)
    requires DecVarint(s).Ok?
    ensures DecVarint32(s).Ok? <==> Accepts(s, DecVarint(s).n, 0, DecVarint(s).value % TWO32)
  {
    hide BitOr, Shl, Pow2, Collect, Overflows, Accepts;
    var n := DecVarint(s).n;
    if s[0] >= 128 {
      PowValues();
      LowAccepted(s[1..], 1, s[0] % 128);
      FirstGroup(s[0] % 128, Groups(s[1..], 9).value);
      AcceptsNext(s, n, 0, DecVarint(s).value % TWO32);
    } else {
      FirstAccepted(s, DecVarint(s).value % TWO32);
    }
  }

  lemma FirstAccepted(s: bytes, low: nat)
    requires s != []
    ensures Accepts(s, 1, 0, low)
  {
  }

  function Padding(k: nat): (s: bytes)
    ensures |s| == k
  {
    seq(k, _ => 128)
  }

  lemma NoPadding(t: bytes, bitpos: nat)
    requires bitpos < 256
    ensures Varint32From(t, bitpos, 0) == After(0, Varint32From(t, bitpos % 256, 0))
  {
    hide Varint32From;
  }

  lemma PaddingStep(s: bytes, bitpos: nat)
    requires s != [] && s[0] == 128
    ensures Varint32From(s, bitpos, 0) == After(1, Varint32From(s[1..], (bitpos + 7) % 256, 0))
  {
    hide Collect;
    CollectNothing(bitpos);
  }

  // Continued bytes without payload only move the bit position.
  lemma {:induction false} SkipPadding(k: nat, t: bytes, bitpos: nat)
    requires bitpos < 256
    ensures Varint32From(Padding(k) + t, bitpos, 0) == After(k, Varint32From(t, (bitpos + 7 * k) % 256, 0))
  {
    hide BitOr, Shl, Collect, Varint32From;
    if k == 0 {
      assert Padding(0) + t == t;
      NoPadding(t, bitpos);
    } else {
      var s := Padding(k) + t;
      assert s[0] == 128 && s[1..] == Padding(k - 1) + t;
      PaddingStep(s, bitpos);
      SkipPadding(k - 1, t, (bitpos + 7) % 256);
      NextPosition(bitpos, k);
    }
  }

  lemma NextPosition(bitpos: nat, k: nat)
    requires k > 0
    ensures ((bitpos + 7) % 256 + 7 * (k - 1)) % 256 == (bitpos + 7 * k) % 256
  {
  }

  lemma CollectNothing(bitpos: nat)
    ensures Collect(128, bitpos, 0) == 0
  {
    ShlMul(0, bitpos);
  }

  // The 8-bit position wraps around in an overlong encoding: 37 empty groups and a one
  // are read as 8, while the 64-bit reader refuses them.
  lemma Varint32Wraps()
    ensures DecVarint32(Padding(37) + [1]) == Ok(8, 38)
    ensures DecVarint(Padding(37) + [1]) == Fail
  {
    hide BitOr, Shl;
    var s := Padding(37) + [1];
    assert s[0] == 128 && s[1..] == Padding(36) + [1];
    SkipPadding(36, [1], 7);
    assert Collect(1, 3, 0) == 8 by { CollectEight(); }
    assert Varint32From([1], 3, 0) == Ok(8, 1);
    TooLong(37, [1], 10);
  }

  lemma CollectEight()
    ensures Collect(1, 3, 0) == 8
  {
    hide BitOr, Shl;
    ShlMul(1, 3);
    DisjointAdd(0, 1, 3);
  }

  lemma {:induction false} TooLong(k: nat, t: bytes, budget: nat)
    requires budget <= k
    ensures Groups(Padding(k) + t, budget) == Fail
    decreases budget
  {
    if budget > 0 {
      var s := Padding(k) + t;
      assert s[0] == 128 && s[1..] == Padding(k - 1) + t;
      TooLong(k - 1, t, budget - 1);
    }
  }
}
