/** The shift-and-xor checksum of pages and log records, what it depends on and what it detects. */
module Checksum {
  import opened Bytes

  function Word(b: Byte): bv32 {
    (b as bv8) as bv32
  }

  function Xor(u: bv32, v: bv32): bv32 {
    u ^ v
  }

  function Left(w: bv32): bv32 {
    w << 1
  }

  /** One round of the checksum loop. */
  function Round(sum: bv32, b: Byte): bv32 {
    Xor(Left(sum), Word(b))
  }

  function SumFrom(sum: bv32, s: seq<Byte>): bv32
    decreases s
  {
    if |s| == 0 then sum else SumFrom(Round(sum, s[0]), s[1..])
  }

  /** compute_checksum. */
  function Sum(s: seq<Byte>): bv32 {
    SumFrom(0, s)
  }

  /** The checksum as the number that is stored. */
  function Value(s: seq<Byte>): (v: nat)
    ensures v < U32_LIMIT
  {
    Sum(s) as nat
  }

  /** `n` single-bit left shifts modulo 2^32. */
  function Shl(w: bv32, n: nat): bv32
    decreases n
  {
    if n == 0 then w else Shl(Left(w), n - 1)
  }

  /** The xor of every byte shifted by its distance from the end. */
  function XorOfShifted(s: seq<Byte>): bv32 {
    if |s| == 0 then 0 else Xor(XorOfShifted(s[1..]), Shl(Word(s[0]), |s| - 1))
  }

  /** The loop of compute_checksum. */
  method Compute(s: seq<Byte>) returns (sum: bv32)
    ensures sum == Sum(s)
  {
    hide Xor;
    hide Left;
    sum := 0;
    var i := 0;
    while i < |s|
      invariant 0 <= i <= |s| && SumFrom(sum, s[i..]) == Sum(s)
    {
      assert s[i..][0] == s[i] && s[i..][1..] == s[i + 1..];
      sum := Xor(Left(sum), Word(s[i]));
      i := i + 1;
    }
  }

  // ---------------------------------------------------------------- bit-level facts

  lemma XorFacts(u: bv32, v: bv32, w: bv32)
    ensures Xor(Xor(u, v), w) == Xor(Xor(u, w), v)
    ensures Xor(0, w) == w == Xor(w, 0)
    ensures Left(Xor(u, v)) == Xor(Left(u), Left(v)) && Left(0) == 0
    ensures Xor(u, v) == 0 <==> u == v
    ensures Xor(w, u) == Xor(w, v) <==> u == v
  {
    XorSwap(u, v, w);
    XorCancel(u, v, w);
    LeftXor(u, v);
    hide *;
  }

  lemma XorSwap(u: bv32, v: bv32, w: bv32)
    ensures Xor(Xor(u, v), w) == Xor(Xor(u, w), v) && Xor(0, w) == w == Xor(w, 0)
  {
  }

  lemma XorCancel(u: bv32, v: bv32, w: bv32)
    ensures (Xor(u, v) == 0 <==> u == v) && (Xor(w, u) == Xor(w, v) <==> u == v)
  {
    assert w ^ u == w ^ v ==> w ^ (w ^ u) == w ^ (w ^ v);
    assert w ^ (w ^ u) == u && w ^ (w ^ v) == v;
  }

  lemma LeftXor(u: bv32, v: bv32)
    ensures Left(Xor(u, v)) == Xor(Left(u), Left(v)) && Left(0) == 0
  {
  }

  lemma Left8(w: bv32)
    ensures Left(Left(Left(Left(Left(Left(Left(Left(w)))))))) == w << 8
  {
  }

  lemma Shift24(w: bv32)
    ensures ((w << 8) << 8) << 8 == w << 24 && (w << 24) << 8 == 0
    ensures w != 0 && w < 256 ==> w << 24 != 0
  {
  }

  lemma WordFacts(a: Byte, b: Byte)
    ensures Word(a) < 256 && Xor(Word(a), Word(b)) < 256 && (Word(a) == Word(b) ==> a == b)
  {
    ByteBack(a);
    ByteBack(b);
    XorBytes(a as bv8, b as bv8);
    hide *;
  }

  lemma ByteBack(a: int)
    requires 0 <= a < 256
    ensures (a as bv8) as int == a
  {
    assert a % 256 == a;
  }

  lemma XorBytes(a: bv8, b: bv8)
    ensures (a as bv32) < 256 && ((a as bv32) ^ (b as bv32)) < 256 && (a as bv32 == b as bv32 ==> a == b)
  {
  }

  lemma NatBack(w: bv32)
    ensures (w as nat) as bv32 == w
  {
  }

  // ---------------------------------------------------------------- linearity

  lemma {:induction false} Linear(u: bv32, v: bv32, s: seq<Byte>)
    ensures SumFrom(Xor(u, v), s) == Xor(SumFrom(u, s), Shl(v, |s|))
    decreases s
  {
    hide Xor;
    hide Left;
    if |s| > 0 {
      XorFacts(u, v, 0);
      XorFacts(Left(u), Left(v), Word(s[0]));
      Linear(Round(u, s[0]), Left(v), s[1..]);
    }
  }

  lemma {:induction false} SumFromConcat(sum: bv32, a: seq<Byte>, b: seq<Byte>)
    ensures SumFrom(sum, a + b) == SumFrom(SumFrom(sum, a), b)
    decreases a
  {
    hide Xor;
    hide Left;
    if |a| == 0 {
      assert a + b == b;
    } else {
      assert (a + b)[1..] == a[1..] + b;
      SumFromConcat(Round(sum, a[0]), a[1..], b);
    }
  }

  /** The loop computes the xor of each byte shifted by its distance from the end. */
  lemma {:induction false} SumIsXorOfShifted(s: seq<Byte>)
    ensures Sum(s) == XorOfShifted(s)
  {
    hide Xor;
    hide Left;
    if |s| > 0 {
      XorFacts(0, 0, Word(s[0]));
      Linear(0, Word(s[0]), s[1..]);
      SumIsXorOfShifted(s[1..]);
    }
  }

  // ---------------------------------------------------------------- what survives a shift

  lemma {:induction false} ShlAdd(w: bv32, m: nat, n: nat)
    ensures Shl(w, m + n) == Shl(Shl(w, m), n)
    decreases m
  {
    hide Left;
    if m > 0 {
      ShlAdd(Left(w), m - 1, n);
    }
  }

  lemma {:induction false} ShlXor(u: bv32, v: bv32, n: nat)
    ensures Shl(Xor(u, v), n) == Xor(Shl(u, n), Shl(v, n))
    decreases n
  {
    hide Xor;
    hide Left;
    if n > 0 {
      XorFacts(u, v, 0);
      ShlXor(Left(u), Left(v), n - 1);
    }
  }

  lemma {:induction false} ShlZero(n: nat)
    ensures Shl(0, n) == 0
  {
    if n > 0 {
      ShlZero(n - 1);
    }
  }

  lemma ShlByte(w: bv32)
    ensures Shl(w, 8) == w << 8
  {
    Left8(w);
    hide Left;
    var w1 := Left(w);
    var w2 := Left(w1);
    var w4 := Left(Left(w2));
    var w6 := Left(Left(w4));
    assert Shl(w, 8) == Shl(w1, 7) == Shl(w2, 6);
    assert Shl(w2, 6) == Shl(Left(w2), 5) == Shl(w4, 4);
    assert Shl(w4, 4) == Shl(Left(w4), 3) == Shl(w6, 2);
    assert Shl(w6, 2) == Shl(Left(w6), 1) == Shl(Left(Left(w6)), 0);
  }

  lemma Shl24(w: bv32)
    ensures Shl(w, 24) == w << 24 && Shl(w, 32) == 0
  {
    ShlByte(w);
    ShlByte(w << 8);
    ShlByte(w << 16);
    ShlByte(w << 24);
    ShlAdd(w, 8, 16);
    ShlAdd(w << 8, 8, 8);
    ShlAdd(w, 24, 8);
    Shift24(w);
    hide Shl;
  }

  lemma ShlGone(w: bv32, n: nat)
    requires n >= 32
    ensures Shl(w, n) == 0
  {
    Shl24(w);
    ShlAdd(w, 32, n - 32);
    ShlZero(n - 32);
  }

  /** A difference within one byte survives every shift of at most 24 places. */
  lemma ShlSurvives(w: bv32, d: nat)
    requires w != 0 && w < 256 && d <= 24
    ensures Shl(w, d) != 0
  {
    Shl24(w);
    Shift24(w);
    ShlAdd(w, d, 24 - d);
    ShlZero(24 - d);
    hide Shl;
  }

  // ---------------------------------------------------------------- detection

  lemma ValueInjective(s: seq<Byte>, t: seq<Byte>)
    ensures Value(s) == Value(t) <==> Sum(s) == Sum(t)
  {
    NatBack(Sum(s));
    NatBack(Sum(t));
    hide Sum;
  }

  lemma SumAround(s: seq<Byte>, i: nat, b: Byte)
    requires i < |s|
    ensures Sum(s[i := b]) == Xor(SumFrom(Left(Sum(s[..i])), s[i + 1..]), Shl(Word(b), |s| - 1 - i))
  {
    hide Xor;
    hide Left;
    var pre, post := s[..i], s[i + 1..];
    assert s[i := b] == pre + ([b] + post) && ([b] + post)[1..] == post;
    SumFromConcat(0, pre, [b] + post);
    Linear(Left(Sum(pre)), Word(b), post);
  }

  /** Exactly when overwriting one byte goes unnoticed: its difference is shifted out altogether. */
  lemma OneByteChange(s: seq<Byte>, i: nat, b: Byte)
    requires i < |s|
    ensures Value(s[i := b]) == Value(s) <==> Shl(Xor(Word(s[i]), Word(b)), |s| - 1 - i) == 0
  {
    hide Xor;
    hide Left;
    hide Sum;
    hide Value;
    hide Word;
    var u, n := SumFrom(Left(Sum(s[..i])), s[i + 1..]), |s| - 1 - i;
    assert s[i := s[i]] == s;
    SumAround(s, i, b);
    SumAround(s, i, s[i]);
    ShlXor(Word(s[i]), Word(b), n);
    XorFacts(Shl(Word(s[i]), n), Shl(Word(b), n), u);
    ValueInjective(s, s[i := b]);
  }

  /** Any one-byte change within the last 25 covered bytes is detected. */
  lemma LastBytesDetected(s: seq<Byte>, i: nat, b: Byte)
    requires i < |s| && |s| - 1 - i <= 24 && b != s[i]
    ensures Value(s[i := b]) != Value(s)
  {
    WordFacts(s[i], b);
    XorFacts(Word(s[i]), Word(b), 0);
    ShlSurvives(Xor(Word(s[i]), Word(b)), |s| - 1 - i);
    OneByteChange(s, i, b);
  }

  /** Only the last 32 covered bytes matter. */
  lemma OnlyTailMatters(a: seq<Byte>, b: seq<Byte>, tail: seq<Byte>)
    requires |tail| >= 32
    ensures Value(a + tail) == Value(b + tail)
  {
    SumFromConcat(0, a, tail);
    SumFromConcat(0, b, tail);
    TailOnly(SumFrom(0, a), tail);
    TailOnly(SumFrom(0, b), tail);
  }

  lemma TailOnly(u: bv32, tail: seq<Byte>)
    requires |tail| >= 32
    ensures SumFrom(u, tail) == Sum(tail)
  {
    hide Left;
    XorFacts(0, 0, u);
    XorFacts(0, 0, Sum(tail));
    Linear(0, u, tail);
    ShlGone(u, |tail|);
    hide Xor;
  }

  /** Each of the last 32 bytes does matter: changing its lowest bit always shows. */
  lemma TailBitDetected(s: seq<Byte>, i: nat, b: Byte)
    requires i < |s| && |s| - 1 - i < 32 && Xor(Word(s[i]), Word(b)) == 1
    ensures Value(s[i := b]) != Value(s)
  {
    var d := |s| - 1 - i;
    OneByteChange(s, i, b);
    OneSurvives();
    ShlAdd(1, d, 31 - d);
    ShlZero(31 - d);
    hide Shl;
  }

  lemma OneSurvives()
    ensures Shl(1, 31) != 0
  {
    Shl24(1);
    ShlAdd(1, 24, 7);
    var w: bv32 := 1 << 24;
    assert Left(Left(Left(w))) == w << 3 && Left(Left(Left(Left(w << 3)))) == w << 7 != 0;
    hide Left;
    assert Shl(w, 7) == Shl(Left(w), 6) == Shl(Left(Left(w)), 5) == Shl(w << 3, 4);
    assert Shl(w << 3, 4) == Shl(Left(w << 3), 3) == Shl(Left(Left(w << 3)), 2);
    assert Shl(Left(Left(w << 3)), 2) == Shl(Left(Left(Left(w << 3))), 1) == Shl(Left(Left(Left(Left(w << 3)))), 0);
  }
}
