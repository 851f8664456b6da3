/** Base64 as section 4 of RFC 4648 has it: the bits of the bytes, six at a time. */
module Base64Spec {
  import opened Bytes
  import opened Base64
  import opened Base64Laws

  // ----- bits

  function Pow2(n: nat): (p: nat)
    ensures p > 0
  {
    if n == 0 then 1 else 2 * Pow2(n - 1)
  }

  /** The `n` low bits of a number, the most significant first. */
  function Bits(n: nat, w: nat): (b: seq<bool>)
    ensures |b| == n
  {
    if n == 0 then [] else Bits(n - 1, w / 2) + [w % 2 == 1]
  }

  /** The bits of bytes one after another. */
  function BitsOfBytes(d: seq<Byte>): (b: seq<bool>)
    ensures |b| == 8 * |d|
  {
    if d == [] then [] else Bits(8, d[0]) + BitsOfBytes(d[1..])
  }

  /** The bits of characters, six for each. */
  function BitsOfCodes(t: seq<Byte>): (b: seq<bool>)
    requires forall i :: 0 <= i < |t| ==> Value(t[i]) >= 0
    ensures |b| == 6 * |t|
  {
    if t == [] then [] else Bits(6, Value(t[0])) + BitsOfCodes(t[1..])
  }

  lemma {:induction false} BitsSplit(n: nat, high: nat, m: nat, low: nat)
    requires low < Pow2(m)
    ensures Bits(n + m, high * Pow2(m) + low) == Bits(n, high) + Bits(m, low)
  {
    if m > 0 {
      var w := high * Pow2(m) + low;
      assert w == 2 * (high * Pow2(m - 1) + low / 2) + low % 2 by { HalfOfSplit(high, Pow2(m - 1), low); }
      BitsSplit(n, high, m - 1, low / 2);
      assert Bits(n + m, w) == Bits(n + (m - 1), w / 2) + [w % 2 == 1];
    }
  }

  lemma HalfOfSplit(high: nat, p: nat, low: nat)
    ensures high * (2 * p) + low == 2 * (high * p + low / 2) + low % 2
  {
  }

  lemma SmallPowers()
    ensures Pow2(6) == 64 && Pow2(8) == 0x100 && Pow2(12) == 0x1000 && Pow2(16) == 0x1_0000
    ensures Pow2(18) == 0x4_0000
  {
    assert Pow2(4) == 16;
    assert Pow2(8) == 0x100;
    assert Pow2(12) == 0x1000;
    assert Pow2(16) == 0x1_0000;
  }

  /** Three bytes and four sextets are the same 24 bits. */
  lemma BytesAre24Bits(a: Byte, b: Byte, c: Byte)
    ensures Bits(24, a * 0x1_0000 + b * 0x100 + c) == Bits(8, a) + Bits(8, b) + Bits(8, c)
  {
    hide Bits, Pow2;
    SmallPowers();
    BitsSplit(8, a, 16, b * 0x100 + c);
    BitsSplit(8, b, 8, c);
    assert Bits(8, a) + (Bits(8, b) + Bits(8, c)) == Bits(8, a) + Bits(8, b) + Bits(8, c);
  }

  lemma SextetsAre24Bits(p: Sextet, q: Sextet, r: Sextet, s: Sextet)
    ensures Bits(24, p * 0x4_0000 + q * 0x1000 + r * 64 + s) == Bits(6, p) + Bits(6, q) + Bits(6, r) + Bits(6, s)
  {
    hide Bits, Pow2;
    SmallPowers();
    BitsSplit(6, p, 18, q * 0x1000 + r * 64 + s);
    BitsSplit(6, q, 12, r * 64 + s);
    BitsSplit(6, r, 6, s);
    var b, c, d := Bits(6, q), Bits(6, r), Bits(6, s);
    assert Bits(6, p) + (b + (c + d)) == Bits(6, p) + b + c + d;
  }

  /** All characters of the text are of an alphabet or padding. */
  predicate Encoded(t: seq<Byte>) {
    forall i :: 0 <= i < |t| ==> Value(t[i]) >= 0
  }

  lemma OneCode(a: Byte, rest: seq<Byte>)
    requires Value(a) >= 0 && Encoded(rest)
    ensures Encoded([a] + rest) && BitsOfCodes([a] + rest) == Bits(6, Value(a)) + BitsOfCodes(rest)
  {
    hide Value, Bits;
    assert ([a] + rest)[1..] == rest;
  }

  lemma FourCodes(a: Byte, b: Byte, c: Byte, d: Byte)
    requires Value(a) >= 0 && Value(b) >= 0 && Value(c) >= 0 && Value(d) >= 0
    ensures Encoded([a, b, c, d])
    ensures BitsOfCodes([a, b, c, d]) == Bits(6, Value(a)) + Bits(6, Value(b)) + Bits(6, Value(c)) + Bits(6, Value(d))
  {
    hide Value, Bits, BitsOfCodes;
    OneCode(d, []);
    OneCode(c, [d]);
    OneCode(b, [c, d]);
    OneCode(a, [b, c, d]);
    assert [d] == [d] + [] && [c, d] == [c] + [d] && [b, c, d] == [b] + [c, d] && [a, b, c, d] == [a] + [b, c, d];
    var p, q, r, s := Bits(6, Value(a)), Bits(6, Value(b)), Bits(6, Value(c)), Bits(6, Value(d));
    assert p + (q + (r + (s + BitsOfCodes([])))) == p + q + r + s;
  }

  lemma {:induction false} CodesOfParts(t: seq<Byte>, u: seq<Byte>)
    requires Encoded(t) && Encoded(u)
    ensures Encoded(t + u) && BitsOfCodes(t + u) == BitsOfCodes(t) + BitsOfCodes(u)
  {
    hide Value, Bits;
    if t == [] {
      assert t + u == u;
    } else {
      assert (t + u)[1..] == t[1..] + u;
      CodesOfParts(t[1..], u);
    }
  }

  lemma {:induction false} BytesOfParts(d: seq<Byte>, e: seq<Byte>)
    ensures BitsOfBytes(d + e) == BitsOfBytes(d) + BitsOfBytes(e)
  {
    hide Bits;
    if d == [] {
      assert d + e == e;
    } else {
      assert (d + e)[1..] == d[1..] + e;
      BytesOfParts(d[1..], e);
    }
  }

  lemma OneByte(a: Byte, rest: seq<Byte>)
    ensures BitsOfBytes([a] + rest) == Bits(8, a) + BitsOfBytes(rest)
  {
    hide Bits;
    assert ([a] + rest)[1..] == rest;
  }

  lemma ThreeBytes(a: Byte, b: Byte, c: Byte)
    ensures BitsOfBytes([a, b, c]) == Bits(8, a) + Bits(8, b) + Bits(8, c)
  {
    hide Bits, BitsOfBytes;
    OneByte(c, []);
    OneByte(b, [c]);
    OneByte(a, [b, c]);
    assert [c] == [c] + [] && [b, c] == [b] + [c] && [a, b, c] == [a] + [b, c];
    var p, q, r := Bits(8, a), Bits(8, b), Bits(8, c);
    assert p + (q + (r + BitsOfBytes([]))) == p + q + r;
  }

  lemma CodesBits(w: nat)
    requires w < 0x100_0000
    ensures Encoded(Codes(w)) && BitsOfCodes(Codes(w)) == Bits(24, w)
  {
    SextetsOf(w);
    var p, q, r, s := w / 0x4_0000, w / 0x1000 % 64, w / 64 % 64, w % 64;
    assert w == p * 0x4_0000 + q * 0x1000 + r * 64 + s;
    hide Value, Code, Bits, BitsOfCodes, Encoded;
    ValueOfCode(p);
    ValueOfCode(q);
    ValueOfCode(r);
    ValueOfCode(s);
    FourCodes(Code(p), Code(q), Code(r), Code(s));
    SextetsAre24Bits(p, q, r, s);
  }

  /** The four codes of three bytes have their bits. */
  lemma WordBits(a: Byte, b: Byte, c: Byte)
    ensures var codes := Codes(Word([a, b, c]));
            Encoded(codes) && BitsOfCodes(codes) == BitsOfBytes([a, b, c])
  {
    hide Codes, Bits, BitsOfCodes, BitsOfBytes, Encoded;
    CodesBits(Word([a, b, c]));
    BytesAre24Bits(a, b, c);
    ThreeBytes(a, b, c);
  }

  function Zeros(n: nat): (z: seq<bool>)
    ensures |z| == n
  {
    seq(n, _ => false)
  }

  lemma {:induction false} ZeroBits(n: nat)
    ensures Bits(n, 0) == Zeros(n)
  {
    if n > 0 {
      ZeroBits(n - 1);
    }
  }

  // ----- the written text

  lemma LastSextets(a: Byte, b: Byte)
    ensures Codes(Word([a, b, 0]))[3] == Code(0) && Codes(Word([a, 0, 0]))[2] == Codes(Word([a, 0, 0]))[3] == Code(0)
    ensures Word([a, b]) == Word([a, b, 0]) && Word([a]) == Word([a, 0, 0])
  {
    hide Code;
    LowBits(a, b);
    LowBits(a, 0);
  }

  lemma LowBits(a: Byte, b: Byte)
    ensures (a * 0x1_0000 + b * 0x100) % 64 == 0
    ensures (a * 0x1_0000) / 64 % 64 == 0
  {
    assert a * 0x1_0000 + b * 0x100 == 64 * (a * 0x400 + b * 4);
    assert a * 0x1_0000 == 64 * (64 * (a * 16));
  }

  /** A last byte: the missing bytes count as zeros, and padding has the bits of the codes it replaces. */
  lemma LastByteBits(a: Byte)
    ensures Encoded(Written([a])) && BitsOfCodes(Written([a])) == BitsOfBytes([a]) + Zeros(16)
  {
    hide Value, Bits, BitsOfBytes, BitsOfCodes, Code, Codes, Word;
    var codes := Codes(Word([a, 0, 0]));
    WordBits(a, 0, 0);
    LastSextets(a, 0);
    PadIsZero();
    assert Written([a]) == codes[..2] + [PAD, PAD];
    SameValuesSameBits(Written([a]), codes);
    ThreeBytes(a, 0, 0);
    OneByte(a, []);
    assert [a] == [a] + [] && BitsOfBytes([]) == [] by { NoBits(); }
    ZeroBits(8);
    assert Zeros(8) + Zeros(8) == Zeros(16);
  }

  /** Two last bytes. */
  lemma LastBytesBits(a: Byte, b: Byte)
    ensures Encoded(Written([a, b])) && BitsOfCodes(Written([a, b])) == BitsOfBytes([a, b]) + Zeros(8)
  {
    hide Value, Bits, BitsOfBytes, BitsOfCodes, Code, Codes, Word;
    var codes := Codes(Word([a, b, 0]));
    WordBits(a, b, 0);
    LastSextets(a, b);
    PadIsZero();
    assert Written([a, b]) == codes[..3] + [PAD];
    SameValuesSameBits(Written([a, b]), codes);
    ThreeBytes(a, b, 0);
    OneByte(b, []);
    OneByte(a, [b]);
    assert [a, b] == [a] + [b] && [b] == [b] + [] && BitsOfBytes([]) == [] by { NoBits(); }
    ZeroBits(8);
  }

  lemma PadIsZero()
    ensures Value(PAD) == 0 == Value(Code(0))
  {
  }

  lemma NoBits()
    ensures BitsOfBytes([]) == []
  {
  }

  /** Characters of the same values have the same bits. */
  lemma {:induction false} SameValuesSameBits(t: seq<Byte>, u: seq<Byte>)
    requires |t| == |u| && Encoded(u) && forall i :: 0 <= i < |t| ==> Value(t[i]) == Value(u[i])
    ensures Encoded(t) && BitsOfCodes(t) == BitsOfCodes(u)
  {
    hide Value, Bits;
    if t != [] {
      SameValuesSameBits(t[1..], u[1..]);
    }
  }

  /** The written text has the bits of the bytes, in their order, and zeros up to a whole number of groups. */
  lemma {:induction false} WrittenBits(d: seq<Byte>)
    ensures Encoded(Written(d)) && |BitsOfCodes(Written(d))| >= 8 * |d|
    ensures BitsOfCodes(Written(d)) == BitsOfBytes(d) + Zeros(24 * ((|d| + 2) / 3) - 8 * |d|)
  {
    hide Value, Bits, Code, Word, Codes;
    LengthInFours(d);
    if d == [] {
    } else if |d| <= 2 {
      if |d| == 1 {
        LastByteBits(d[0]);
        assert d == [d[0]];
      } else {
        LastBytesBits(d[0], d[1]);
        assert d == [d[0], d[1]];
      }
    } else {
      WrittenBits(d[3..]);
      WordBits(d[0], d[1], d[2]);
      assert d[..3] == [d[0], d[1], d[2]] && d == d[..3] + d[3..];
      CodesOfParts(Codes(Word(d[..3])), Written(d[3..]));
      BytesOfParts(d[..3], d[3..]);
    }
  }

  // ----- alphabets

  /** The text with the characters of the URL-safe alphabet of section 5 of RFC 4648 exchanged for the standard ones. */
  function Standard(t: seq<Byte>): (u: seq<Byte>)
    ensures |u| == |t|
  {
    if t == [] then []
    else
      [if t[0] == '-' as int then '+' as int else if t[0] == '_' as int then '/' as int else t[0]] + Standard(t[1..])
  }

  lemma {:induction false} StandardSpelling(t: seq<Byte>)
    ensures SameSpelling(Standard(t), t)
  {
    if t != [] {
      StandardSpelling(t[1..]);
    }
  }

  /** Any text is read as it is with '+' for each '-' and '/' for each '_'. */
  lemma UrlSafeIsStandard(t: seq<Byte>)
    ensures Decoded(t) == Decoded(Standard(t))
  {
    hide Decoded, SameSpelling;
    StandardSpelling(t);
    AlphabetMakesNoDifference(Standard(t), t);
  }

  /** The writer's codes: the letters from 'A' to 'Z' and from 'a' to 'z', the digits from '0' to '9', '+' and '/'. */
  lemma AlphabetInOrder()
    ensures Code(0) == 'A' as int && Code(25) == 'Z' as int && Code(26) == 'a' as int && Code(51) == 'z' as int
    ensures Code(52) == '0' as int && Code(61) == '9' as int && Code(62) == '+' as int && Code(63) == '/' as int
    ensures forall v: Sextet, w: Sextet :: w == v + 1 && v !in {25, 51, 61, 62} ==> Code(w) == Code(v) + 1
  {
  }

  /** The reader's two alphabets: what is read as a six-bit number is its code, a '-' for 62, a '_' for 63 or padding
      for 0; everything else is skipped. */
  lemma ReaderAlphabets(c: Byte)
    ensures forall v: Sextet ::
              Value(c) == v <==> c == Code(v) || (v == 62 && c == '-' as int) || (v == 63 && c == '_' as int)
                                 || (v == 0 && c == '=' as int)
  {
  }

  // ----- ends of a text

  /** A last character that is alone gives one byte of its six bits, and a last group of which one padding character is
      missing one byte too many. */
  lemma Dangling(c: Byte)
    ensures Value(c) >= 0 ==> Decoded([c]) == [4 * Value(c)]
    ensures Decoded(Ascii("QQ=")) == [65, 0]
  {
    assert Ascii("QQ=") == [81, 81, 61];
  }
}
