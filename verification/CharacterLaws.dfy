/** Which characters the encodings read back after writing them. */
module CharacterLaws {
  import opened Bytes
  import opened Wrappers
  import opened Patches
  import opened Charset
  import opened CharsetLaws
  import opened Utf8
  import opened Convert
  import opened Localize
  import opened TextLaws

  // ----- UTF-8 and encodings without a table

  lemma {:induction false} TailFollows(ch: Char, n: nat)
    requires n <= 5
    ensures forall i :: 0 <= i < n ==> 0x80 <= Tail(ch, n)[i] < 0xC0
    decreases n
  {
    if n > 0 {
      TailFollows(ch, n - 1);
    }
  }

  lemma EncodedIsValid(mem: seq<Byte>, pos: nat, ch: Char)
    requires LiesAt(mem, pos, Encode(ch))
    ensures At(mem, pos) == Encode(ch)[0] && ValidPtr(mem, pos)
  {
    var size := SizeOf(ch);
    LeadOf(ch);
    TailFollows(ch, size - 1);
    assert Encode(ch) == [Encode(ch)[0]] + Tail(ch, size - 1);
    hide Encode, SizeOf, LeadBits, SizeOfLead, High;
    forall i | 0 <= i < size ensures At(mem, pos + i) == Encode(ch)[i] {
      assert mem[pos..pos + size][i] == mem[pos + i];
    }
    assert At(mem, pos + 0) == Encode(ch)[0];
    forall i | 1 <= i < size ensures Follows(mem, pos, i) {
      assert At(mem, pos + i) == Encode(ch)[i] == Tail(ch, size - 1)[i - 1];
    }
  }

  /** Both UTF-8 encodings read every character back, NUL included. */
  lemma Utf8Reads(e: Encoding, other: Char -> Patch, ch: Char)
    requires !e.Coded?
    ensures Reads(e, other, ch)
  {
    LeadOf(ch);
    var bytes := EmitChar(e, other, ch);
    assert ch >= 0x80 ==> bytes == Encode(ch);
    forall mem, pos: nat, end: nat | LiesAt(mem, pos, bytes) && pos + |bytes| <= end
      ensures Getc(e, mem, pos, end) == (ch, pos + |bytes|)
    {
      if ch < 0x80 {
        assert At(mem, pos) == mem[pos..pos + 1][0] == ch;
      } else {
        EncodedIsValid(mem, pos, ch);
        SgetcReadsEncode(mem, pos, end, ch);
      }
    }
  }

  /** In UTF-8 every text makes the round trip. */
  lemma Utf8RoundTrip(e: Encoding, other: Char -> Patch, chars: seq<Char>)
    requires !e.Coded?
    ensures RoundTrips(e, other, chars)
  {
    hide RoundTrips, Reads;
    forall i | 0 <= i < |chars| ensures Reads(e, other, chars[i]) {
      Utf8Reads(e, other, chars[i]);
    }
    RoundTrip(e, other, chars);
  }

  /** An encoding without a table, such as ASCII, reads back what its ASCII flag covers. */
  lemma PlainReads(other: Char -> Patch, linear: bool, ch: Char)
    requires ch < 0x80
    ensures Reads(Coded(None, true, linear), other, ch)
  {
    var e := Coded(None, true, linear);
    forall mem, pos: nat, end: nat | LiesAt(mem, pos, [ch]) && pos + 1 <= end
      ensures Getc(e, mem, pos, end) == (ch, pos + 1)
    {
      assert At(mem, pos) == mem[pos..pos + 1][0] == ch;
    }
  }

  // ----- tables

  /** A table of distinct codes below 2^31, one-to-one on the code points, with its inverse. */
  ghost predicate Sound(t: Table) {
    DistinctCodes(t.charset) && Injective(t.charset) && Inverse(t.inv, t.charset)
  }

  /** What the flags say is so: compute_flags checks it for a table of at least 256 entries. */
  ghost predicate Truthful(t: Table, ascii: bool, linear: bool) {
    && (ascii ==> |t.charset| >= 128 && forall i :: 1 <= i < 128 ==> t.charset[i] == Entry(i, i))
    && (linear ==> |t.charset| >= 256 && forall i :: 0 <= i < 256 ==> t.charset[i].from == i)
  }

  /** The encoding has the character, other than NUL. */
  ghost predicate Has(t: Table, ascii: bool, ch: Char) {
    ch > 0 && ((ascii && ch < 0x80) || Lookup(ch, t.inv) >= 0)
  }

  /** As byte strings: `a` begins `b` and is shorter. */
  predicate ProperPrefix(a: U32, b: U32) {
    || (b >= 0x100 && a == b / 0x100)
    || (b >= 0x1_0000 && a == b / 0x1_0000)
    || (b >= 0x100_0000 && a == b / 0x100_0000)
  }

  /** No code that has a code point begins another that has one other than NUL. */
  ghost predicate PrefixFree(s: seq<Entry>) {
    forall i, j :: 0 <= i < |s| && 0 <= j < |s| && Mapped(s[i]) && Mapped(s[j]) && s[j].to > 0
                   ==> !ProperPrefix(s[i].from, s[j].from)
  }

  /** Every code that has a code point other than NUL is a single byte. */
  ghost predicate SingleBytes(s: seq<Entry>) {
    forall j :: 0 <= j < |s| && Mapped(s[j]) && s[j].to > 0 ==> s[j].from < 0x100
  }

  /** The entry of a character that the inverse knows. */
  lemma EntryOf(t: Table, ch: Char) returns (i: nat)
    requires Sound(t) && Lookup(ch, t.inv) >= 0
    ensures i < |t.charset| && t.charset[i].to == ch && t.charset[i].from == Lookup(ch, t.inv) < 0x8000_0000
  {
    var p := SearchHits(ch, t.inv, 0, |t.inv| - 1);
    i := FromInverse(t.inv, t.charset, p);
    assert t.charset[i].from < 0x8000_0000;
  }

  lemma SameCharSameEntry(s: seq<Entry>, i: nat, j: nat)
    requires Injective(s) && i < |s| && j < |s| && Mapped(s[i]) && s[i].to == s[j].to
    ensures i == j
  {
  }

  /** The bytes of the first `k` bytes of a code. */
  function Leading(code: Char, k: nat): U32
    requires 1 <= k <= |CodeBytes(code)|
  {
    match |CodeBytes(code)| - k
    case 0 => code
    case 1 => code / 0x100
    case 2 => code / 0x1_0000
    case _ => code / 0x100_0000
  }

  lemma LeadingGrows(code: Char, k: nat)
    requires 1 <= k <= |CodeBytes(code)|
    ensures Leading(code, k) == ((if k == 1 then 0 else Leading(code, k - 1)) * 0x100 + CodeBytes(code)[k - 1])
                                % 0x1_0000_0000
  {
    var q1, q2, q3 := code / 0x100, code / 0x1_0000, code / 0x100_0000;
    DivideOn(code);
    match |CodeBytes(code)|
    case 1 =>
    case 2 => assert k == 2 ==> code == q1 * 0x100 + code % 0x100;
    case 3 => assert k == 3 ==> code == q1 * 0x100 + code % 0x100;
    case _ => assert k == 4 ==> code == q1 * 0x100 + code % 0x100;
  }

  lemma DivideOn(code: Char)
    ensures code / 0x100 == code / 0x1_0000 * 0x100 + code / 0x100 % 0x100
    ensures code / 0x1_0000 == code / 0x100_0000 * 0x100 + code / 0x1_0000 % 0x100
    ensures code / 0x100_0000 < 0x100
  {
  }

  lemma LeadingIsPrefix(code: Char, k: nat)
    requires 1 <= k <= |CodeBytes(code)|
    ensures if k == |CodeBytes(code)| then Leading(code, k) == code
            else ProperPrefix(Leading(code, k), code) && Leading(code, k) < code
  {
  }

  lemma PrefixIsLeading(a: U32, code: Char) returns (k: nat)
    requires ProperPrefix(a, code)
    ensures 1 <= k < |CodeBytes(code)| && Leading(code, k) == a
  {
    var n := |CodeBytes(code)|;
    k := if a == code / 0x100 then n - 1 else if a == code / 0x1_0000 then n - 2 else n - 3;
  }

  /** Reading byte by byte at the bytes of a code: nothing is found before the whole code, if no prefix of it has a code
      point, and otherwise the first prefix that has one is taken. */
  lemma {:induction false} TryCodesAtCode(s: seq<Entry>, mem: seq<Byte>, pos: nat, code: Char, i: nat, n: nat)
    requires LiesAt(mem, pos, CodeBytes(code)) && |CodeBytes(code)| <= n && i < |CodeBytes(code)|
    requires Lookup(code, s) >= 0
    ensures var (c, l) := TryCodes(s, mem, pos, if i == 0 then 0 else Leading(code, i), i, n);
            i < l <= |CodeBytes(code)| && c == Lookup(Leading(code, l), s) >= 0
            && forall k :: i < k < l ==> Lookup(Leading(code, k), s) < 0
    decreases |CodeBytes(code)| - i
  {
    var bytes := CodeBytes(code);
    assert At(mem, pos + i) == mem[pos..pos + |bytes|][i] == bytes[i];
    LeadingGrows(code, i + 1);
    hide CodeBytes, Leading, Lookup, ProperPrefix;
    if Lookup(Leading(code, i + 1), s) < 0 {
      TryCodesAtCode(s, mem, pos, code, i + 1, n);
    }
  }

  /** The codes can be read back. With the linear flag one byte is read, and with the ASCII flag as well byte 0 is
      always NUL, which compute_flags does not check; without the linear flag the shortest code that fits is read. */
  ghost predicate Decodable(s: seq<Entry>, ascii: bool, linear: bool) {
    if linear then
      SingleBytes(s) && (ascii ==> forall j :: 0 <= j < |s| && s[j].from == 0 && Mapped(s[j]) ==> s[j].to == 0)
    else PrefixFree(s)
  }

  lemma AsciiByteGot(t: Table, linear: bool, mem: seq<Byte>, pos: nat, end: nat, ch: Char)
    requires Truthful(t, true, linear) && ch < 0x80 && At(mem, pos) == ch && pos < end
    requires Lookup(ch, t.charset) == ch
    ensures Usable(Coded(Some(t), true, linear)) && Getc(Coded(Some(t), true, linear), mem, pos, end) == (ch, pos + 1)
  {
    hide Lookup, At;
    if !linear {
      var n := if end - pos > 4 then 4 else end - pos;
      assert At(mem, pos + 0) == ch;
      assert TryCodes(t.charset, mem, pos, 0, 0, n) == (ch, 1);
    }
  }

  lemma AsciiByteFound(t: Table, linear: bool, ch: Char)
    requires Sound(t) && Truthful(t, true, linear) && 0 < ch < 0x80
    ensures Lookup(ch, t.charset) == ch
  {
    hide Lookup;
    LookupIsCorrect(t.charset, ch);
    assert t.charset[ch] == Entry(ch, ch);
  }

  /** A character that goes through the ASCII shortcut is a byte, read back by the shortcut or by the table. */
  lemma AsciiByteReads(t: Table, linear: bool, other: Char -> Patch, ch: Char)
    requires Sound(t) && Truthful(t, true, linear) && 0 < ch < 0x80
    ensures Usable(Coded(Some(t), true, linear)) && Reads(Coded(Some(t), true, linear), other, ch)
  {
    var e := Coded(Some(t), true, linear);
    AsciiByteFound(t, linear, ch);
    TruthfulIsUsable(t, true, linear);
    assert Stores(e, other, ch) == Plain([ch]);
    hide Lookup, Sound, Truthful, At, LiesAt, Stores, Usable, Getc;
    forall mem, pos: nat, end: nat | LiesAt(mem, pos, [ch]) && pos + 1 <= end
      ensures Getc(e, mem, pos, end) == (ch, pos + 1)
    {
      ByteAt(mem, pos, ch);
      AsciiByteGot(t, linear, mem, pos, end, ch);
    }
  }

  lemma LinearCodeGot(t: Table, ascii: bool, mem: seq<Byte>, pos: nat, end: nat, ch: Char, j: nat)
    requires Sound(t) && Truthful(t, ascii, true) && !(ascii && ch < 0x80) && ch > 0 && pos < end
    requires Decodable(t.charset, ascii, true)
    requires j < |t.charset| && t.charset[j].to == ch && LiesAt(mem, pos, [t.charset[j].from])
    ensures Usable(Coded(Some(t), ascii, true)) && Getc(Coded(Some(t), ascii, true), mem, pos, end) == (ch, pos + 1)
  {
    var code := t.charset[j].from;
    ByteAt(mem, pos, code);
    assert code < 0x100 && t.charset[code].from == code;
    assert j == code;
    if ascii && 0 < code < 0x80 {
      assert t.charset[code] == Entry(code, code);
    }
  }

  lemma ShortestCodeGot(t: Table, ascii: bool, mem: seq<Byte>, pos: nat, end: nat, ch: Char, j: nat)
    requires Sound(t) && PrefixFree(t.charset) && ch > 0
    requires j < |t.charset| && t.charset[j].to == ch && t.charset[j].from < 0x8000_0000
    requires LiesAt(mem, pos, CodeBytes(t.charset[j].from)) && pos + |CodeBytes(t.charset[j].from)| <= end
    ensures Getc(Coded(Some(t), ascii, false), mem, pos, end) == (ch, pos + |CodeBytes(t.charset[j].from)|)
  {
    hide Search, LiesAt, CodeBytes, Leading;
    var code: Char := t.charset[j].from;
    LookupIsCorrect(t.charset, code);
    var n := if end - pos > 4 then 4 else end - pos;
    TryCodesAtCode(t.charset, mem, pos, code, 0, n);
    var l := TryCodes(t.charset, mem, pos, 0, 0, n).1;
    LeadingIsPrefix(code, l);
    var i := SearchHits(Leading(code, l), t.charset, 0, |t.charset| - 1);
    hide ProperPrefix;
  }

  lemma EmitsCode(t: Table, ascii: bool, linear: bool, other: Char -> Patch, ch: Char, code: Char)
    requires Lookup(ch, t.inv) == code && !(ascii && ch < 0x80)
    ensures Stores(Coded(Some(t), ascii, linear), other, ch) == Plain(CodeBytes(code))
  {
    hide Lookup, CodeBytes;
  }

  lemma TruthfulIsUsable(t: Table, ascii: bool, linear: bool)
    requires Truthful(t, ascii, linear)
    ensures Usable(Coded(Some(t), ascii, linear))
  {
  }

  lemma SingleByteCode(t: Table, ascii: bool, j: nat)
    requires Decodable(t.charset, ascii, true) && j < |t.charset| && Mapped(t.charset[j]) && t.charset[j].to > 0
    ensures t.charset[j].from < 0x100 && CodeBytes(t.charset[j].from) == [t.charset[j].from]
  {
  }

  lemma CodeGot(t: Table, ascii: bool, linear: bool, mem: seq<Byte>, pos: nat, end: nat, ch: Char, j: nat)
    requires Sound(t) && Truthful(t, ascii, linear) && Decodable(t.charset, ascii, linear) && ch > 0
    requires !(ascii && ch < 0x80) && j < |t.charset| && t.charset[j].to == ch && t.charset[j].from < 0x8000_0000
    requires LiesAt(mem, pos, CodeBytes(t.charset[j].from)) && pos + |CodeBytes(t.charset[j].from)| <= end
    ensures Usable(Coded(Some(t), ascii, linear))
    ensures Getc(Coded(Some(t), ascii, linear), mem, pos, end) == (ch, pos + |CodeBytes(t.charset[j].from)|)
  {
    hide Lookup, LiesAt, Getc, Sound, Truthful, PrefixFree, SingleBytes, CodeBytes, Usable;
    TruthfulIsUsable(t, ascii, linear);
    if linear {
      SingleByteCode(t, ascii, j);
      LinearCodeGot(t, ascii, mem, pos, end, ch, j);
    } else {
      ShortestCodeGot(t, ascii, mem, pos, end, ch, j);
    }
  }

  lemma EmitsEntry(t: Table, ascii: bool, linear: bool, other: Char -> Patch, ch: Char) returns (j: nat)
    requires Sound(t) && Has(t, ascii, ch) && !(ascii && ch < 0x80)
    ensures j < |t.charset| && t.charset[j].to == ch > 0 && t.charset[j].from < 0x8000_0000
    ensures Stores(Coded(Some(t), ascii, linear), other, ch) == Plain(CodeBytes(t.charset[j].from))
  {
    hide CodeBytes, Stores;
    j := EntryOf(t, ch);
    EmitsCode(t, ascii, linear, other, ch, t.charset[j].from);
  }

  /** A character that goes through the table, when nothing it writes can be taken for another code. */
  lemma CodeReads(t: Table, ascii: bool, linear: bool, other: Char -> Patch, ch: Char)
    requires Sound(t) && Truthful(t, ascii, linear) && Has(t, ascii, ch) && !(ascii && ch < 0x80)
    requires Decodable(t.charset, ascii, linear)
    ensures Usable(Coded(Some(t), ascii, linear)) && Reads(Coded(Some(t), ascii, linear), other, ch)
  {
    hide Lookup, LiesAt, Getc, Sound, Truthful, CodeBytes, Stores, Usable, Decodable, Has;
    var j := EmitsEntry(t, ascii, linear, other, ch);
    TruthfulIsUsable(t, ascii, linear);
    var bytes := CodeBytes(t.charset[j].from);
    forall mem, pos: nat, end: nat | LiesAt(mem, pos, bytes) && pos + |bytes| <= end
      ensures Getc(Coded(Some(t), ascii, linear), mem, pos, end) == (ch, pos + |bytes|)
    {
      CodeGot(t, ascii, linear, mem, pos, end, ch, j);
    }
  }
}
