/** What is read where the bytes are not well-formed UTF-8, or are not UTF-8 at all. */
module MalformedLaws {
  import opened Bytes
  import opened Wrappers
  import opened Patches
  import opened Charset
  import opened Utf8
  import opened Convert
  import opened Localize
  import opened TextLaws

  // ----- UTF-8 itself

  /** What is written for a character, by its ranges: as in section 3 of RFC 3629 up to U+10FFFF, and in five and six
      bytes as in RFC 2279; NUL is written in two bytes. */
  lemma EncodeByRanges(ch: Char)
    ensures ch == 0 ==> Encode(ch) == [0xC0, 0x80]
    ensures 0 < ch < 0x80 ==> Encode(ch) == [ch]
    ensures 0x80 <= ch < 0x800 ==> Encode(ch) == [0xC0 + ch / 64, 0x80 + ch % 64]
    ensures 0x800 <= ch < 0x1_0000 ==> Encode(ch) == [0xE0 + ch / 0x1000, 0x80 + ch / 64 % 64, 0x80 + ch % 64]
    ensures 0x1_0000 <= ch < 0x20_0000 ==>
              Encode(ch) == [0xF0 + ch / 0x4_0000, 0x80 + ch / 0x1000 % 64, 0x80 + ch / 64 % 64, 0x80 + ch % 64]
    ensures 0x20_0000 <= ch < 0x400_0000 ==>
              Encode(ch) == [0xF8 + ch / 0x100_0000, 0x80 + ch / 0x4_0000 % 64, 0x80 + ch / 0x1000 % 64,
                             0x80 + ch / 64 % 64, 0x80 + ch % 64]
    ensures ch >= 0x400_0000 ==>
              Encode(ch) == [0xFC + ch / 0x4000_0000, 0x80 + ch / 0x100_0000 % 64, 0x80 + ch / 0x4_0000 % 64,
                             0x80 + ch / 0x1000 % 64, 0x80 + ch / 64 % 64, 0x80 + ch % 64]
  {
    assert Tail(ch, 0) == [];
    assert Tail(ch, 1) == [0x80 + ch % 64];
    assert Tail(ch, 2) == [0x80 + ch / 64 % 64] + Tail(ch, 1);
    assert Tail(ch, 3) == [0x80 + ch / 0x1000 % 64] + Tail(ch, 2);
    assert Tail(ch, 4) == [0x80 + ch / 0x4_0000 % 64] + Tail(ch, 3);
    assert Tail(ch, 5) == [0x80 + ch / 0x100_0000 % 64] + Tail(ch, 4);
  }

  /** A byte that can follow a lead byte. */
  predicate Trails(b: Byte) {
    0x80 <= b < 0xC0
  }

  /** After the lead byte at `scan` come `i` bytes that can follow it, and then one that cannot. */
  ghost predicate BreaksOff(mem: seq<Byte>, scan: nat, i: nat) {
    (forall k :: scan < k <= scan + i ==> Trails(At(mem, k))) && !Trails(At(mem, scan + i + 1))
  }

  lemma {:induction false} ContinueBreaksOff(mem: seq<Byte>, scan: nat, ch: nat, n: nat, i: nat)
    requires i < n && (forall k :: scan <= k < scan + i ==> Trails(At(mem, k))) && !Trails(At(mem, scan + i))
    ensures Continue(mem, scan, ch, n) == (0xFFFD, scan + i)
    decreases i
  {
    hide At;
    if i > 0 {
      assert Trails(At(mem, scan));
      ContinueBreaksOff(mem, scan + 1, ch * 64 + At(mem, scan) % 64, n - 1, i - 1);
    }
  }

  /** The UTF-8 reader gives U+FFFD for a byte that begins nothing, and goes past it, and for a sequence that breaks
      off, and goes to where it does. */
  lemma ReadsMalformed(mem: seq<Byte>, scan: nat, lim: nat, i: nat)
    requires scan < lim
    ensures 0x80 <= At(mem, scan) < 0xC0 || At(mem, scan) >= 0xFE ==> Sgetc(mem, scan, lim) == (0xFFFD, scan + 1)
    ensures 0xC0 <= At(mem, scan) < 0xFE && BreaksOff(mem, scan, i) && i + 1 < SizeOfLead(At(mem, scan)) ==>
              Sgetc(mem, scan, lim) == (0xFFFD, scan + i + 1)
    ensures At(mem, scan) == 0 ==> Sgetc(mem, scan, lim) == (-1, scan)
  {
    var b := At(mem, scan);
    if 0xC0 <= b < 0xFE && BreaksOff(mem, scan, i) && i + 1 < SizeOfLead(b) {
      hide At;
      ContinueBreaksOff(mem, scan + 1, LeadBits(b, SizeOfLead(b)), SizeOfLead(b) - 1, i);
    }
  }

  /** It gives no character exactly at NUL and at the limit. */
  lemma ReadsNothing(mem: seq<Byte>, scan: nat, lim: nat)
    ensures Sgetc(mem, scan, lim).0 < 0 <==> At(mem, scan) == 0 || scan >= lim
    ensures Sgetc(mem, scan, lim).0 < 0 ==> Sgetc(mem, scan, lim) == (-1, scan)
  {
    hide At;
    SgetcBounds(mem, scan, lim);
  }

  // ----- bytes as Latin-1

  /** No encoding reads the byte at `i` as itself: it begins no sequence, or one of which all bytes are there and one is
      neither from 0x80 to 0xBF nor 0xC0, which is let through. */
  ghost predicate Latin1At(mem: seq<Byte>, i: nat, end: nat) {
    var size := SizeOfLead(At(mem, i));
    || At(mem, i) < 0x80
    || size < 0
    || (i + size <= end && exists k :: i < k < i + size && !(0x80 <= At(mem, k) <= 0xC0))
  }

  lemma ValidIs(mem: seq<Byte>, i: nat)
    requires At(mem, i) >= 0x80
    ensures ValidPtr(mem, i)
            <==> SizeOfLead(At(mem, i)) > 0
                 && forall k :: i < k < i + SizeOfLead(At(mem, i)) ==> 0x80 <= At(mem, k) <= 0xC0
  {
    var size := SizeOfLead(At(mem, i));
    hide At;
    if ValidPtr(mem, i) {
      forall k | i < k < i + size ensures 0x80 <= At(mem, k) <= 0xC0 {
        assert Follows(mem, i, k - i);
      }
    }
    if forall k :: i < k < i + size ==> 0x80 <= At(mem, k) <= 0xC0 {
      forall j | 1 <= j < size ensures Follows(mem, i, j) {
        assert 0x80 <= At(mem, i + j) <= 0xC0;
      }
    }
  }

  /** Without an encoding a byte is read as itself exactly where it is no UTF-8; elsewhere the reader goes further
      than one byte, or not at all. */
  lemma DefaultReads(mem: seq<Byte>, i: nat, end: nat)
    requires i < end
    ensures Latin1At(mem, i, end) ==> Getc(Default, mem, i, end) == (At(mem, i), i + 1)
    ensures !Latin1At(mem, i, end) && i + SizeOfLead(At(mem, i)) > end ==> Getc(Default, mem, i, end) == (-2, i)
    ensures !Latin1At(mem, i, end) && i + SizeOfLead(At(mem, i)) <= end ==>
              Getc(Default, mem, i, end) == Sgetc(mem, i, end) && ValidPtr(mem, i) && SizeOfLead(At(mem, i)) >= 2
  {
    hide At;
    if At(mem, i) >= 0x80 {
      ValidIs(mem, i);
    }
  }

  /** The encoding called utf8_encoding differs from none exactly there, from 0x80 on: it reads U+FFFD, and goes on to
      the byte that breaks the sequence off. */
  lemma Utf8Differs(mem: seq<Byte>, i: nat, end: nat)
    requires i < end
    ensures Getc(Utf8Encoding, mem, i, end) != Getc(Default, mem, i, end)
            <==> Latin1At(mem, i, end) && At(mem, i) >= 0x80
    ensures Latin1At(mem, i, end) && At(mem, i) >= 0x80 ==>
              Getc(Utf8Encoding, mem, i, end) == Sgetc(mem, i, end) && Sgetc(mem, i, end).0 == 0xFFFD
  {
    hide At;
    DefaultReads(mem, i, end);
    var b, size := At(mem, i), SizeOfLead(At(mem, i));
    if b >= 0x80 && size > 0 && Latin1At(mem, i, end) {
      var k :| i < k < i + size && !(0x80 <= At(mem, k) <= 0xC0);
      ContinueFails(mem, i + 1, LeadBits(b, size), size - 1, k);
    }
  }

  lemma {:induction false} ContinueFails(mem: seq<Byte>, scan: nat, ch: nat, n: nat, k: nat)
    requires scan <= k < scan + n && !Trails(At(mem, k))
    ensures Continue(mem, scan, ch, n).0 == 0xFFFD
    decreases n
  {
    hide At;
    if Trails(At(mem, scan)) {
      ContinueFails(mem, scan + 1, ch * 64 + At(mem, scan) % 64, n - 1, k);
    }
  }

  lemma ElsewhereNotItself(mem: seq<Byte>, i: nat, end: nat)
    requires i < end && !Latin1At(mem, i, end)
    ensures var (c, next) := Getc(Default, mem, i, end);
            c < 0 || next >= i + 2 || c != At(mem, i)
  {
    DefaultReads(mem, i, end);
    var size := SizeOfLead(At(mem, i));
    if i + size <= end {
      ContinueBounds(mem, i + 2, LeadBits(At(mem, i), size) * 64 + At(mem, i + 1) % 64, size - 2);
    }
  }

  /** Never more characters than bytes. */
  lemma {:induction false} DecodeCounts(e: Encoding, mem: seq<Byte>, scan: nat, end: nat)
    requires Usable(e) && scan <= end
    ensures |Decode(e, false, mem, scan, end).chars| <= end - scan
    decreases end - scan
  {
    hide Getc, Usable;
    if scan < end {
      GetcBounds(e, mem, scan, end);
      var round := DecodeRound(e, false, mem, scan, end);
      if round.Put? {
        DecodeCounts(e, mem, round.next, end);
      }
    }
  }

  /** All bytes from `scan` on, a character each. */
  ghost predicate ReadAsBytes(e: Encoding, mem: seq<Byte>, scan: nat)
    requires Usable(e) && scan <= |mem|
  {
    Decode(e, false, mem, scan, |mem|) == Result(mem[scan..], |mem|, |mem| - scan)
  }

  lemma BytesOn(e: Encoding, mem: seq<Byte>, scan: nat)
    requires Usable(e) && scan < |mem| && Getc(e, mem, scan, |mem|) == (mem[scan], scan + 1)
    ensures ReadAsBytes(e, mem, scan) <==> ReadAsBytes(e, mem, scan + 1)
  {
    hide Getc, Usable, Decode;
    assert DecodeRound(e, false, mem, scan, |mem|) == Put([mem[scan]], scan + 1);
    DecodeGoesOn(e, false, mem, scan, |mem|);
    var rest := Decode(e, false, mem, scan + 1, |mem|);
    assert mem[scan..] == [mem[scan]] + mem[scan + 1..];
    if ReadAsBytes(e, mem, scan) {
      assert ([mem[scan]] + rest.chars)[1..] == rest.chars && mem[scan..][1..] == mem[scan + 1..];
    }
  }

  lemma NoBytes(e: Encoding, mem: seq<Byte>)
    requires Usable(e)
    ensures ReadAsBytes(e, mem, |mem|)
  {
  }

  lemma DecodeStops(e: Encoding, mem: seq<Byte>, scan: nat, end: nat)
    requires Usable(e) && scan < end && DecodeRound(e, false, mem, scan, end).Stop?
    ensures Decode(e, false, mem, scan, end).chars == []
  {
  }

  lemma NotBytes(mem: seq<Byte>, scan: nat)
    requires scan < |mem| && !Latin1At(mem, scan, |mem|)
    ensures !ReadAsBytes(Default, mem, scan)
  {
    hide Getc, Latin1At, Decode;
    ElsewhereNotItself(mem, scan, |mem|);
    GetcBounds(Default, mem, scan, |mem|);
    var round := DecodeRound(Default, false, mem, scan, |mem|);
    if round.Stop? {
      DecodeStops(Default, mem, scan, |mem|);
    } else {
      DecodeCounts(Default, mem, round.next, |mem|);
      DecodeGoesOn(Default, false, mem, scan, |mem|);
      var c, rest := Getc(Default, mem, scan, |mem|).0, Decode(Default, false, mem, round.next, |mem|).chars;
      assert round.chars == [c];
      assert ([c] + rest)[0] == c && mem[scan..][0] == mem[scan];
    }
  }

  lemma {:induction false} Latin1Rest(mem: seq<Byte>, scan: nat)
    requires scan <= |mem|
    ensures ReadAsBytes(Default, mem, scan) <==> forall i :: scan <= i < |mem| ==> Latin1At(mem, i, |mem|)
    decreases |mem| - scan
  {
    hide Latin1At, Getc, ReadAsBytes;
    if scan == |mem| {
      NoBytes(Default, mem);
    } else if Latin1At(mem, scan, |mem|) {
      DefaultReads(mem, scan, |mem|);
      BytesOn(Default, mem, scan);
      Latin1Rest(mem, scan + 1);
    } else {
      NotBytes(mem, scan);
    }
  }

  /** Without an encoding a text is read byte for character, all its bytes consumed and counted, exactly if no byte of
      it begins what could be UTF-8. */
  lemma Latin1Text(mem: seq<Byte>)
    ensures Decode(Default, false, mem, 0, |mem|) == Result(mem, |mem|, |mem|)
            <==> forall i :: 0 <= i < |mem| ==> Latin1At(mem, i, |mem|)
  {
    hide Latin1At, Decode;
    Latin1Rest(mem, 0);
    assert mem[0..] == mem;
  }

  /** An encoding without a table reads every text so. */
  lemma {:induction false} PlainRest(e: Encoding, mem: seq<Byte>, scan: nat)
    requires e.Coded? && e.table.None? && scan <= |mem|
    ensures ReadAsBytes(e, mem, scan)
    decreases |mem| - scan
  {
    hide ReadAsBytes;
    if scan == |mem| {
      NoBytes(e, mem);
    } else {
      BytesOn(e, mem, scan);
      PlainRest(e, mem, scan + 1);
    }
  }

  lemma PlainText(e: Encoding, mem: seq<Byte>)
    requires e.Coded? && e.table.None?
    ensures Decode(e, false, mem, 0, |mem|) == Result(mem, |mem|, |mem|)
  {
    hide Decode;
    PlainRest(e, mem, 0);
    assert mem[0..] == mem;
  }

  // ----- the ASCII flag

  /** With both flags every text of bytes below 0x80 is read so, whatever the table has for them. */
  lemma {:induction false} AsciiRest(t: Table, mem: seq<Byte>, scan: nat)
    requires |t.charset| >= 256 && scan <= |mem| && forall i :: 0 <= i < |mem| ==> mem[i] < 0x80
    ensures ReadAsBytes(Coded(Some(t), true, true), mem, scan)
    decreases |mem| - scan
  {
    hide ReadAsBytes;
    var e := Coded(Some(t), true, true);
    if scan == |mem| {
      NoBytes(e, mem);
    } else {
      BytesOn(e, mem, scan);
      AsciiRest(t, mem, scan + 1);
    }
  }

  lemma AsciiText(t: Table, mem: seq<Byte>)
    requires |t.charset| >= 256 && forall i :: 0 <= i < |mem| ==> mem[i] < 0x80
    ensures Decode(Coded(Some(t), true, true), false, mem, 0, |mem|) == Result(mem, |mem|, |mem|)
  {
    hide Decode;
    AsciiRest(t, mem, 0);
    assert mem[0..] == mem;
  }

  /** And the flag stores them so, whatever the table and the conversion functions do. */
  lemma AsciiStored(e: Encoding, other: Char -> Patch, chars: seq<Char>)
    requires e.Coded? && e.ascii && forall i :: 0 <= i < |chars| ==> chars[i] < 0x80
    ensures Localized(e, other, false, chars) == Plain(chars)
  {
    hide Run, StoresAll, EncodeAll, RepresentsAll;
    RunOverText(e, other, false, chars);
    AsciiStores(e, other, chars);
  }

  lemma {:induction false} AsciiStores(e: Encoding, other: Char -> Patch, chars: seq<Char>)
    requires e.Coded? && e.ascii && forall i :: 0 <= i < |chars| ==> chars[i] < 0x80
    ensures StoresAll(e, other, chars) == Plain(chars)
  {
    hide Patch.Then;
    if chars != [] {
      AsciiStores(e, other, chars[1..]);
      ThenPlain([chars[0]], chars[1..]);
      assert [chars[0]] + chars[1..] == chars;
    }
  }

  // ----- bytes that a table does not have

  /** A byte without a code point in a linear table: an error, past the byte. */
  lemma LinearUnmapped(t: Table, ascii: bool, crlf: bool, mem: seq<Byte>, scan: nat, end: nat)
    requires |t.charset| >= 256 && scan < end && !(ascii && At(mem, scan) < 0x80)
    ensures !Mapped(t.charset[At(mem, scan)]) && Signed(t.charset[At(mem, scan)].to) != -2 ==>
              Decode(Coded(Some(t), ascii, true), crlf, mem, scan, end)
              == Result([], scan + 1, Signed(t.charset[At(mem, scan)].to))
    ensures Mapped(t.charset[At(mem, scan)]) ==>
              Getc(Coded(Some(t), ascii, true), mem, scan, end) == (t.charset[At(mem, scan)].to, scan + 1)
  {
  }

  /** Bytes of which none of the first four beginnings is a code that has a code point: an error, and the scanner
      stays. */
  lemma CodeUnknown(t: Table, ascii: bool, crlf: bool, mem: seq<Byte>, scan: nat, end: nat)
    requires scan < end && forall n :: 1 <= n <= 4 && scan + n <= end ==> Lookup(BigEndian(mem, scan, n), t.charset) < 0
    ensures Decode(Coded(Some(t), ascii, false), crlf, mem, scan, end) == Result([], scan, -1)
  {
    hide Lookup, At;
    var n := if end - scan > 4 then 4 else end - scan;
    TryCodesFail(t.charset, mem, scan, 0, n);
  }

  /** Bytes of which some of the first four beginnings is such a code: the shortest is taken. */
  lemma CodeKnown(t: Table, ascii: bool, mem: seq<Byte>, scan: nat, end: nat, n: nat)
    requires 1 <= n <= 4 && scan + n <= end && Lookup(BigEndian(mem, scan, n), t.charset) >= 0
    requires forall k :: 1 <= k < n ==> Lookup(BigEndian(mem, scan, k), t.charset) < 0
    ensures Getc(Coded(Some(t), ascii, false), mem, scan, end)
            == (Lookup(BigEndian(mem, scan, n), t.charset), scan + n)
  {
    hide Lookup, At;
    TryCodesFind(t.charset, mem, scan, 0, n, if end - scan > 4 then 4 else end - scan);
  }

  lemma {:induction false} TryCodesFind(s: seq<Entry>, mem: seq<Byte>, scan: nat, i: nat, n: nat, most: nat)
    requires i < n <= most <= 4 && Lookup(BigEndian(mem, scan, n), s) >= 0
    requires forall k :: i < k < n ==> Lookup(BigEndian(mem, scan, k), s) < 0
    ensures TryCodes(s, mem, scan, BigEndian(mem, scan, i), i, most) == (Lookup(BigEndian(mem, scan, n), s), n)
    decreases n - i
  {
    hide Lookup, At;
    assert BigEndian(mem, scan, i + 1) == BigEndian(mem, scan, i) * 0x100 + At(mem, scan + i);
    if i + 1 < n {
      TryCodesFind(s, mem, scan, i + 1, n, most);
    }
  }

  /** `n` bytes as a number. */
  function BigEndian(mem: seq<Byte>, scan: nat, n: nat): (code: U32)
    requires n <= 4
    ensures code < if n == 0 then 1 else if n == 1 then 0x100 else if n == 2 then 0x1_0000
                   else if n == 3 then 0x100_0000 else 0x1_0000_0000
  {
    if n == 0 then 0 else BigEndian(mem, scan, n - 1) * 0x100 + At(mem, scan + n - 1)
  }

  lemma {:induction false} TryCodesFail(s: seq<Entry>, mem: seq<Byte>, scan: nat, i: nat, n: nat)
    requires i <= n <= 4 && forall k :: i < k <= n ==> Lookup(BigEndian(mem, scan, k), s) < 0
    ensures TryCodes(s, mem, scan, BigEndian(mem, scan, i), i, n) == (-1, -1)
    decreases n - i
  {
    hide Lookup, At;
    if i < n {
      assert BigEndian(mem, scan, i + 1) == BigEndian(mem, scan, i) * 0x100 + At(mem, scan + i);
      assert Lookup(BigEndian(mem, scan, i + 1), s) < 0;
      TryCodesFail(s, mem, scan, i + 1, n);
    }
  }

  /** A '\r' with something after it that cannot be read: with line ends the call stops before the '\r' and reports no
      error, without them it takes the '\r' and reports what is wrong. */
  lemma UnreadableAfterReturn(e: Encoding, mem: seq<Byte>, scan: nat, end: nat)
    requires Usable(e) && scan < end && Getc(e, mem, scan, end).0 == 13 && Getc(e, mem, scan, end).1 < end
    requires Getc(e, mem, Getc(e, mem, scan, end).1, end).0 < 0
    ensures Decode(e, true, mem, scan, end) == Result([], scan, 0)
    ensures var (c, next) := Getc(e, mem, Getc(e, mem, scan, end).1, end);
            Decode(e, false, mem, scan, end) == Result([13], next, if c == -2 then 1 else c)
  {
    hide Getc, Usable;
    GetcBounds(e, mem, scan, end);
    var next := Getc(e, mem, scan, end).1;
    DecodeGoesOn(e, false, mem, scan, end);
    assert Decode(e, false, mem, next, end).chars == [];
  }
}
