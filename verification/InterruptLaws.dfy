/** Decoding UTF-8 in two calls, line ends included: where the bytes after the first call's are already in memory, and
    where they are not. */
module InterruptLaws {
  import opened Bytes
  import opened Wrappers
  import opened Utf8
  import opened Convert
  import opened TextLaws
  import opened SplitLaws

  // ----- all the bytes in memory

  /** With an earlier end a character is read as before, or is missing. */
  lemma GetcInterrupted(e: Encoding, mem: seq<Byte>, scan: nat, cut: nat, end: nat)
    requires !e.Coded? && scan <= cut <= end
    ensures var (c, next) := Getc(e, mem, scan, cut);
            Getc(e, mem, scan, cut) == Getc(e, mem, scan, end) || (c < 0 && next == scan)
    ensures scan < cut ==> var (c, next) := Getc(e, mem, scan, cut); c >= 0 || (c == -2 && next == scan)
  {
    hide At;
  }

  lemma RoundInterrupted(e: Encoding, crlf: bool, mem: seq<Byte>, scan: nat, cut: nat, end: nat)
    requires !e.Coded? && scan < cut <= end
    ensures DecodeRound(e, crlf, mem, scan, cut) in {DecodeRound(e, crlf, mem, scan, end), Stop(scan, None)}
    ensures DecodeRound(e, crlf, mem, scan, cut).Stop? ==> DecodeRound(e, crlf, mem, scan, cut) == Stop(scan, None)
  {
    hide Getc;
    GetcInterrupted(e, mem, scan, cut, end);
    GetcBounds(e, mem, scan, cut);
    GetcBounds(e, mem, scan, end);
    var (c, next) := Getc(e, mem, scan, cut);
    GetcInterrupted(e, mem, next, cut, end);
    GetcBounds(e, mem, next, cut);
    GetcBounds(e, mem, next, end);
  }

  lemma ExtendByNothing(r: Result)
    ensures Extend([], 0, r) == r
  {
  }

  lemma ExtendMore(chars: seq<Char>, first: Result, second: Result)
    requires first.ret >= 0
    ensures Extend(chars, 1, Extend(first.chars, first.ret, second))
            == Extend(Extend(chars, 1, first).chars, Extend(chars, 1, first).ret, second)
  {
    assert chars + (first.chars + second.chars) == chars + first.chars + second.chars;
  }

  /** Any bytes, well-formed or not, with line ends or without: the call may be given any earlier end, and a second
      call that goes on from where it stopped completes what a single call would have done. */
  lemma {:induction false} Interrupted(e: Encoding, crlf: bool, mem: seq<Byte>, scan: nat, cut: nat, end: nat)
    requires !e.Coded? && cut <= end
    ensures var first := Decode(e, crlf, mem, scan, cut);
            && first.ret >= 0 && first.scan >= scan
            && Decode(e, crlf, mem, scan, end)
               == Extend(first.chars, first.ret, Decode(e, crlf, mem, first.scan, end))
    decreases cut - scan
  {
    hide DecodeRound, Decode, Extend;
    if scan >= cut {
      DecodeAtEnd(e, crlf, mem, scan, cut);
      ExtendByNothing(Decode(e, crlf, mem, scan, end));
    } else {
      RoundInterrupted(e, crlf, mem, scan, cut, end);
      var round := DecodeRound(e, crlf, mem, scan, cut);
      if round.Stop? {
        DecodeStopped(e, crlf, mem, scan, cut);
        ExtendByNothing(Decode(e, crlf, mem, scan, end));
      } else {
        DecodeGoesOn(e, crlf, mem, scan, cut);
        DecodeGoesOn(e, crlf, mem, scan, end);
        Interrupted(e, crlf, mem, round.next, cut, end);
        var rest := Decode(e, crlf, mem, round.next, cut);
        ExtendMore(round.chars, rest, Decode(e, crlf, mem, rest.scan, end));
        ExtendIs(round.chars, rest);
      }
    }
  }

  lemma ExtendIs(chars: seq<Char>, r: Result)
    requires r.ret >= 0
    ensures Extend(chars, 1, r) == Result(chars + r.chars, r.scan, 1 + r.ret)
  {
  }

  lemma DecodeStopped(e: Encoding, crlf: bool, mem: seq<Byte>, scan: nat, end: nat)
    requires Usable(e) && scan < end && DecodeRound(e, crlf, mem, scan, end) == Stop(scan, None)
    ensures Decode(e, crlf, mem, scan, end) == Result([], scan, 0)
  {
  }

  /** Calls one after another up to each of the `ends`, each from where the one before it stopped. */
  function InParts(e: Encoding, crlf: bool, mem: seq<Byte>, scan: nat, ends: seq<nat>): Result
    requires Usable(e)
    decreases |ends|
  {
    if ends == [] then Result([], scan, 0)
    else
      var first := Decode(e, crlf, mem, scan, ends[0]);
      if first.ret < 0 || first.scan < scan then first
      else Extend(first.chars, first.ret, InParts(e, crlf, mem, first.scan, ends[1..]))
  }

  /** Any number of interruptions, anywhere, come to what a single call does. */
  lemma {:induction false} InterruptedOften(e: Encoding, crlf: bool, mem: seq<Byte>, scan: nat, ends: seq<nat>)
    requires !e.Coded? && ends != [] && forall i :: 0 <= i < |ends| ==> ends[i] <= ends[|ends| - 1]
    ensures InParts(e, crlf, mem, scan, ends) == Decode(e, crlf, mem, scan, ends[|ends| - 1])
    decreases |ends|
  {
    hide Decode;
    var end := ends[|ends| - 1];
    var first := Decode(e, crlf, mem, scan, ends[0]);
    Interrupted(e, crlf, mem, scan, ends[0], end);
    if |ends| == 1 {
      assert first.chars + [] == first.chars;
    } else {
      InterruptedOften(e, crlf, mem, first.scan, ends[1..]);
    }
  }

  // ----- only the first bytes in memory

  /** The text ends in an odd number of '\r's. */
  predicate OddReturns(chars: seq<Char>) {
    chars != [] && chars[|chars| - 1] == 13 && !OddReturns(chars[..|chars| - 1])
  }

  /** The cut is between two characters, and the last before it is a '\r' that waits for the next. */
  predicate CutAtReturn(chars: seq<Char>, cut: int) {
    var k := WholeChars(chars, cut);
    k < |chars| && |EncodeAll(chars[..k])| == cut && OddReturns(chars[..k])
  }

  lemma {:induction false} OddReturnsAfter(a: seq<Char>, t: seq<Char>)
    requires !OddReturns(a)
    ensures OddReturns(a + t) <==> OddReturns(t)
    decreases |t|
  {
    if t == [] {
      assert a + t == a;
    } else {
      var n := |t| - 1;
      assert (a + t)[..|a + t| - 1] == a + t[..n];
      OddReturnsAfter(a, t[..n]);
    }
  }

  lemma OddReturnsOfTwo(a: Char, b: Char)
    ensures OddReturns([a]) <==> a == 13
    ensures !OddReturns([13, b])
  {
    assert [a][..0] == [] && [13][..0] == [] && [13, b][..1] == [13];
    assert !OddReturns([]);
    assert OddReturns([13]);
  }

  lemma WholeNext(chars: seq<Char>, cut: int)
    requires chars != [] && SizeOf(chars[0]) <= cut
    ensures var k := WholeChars(chars, cut);
            && k == 1 + WholeChars(chars[1..], cut - SizeOf(chars[0]))
            && chars[..k] == [chars[0]] + chars[1..][..k - 1]
            && |EncodeAll(chars[..k])| == SizeOf(chars[0]) + |EncodeAll(chars[1..][..k - 1])|
  {
    var k := WholeChars(chars, cut);
    assert chars[..k][1..] == chars[1..][..k - 1];
  }

  lemma CutAfterChar(chars: seq<Char>, cut: int)
    requires chars != [] && SizeOf(chars[0]) <= cut && chars[0] != 13
    ensures CutAtReturn(chars, cut) <==> CutAtReturn(chars[1..], cut - SizeOf(chars[0]))
  {
    hide SizeOf, EncodeAll, OddReturns, WholeChars;
    WholeNext(chars, cut);
    OddReturnsOfTwo(chars[0], 0);
    OddReturnsAfter([chars[0]], chars[..WholeChars(chars, cut)][1..]);
  }

  lemma CutAfterPair(chars: seq<Char>, cut: int)
    requires |chars| >= 2 && chars[0] == 13 && 1 + SizeOf(chars[1]) <= cut
    ensures CutAtReturn(chars, cut) <==> CutAtReturn(chars[2..], cut - 1 - SizeOf(chars[1]))
  {
    hide EncodeAll, OddReturns, WholeChars;
    WholeNext(chars, cut);
    WholeNext(chars[1..], cut - 1);
    hide SizeOf;
    assert chars[1..][1..] == chars[2..];
    var k := WholeChars(chars, cut);
    OddReturnsOfTwo(chars[1], chars[1]);
    assert chars[..k] == [13, chars[1]] + chars[2..][..k - 2];
    OddReturnsAfter([13, chars[1]], chars[2..][..k - 2]);
  }

  lemma CutAtFirstReturn(chars: seq<Char>)
    requires chars != [] && chars[0] == 13
    ensures CutAtReturn(chars, 1) <==> |chars| >= 2
  {
    WholeNext(chars, 1);
    assert WholeChars(chars[1..], 0) == 0;
    assert chars[..1] == [13];
    OddReturnsOfTwo(13, 13);
    assert EncodeAll([13]) == Encode(13) + [];
  }

  // a character does not depend on the bytes from the cut on

  lemma {:induction false} ContinueSame(mem: seq<Byte>, cut: nat, scan: nat, ch: nat, n: nat)
    requires scan + n <= cut <= |mem|
    ensures Continue(mem[..cut], scan, ch, n) == Continue(mem, scan, ch, n)
    decreases n
  {
    if n > 0 {
      ContinueSame(mem, cut, scan + 1, ch * 64 + At(mem, scan) % 64, n - 1);
    }
  }

  lemma ValidSame(mem: seq<Byte>, cut: nat, scan: nat)
    requires scan < cut <= |mem| && scan + SizeOfLead(At(mem, scan)) <= cut
    ensures At(mem[..cut], scan) == At(mem, scan) && (ValidPtr(mem[..cut], scan) <==> ValidPtr(mem, scan))
  {
    forall i | 1 <= i < SizeOfLead(At(mem, scan)) ensures Follows(mem[..cut], scan, i) <==> Follows(mem, scan, i) {
    }
  }

  lemma GetcSame(e: Encoding, mem: seq<Byte>, cut: nat, scan: nat)
    requires !e.Coded? && scan < cut <= |mem|
    ensures Getc(e, mem[..cut], scan, cut) == Getc(e, mem, scan, cut)
  {
    var b := At(mem, scan);
    var size := SizeOfLead(b);
    if size <= cut - scan {
      ValidSame(mem, cut, scan);
      if size > 0 {
        ContinueSame(mem, cut, scan + 1, LeadBits(b, size), size - 1);
      }
    }
    hide ValidPtr, Continue;
  }

  // ----- the two calls

  lemma RoundSame(e: Encoding, mem: seq<Byte>, cut: nat, pos: nat)
    requires !e.Coded? && pos < cut <= |mem| && (Getc(e, mem, pos, cut).0 == 13 ==> Getc(e, mem, pos, cut).1 < cut)
    ensures DecodeRound(e, true, mem[..cut], pos, cut) == DecodeRound(e, true, mem, pos, cut)
  {
    hide Getc;
    GetcBounds(e, mem, pos, cut);
    GetcSame(e, mem, cut, pos);
    if Getc(e, mem, pos, cut).0 == 13 {
      GetcSame(e, mem, cut, Getc(e, mem, pos, cut).1);
    }
  }

  /** The round at a character of the text: it ends the call, or goes on to the next character or to the one after. */
  lemma RoundInText(e: Encoding, mem: seq<Byte>, pos: nat, end: nat, chars: seq<Char>)
    requires !e.Coded? && pos < end <= |mem| && chars != [] && LiesAt(mem, pos, EncodeAll(chars))
    ensures var ch, round := chars[0], DecodeRound(e, true, mem, pos, end);
            if SizeOf(ch) > end - pos then round == Stop(pos, None)
            else Getc(e, mem, pos, end) == (ch, pos + SizeOf(ch))
                 && (ch != 13 ==> round == Put([ch], pos + SizeOf(ch)))
    ensures |chars| >= 2 && chars[0] == 13 && pos + 1 < end ==>
              DecodeRound(e, true, mem, pos, end)
              == if SizeOf(chars[1]) > end - pos - 1 then Stop(pos, None)
                 else Put(if chars[1] == 10 then [10] else [13, chars[1]], pos + 1 + SizeOf(chars[1]))
  {
    hide Getc, EncodeAll, SizeOf, LiesAt;
    CharInText(e, mem, pos, end, chars);
    ReturnIsOne();
    if |chars| >= 2 && chars[0] == 13 && pos + 1 < end {
      CharInText(e, mem, pos + 1, end, chars[1..]);
    }
  }

  lemma ReturnIsOne()
    ensures SizeOf(13) == 1
  {
  }

  lemma CharAt(e: Encoding, mem: seq<Byte>, pos: nat, end: nat, ch: Char)
    requires !e.Coded? && pos < end <= |mem| && LiesAt(mem, pos, Encode(ch))
    ensures SizeOf(ch) > end - pos ==> Getc(e, mem, pos, end) == (-2, pos)
    ensures SizeOf(ch) <= end - pos ==> Getc(e, mem, pos, end) == (ch, pos + SizeOf(ch))
  {
    if SizeOf(ch) > end - pos {
      LiesFirst(mem, pos, Encode(ch));
      hide *;
      GetcAtPart(e, mem, pos, end, ch);
    } else {
      hide *;
      GetcAtEncode(e, mem, pos, end, ch);
    }
  }

  lemma CharInText(e: Encoding, mem: seq<Byte>, pos: nat, end: nat, chars: seq<Char>)
    requires !e.Coded? && pos < end <= |mem| && chars != [] && LiesAt(mem, pos, EncodeAll(chars))
    ensures SizeOf(chars[0]) > 0 && LiesAt(mem, pos + SizeOf(chars[0]), EncodeAll(chars[1..]))
    ensures SizeOf(chars[0]) > end - pos ==> Getc(e, mem, pos, end) == (-2, pos)
    ensures SizeOf(chars[0]) <= end - pos ==> Getc(e, mem, pos, end) == (chars[0], pos + SizeOf(chars[0]))
  {
    hide *;
    FirstLies(mem, pos, chars);
    CharAt(e, mem, pos, end, chars[0]);
  }

  lemma FirstLies(mem: seq<Byte>, pos: nat, chars: seq<Char>)
    requires chars != [] && LiesAt(mem, pos, EncodeAll(chars))
    ensures var ch := chars[0];
            && SizeOf(ch) > 0 && LiesAt(mem, pos, Encode(ch)) && pos < |mem| && mem[pos] == Encode(ch)[0]
            && LiesAt(mem, pos + SizeOf(ch), EncodeAll(chars[1..]))
  {
    SizePositive(chars[0]);
    hide Encode, LiesAt, SizeOf;
    LiesAtParts(mem, pos, Encode(chars[0]), EncodeAll(chars[1..]));
    LiesFirst(mem, pos, Encode(chars[0]));
  }

  /** Otherwise a call does not depend on the bytes from its end on. */
  lemma {:induction false} PieceSame(e: Encoding, mem: seq<Byte>, cut: nat, pos: nat, chars: seq<Char>)
    requires !e.Coded? && pos <= cut < |mem| == pos + |EncodeAll(chars)| && LiesAt(mem, pos, EncodeAll(chars))
    requires !CutAtReturn(chars, cut - pos)
    ensures Decode(e, true, mem[..cut], pos, cut) == Decode(e, true, mem, pos, cut)
    decreases |chars|
  {
    hide Getc, Encode, SizeOf, Decode, DecodeRound, CutAtReturn, LiesAt;
    if pos == cut {
      DecodeAtEnd(e, true, mem, pos, cut);
      DecodeAtEnd(e, true, mem[..cut], pos, cut);
    } else {
      var ch, rest := chars[0], chars[1..];
      CharInText(e, mem, pos, cut, chars);
      RoundInText(e, mem, pos, cut, chars);
      ReturnIsOne();
      if ch == 13 && pos + 1 == cut {
        CutAtFirstReturn(chars);
      }
      RoundSame(e, mem, cut, pos);
      var round := DecodeRound(e, true, mem, pos, cut);
      if round.Stop? {
        DecodeStopped(e, true, mem, pos, cut);
        DecodeStopped(e, true, mem[..cut], pos, cut);
      } else {
        DecodeGoesOn(e, true, mem, pos, cut);
        DecodeGoesOn(e, true, mem[..cut], pos, cut);
        if ch == 13 {
          CharInText(e, mem, pos + 1, cut, rest);
          CutAfterPair(chars, cut - pos);
          PieceSame(e, mem, cut, round.next, chars[2..]);
        } else {
          CutAfterChar(chars, cut - pos);
          PieceSame(e, mem, cut, round.next, rest);
        }
      }
    }
  }

  lemma ExtendCancels(chars: seq<Char>, a: Result, b: Result)
    requires a.ret >= 0 && b.ret >= 0
    ensures Extend(chars, 1, a) == Extend(chars, 1, b) <==> a == b
  {
    assert (chars + a.chars)[|chars|..] == a.chars && (chars + b.chars)[|chars|..] == b.chars;
  }

  /** What the two calls give together. */
  function Together(e: Encoding, mem: seq<Byte>, cut: nat, pos: nat): Result
    requires !e.Coded? && cut <= |mem|
  {
    Interrupted(e, true, mem[..cut], pos, cut, cut);
    var first := Decode(e, true, mem[..cut], pos, cut);
    Extend(first.chars, first.ret, Decode(e, true, mem, first.scan, |mem|))
  }

  lemma TogetherGoesOn(e: Encoding, mem: seq<Byte>, cut: nat, pos: nat)
    requires !e.Coded? && pos < cut <= |mem| && DecodeRound(e, true, mem[..cut], pos, cut).Put?
    ensures var round := DecodeRound(e, true, mem[..cut], pos, cut);
            Together(e, mem, cut, pos) == Extend(round.chars, 1, Together(e, mem, cut, round.next))
            && Together(e, mem, cut, round.next).ret >= 0
  {
    hide DecodeRound, Decode, Extend;
    var round := DecodeRound(e, true, mem[..cut], pos, cut);
    DecodeGoesOn(e, true, mem[..cut], pos, cut);
    Interrupted(e, true, mem[..cut], round.next, cut, cut);
    var rest := Decode(e, true, mem[..cut], round.next, cut);
    ExtendMore(round.chars, rest, Decode(e, true, mem, rest.scan, |mem|));
    ExtendIs(round.chars, rest);
    Interrupted(e, true, mem, rest.scan, |mem|, |mem|);
    RetAdds(rest.chars, rest.ret, Decode(e, true, mem, rest.scan, |mem|));
  }

  lemma RetAdds(chars: seq<Char>, n: nat, r: Result)
    requires r.ret >= 0
    ensures Extend(chars, n, r) == Result(chars + r.chars, r.scan, n + r.ret)
  {
  }

  lemma CutAfterStart(chars: seq<Char>, cut: int)
    requires CutAtReturn(chars, cut)
    ensures chars != [] && 0 < SizeOf(chars[0]) <= cut
    ensures chars[0] == 13 && cut > 1 ==> |chars| >= 2 && 1 + SizeOf(chars[1]) <= cut
    ensures chars[0] == 13 && cut == 1 ==> |chars| >= 2
  {
    var k := WholeChars(chars, cut);
    assert chars[..0] == [];
    if k > 0 {
      SizePositive(chars[0]);
      WholeNext(chars, cut);
      if k == 1 {
        assert chars[1..][..0] == [];
      }
    }
  }

  /** The first call takes '\r' and the NUL after its bytes. */
  lemma ReturnAlone(e: Encoding, mem: seq<Byte>, pos: nat, chars: seq<Char>)
    requires !e.Coded? && |chars| >= 2 && chars[0] == 13 && LiesAt(mem, pos, EncodeAll(chars)) && pos + 1 <= |mem|
    ensures Together(e, mem, pos + 1, pos) == Extend([13, 0], 1, Decode(e, true, mem, pos + 2, |mem|))
  {
    var piece, cut := mem[..pos + 1], pos + 1;
    ReturnIsOne();
    CharInText(e, mem, pos, cut, chars);
    GetcSame(e, mem, cut, pos);
    assert Getc(e, piece, cut, cut) == (0, cut + 1);
    hide Getc, EncodeAll, SizeOf, LiesAt;
    assert DecodeRound(e, true, piece, pos, cut) == Put([13, 0], cut + 1);
    hide Decode, DecodeRound;
    TogetherGoesOn(e, mem, cut, pos);
    DecodeAtEnd(e, true, piece, cut + 1, cut);
    ExtendByNothing(Decode(e, true, mem, cut + 1, |mem|));
  }

  /** In the middle of a NUL of the text. */
  lemma SecondHalfOfNul(e: Encoding, mem: seq<Byte>, pos: nat)
    requires !e.Coded? && pos < |mem| && mem[pos] == 0x80
    ensures var round := DecodeRound(e, true, mem, pos, |mem|);
            round.Put? && |round.chars| == 1 && round.next == pos + 1
  {
  }

  lemma NulDiffers(e: Encoding, mem: seq<Byte>, pos: nat)
    requires !e.Coded? && LiesAt(mem, pos, Encode(0))
    ensures SizeOf(0) == 2
    ensures Extend([13, 0], 1, Decode(e, true, mem, pos + 1, |mem|))
            != Extend([13, 0], 1, Decode(e, true, mem, pos + 2, |mem|))
  {
    NulHalves(mem, pos);
    SecondHalfOfNul(e, mem, pos + 1);
    hide DecodeRound, Decode, LiesAt, Encode;
    DecodeGoesOn(e, true, mem, pos + 1, |mem|);
    OneMore([13, 0], DecodeRound(e, true, mem, pos + 1, |mem|).chars, Decode(e, true, mem, pos + 2, |mem|));
  }

  /** A call that has all the bytes takes the next character with it. */
  lemma ReturnWithNext(e: Encoding, mem: seq<Byte>, pos: nat, chars: seq<Char>)
    requires !e.Coded? && |chars| >= 2 && chars[0] == 13 && LiesAt(mem, pos, EncodeAll(chars))
    ensures var next := chars[1];
            && pos + 1 + SizeOf(next) <= |mem| && SizeOf(next) > 0 && LiesAt(mem, pos + 1, Encode(next))
            && Decode(e, true, mem, pos, |mem|)
               == Extend(if next == 10 then [10] else [13, next], 1,
                         Decode(e, true, mem, pos + 1 + SizeOf(next), |mem|))
  {
    assert Usable(e);
    hide *;
    NextLies(mem, pos, chars);
    RoundInText(e, mem, pos, |mem|, chars);
    DecodeGoesOn(e, true, mem, pos, |mem|);
  }

  lemma NextLies(mem: seq<Byte>, pos: nat, chars: seq<Char>)
    requires |chars| >= 2 && chars[0] == 13 && LiesAt(mem, pos, EncodeAll(chars))
    ensures var next := chars[1];
            pos + 1 + SizeOf(next) <= |mem| && SizeOf(next) > 0 && LiesAt(mem, pos + 1, Encode(next))
  {
    hide *;
    ReturnIsOne();
    FirstLies(mem, pos, chars);
    FirstLies(mem, pos + 1, chars[1..]);
    LiesInside(mem, pos + 1, Encode(chars[1]));
  }

  lemma ReturnDiffers(e: Encoding, mem: seq<Byte>, pos: nat, chars: seq<Char>)
    requires !e.Coded? && |chars| >= 2 && chars[0] == 13 && LiesAt(mem, pos, EncodeAll(chars))
    ensures pos + 1 < |mem| && Together(e, mem, pos + 1, pos) != Decode(e, true, mem, pos, |mem|)
  {
    assert Usable(e);
    hide *;
    var next := chars[1];
    ReturnWithNext(e, mem, pos, chars);
    ReturnAlone(e, mem, pos, chars);
    if next == 0 {
      NulDiffers(e, mem, pos + 1);
    } else {
      OtherChars(next, Decode(e, true, mem, pos + 2, |mem|), Decode(e, true, mem, pos + 1 + SizeOf(next), |mem|));
    }
  }

  lemma LiesInside(mem: seq<Byte>, pos: nat, bytes: seq<Byte>)
    requires LiesAt(mem, pos, bytes)
    ensures pos + |bytes| <= |mem|
  {
  }

  lemma OneMore(chars: seq<Char>, x: seq<Char>, r: Result)
    requires |x| == 1
    ensures Extend(chars, 1, Extend(x, 1, r)) != Extend(chars, 1, r)
  {
    assert |Extend(chars, 1, Extend(x, 1, r)).chars| == |Extend(chars, 1, r).chars| + 1;
  }

  lemma OtherChars(next: Char, r: Result, s: Result)
    requires next != 0
    ensures Extend([13, 0], 1, r) != Extend(if next == 10 then [10] else [13, next], 1, s)
  {
    assert ([13, 0] + r.chars)[1] == 0 && ([13, 0] + r.chars)[0] == 13;
    if next != 10 {
      assert ([13, next] + s.chars)[1] == next;
    } else {
      assert ([10] + s.chars)[0] == 10;
    }
  }

  lemma NulHalves(mem: seq<Byte>, pos: nat)
    requires LiesAt(mem, pos, Encode(0))
    ensures pos + 2 <= |mem| && mem[pos + 1] == 0x80 && SizeOf(0) == 2
  {
    assert Encode(0) == [0xC0, 0x80];
    assert mem[pos..pos + 2][1] == mem[pos + 1];
  }

  /** With a '\r' just before the cut the first call takes the NUL after its bytes for the next character, and the two
      calls give something else than a single call. */
  lemma {:induction false} PieceDiffers(e: Encoding, mem: seq<Byte>, cut: nat, pos: nat, chars: seq<Char>)
    requires !e.Coded? && pos <= cut < |mem| == pos + |EncodeAll(chars)| && LiesAt(mem, pos, EncodeAll(chars))
    requires CutAtReturn(chars, cut - pos)
    ensures Together(e, mem, cut, pos) != Decode(e, true, mem, pos, |mem|)
    decreases |chars|
  {
    hide Getc, Encode, SizeOf, Decode, DecodeRound, CutAtReturn, LiesAt, Together, Extend;
    CutAfterStart(chars, cut - pos);
    var ch, rest := chars[0], chars[1..];
    CharInText(e, mem, pos, cut, chars);
    CharInText(e, mem, pos, |mem|, chars);
    ReturnIsOne();
    if ch == 13 && pos + 1 == cut {
      ReturnDiffers(e, mem, pos, chars);
    } else {
      RoundInText(e, mem, pos, cut, chars);
      RoundInText(e, mem, pos, |mem|, chars);
      RoundSame(e, mem, cut, pos);
      var round := DecodeRound(e, true, mem, pos, cut);
      var next := if ch == 13 then chars[2..] else rest;
      if ch == 13 {
        CharInText(e, mem, pos + 1, cut, rest);
        CutAfterPair(chars, cut - pos);
      } else {
        CutAfterChar(chars, cut - pos);
      }
      PieceDiffers(e, mem, cut, round.next, next);
      TogetherGoesOn(e, mem, cut, pos);
      DecodeGoesOn(e, true, mem, pos, |mem|);
      Interrupted(e, true, mem, round.next, |mem|, |mem|);
      ExtendCancels(round.chars, Together(e, mem, cut, round.next), Decode(e, true, mem, round.next, |mem|));
    }
  }

  /** A text that is decoded in two calls, of which the first has only the bytes before the cut in memory: with line
      ends the two give what a single call does exactly if the cut is not behind an odd number of '\r's with more text
      after it. */
  lemma CutWithLineEnds(e: Encoding, chars: seq<Char>, cut: nat)
    requires !e.Coded? && cut <= |EncodeAll(chars)|
    ensures var text := EncodeAll(chars);
            var first := Decode(e, true, text[..cut], 0, cut);
            var second := Decode(e, true, text, first.scan, |text|);
            Decode(e, true, text, 0, |text|) == Result(first.chars + second.chars, second.scan, first.ret + second.ret)
            <==> !CutAtReturn(chars, cut)
  {
    hide Decode, EncodeAll, CutAtReturn;
    var text := EncodeAll(chars);
    assert LiesAt(text, 0, text) by {
      assert text[0..0 + |text|] == text;
    }
    hide LiesAt;
    var first := Decode(e, true, text[..cut], 0, cut);
    Interrupted(e, true, text[..cut], 0, cut, cut);
    Interrupted(e, true, text, first.scan, |text|, |text|);
    RetAdds(first.chars, first.ret, Decode(e, true, text, first.scan, |text|));
    if cut == |text| {
      assert text[..cut] == text;
      NoCutAtEnd(chars);
      Interrupted(e, true, text, 0, cut, cut);
    } else if CutAtReturn(chars, cut) {
      PieceDiffers(e, text, cut, 0, chars);
    } else {
      PieceSame(e, text, cut, 0, chars);
      Interrupted(e, true, text, 0, cut, |text|);
    }
  }

  lemma NoCutAtEnd(chars: seq<Char>)
    ensures !CutAtReturn(chars, |EncodeAll(chars)|)
  {
    AllAreWhole(chars);
  }

  /** "\r\n" cut in two is read as '\r' and NUL. */
  lemma NewlineCut(e: Encoding)
    requires !e.Coded?
    ensures Decode(e, true, [13, 10], 0, 2) == Result([10], 2, 1)
    ensures Decode(e, true, [13, 10][..1], 0, 1) == Result([13, 0], 2, 1)
  {
    assert [13, 10][..1] == [13];
  }
}
