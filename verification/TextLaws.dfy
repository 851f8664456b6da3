/** What encoding a text and decoding it again gives, for any encoding; which characters an encoding reads back is the
    subject of CharacterLaws. */
module TextLaws {
  import opened Bytes
  import opened Patches
  import opened Utf8
  import opened Convert
  import opened Localize

  // ----- the output of u8_localize on a text

  /** What is stored for a character that was written by u8_putc. */
  function Stores(e: Encoding, other: Char -> Patch, ch: Char): Patch {
    Emit(e, other, ch, Encode(ch))
  }

  function StoresAll(e: Encoding, other: Char -> Patch, chars: seq<Char>): Patch {
    if chars == [] then NOTHING else Stores(e, other, chars[0]).Then(StoresAll(e, other, chars[1..]))
  }

  /** The conversion of the character does not fail. */
  predicate Represents(e: Encoding, other: Char -> Patch, ch: Char) {
    Stores(e, other, ch).back == 0
  }

  predicate RepresentsAll(e: Encoding, other: Char -> Patch, chars: seq<Char>) {
    forall i :: 0 <= i < |chars| ==> Represents(e, other, chars[i])
  }

  /** The bytes of a character. */
  function EmitChar(e: Encoding, other: Char -> Patch, ch: Char): seq<Byte> {
    Stores(e, other, ch).bytes
  }

  function EmitAll(e: Encoding, other: Char -> Patch, chars: seq<Char>): seq<Byte> {
    if chars == [] then [] else EmitChar(e, other, chars[0]) + EmitAll(e, other, chars[1..])
  }

  /** Characters that can be converted are stored one after another. */
  lemma {:induction false} StoresPlain(e: Encoding, other: Char -> Patch, chars: seq<Char>)
    requires RepresentsAll(e, other, chars)
    ensures StoresAll(e, other, chars) == Plain(EmitAll(e, other, chars))
  {
    hide Stores, Patch.Then;
    if chars != [] {
      StoresPlain(e, other, chars[1..]);
      ThenPlain(EmitChar(e, other, chars[0]), EmitAll(e, other, chars[1..]));
      assert Represents(e, other, chars[0]);
    }
  }

  /** Every newline as '\r' and '\n'. */
  function LineEnds(chars: seq<Char>): seq<Char> {
    if chars == [] then []
    else (if chars[0] == 10 then [13, 10] else [chars[0]]) + LineEnds(chars[1..])
  }

  lemma CopyIsSlice(mem: seq<Byte>, pos: nat, bytes: seq<Byte>)
    requires LiesAt(mem, pos, bytes)
    ensures Copy(mem, pos, |bytes|) == bytes
  {
    forall i | 0 <= i < |bytes| ensures Copy(mem, pos, |bytes|)[i] == bytes[i] {
      assert mem[pos..pos + |bytes|][i] == mem[pos + i];
    }
  }

  lemma AsciiNeedsNoBytes(e: Encoding, other: Char -> Patch, ch: Char, raw: seq<Byte>)
    requires ch < 0x80
    ensures Emit(e, other, ch, raw) == Stores(e, other, ch)
  {
  }

  lemma EmitTwo(e: Encoding, other: Char -> Patch, a: Char, b: Char, rest: seq<Char>)
    ensures EmitAll(e, other, [a] + rest) == EmitChar(e, other, a) + EmitAll(e, other, rest)
    ensures EmitAll(e, other, [a, b] + rest) == EmitChar(e, other, a) + EmitChar(e, other, b) + EmitAll(e, other, rest)
  {
    assert ([a] + rest)[1..] == rest;
    assert ([a, b] + rest)[1..] == [b] + rest && ([b] + rest)[1..] == rest;
  }

  lemma ReadAtChar(crlf: bool, mem: seq<Byte>, pos: nat, end: nat, ch: Char)
    requires LiesAt(mem, pos, Encode(ch)) && pos < end
    ensures Read(crlf, mem, State(pos, false), end)
            == if crlf && ch == 10 then (13, State(pos, true)) else (ch, State(pos + SizeOf(ch), false))
  {
    SgetcReadsEncode(mem, pos, end, ch);
    hide Sgetc, Encode, LiesAt, SizeOf;
  }

  lemma ReadInLineEnd(mem: seq<Byte>, pos: nat, end: nat)
    ensures Read(true, mem, State(pos, true), end) == (10, State(pos + 1, false))
  {
  }

  /** One round of u8_localize at a character of the text. */
  lemma StepAtChar(e: Encoding, other: Char -> Patch, crlf: bool, mem: seq<Byte>, pos: nat, end: nat, ch: Char)
    requires LiesAt(mem, pos, Encode(ch)) && pos < end
    ensures var step := Step(e, other, crlf, mem, State(pos, false), end);
            if crlf && ch == 10 then step == (State(pos, true), Stores(e, other, 13))
            else step == (State(pos + SizeOf(ch), false), Stores(e, other, ch))
    ensures ch == 10 ==>
              Step(e, other, true, mem, State(pos, true), end) == (State(pos + 1, false), Stores(e, other, 10))
  {
    hide Emit, Read, Encode, Copy, LiesAt, Step, SizeOf;
    ReadAtChar(crlf, mem, pos, end, ch);
    ReadInLineEnd(mem, pos, end);
    StepOf(e, other, crlf, mem, State(pos, false), end);
    StepOf(e, other, true, mem, State(pos, true), end);
    CopyIsSlice(mem, pos, Encode(ch));
    AsciiNeedsNoBytes(e, other, 13, Copy(mem, pos, 0));
    AsciiNeedsNoBytes(e, other, 10, Copy(mem, pos, 1));
  }

  /** The characters that are written for a text. */
  function Written(crlf: bool, chars: seq<Char>): seq<Char> {
    if crlf then LineEnds(chars) else chars
  }

  lemma WrittenOne(crlf: bool, chars: seq<Char>)
    ensures Written(crlf, []) == []
    ensures chars != [] ==>
              Written(crlf, chars)
              == (if crlf && chars[0] == 10 then [13, 10] else [chars[0]]) + Written(crlf, chars[1..])
  {
  }

  /** What a call stores of a text, how many characters it takes, and whether it stops inside the line end of the
      next. A fixed buffer is filled while it has more than 8 bytes of `room`. */
  function Fill(e: Encoding, other: Char -> Patch, crlf: bool, chars: seq<Char>, fixed: bool, room: int)
    : (r: (Patch, nat, bool))
    ensures r.1 <= |chars| && (r.2 ==> r.1 < |chars| && crlf)
  {
    if chars == [] || (fixed && room <= 8) then (NOTHING, 0, false)
    else if crlf && chars[0] == 10 then
      var a, b := Stores(e, other, 13), Stores(e, other, 10);
      if fixed && room - a.Grown() <= 8 then (a, 0, true)
      else
        var (rest, n, torn) := Fill(e, other, crlf, chars[1..], fixed, room - a.Grown() - b.Grown());
        (a.Then(b).Then(rest), n + 1, torn)
    else
      var a := Stores(e, other, chars[0]);
      var (rest, n, torn) := Fill(e, other, crlf, chars[1..], fixed, room - a.Grown());
      (a.Then(rest), n + 1, torn)
  }

  /** Where a call that took `n` characters leaves the scanner. */
  function Reached(pos: nat, chars: seq<Char>, n: nat): nat
    requires n <= |chars|
  {
    pos + |EncodeAll(chars[..n])|
  }

  lemma ReachedRest(pos: nat, chars: seq<Char>, n: nat)
    requires chars != [] && n < |chars|
    ensures Reached(pos, chars, n + 1) == Reached(pos + SizeOf(chars[0]), chars[1..], n)
    ensures Reached(pos, chars, 0) == pos
  {
    assert chars[..n + 1][1..] == chars[1..][..n];
  }

  /** A call from a place where a text begins. */
  lemma {:induction false} RunFills(e: Encoding, other: Char -> Patch, crlf: bool, mem: seq<Byte>, pos: nat,
                                    end: nat, chars: seq<Char>, fixed: bool, room: int)
    requires LiesAt(mem, pos, EncodeAll(chars)) && end == pos + |EncodeAll(chars)|
    ensures var (patch, n, torn) := Fill(e, other, crlf, chars, fixed, room);
            Run(e, other, crlf, mem, State(pos, false), end, fixed, room)
            == (patch, State(Reached(pos, chars, n), torn))
    decreases |chars|
  {
    hide Run, Step, Stores, Encode, EncodeAll, SizeOf, Measure, Reached, Patch.Then;
    if chars == [] || (fixed && room <= 8) {
      FillsNothing(e, other, crlf, mem, pos, end, chars, fixed, room);
    } else {
      var ch, rest := chars[0], chars[1..];
      TextStarts(mem, pos, chars);
      StepAtChar(e, other, crlf, mem, pos, end, ch);
      RunOn(e, other, crlf, mem, State(pos, false), end, fixed, room);
      var a := Stores(e, other, if crlf && ch == 10 then 13 else ch);
      if crlf && ch == 10 {
        RunAtNewline(e, other, mem, pos, end, chars, fixed, room - a.Grown());
      }
      if !(crlf && ch == 10 && fixed && room - a.Grown() <= 8) {
        var less := room - a.Grown() - if crlf && ch == 10 then Stores(e, other, 10).Grown() else 0;
        RunFills(e, other, crlf, mem, pos + SizeOf(ch), end, rest, fixed, less);
        ReachedRest(pos, chars, Fill(e, other, crlf, rest, fixed, less).1);
        if crlf && ch == 10 {
          ThenThen(a, Stores(e, other, 10), Fill(e, other, crlf, rest, fixed, less).0);
        }
      } else {
        ReachedRest(pos, chars, 0);
        ThenNothing(a);
      }
    }
  }

  lemma FillsNothing(e: Encoding, other: Char -> Patch, crlf: bool, mem: seq<Byte>, pos: nat,
                     end: nat, chars: seq<Char>, fixed: bool, room: int)
    requires chars == [] || (fixed && room <= 8)
    requires end == pos + |EncodeAll(chars)|
    ensures Run(e, other, crlf, mem, State(pos, false), end, fixed, room) == (NOTHING, State(pos, false))
    ensures Reached(pos, chars, 0) == pos
  {
  }

  lemma TextStarts(mem: seq<Byte>, pos: nat, chars: seq<Char>)
    requires LiesAt(mem, pos, EncodeAll(chars)) && chars != []
    ensures LiesAt(mem, pos, Encode(chars[0])) && SizeOf(chars[0]) > 0 && SizeOf(10) == 1
    ensures LiesAt(mem, pos + SizeOf(chars[0]), EncodeAll(chars[1..]))
    ensures |EncodeAll(chars)| == SizeOf(chars[0]) + |EncodeAll(chars[1..])|
  {
    LiesAtParts(mem, pos, Encode(chars[0]), EncodeAll(chars[1..]));
  }

  lemma RunOn(e: Encoding, other: Char -> Patch, crlf: bool, mem: seq<Byte>, st: State, end: nat,
              fixed: bool, room: int)
    requires (st.inCrlf ==> crlf) && st.scan < end && (fixed ==> room > 8)
    ensures var (st', patch) := Step(e, other, crlf, mem, st, end);
            (st'.inCrlf ==> crlf)
            && var (rest, last) := Run(e, other, crlf, mem, st', end, fixed, room - patch.Grown());
               Run(e, other, crlf, mem, st, end, fixed, room) == (patch.Then(rest), last)
  {
    hide Step;
    StepDescends(e, other, crlf, mem, st, end);
  }

  /** The second round at a newline. */
  lemma RunAtNewline(e: Encoding, other: Char -> Patch, mem: seq<Byte>, pos: nat, end: nat, chars: seq<Char>,
                     fixed: bool, room: int)
    requires LiesAt(mem, pos, EncodeAll(chars)) && end == pos + |EncodeAll(chars)| && chars != [] && chars[0] == 10
    ensures var b := Stores(e, other, 10);
            var (rest, last) := Run(e, other, true, mem, State(pos + 1, false), end, fixed, room - b.Grown());
            Run(e, other, true, mem, State(pos, true), end, fixed, room)
            == if fixed && room <= 8 then (NOTHING, State(pos, true)) else (b.Then(rest), last)
  {
    hide Step, Stores, Encode, Patch.Then;
    TextStarts(mem, pos, chars);
    StepAtChar(e, other, true, mem, pos, end, 10);
    if !(fixed && room <= 8) {
      RunOn(e, other, true, mem, State(pos, true), end, fixed, room);
    }
  }

  /** Without a bound the whole text is taken. */
  lemma {:induction false} FillsAll(e: Encoding, other: Char -> Patch, crlf: bool, chars: seq<Char>, room: int)
    ensures Fill(e, other, crlf, chars, false, room) == (StoresAll(e, other, Written(crlf, chars)), |chars|, false)
  {
    hide Stores, Patch.Then, Written;
    WrittenOne(crlf, chars);
    if chars != [] {
      var a, b := Stores(e, other, if crlf && chars[0] == 10 then 13 else chars[0]), Stores(e, other, 10);
      var text := Written(crlf, chars[1..]);
      if crlf && chars[0] == 10 {
        FillsAll(e, other, crlf, chars[1..], room - a.Grown() - b.Grown());
        assert ([13, 10] + text)[1..] == [10] + text && ([10] + text)[1..] == text;
        ThenThen(a, b, StoresAll(e, other, text));
      } else {
        FillsAll(e, other, crlf, chars[1..], room - a.Grown());
        assert ([chars[0]] + text)[1..] == text;
      }
    }
  }

  /** The call that allocates its buffer stores the characters one after another, with line ends if asked to. */
  lemma RunOverText(e: Encoding, other: Char -> Patch, crlf: bool, chars: seq<Char>)
    ensures Run(e, other, crlf, EncodeAll(chars), State(0, false), |EncodeAll(chars)|, false, 0)
            == (StoresAll(e, other, Written(crlf, chars)), State(|EncodeAll(chars)|, false))
    ensures RepresentsAll(e, other, Written(crlf, chars)) ==>
              StoresAll(e, other, Written(crlf, chars)) == Plain(EmitAll(e, other, Written(crlf, chars)))
  {
    hide Run, EncodeAll, EmitAll, Written, StoresAll, RepresentsAll;
    var mem := EncodeAll(chars);
    assert mem[0..0 + |mem|] == mem && chars[..|chars|] == chars;
    RunFills(e, other, crlf, mem, 0, |mem|, chars, false, 0);
    FillsAll(e, other, crlf, chars, 0);
    if RepresentsAll(e, other, Written(crlf, chars)) {
      StoresPlain(e, other, Written(crlf, chars));
    }
  }

  // ----- decoding it again

  /** Wherever the bytes of `ch` lie, the decoder reads `ch` and goes just past them. */
  ghost predicate Reads(e: Encoding, other: Char -> Patch, ch: Char)
    requires Usable(e)
  {
    Represents(e, other, ch) && EmitChar(e, other, ch) != []
    && forall mem, pos: nat, end: nat ::
         LiesAt(mem, pos, EmitChar(e, other, ch)) && pos + |EmitChar(e, other, ch)| <= end
         ==> Getc(e, mem, pos, end) == (ch, pos + |EmitChar(e, other, ch)|)
  }

  ghost predicate ReadsAll(e: Encoding, other: Char -> Patch, chars: seq<Char>)
    requires Usable(e)
  {
    forall i :: 0 <= i < |chars| ==> Reads(e, other, chars[i])
  }

  lemma ReadsAt(e: Encoding, other: Char -> Patch, mem: seq<Byte>, pos: nat, end: nat, ch: Char)
    requires Usable(e) && Reads(e, other, ch) && LiesAt(mem, pos, EmitChar(e, other, ch))
    requires pos + |EmitChar(e, other, ch)| <= end
    ensures Getc(e, mem, pos, end) == (ch, pos + |EmitChar(e, other, ch)|)
  {
    hide EmitChar, Getc, LiesAt;
  }

  /** The decoder at the bytes of a character that it reads. */
  lemma RoundAtChar(e: Encoding, other: Char -> Patch, mem: seq<Byte>, pos: nat, end: nat, ch: Char)
    requires Usable(e) && Reads(e, other, ch) && LiesAt(mem, pos, EmitChar(e, other, ch))
    requires pos + |EmitChar(e, other, ch)| <= end
    ensures DecodeRound(e, false, mem, pos, end) == Put([ch], pos + |EmitChar(e, other, ch)|)
    ensures ch != 13 ==> DecodeRound(e, true, mem, pos, end) == Put([ch], pos + |EmitChar(e, other, ch)|)
  {
    hide EmitChar, Reads, Getc, LiesAt, Usable;
    ReadsAt(e, other, mem, pos, end, ch);
  }

  /** The decoder at the bytes of '\r' and of the character after it. */
  lemma RoundAtPair(e: Encoding, other: Char -> Patch, mem: seq<Byte>, pos: nat, end: nat, ch: Char)
    requires Usable(e) && Reads(e, other, 13) && Reads(e, other, ch)
    requires LiesAt(mem, pos, EmitChar(e, other, 13) + EmitChar(e, other, ch))
    requires pos + |EmitChar(e, other, 13)| + |EmitChar(e, other, ch)| <= end
    ensures DecodeRound(e, true, mem, pos, end)
            == Put(if ch == 10 then [10] else [13, ch], pos + |EmitChar(e, other, 13)| + |EmitChar(e, other, ch)|)
  {
    hide EmitChar, Reads, Getc, LiesAt, Usable;
    LiesAtParts(mem, pos, EmitChar(e, other, 13), EmitChar(e, other, ch));
    ReadsAt(e, other, mem, pos, end, 13);
    ReadsAt(e, other, mem, pos + |EmitChar(e, other, 13)|, end, ch);
  }

  lemma {:induction false} DecodeOverRest(e: Encoding, other: Char -> Patch, mem: seq<Byte>, pos: nat, end: nat,
                                          chars: seq<Char>)
    requires Usable(e) && ReadsAll(e, other, chars)
    requires LiesAt(mem, pos, EmitAll(e, other, chars)) && end == pos + |EmitAll(e, other, chars)|
    ensures Decode(e, false, mem, pos, end) == Result(chars, end, |chars|)
    decreases |chars|
  {
    hide EmitChar, Reads, ReadsAll, Decode, DecodeRound, Usable, Encode;
    if chars == [] {
      DecodeAtEnd(e, false, mem, pos, end);
    } else {
      var ch, rest := chars[0], chars[1..];
      ReadsRest(e, other, chars);
      LiesAtParts(mem, pos, EmitChar(e, other, ch), EmitAll(e, other, rest));
      RoundAtChar(e, other, mem, pos, end, ch);
      ReadsNonempty(e, other, ch);
      var next := pos + |EmitChar(e, other, ch)|;
      DecodeOverRest(e, other, mem, next, end, rest);
      DecodeGoesOn(e, false, mem, pos, end);
      assert chars == [ch] + rest;
    }
  }

  lemma ReadsRest(e: Encoding, other: Char -> Patch, chars: seq<Char>)
    requires Usable(e) && ReadsAll(e, other, chars) && chars != []
    ensures Reads(e, other, chars[0]) && ReadsAll(e, other, chars[1..])
    ensures |chars| >= 2 ==> Reads(e, other, chars[1]) && ReadsAll(e, other, chars[2..])
  {
  }

  lemma DecodeAtEnd(e: Encoding, crlf: bool, mem: seq<Byte>, scan: nat, end: nat)
    requires Usable(e) && scan >= end
    ensures Decode(e, crlf, mem, scan, end) == Result([], scan, 0)
  {
  }

  lemma DecodeGoesOn(e: Encoding, crlf: bool, mem: seq<Byte>, scan: nat, end: nat)
    requires Usable(e) && scan < end && DecodeRound(e, crlf, mem, scan, end).Put?
    ensures var round := DecodeRound(e, crlf, mem, scan, end);
            Decode(e, crlf, mem, scan, end) == Extend(round.chars, 1, Decode(e, crlf, mem, round.next, end))
  {
  }

  lemma ReadsNonempty(e: Encoding, other: Char -> Patch, ch: Char)
    requires Usable(e) && Reads(e, other, ch)
    ensures EmitChar(e, other, ch) != []
  {
  }

  /** u8_localize into an allocated buffer. */
  function Localized(e: Encoding, other: Char -> Patch, crlf: bool, chars: seq<Char>): Patch {
    Run(e, other, crlf, EncodeAll(chars), State(0, false), |EncodeAll(chars)|, false, 0).0
  }

  /** u8_convert of u8_localize of a text is that text: nothing is stored outside the buffer, all the bytes are
      consumed, all the characters counted. */
  ghost predicate RoundTrips(e: Encoding, other: Char -> Patch, chars: seq<Char>)
    requires Usable(e)
  {
    var stored := Localized(e, other, false, chars);
    stored.back == 0 && Decode(e, false, stored.bytes, 0, |stored.bytes|) == Result(chars, |stored.bytes|, |chars|)
  }

  lemma LocalizedIs(e: Encoding, other: Char -> Patch, crlf: bool, chars: seq<Char>)
    requires RepresentsAll(e, other, Written(crlf, chars))
    ensures Localized(e, other, crlf, chars) == Plain(EmitAll(e, other, Written(crlf, chars)))
  {
    hide Run, EncodeAll, EmitAll, Written, StoresAll, RepresentsAll;
    RunOverText(e, other, crlf, chars);
  }

  lemma ReadsRepresents(e: Encoding, other: Char -> Patch, chars: seq<Char>)
    requires Usable(e) && ReadsAll(e, other, chars)
    ensures RepresentsAll(e, other, chars)
  {
    hide Represents, EmitChar;
    forall i | 0 <= i < |chars| ensures Represents(e, other, chars[i]) {
      assert Reads(e, other, chars[i]);
    }
  }

  /** u8_convert undoes u8_localize on every text of characters that the encoding reads back. */
  lemma RoundTrip(e: Encoding, other: Char -> Patch, chars: seq<Char>)
    requires Usable(e) && ReadsAll(e, other, chars)
    ensures RoundTrips(e, other, chars)
  {
    hide EmitAll, Localized, Decode, ReadsAll, RepresentsAll;
    ReadsRepresents(e, other, chars);
    assert Written(false, chars) == chars;
    LocalizedIs(e, other, false, chars);
    var bytes := EmitAll(e, other, chars);
    assert bytes[0..0 + |bytes|] == bytes;
    DecodeOverRest(e, other, bytes, 0, |bytes|, chars);
  }
}
