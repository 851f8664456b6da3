/** Line ends: what u8_convert makes of the '\r' and '\n' that u8_localize writes for a newline. */
module LineEndLaws {
  import opened Bytes
  import opened Wrappers
  import opened Patches
  import opened Utf8
  import opened Convert
  import opened TextLaws
  import opened CharacterLaws
  import opened TableLaws

  /** Taken from the left, a '\r' together with the character after it, no '\r' is last or followed by a newline. In
      particular a text without '\r' is paired. */
  predicate Paired(chars: seq<Char>) {
    if chars == [] then true
    else if chars[0] != 13 then Paired(chars[1..])
    else |chars| >= 2 && chars[1] != 10 && Paired(chars[2..])
  }

  lemma {:induction false} NoReturnsPaired(chars: seq<Char>)
    requires 13 !in chars
    ensures Paired(chars)
  {
    if chars != [] {
      NoReturnsPaired(chars[1..]);
    }
  }

  /** How many characters u8_convert counts: a '\r' and the character after it are one. */
  function Counted(chars: seq<Char>): nat {
    if chars == [] then 0
    else 1 + Counted(if chars[0] == 13 && |chars| >= 2 then chars[2..] else chars[1..])
  }

  /** A '\r' at the very end is never put out as itself: the decoder reads beyond the end, or gives up. */
  lemma RoundAtLastReturn(e: Encoding, other: Char -> Patch, mem: seq<Byte>, pos: nat, end: nat)
    requires Usable(e) && Reads(e, other, 13) && LiesAt(mem, pos, EmitChar(e, other, 13))
    requires end == pos + |EmitChar(e, other, 13)|
    ensures Decode(e, true, mem, pos, end).chars != [13]
  {
    hide EmitChar;
    var round := DecodeRound(e, true, mem, pos, end);
    assert Getc(e, mem, pos, end) == (13, end);
    GetcBounds(e, mem, end, end);
    if round.Put? {
      DecodeAtEnd(e, true, mem, round.next, end);
      assert round.chars + [] == round.chars;
    }
  }

  lemma LineEndsOne(a: Char, rest: seq<Char>)
    ensures LineEnds([a] + rest) == (if a == 10 then [13, 10] else [a]) + LineEnds(rest)
  {
    assert ([a] + rest)[1..] == rest;
  }

  lemma LineEndsTwo(b: Char, rest: seq<Char>)
    ensures LineEnds([13, b] + rest) == (if b == 10 then [13, 13, 10] else [13, b]) + LineEnds(rest)
  {
    hide LineEnds;
    var lead := if b == 10 then [13, 10] else [b];
    LineEndsOne(b, rest);
    LineEndsOne(13, [b] + rest);
    assert [13, b] + rest == [13] + ([b] + rest);
    assert [13] + (lead + LineEnds(rest)) == [13] + lead + LineEnds(rest);
  }

  lemma PairedTwo(a: Char, b: Char, rest: seq<Char>)
    ensures a != 13 ==> Paired([a] + rest) == Paired(rest) && Counted([a] + rest) == 1 + Counted(rest)
    ensures a == 13 ==> Paired([a, b] + rest) == (b != 10 && Paired(rest))
    ensures a == 13 ==> Counted([a, b] + rest) == 1 + Counted(rest)
  {
    assert ([a] + rest)[1..] == rest && ([a, b] + rest)[2..] == rest;
  }

  /** The decoder gives `chars` back exactly when they are paired. */
  ghost predicate Rereads(e: Encoding, mem: seq<Byte>, pos: nat, end: nat, chars: seq<Char>)
    requires Usable(e)
  {
    && (Decode(e, true, mem, pos, end).chars == chars <==> Paired(chars))
    && (Paired(chars) ==> Decode(e, true, mem, pos, end) == Result(chars, end, Counted(chars)))
  }

  lemma RereadsOn(e: Encoding, mem: seq<Byte>, pos: nat, end: nat, lead: seq<Char>, rest: seq<Char>, next: nat)
    requires Usable(e) && pos < end && DecodeRound(e, true, mem, pos, end) == Put(lead, next)
    requires Rereads(e, mem, next, end, rest)
    requires Paired(lead + rest) == Paired(rest) && Counted(lead + rest) == 1 + Counted(rest)
    ensures Rereads(e, mem, pos, end, lead + rest)
  {
    hide Decode, DecodeRound, Usable, Paired, Counted;
    DecodeGoesOn(e, true, mem, pos, end);
    var decoded := Decode(e, true, mem, next, end).chars;
    assert (lead + decoded)[|lead|..] == decoded && (lead + rest)[|lead|..] == rest;
  }

  /** A '\r' that stood before a newline is taken together with the one written for the newline. */
  lemma RereadsTorn(e: Encoding, mem: seq<Byte>, pos: nat, end: nat, rest: seq<Char>, next: nat)
    requires Usable(e) && pos < end && DecodeRound(e, true, mem, pos, end) == Put([13, 13], next)
    ensures Rereads(e, mem, pos, end, [13, 10] + rest)
  {
    hide Decode, DecodeRound, Usable, Counted;
    DecodeGoesOn(e, true, mem, pos, end);
    var decoded := Decode(e, true, mem, next, end).chars;
    assert ([13, 13] + decoded)[1] == 13 && ([13, 10] + rest)[1] == 10;
  }

  lemma {:induction false} LineEndsOverRest(e: Encoding, other: Char -> Patch, mem: seq<Byte>, pos: nat, end: nat,
                                            chars: seq<Char>)
    requires Usable(e) && ReadsAll(e, other, LineEnds(chars))
    requires LiesAt(mem, pos, EmitAll(e, other, LineEnds(chars)))
    requires end == pos + |EmitAll(e, other, LineEnds(chars))|
    ensures Rereads(e, mem, pos, end, chars)
    decreases |chars|
  {
    hide EmitChar, EmitAll, Reads, ReadsAll, Decode, DecodeRound, Usable, Encode, LineEnds, Paired, Counted, LiesAt,
         Rereads;
    if chars == [] {
      RereadsNothing(e, other, mem, pos, end);
    } else if |chars| >= 2 && chars[0] == 13 {
      assert chars == [13, chars[1]] + chars[2..];
      LineEndsAtReturn(e, other, mem, pos, end, chars[1], chars[2..]);
      if chars[1] != 10 {
        LineEndsOverRest(e, other, mem, pos + |EmitChar(e, other, 13) + EmitChar(e, other, chars[1])|, end, chars[2..]);
        PairedTwo(13, chars[1], chars[2..]);
        RereadsOn(e, mem, pos, end, [13, chars[1]], chars[2..],
                  pos + |EmitChar(e, other, 13) + EmitChar(e, other, chars[1])|);
      }
    } else if chars[0] == 13 {
      assert chars == [13];
      RereadsLastReturn(e, other, mem, pos, end);
    } else {
      var rest := chars[1..];
      assert chars == [chars[0]] + rest;
      var next := LineEndsAtOther(e, other, mem, pos, end, chars[0], rest);
      LineEndsOverRest(e, other, mem, next, end, rest);
      PairedTwo(chars[0], 0, rest);
      RereadsOn(e, mem, pos, end, [chars[0]], rest, next);
    }
  }

  lemma RereadsNothing(e: Encoding, other: Char -> Patch, mem: seq<Byte>, pos: nat, end: nat)
    requires Usable(e) && end == pos + |EmitAll(e, other, LineEnds([]))|
    ensures Rereads(e, mem, pos, end, [])
  {
  }

  lemma RereadsLastReturn(e: Encoding, other: Char -> Patch, mem: seq<Byte>, pos: nat, end: nat)
    requires Usable(e) && ReadsAll(e, other, LineEnds([13]))
    requires LiesAt(mem, pos, EmitAll(e, other, LineEnds([13])))
    requires end == pos + |EmitAll(e, other, LineEnds([13]))|
    ensures Rereads(e, mem, pos, end, [13])
  {
    hide EmitChar, Reads, Decode, Usable, Encode, LiesAt;
    assert LineEnds([13]) == [13];
    ReadsRest(e, other, [13]);
    assert EmitAll(e, other, [13]) == EmitChar(e, other, 13) + [] == EmitChar(e, other, 13);
    RoundAtLastReturn(e, other, mem, pos, end);
  }

  /** A character other than '\r': one round, for a newline over the two characters of its line end. */
  lemma LineEndsAtOther(e: Encoding, other: Char -> Patch, mem: seq<Byte>, pos: nat, end: nat,
                        ch: Char, rest: seq<Char>) returns (next: nat)
    requires Usable(e) && ch != 13 && ReadsAll(e, other, LineEnds([ch] + rest))
    requires LiesAt(mem, pos, EmitAll(e, other, LineEnds([ch] + rest)))
    requires end == pos + |EmitAll(e, other, LineEnds([ch] + rest))|
    ensures pos < end && DecodeRound(e, true, mem, pos, end) == Put([ch], next)
    ensures ReadsAll(e, other, LineEnds(rest)) && LiesAt(mem, next, EmitAll(e, other, LineEnds(rest)))
    ensures end == next + |EmitAll(e, other, LineEnds(rest))|
  {
    hide EmitChar, Reads, ReadsAll, DecodeRound, Usable, Encode, LineEnds, LiesAt, EmitAll;
    var text, after := LineEnds([ch] + rest), LineEnds(rest);
    LineEndsOne(ch, rest);
    ReadsRest(e, other, text);
    var tail := EmitAll(e, other, after);
    if ch == 10 {
      assert text[2..] == after;
      EmitTwo(e, other, 13, 10, after);
      ReadsNonempty(e, other, 13);
      var both := EmitChar(e, other, 13) + EmitChar(e, other, 10);
      LiesAtParts(mem, pos, both, tail);
      RoundAtPair(e, other, mem, pos, end, 10);
      next := pos + |both|;
    } else {
      assert text[1..] == after;
      EmitTwo(e, other, ch, ch, after);
      ReadsNonempty(e, other, ch);
      LiesAtParts(mem, pos, EmitChar(e, other, ch), tail);
      RoundAtChar(e, other, mem, pos, end, ch);
      next := pos + |EmitChar(e, other, ch)|;
    }
  }

  /** A '\r' and the character after it: one round over both, or over two '\r' when a newline comes next. */
  lemma LineEndsAtReturn(e: Encoding, other: Char -> Patch, mem: seq<Byte>, pos: nat, end: nat,
                         ch: Char, rest: seq<Char>)
    requires Usable(e) && ReadsAll(e, other, LineEnds([13, ch] + rest))
    requires LiesAt(mem, pos, EmitAll(e, other, LineEnds([13, ch] + rest)))
    requires end == pos + |EmitAll(e, other, LineEnds([13, ch] + rest))|
    ensures pos < end
    ensures ch == 10 ==> Rereads(e, mem, pos, end, [13, 10] + rest)
    ensures ch != 10 ==>
              var next := pos + |EmitChar(e, other, 13) + EmitChar(e, other, ch)|;
              && DecodeRound(e, true, mem, pos, end) == Put([13, ch], next)
              && ReadsAll(e, other, LineEnds(rest)) && LiesAt(mem, next, EmitAll(e, other, LineEnds(rest)))
              && end == next + |EmitAll(e, other, LineEnds(rest))|
  {
    hide EmitChar, Reads, ReadsAll, DecodeRound, Usable, Encode, LineEnds, LiesAt, Rereads, EmitAll;
    var second := if ch == 10 then 13 else ch;
    var after := if ch == 10 then [10] + LineEnds(rest) else LineEnds(rest);
    var text := LineEnds([13, ch] + rest);
    LineEndsTwo(ch, rest);
    assert text == [13, second] + after && text[2..] == after;
    ReadsRest(e, other, text);
    EmitTwo(e, other, 13, second, after);
    ReadsNonempty(e, other, 13);
    var both := EmitChar(e, other, 13) + EmitChar(e, other, second);
    LiesAtParts(mem, pos, both, EmitAll(e, other, after));
    RoundAtPair(e, other, mem, pos, end, second);
    if ch == 10 {
      RereadsTorn(e, mem, pos, end, rest, pos + |both|);
    }
  }

  /** u8_convert with line ends of u8_localize with line ends is the text: nothing is stored outside the buffer, all the
      bytes are consumed, and a '\r' and the character after it are counted once. */
  ghost predicate LineEndsComeBack(e: Encoding, other: Char -> Patch, chars: seq<Char>)
    requires Usable(e)
  {
    var stored := Localized(e, other, true, chars);
    stored.back == 0
    && Decode(e, true, stored.bytes, 0, |stored.bytes|) == Result(chars, |stored.bytes|, Counted(chars))
  }

  /** Converting line ends both ways gives the text back exactly when it is paired; otherwise not even its characters
      come back. */
  lemma LineEndsRoundTrip(e: Encoding, other: Char -> Patch, chars: seq<Char>)
    requires Usable(e) && ReadsAll(e, other, LineEnds(chars))
    ensures LineEndsComeBack(e, other, chars) <==> Paired(chars)
    ensures var bytes := Localized(e, other, true, chars).bytes;
            Decode(e, true, bytes, 0, |bytes|).chars == chars <==> Paired(chars)
  {
    hide EmitAll, Localized, Decode, ReadsAll, LineEnds, RepresentsAll;
    ReadsRepresents(e, other, LineEnds(chars));
    LocalizedIs(e, other, true, chars);
    assert Written(true, chars) == LineEnds(chars);
    var bytes := EmitAll(e, other, LineEnds(chars));
    assert bytes[0..0 + |bytes|] == bytes;
    LineEndsOverRest(e, other, bytes, 0, |bytes|, chars);
  }

  /** In UTF-8, for every text. */
  lemma Utf8LineEnds(e: Encoding, other: Char -> Patch, chars: seq<Char>)
    requires !e.Coded?
    ensures LineEndsComeBack(e, other, chars) <==> Paired(chars)
  {
    hide LineEndsComeBack, Paired, Reads;
    forall i | 0 <= i < |LineEnds(chars)| ensures Reads(e, other, LineEnds(chars)[i]) {
      Utf8Reads(e, other, LineEnds(chars)[i]);
    }
    LineEndsRoundTrip(e, other, chars);
  }

  /** A text that has "\r\n" already does not come back, nor does one that ends in '\r'. */
  lemma ReturnsAreLost(e: Encoding, other: Char -> Patch)
    requires !e.Coded?
    ensures !LineEndsComeBack(e, other, [13, 10]) && !LineEndsComeBack(e, other, [13])
    ensures LineEndsComeBack(e, other, [13, 13])
  {
    hide LineEndsComeBack;
    assert [13, 13][2..] == [];
    Utf8LineEnds(e, other, [13, 10]);
    Utf8LineEnds(e, other, [13]);
    Utf8LineEnds(e, other, [13, 13]);
  }

  /** In a table that can be decoded, for every text that it has, with '\r' and '\n' if there are newlines. */
  lemma TableLineEnds(t: Table, ascii: bool, linear: bool, other: Char -> Patch, chars: seq<Char>)
    requires Sound(t) && Truthful(t, ascii, linear) && Decodable(t.charset, ascii, linear)
    requires HasAll(t, ascii, LineEnds(chars))
    ensures Usable(Coded(Some(t), ascii, linear))
    ensures LineEndsComeBack(Coded(Some(t), ascii, linear), other, chars) <==> Paired(chars)
  {
    hide Sound, Truthful, Decodable, HasAll, ReadsAll, Usable, LineEnds, LineEndsComeBack, Paired;
    TableReads(t, ascii, linear, other, LineEnds(chars));
    LineEndsRoundTrip(Coded(Some(t), ascii, linear), other, chars);
  }
}
