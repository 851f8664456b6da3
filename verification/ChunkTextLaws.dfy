/** Encoding a text in several calls: what can be said of the calls beforehand, from the text and the sizes of the
    buffers. */
module ChunkTextLaws {
  import opened Bytes
  import opened Patches
  import opened Utf8
  import opened Convert
  import opened Localize
  import opened TextLaws
  import opened ChunkLaws
  import opened BufferLaws
  import opened FillLaws

  lemma RepresentsRest(e: Encoding, other: Char -> Patch, chars: seq<Char>)
    requires chars != [] && RepresentsAll(e, other, LineEnds(chars))
    ensures RepresentsAll(e, other, LineEnds(chars[1..]))
    ensures if chars[0] == 10 then Represents(e, other, 13) && Represents(e, other, 10)
            else Represents(e, other, chars[0])
  {
    hide Represents, LineEnds;
    LineEndsFirst(chars);
    RepresentsParts(e, other, if chars[0] == 10 then [13, 10] else [chars[0]], LineEnds(chars[1..]));
  }

  lemma LineEndsFirst(chars: seq<Char>)
    requires chars != []
    ensures LineEnds(chars) == (if chars[0] == 10 then [13, 10] else [chars[0]]) + LineEnds(chars[1..])
  {
  }

  lemma RepresentsParts(e: Encoding, other: Char -> Patch, a: seq<Char>, b: seq<Char>)
    requires RepresentsAll(e, other, a + b)
    ensures RepresentsAll(e, other, b)
    ensures |a| >= 1 ==> Represents(e, other, a[0])
    ensures |a| >= 2 ==> Represents(e, other, a[1])
  {
    hide Represents;
    forall i | 0 <= i < |b| ensures Represents(e, other, b[i]) {
      assert (a + b)[|a| + i] == b[i];
    }
    assert |a| >= 1 ==> (a + b)[0] == a[0];
    assert |a| >= 2 ==> (a + b)[1] == a[1];
  }

  /** No call stops inside a line end; each begins where the one before it stopped. */
  ghost predicate NoneTears(e: Encoding, other: Char -> Patch, chars: seq<Char>, sizes: seq<nat>)
    decreases |sizes|
  {
    sizes == []
    || exists n :: 0 <= n <= |chars| && Stops(e, other, true, chars, sizes[0], n, false)
                   && NoneTears(e, other, chars[n..], sizes[1..])
  }

  /** No call gets before its buffer. */
  ghost predicate NoneBefore(e: Encoding, other: Char -> Patch, crlf: bool, chars: seq<Char>, sizes: seq<nat>)
    decreases |sizes|
  {
    sizes == []
    || exists n, torn :: 0 <= n <= |chars| && Stops(e, other, crlf, chars, sizes[0], n, torn)
                         && NeverBefore(e, other, WrittenBy(crlf, chars, n, torn), 0)
                         && NoneBefore(e, other, crlf, chars[n..], sizes[1..])
  }

  lemma TextSplits(chars: seq<Char>, n: nat)
    requires n <= |chars|
    ensures EncodeAll(chars) == EncodeAll(chars[..n]) + EncodeAll(chars[n..])
  {
    assert chars == chars[..n] + chars[n..];
    EncodeAllParts(chars[..n], chars[n..]);
  }

  lemma {:induction false} RepresentsTail(e: Encoding, other: Char -> Patch, chars: seq<Char>, n: nat)
    requires n <= |chars| && RepresentsAll(e, other, LineEnds(chars))
    ensures RepresentsAll(e, other, LineEnds(chars[n..]))
    decreases n
  {
    hide RepresentsAll, LineEnds;
    if n > 0 {
      RepresentsRest(e, other, chars);
      RepresentsTail(e, other, chars[1..], n - 1);
      assert chars[1..][n - 1..] == chars[n..];
    } else {
      assert chars[0..] == chars;
    }
  }

  /** Over a text the calls are torn as its newlines and the sizes say. */
  lemma {:induction false} TornOnText(e: Encoding, other: Char -> Patch, mem: seq<Byte>, pos: nat, end: nat,
                                      chars: seq<Char>, sizes: seq<nat>)
    requires LiesAt(mem, pos, EncodeAll(chars)) && end == pos + |EncodeAll(chars)|
    ensures TornCalls(e, other, true, mem, pos, end, sizes) == 0 <==> NoneTears(e, other, chars, sizes)
    decreases |sizes|
  {
    hide Run, EncodeAll, Fill, Stops, LiesAt;
    if sizes != [] {
      RunFills(e, other, true, mem, pos, end, chars, true, sizes[0]);
      FillStops(e, other, true, chars, sizes[0]);
      var (_, n, torn) := Fill(e, other, true, chars, true, sizes[0]);
      TextSplits(chars, n);
      LiesAtParts(mem, pos, EncodeAll(chars[..n]), EncodeAll(chars[n..]));
      TornOnText(e, other, mem, Reached(pos, chars, n), end, chars[n..], sizes[1..]);
      if NoneTears(e, other, chars, sizes) {
        var m :| 0 <= m <= |chars| && Stops(e, other, true, chars, sizes[0], m, false)
                 && NoneTears(e, other, chars[m..], sizes[1..]);
        StopsOnce(e, other, true, chars, sizes[0], n, torn, m, false);
      }
    }
  }

  /** Calls for a text with line ends put out, together, what one call puts out exactly if no newline is where a
      buffer has room for its '\r' and then for no more, or nothing is stored for a '\r'. */
  lemma TextInChunks(e: Encoding, other: Char -> Patch, chars: seq<Char>, sizes: seq<nat>)
    requires Converts(other)
    ensures Concatenate(e, other, true, EncodeAll(chars), 0, |EncodeAll(chars)|, sizes)
            <==> NoneTears(e, other, chars, sizes) || Stores(e, other, 13) == NOTHING
  {
    hide Concatenate, TornCalls, NoneTears, EncodeAll, Stores, Converts;
    var text := EncodeAll(chars);
    assert text[0..0 + |text|] == text;
    TornOnText(e, other, text, 0, |text|, chars, sizes);
    CallsConcatenateExactly(e, other, true, text, 0, |text|, sizes);
  }

  /** A newline into 9 bytes, in UTF-8: each call stores a '\r', and stays. */
  lemma NewlineInNineBytes(other: Char -> Patch)
    ensures Calls(Utf8Encoding, other, true, [10], 0, 1, [9, 10]) == (Plain([13, 13, 10]), 1)
    ensures Rest(Utf8Encoding, other, true, [10], State(0, false), 1).0 == Plain([13, 10])
  {
    hide Run, Calls;
    NewlineRun(Utf8Encoding, other, true, 9);
    NewlineRun(Utf8Encoding, other, true, 10);
    NewlineRun(Utf8Encoding, other, false, 0);
    ThenPlain([13], [13, 10]);
    assert [13] + [13, 10] == [13, 13, 10];
    TwoCalls(Utf8Encoding, other, [10], 9, 10);
  }

  lemma NewlineRun(e: Encoding, other: Char -> Patch, fixed: bool, room: int)
    requires !e.Coded? && (fixed ==> room > 8)
    ensures Run(e, other, true, [10], State(0, false), 1, fixed, room)
            == if fixed && room == 9 then (Plain([13]), State(0, true)) else (Plain([13, 10]), State(1, false))
  {
    hide Run, Fill, EncodeAll, Stores, Reached, LiesAt;
    NewlineStores(e, other);
    RunFills(e, other, true, [10], 0, 1, [10], fixed, room);
    FillNewline(e, other, fixed, room);
    NewlineReached();
  }

  lemma NewlineReached()
    ensures Reached(0, [10], 0) == 0 && Reached(0, [10], 1) == 1
  {
    NewlineStores(Utf8Encoding, _ => NOTHING);
    assert [10][..0] == [] && [10][..1] == [10];
  }

  lemma NewlineStores(e: Encoding, other: Char -> Patch)
    requires !e.Coded?
    ensures EncodeAll([10]) == [10] && LiesAt([10], 0, [10])
    ensures Stores(e, other, 13) == Plain([13]) && Stores(e, other, 10) == Plain([10])
  {
    LeadOf(10);
    assert Encode(10) == [10];
    hide Encode;
    assert EncodeAll([10]) == Encode(10) + EncodeAll([10][1..]);
    assert EncodeAll([]) == [];
    assert [10][0..1] == [10];
  }

  lemma FillNewline(e: Encoding, other: Char -> Patch, fixed: bool, room: int)
    requires Stores(e, other, 13) == Plain([13]) && Stores(e, other, 10) == Plain([10]) && (fixed ==> room > 8)
    ensures Fill(e, other, true, [10], fixed, room)
            == if fixed && room == 9 then (Plain([13]), 0, true) else (Plain([13, 10]), 1, false)
  {
    hide Stores, Patch.Then;
    assert [10][1..] == [];
    ThenPlain([13], [10]);
    assert [13] + [10] == [13, 10];
    ThenNothing(Plain([13, 10]));
  }

  lemma OneCall(e: Encoding, other: Char -> Patch, mem: seq<Byte>, scan: nat, size: nat)
    ensures var (patch, last) := Run(e, other, true, mem, State(scan, false), |mem|, true, size);
            Calls(e, other, true, mem, scan, |mem|, [size]) == (patch, last.scan)
  {
    hide Run, Patch.Then;
    assert [size][1..] == [];
    ThenNothing(Run(e, other, true, mem, State(scan, false), |mem|, true, size).0);
  }

  lemma TwoCalls(e: Encoding, other: Char -> Patch, mem: seq<Byte>, size: nat, size': nat)
    ensures var (p, a) := Run(e, other, true, mem, State(0, false), |mem|, true, size);
            var (q, b) := Run(e, other, true, mem, State(a.scan, false), |mem|, true, size');
            Calls(e, other, true, mem, 0, |mem|, [size, size']) == (p.Then(q), b.scan)
  {
    hide Run, Patch.Then;
    assert [size, size'][1..] == [size'];
    OneCall(e, other, mem, Run(e, other, true, mem, State(0, false), |mem|, true, size).1.scan, size');
  }

  // ----- bytes

  /** What the calls leave in their buffers, one buffer after another. */
  function Outputs(e: Encoding, other: Char -> Patch, crlf: bool, mem: seq<Byte>, scan: nat, end: nat,
                   sizes: seq<nat>): seq<Byte>
    decreases |sizes|
  {
    if sizes == [] then []
    else
      var (patch, last) := Run(e, other, crlf, mem, State(scan, false), end, true, sizes[0]);
      patch.bytes + Outputs(e, other, crlf, mem, last.scan, end, sizes[1..])
  }

  /** No call stores outside its buffer, but for the NUL of one without any room. */
  ghost predicate AllInside(e: Encoding, other: Char -> Patch, crlf: bool, mem: seq<Byte>, scan: nat, end: nat,
                            sizes: seq<nat>)
    decreases |sizes|
  {
    sizes == []
    || var (patch, last) := Run(e, other, crlf, mem, State(scan, false), end, true, sizes[0]);
       patch.back == 0 && AllInside(e, other, crlf, mem, last.scan, end, sizes[1..])
  }

  lemma {:induction false} OutputsJoin(e: Encoding, other: Char -> Patch, crlf: bool, mem: seq<Byte>, scan: nat,
                                       end: nat, sizes: seq<nat>)
    requires AllInside(e, other, crlf, mem, scan, end, sizes)
    ensures Calls(e, other, crlf, mem, scan, end, sizes).0 == Plain(Outputs(e, other, crlf, mem, scan, end, sizes))
    decreases |sizes|
  {
    hide Run, Patch.Then;
    if sizes != [] {
      var (patch, last) := Run(e, other, crlf, mem, State(scan, false), end, true, sizes[0]);
      OutputsJoin(e, other, crlf, mem, last.scan, end, sizes[1..]);
      ThenPlain(patch.bytes, Outputs(e, other, crlf, mem, last.scan, end, sizes[1..]));
    }
  }

  lemma WrittenRepresents(e: Encoding, other: Char -> Patch, crlf: bool, chars: seq<Char>, n: nat)
    requires RepresentsAll(e, other, Written(crlf, chars)) && n <= |chars|
    ensures RepresentsAll(e, other, Written(crlf, chars[n..]))
    ensures chars != [] ==> if crlf && chars[0] == 10 then Represents(e, other, 13) && Represents(e, other, 10)
                            else Represents(e, other, chars[0])
  {
    if crlf {
      hide RepresentsAll, LineEnds, Represents;
      RepresentsTail(e, other, chars, n);
      if chars != [] {
        RepresentsRest(e, other, chars);
      }
    } else {
      hide Represents;
    }
  }

  lemma {:induction false} FillPlain(e: Encoding, other: Char -> Patch, crlf: bool, chars: seq<Char>, room: int)
    requires RepresentsAll(e, other, Written(crlf, chars))
    ensures Fill(e, other, crlf, chars, true, room).0.back == 0
    decreases |chars|
  {
    hide Stores, RepresentsAll, Written, Patch.Then;
    if chars != [] {
      WrittenRepresents(e, other, crlf, chars, 1);
      var a, b := Stores(e, other, if crlf && chars[0] == 10 then 13 else chars[0]), Stores(e, other, 10);
      if crlf && chars[0] == 10 {
        FillPlain(e, other, crlf, chars[1..], room - a.Grown() - b.Grown());
        PlainThen(a, b);
        PlainThen(a.Then(b), Fill(e, other, crlf, chars[1..], true, room - a.Grown() - b.Grown()).0);
      } else {
        FillPlain(e, other, crlf, chars[1..], room - a.Grown());
        PlainThen(a, Fill(e, other, crlf, chars[1..], true, room - a.Grown()).0);
      }
    }
  }

  lemma PlainThen(a: Patch, b: Patch)
    requires a.back == b.back == 0
    ensures a.Then(b).back == 0
  {
  }

  /** Calls for a text of characters that can be converted. */
  lemma {:induction false} TextStaysInside(e: Encoding, other: Char -> Patch, crlf: bool, mem: seq<Byte>, pos: nat,
                                           end: nat, chars: seq<Char>, sizes: seq<nat>)
    requires LiesAt(mem, pos, EncodeAll(chars)) && end == pos + |EncodeAll(chars)|
    requires RepresentsAll(e, other, Written(crlf, chars))
    ensures AllInside(e, other, crlf, mem, pos, end, sizes)
    decreases |sizes|
  {
    hide Run, EncodeAll, RepresentsAll, Written, Fill, LiesAt;
    if sizes != [] {
      RunFills(e, other, crlf, mem, pos, end, chars, true, sizes[0]);
      FillPlain(e, other, crlf, chars, sizes[0]);
      var n := Fill(e, other, crlf, chars, true, sizes[0]).1;
      TextSplits(chars, n);
      LiesAtParts(mem, pos, EncodeAll(chars[..n]), EncodeAll(chars[n..]));
      WrittenRepresents(e, other, crlf, chars, n);
      TextStaysInside(e, other, crlf, mem, Reached(pos, chars, n), end, chars[n..], sizes[1..]);
    }
  }

  /** The calls stay inside their buffers exactly if the text and the sizes say so. */
  lemma {:induction false} InsideOnText(e: Encoding, other: Char -> Patch, crlf: bool, mem: seq<Byte>, pos: nat,
                                        end: nat, chars: seq<Char>, sizes: seq<nat>)
    requires LiesAt(mem, pos, EncodeAll(chars)) && end == pos + |EncodeAll(chars)| && Converts(other)
    ensures AllInside(e, other, crlf, mem, pos, end, sizes) <==> NoneBefore(e, other, crlf, chars, sizes)
    decreases |sizes|
  {
    hide Run, EncodeAll, Fill, Stops, LiesAt, NeverBefore, WrittenBy, Converts;
    if sizes != [] {
      RunFills(e, other, crlf, mem, pos, end, chars, true, sizes[0]);
      FillStops(e, other, crlf, chars, sizes[0]);
      var (_, n, torn) := Fill(e, other, crlf, chars, true, sizes[0]);
      FillInside(e, other, crlf, chars, sizes[0], n, torn);
      TextSplits(chars, n);
      LiesAtParts(mem, pos, EncodeAll(chars[..n]), EncodeAll(chars[n..]));
      InsideOnText(e, other, crlf, mem, Reached(pos, chars, n), end, chars[n..], sizes[1..]);
      if NoneBefore(e, other, crlf, chars, sizes) {
        var m, torn' :| 0 <= m <= |chars| && Stops(e, other, crlf, chars, sizes[0], m, torn')
                        && NeverBefore(e, other, WrittenBy(crlf, chars, m, torn'), 0)
                        && NoneBefore(e, other, crlf, chars[m..], sizes[1..]);
        StopsOnce(e, other, crlf, chars, sizes[0], n, torn, m, torn');
      }
    }
  }

  /** Characters that can be converted never take the write pointer back. */
  lemma RepresentedStaysInside(e: Encoding, other: Char -> Patch, crlf: bool, chars: seq<Char>, sizes: seq<nat>)
    requires RepresentsAll(e, other, Written(crlf, chars)) && Converts(other)
    ensures NoneBefore(e, other, crlf, chars, sizes)
  {
    hide EncodeAll, RepresentsAll, Written, AllInside, NoneBefore, Converts;
    var text := EncodeAll(chars);
    assert text[0..0 + |text|] == text;
    TextStaysInside(e, other, crlf, text, 0, |text|, chars, sizes);
    InsideOnText(e, other, crlf, text, 0, |text|, chars, sizes);
  }

  /** Chunked encoding is one-shot encoding: enough calls into buffers with room for a character each, none of which
      gets before its buffer, leave in them, one after another, all the bytes that one call with its own buffer
      leaves, and that call stays inside its buffer as well. With line ends, no call may stop inside one. */
  lemma TextChunksAreOneShot(e: Encoding, other: Char -> Patch, crlf: bool, chars: seq<Char>, sizes: seq<nat>)
    requires Converts(other) && NoneBefore(e, other, crlf, chars, sizes) && |EncodeAll(chars)| <= |sizes|
    requires forall i :: 0 <= i < |sizes| ==> sizes[i] >= 9 && (crlf ==> sizes[i] > 8 + Stores(e, other, 13).Grown())
    requires crlf ==> NoneTears(e, other, chars, sizes)
    ensures var text := EncodeAll(chars);
            && AllInside(e, other, crlf, text, 0, |text|, sizes)
            && Plain(Outputs(e, other, crlf, text, 0, |text|, sizes)) == Localized(e, other, crlf, chars)
            && Calls(e, other, crlf, text, 0, |text|, sizes).1 >= |text|
  {
    hide EncodeAll, Run, Stores, Calls, TornCalls, Outputs, AllInside, NoneTears, NoneBefore, Converts;
    var text := EncodeAll(chars);
    assert text[0..0 + |text|] == text;
    InsideOnText(e, other, crlf, text, 0, |text|, chars, sizes);
    OutputsJoin(e, other, crlf, text, 0, |text|, sizes);
    if crlf {
      TornOnText(e, other, text, 0, |text|, chars, sizes);
    } else {
      NoneTornWithoutLineEnds(e, other, text, 0, |text|, sizes);
    }
    ChunksAreOneShot(e, other, crlf, text, 0, |text|, sizes);
  }
}
