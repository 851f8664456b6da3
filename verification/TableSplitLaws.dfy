/** Decoding text in a table encoding that arrives in pieces. */
module TableSplitLaws {
  import opened Bytes
  import opened Wrappers
  import opened Patches
  import opened Charset
  import opened CharsetLaws
  import opened Utf8
  import opened Convert
  import opened Localize
  import opened TextLaws
  import opened CharacterLaws
  import opened TableLaws

  /** How many of the characters lie wholly within the first `cut` bytes of their codes. */
  function WholeCodes(e: Encoding, other: Char -> Patch, chars: seq<Char>, cut: int): (k: nat)
    ensures k <= |chars|
  {
    if chars == [] || |EmitChar(e, other, chars[0])| > cut then 0
    else 1 + WholeCodes(e, other, chars[1..], cut - |EmitChar(e, other, chars[0])|)
  }

  /** At some of the bytes of the character, but not all, the decoder fails and stays. */
  ghost predicate FailsTorn(e: Encoding, other: Char -> Patch, ch: Char)
    requires Usable(e)
  {
    forall mem, pos: nat, end: nat ::
      pos < end < pos + |EmitChar(e, other, ch)| && LiesAt(mem, pos, EmitChar(e, other, ch)[..end - pos])
      ==> Getc(e, mem, pos, end) == (-1, pos)
  }

  ghost predicate FailsTornAll(e: Encoding, other: Char -> Patch, chars: seq<Char>)
    requires Usable(e)
  {
    forall i :: 0 <= i < |chars| ==> FailsTorn(e, other, chars[i])
  }

  // ----- the codes of a table

  lemma {:induction false} TryCodesTorn(s: seq<Entry>, mem: seq<Byte>, pos: nat, code: Char, i: nat, n: nat)
    requires i <= n < |CodeBytes(code)| && LiesAt(mem, pos, CodeBytes(code)[..n])
    requires forall k :: 1 <= k <= n ==> Lookup(Leading(code, k), s) < 0
    ensures TryCodes(s, mem, pos, if i == 0 then 0 else Leading(code, i), i, n) == (-1, -1)
    decreases n - i
  {
    if i < n {
      assert At(mem, pos + i) == mem[pos..pos + n][i] == CodeBytes(code)[i];
      LeadingGrows(code, i + 1);
      hide CodeBytes, Leading, Lookup, LiesAt;
      TryCodesTorn(s, mem, pos, code, i + 1, n);
    }
  }

  lemma PrefixUnknown(s: seq<Entry>, code: Char, j: nat, k: nat)
    requires PrefixFree(s) && j < |s| && s[j].from == code && Mapped(s[j]) && s[j].to > 0
    requires 1 <= k < |CodeBytes(code)|
    ensures Lookup(Leading(code, k), s) < 0
  {
    hide CodeBytes, Leading, Search, ProperPrefix;
    LeadingIsPrefix(code, k);
    if Lookup(Leading(code, k), s) >= 0 {
      var m := SearchHits(Leading(code, k), s, 0, |s| - 1);
      assert false;
    }
  }

  lemma TornCodeFails(t: Table, ascii: bool, mem: seq<Byte>, pos: nat, end: nat, j: nat)
    requires PrefixFree(t.charset) && j < |t.charset| && Mapped(t.charset[j]) && t.charset[j].to > 0
    requires t.charset[j].from < 0x8000_0000 && pos < end < pos + |CodeBytes(t.charset[j].from)|
    requires LiesAt(mem, pos, CodeBytes(t.charset[j].from)[..end - pos])
    ensures Getc(Coded(Some(t), ascii, false), mem, pos, end) == (-1, pos)
  {
    var code: Char, n := t.charset[j].from, end - pos;
    hide CodeBytes, Leading, Lookup, LiesAt, PrefixFree;
    forall k | 1 <= k <= n ensures Lookup(Leading(code, k), t.charset) < 0 {
      PrefixUnknown(t.charset, code, j, k);
    }
    TryCodesTorn(t.charset, mem, pos, code, 0, n);
  }

  lemma TableFailsTorn(t: Table, ascii: bool, linear: bool, other: Char -> Patch, ch: Char)
    requires Sound(t) && Truthful(t, ascii, linear) && Decodable(t.charset, ascii, linear) && Has(t, ascii, ch)
    ensures Usable(Coded(Some(t), ascii, linear)) && FailsTorn(Coded(Some(t), ascii, linear), other, ch)
  {
    var e := Coded(Some(t), ascii, linear);
    TruthfulIsUsable(t, ascii, linear);
    if ascii && ch < 0x80 {
      assert EmitChar(e, other, ch) == [ch];
    } else {
      hide Lookup, LiesAt, Getc, Sound, Truthful, CodeBytes, Stores, Usable, PrefixFree, SingleBytes, Has;
      var j := EmitsEntry(t, ascii, linear, other, ch);
      if linear {
        SingleByteCode(t, ascii, j);
      } else {
        forall mem, pos: nat, end: nat
          | pos < end < pos + |EmitChar(e, other, ch)| && LiesAt(mem, pos, EmitChar(e, other, ch)[..end - pos])
          ensures Getc(e, mem, pos, end) == (-1, pos)
        {
          TornCodeFails(t, ascii, mem, pos, end, j);
        }
      }
    }
  }

  // ----- whole texts

  lemma PartRest(e: Encoding, other: Char -> Patch, chars: seq<Char>)
    requires Usable(e) && ReadsAll(e, other, chars) && FailsTornAll(e, other, chars) && chars != []
    ensures Reads(e, other, chars[0]) && FailsTorn(e, other, chars[0])
    ensures ReadsAll(e, other, chars[1..]) && FailsTornAll(e, other, chars[1..])
  {
    hide Reads, FailsTorn;
  }

  lemma DecodeAtTorn(e: Encoding, other: Char -> Patch, mem: seq<Byte>, pos: nat, end: nat, ch: Char)
    requires Usable(e) && FailsTorn(e, other, ch)
    requires pos < end < pos + |EmitChar(e, other, ch)| && LiesAt(mem, pos, EmitChar(e, other, ch)[..end - pos])
    ensures Decode(e, false, mem, pos, end) == Result([], pos, -1)
  {
    hide EmitChar, Getc, LiesAt;
    assert Getc(e, mem, pos, end) == (-1, pos);
  }

  /** The decoder at a character of which all bytes are there. */
  lemma DecodeAtCode(e: Encoding, other: Char -> Patch, mem: seq<Byte>, pos: nat, end: nat, ch: Char)
    requires Usable(e) && Reads(e, other, ch) && LiesAt(mem, pos, EmitChar(e, other, ch))
    requires pos + |EmitChar(e, other, ch)| <= end
    ensures Decode(e, false, mem, pos, end)
            == Extend([ch], 1, Decode(e, false, mem, pos + |EmitChar(e, other, ch)|, end))
  {
    hide EmitChar, Reads, LiesAt, Decode, DecodeRound, Usable, Extend;
    ReadsNonempty(e, other, ch);
    RoundAtChar(e, other, mem, pos, end, ch);
    DecodeGoesOn(e, false, mem, pos, end);
  }

  /** The bytes before the cut are the first character's and those of the rest before it, or some of the first's. */
  lemma CutBytes(code: seq<Byte>, more: seq<Byte>, n: nat)
    requires n <= |code| + |more|
    ensures (code + more)[..n] == if |code| > n then code[..n] else code + more[..n - |code|]
  {
  }

  lemma FirstOnes(chars: seq<Char>, k: nat)
    requires 0 < k <= |chars|
    ensures chars[..k] == [chars[0]] + chars[1..][..k - 1] && chars[..k][1..] == chars[1..][..k - 1]
  {
  }

  lemma {:induction false} DecodeOverCut(e: Encoding, other: Char -> Patch, mem: seq<Byte>, pos: nat, end: nat,
                                         chars: seq<Char>)
    requires Usable(e) && ReadsAll(e, other, chars) && FailsTornAll(e, other, chars)
    requires pos <= end <= pos + |EmitAll(e, other, chars)|
    requires LiesAt(mem, pos, EmitAll(e, other, chars)[..end - pos])
    ensures var k := WholeCodes(e, other, chars, end - pos);
            var at := pos + |EmitAll(e, other, chars[..k])|;
            && at <= end && (k < |chars| ==> end < at + |EmitChar(e, other, chars[k])|)
            && Decode(e, false, mem, pos, end) == Result(chars[..k], at, if at == end then k else -1)
    decreases |chars|
  {
    hide EmitChar, Reads, ReadsAll, FailsTorn, FailsTornAll, LiesAt, Decode, Usable;
    var k := WholeCodes(e, other, chars, end - pos);
    assert chars[..0] == [];
    if chars != [] {
      PartRest(e, other, chars);
      ReadsNonempty(e, other, chars[0]);
    }
    if pos == end {
      DecodeAtEnd(e, false, mem, pos, end);
    } else {
      var ch, rest := chars[0], chars[1..];
      var code, more := EmitChar(e, other, ch), EmitAll(e, other, rest);
      CutBytes(code, more, end - pos);
      if |code| > end - pos {
        DecodeAtTorn(e, other, mem, pos, end, ch);
      } else {
        LiesAtParts(mem, pos, code, more[..end - pos - |code|]);
        DecodeAtCode(e, other, mem, pos, end, ch);
        DecodeOverCut(e, other, mem, pos + |code|, end, rest);
        FirstOnes(chars, k);
      }
    }
  }

  lemma {:induction false} EmitAllParts(e: Encoding, other: Char -> Patch, a: seq<Char>, b: seq<Char>)
    ensures EmitAll(e, other, a + b) == EmitAll(e, other, a) + EmitAll(e, other, b)
  {
    hide EmitChar;
    if a == [] {
      assert a + b == b;
    } else {
      assert (a + b)[1..] == a[1..] + b;
      EmitAllParts(e, other, a[1..], b);
    }
  }

  /** The call on the first part. */
  lemma FirstPart(e: Encoding, other: Char -> Patch, chars: seq<Char>, cut: nat)
    requires Usable(e) && ReadsAll(e, other, chars) && FailsTornAll(e, other, chars)
    requires cut <= |EmitAll(e, other, chars)|
    ensures var k := WholeCodes(e, other, chars, cut);
            var at := |EmitAll(e, other, chars[..k])|;
            && at <= cut && (k < |chars| ==> cut < at + |EmitChar(e, other, chars[k])|)
            && Decode(e, false, EmitAll(e, other, chars)[..cut], 0, cut)
               == Result(chars[..k], at, if at == cut then k else -1)
  {
    hide Decode, EmitChar, EmitAll, WholeCodes, ReadsAll, FailsTornAll, Usable;
    var part := EmitAll(e, other, chars)[..cut];
    assert part[0..0 + cut] == part;
    DecodeOverCut(e, other, part, 0, cut, chars);
  }

  /** A call from the place between two codes. */
  lemma SecondPart(e: Encoding, other: Char -> Patch, chars: seq<Char>, k: nat)
    requires Usable(e) && ReadsAll(e, other, chars) && k <= |chars|
    ensures var text := EmitAll(e, other, chars);
            Decode(e, false, text, |EmitAll(e, other, chars[..k])|, |text|) == Result(chars[k..], |text|, |chars| - k)
  {
    hide Decode, EmitChar, EmitAll, ReadsAll, Usable;
    var text, at := EmitAll(e, other, chars), |EmitAll(e, other, chars[..k])|;
    assert chars == chars[..k] + chars[k..];
    EmitAllParts(e, other, chars[..k], chars[k..]);
    assert text[at..at + |EmitAll(e, other, chars[k..])|] == EmitAll(e, other, chars[k..]);
    TailReads(e, other, chars, k);
    DecodeOverRest(e, other, text, at, |text|, chars[k..]);
  }

  /** What two calls make of a text that is cut, and one call of the whole. */
  ghost predicate Splits(e: Encoding, chars: seq<Char>, text: seq<Byte>, cut: nat)
    requires Usable(e) && cut <= |text|
  {
    var first := Decode(e, false, text[..cut], 0, cut);
    var second := Decode(e, false, text, first.scan, |text|);
    var whole := Decode(e, false, text, 0, |text|);
    && whole == Result(chars, |text|, |chars|)
    && first.chars + second.chars == whole.chars && second.scan == whole.scan && second.ret == |second.chars|
    && first.ret == (if first.scan == cut then |first.chars| else -1)
    && (first.ret + second.ret == whole.ret <==> first.scan == cut)
  }

  /** Text in a table encoding cut at any byte: the call on the first part reads exactly the whole codes and leaves
      the scanner there, and the call that goes on from there reads the others. The characters and the scanner are
      always those of a single call, the counts add up exactly if the cut is between two codes: otherwise the first
      call returns -1. */
  lemma SplitTable(t: Table, ascii: bool, linear: bool, other: Char -> Patch, chars: seq<Char>, cut: nat)
    requires Sound(t) && Truthful(t, ascii, linear) && Decodable(t.charset, ascii, linear) && HasAll(t, ascii, chars)
    requires cut <= |EmitAll(Coded(Some(t), ascii, linear), other, chars)|
    ensures Usable(Coded(Some(t), ascii, linear))
    ensures var e := Coded(Some(t), ascii, linear);
            Splits(e, chars, EmitAll(e, other, chars), cut)
    ensures var e := Coded(Some(t), ascii, linear);
            var k := WholeCodes(e, other, chars, cut);
            var first := Decode(e, false, EmitAll(e, other, chars)[..cut], 0, cut);
            && first.chars == chars[..k] && first.scan == |EmitAll(e, other, chars[..k])| <= cut
            && (k < |chars| ==> cut < first.scan + |EmitChar(e, other, chars[k])|)
  {
    hide Decode, EmitChar, EmitAll, WholeCodes, Sound, Truthful, Decodable, HasAll, ReadsAll, FailsTornAll, Usable;
    var e := Coded(Some(t), ascii, linear);
    TableReads(t, ascii, linear, other, chars);
    TableFailsTornAll(t, ascii, linear, other, chars);
    var k := WholeCodes(e, other, chars, cut);
    FirstPart(e, other, chars, cut);
    SecondPart(e, other, chars, k);
    SecondPart(e, other, chars, 0);
    assert chars == chars[..k] + chars[k..] && chars[..0] == [] && chars[0..] == chars;
    assert EmitAll(e, other, []) == [] by { EmitNothing(e, other); }
  }

  lemma EmitNothing(e: Encoding, other: Char -> Patch)
    ensures EmitAll(e, other, []) == []
  {
  }

  lemma TailReads(e: Encoding, other: Char -> Patch, chars: seq<Char>, k: nat)
    requires Usable(e) && ReadsAll(e, other, chars) && k <= |chars|
    ensures ReadsAll(e, other, chars[k..])
  {
    hide Reads;
  }

  lemma TableFailsTornAll(t: Table, ascii: bool, linear: bool, other: Char -> Patch, chars: seq<Char>)
    requires Sound(t) && Truthful(t, ascii, linear) && Decodable(t.charset, ascii, linear) && HasAll(t, ascii, chars)
    ensures Usable(Coded(Some(t), ascii, linear)) && FailsTornAll(Coded(Some(t), ascii, linear), other, chars)
  {
    hide Sound, Truthful, Decodable, Has, FailsTorn, Usable;
    TruthfulIsUsable(t, ascii, linear);
    forall i | 0 <= i < |chars| ensures FailsTorn(Coded(Some(t), ascii, linear), other, chars[i]) {
      assert Has(t, ascii, chars[i]);
      TableFailsTorn(t, ascii, linear, other, chars[i]);
    }
  }
}
