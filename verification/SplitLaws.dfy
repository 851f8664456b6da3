/** Decoding UTF-8 that arrives in pieces. */
module SplitLaws {
  import opened Bytes
  import opened Utf8
  import opened Convert
  import opened TextLaws
  import opened CharacterLaws

  /** How many of the characters lie wholly within the first `cut` bytes of their text. */
  function WholeChars(chars: seq<Char>, cut: int): (k: nat)
    ensures k <= |chars|
  {
    if chars == [] || SizeOf(chars[0]) > cut then 0
    else 1 + WholeChars(chars[1..], cut - SizeOf(chars[0]))
  }

  lemma GetcAtEncode(e: Encoding, mem: seq<Byte>, pos: nat, end: nat, ch: Char)
    requires !e.Coded? && LiesAt(mem, pos, Encode(ch)) && pos + SizeOf(ch) <= end
    ensures Getc(e, mem, pos, end) == (ch, pos + SizeOf(ch))
  {
    EncodedIsValid(mem, pos, ch);
    SgetcReadsEncode(mem, pos, end, ch);
    LeadOf(ch);
  }

  /** A character of which only some bytes are there is left alone. */
  lemma GetcAtPart(e: Encoding, mem: seq<Byte>, pos: nat, end: nat, ch: Char)
    requires !e.Coded? && pos < end < pos + SizeOf(ch) && pos < |mem| && mem[pos] == Encode(ch)[0]
    ensures Getc(e, mem, pos, end) == (-2, pos)
  {
    LeadOf(ch);
  }

  lemma DecodeAtWhole(e: Encoding, mem: seq<Byte>, pos: nat, end: nat, ch: Char)
    requires !e.Coded? && LiesAt(mem, pos, Encode(ch)) && pos + SizeOf(ch) <= end
    ensures SizeOf(ch) > 0
    ensures Decode(e, false, mem, pos, end) == Extend([ch], 1, Decode(e, false, mem, pos + SizeOf(ch), end))
  {
    hide Getc, Encode, Decode;
    GetcAtEncode(e, mem, pos, end, ch);
    DecodeGoesOn(e, false, mem, pos, end);
  }

  lemma DecodeAtPart(e: Encoding, mem: seq<Byte>, pos: nat, end: nat, ch: Char)
    requires !e.Coded? && pos < end < pos + SizeOf(ch) && pos < |mem| && mem[pos] == Encode(ch)[0]
    ensures Decode(e, false, mem, pos, end) == Result([], pos, 0)
  {
    hide Getc, Encode;
    GetcAtPart(e, mem, pos, end, ch);
  }

  lemma {:induction false} DecodeOverPart(e: Encoding, mem: seq<Byte>, pos: nat, end: nat, chars: seq<Char>)
    requires !e.Coded? && pos <= end <= pos + |EncodeAll(chars)|
    requires LiesAt(mem, pos, EncodeAll(chars)[..end - pos])
    ensures var k := WholeChars(chars, end - pos);
            && Decode(e, false, mem, pos, end) == Result(chars[..k], pos + |EncodeAll(chars[..k])|, k)
            && EncodeAll(chars[..k]) <= EncodeAll(chars)[..end - pos]
            && (k < |chars| ==> end < pos + |EncodeAll(chars[..k])| + SizeOf(chars[k]))
            && (k == |chars| ==> end == pos + |EncodeAll(chars)|)
    decreases |chars|
  {
    hide Encode, SizeOf, LiesAt, Decode;
    var k := WholeChars(chars, end - pos);
    if pos == end {
      DecodeAtEnd(e, false, mem, pos, end);
      assert chars[..0] == [];
      if chars != [] {
        SizePositive(chars[0]);
      }
    } else {
      var ch, rest := chars[0], chars[1..];
      var text, more := EncodeAll(chars), EncodeAll(rest);
      assert text == Encode(ch) + more;
      if SizeOf(ch) > end - pos {
        assert text[..end - pos][0] == text[0] == Encode(ch)[0];
        assert mem[pos] == Encode(ch)[0] by { LiesFirst(mem, pos, text[..end - pos]); }
        DecodeAtPart(e, mem, pos, end, ch);
        assert chars[..0] == [];
      } else {
        var next := pos + SizeOf(ch);
        assert text[..end - pos] == Encode(ch) + more[..end - next];
        LiesAtParts(mem, pos, Encode(ch), more[..end - next]);
        DecodeAtWhole(e, mem, pos, end, ch);
        DecodeOverPart(e, mem, next, end, rest);
        assert chars[..k] == [ch] + rest[..k - 1];
        assert chars[..k][1..] == rest[..k - 1];
        assert EncodeAll(chars[..k]) == Encode(ch) + EncodeAll(rest[..k - 1]);
      }
    }
  }

  lemma LiesFirst(mem: seq<Byte>, pos: nat, bytes: seq<Byte>)
    requires LiesAt(mem, pos, bytes) && bytes != []
    ensures pos < |mem| && mem[pos] == bytes[0]
  {
    assert mem[pos..pos + |bytes|][0] == mem[pos];
  }

  /** Well-formed text cut at any byte: the call on the first part takes exactly the whole characters and stops before
      the one that is cut, and the call that goes on from there completes what a single call would have done. */
  lemma SplitAnywhere(e: Encoding, chars: seq<Char>, cut: nat)
    requires !e.Coded? && cut <= |EncodeAll(chars)|
    ensures var text := EncodeAll(chars);
            var k := WholeChars(chars, cut);
            var first := Decode(e, false, text[..cut], 0, cut);
            var second := Decode(e, false, text, first.scan, |text|);
            && first == Result(chars[..k], |EncodeAll(chars[..k])|, k)
            && first.scan <= cut && (k < |chars| ==> cut < first.scan + SizeOf(chars[k]))
            && second == Result(chars[k..], |text|, |chars| - k)
            && Decode(e, false, text, 0, |text|) == Result(first.chars + second.chars, |text|, first.ret + second.ret)
  {
    hide Decode, Encode, SizeOf, EncodeAll, WholeChars;
    var text, k := EncodeAll(chars), WholeChars(chars, cut);
    assert text[..cut][0..0 + cut] == text[..cut];
    DecodeOverPart(e, text[..cut], 0, cut, chars);
    assert chars == chars[..k] + chars[k..];
    EncodeAllParts(chars[..k], chars[k..]);
    var at := |EncodeAll(chars[..k])|;
    DecodeOverAll(e, text, at, chars[k..]);
    DecodeOverAll(e, text, 0, chars);
  }

  lemma SizePositive(ch: Char)
    ensures SizeOf(ch) > 0
  {
  }

  lemma {:induction false} AllAreWhole(chars: seq<Char>)
    ensures WholeChars(chars, |EncodeAll(chars)|) == |chars|
  {
    if chars != [] {
      AllAreWhole(chars[1..]);
    }
  }

  lemma DecodeOverAll(e: Encoding, text: seq<Byte>, pos: nat, chars: seq<Char>)
    requires !e.Coded? && pos + |EncodeAll(chars)| == |text| && text[pos..] == EncodeAll(chars)
    ensures Decode(e, false, text, pos, |text|) == Result(chars, |text|, |chars|)
  {
    hide Decode;
    var bytes := EncodeAll(chars);
    assert bytes[..|text| - pos] == bytes;
    DecodeOverPart(e, text, pos, |text|, chars);
    AllAreWhole(chars);
    assert chars[..|chars|] == chars;
  }

  // ----- any number of cuts

  /** Cuts one after another, within a text of `size` bytes and from `from` on. */
  ghost predicate Ascending(cuts: seq<nat>, from: nat, size: nat) {
    && (forall i :: 0 <= i < |cuts| ==> from <= cuts[i] <= size)
    && (forall i, j :: 0 <= i < j < |cuts| ==> cuts[i] <= cuts[j])
  }

  /** Calls as the text arrives, up to each of the cuts, each from where the last one left the scanner: the
      characters, the scanner and the sum of the counts. */
  function DecodeCuts(e: Encoding, text: seq<Byte>, scan: nat, cuts: seq<nat>): Result
    requires !e.Coded? && Ascending(cuts, 0, |text|)
    decreases |cuts|
  {
    if cuts == [] then Result([], scan, 0)
    else
      var first := Decode(e, false, text[..cuts[0]], scan, cuts[0]);
      var rest := DecodeCuts(e, text, first.scan, cuts[1..]);
      Result(first.chars + rest.chars, rest.scan, first.ret + rest.ret)
  }

  lemma {:induction false} WholeGoesOn(chars: seq<Char>, k: nat, cut: int)
    requires k <= |chars| && |EncodeAll(chars[..k])| <= cut
    ensures WholeChars(chars, cut) == k + WholeChars(chars[k..], cut - |EncodeAll(chars[..k])|)
    decreases k
  {
    hide Encode, SizeOf;
    if k == 0 {
      assert chars[0..] == chars && chars[..0] == [];
    } else {
      assert chars[..k][1..] == chars[1..][..k - 1] && chars[1..][k - 1..] == chars[k..];
      WholeGoesOn(chars[1..], k - 1, cut - SizeOf(chars[0]));
    }
  }

  /** One call, from the beginning of the `k`-th character. */
  lemma DecodeFrom(e: Encoding, chars: seq<Char>, k: nat, cut: nat)
    requires !e.Coded? && k <= |chars| && |EncodeAll(chars[..k])| <= cut <= |EncodeAll(chars)|
    ensures var m := WholeChars(chars, cut);
            && k <= m && |EncodeAll(chars[..m])| <= cut
            && Decode(e, false, EncodeAll(chars)[..cut], |EncodeAll(chars[..k])|, cut)
               == Result(chars[k..m], |EncodeAll(chars[..m])|, m - k)
  {
    hide Decode, Encode, SizeOf, EncodeAll, WholeChars;
    var text, at, rest := EncodeAll(chars), |EncodeAll(chars[..k])|, chars[k..];
    assert chars == chars[..k] + rest;
    EncodeAllParts(chars[..k], rest);
    assert text[..cut][at..at + (cut - at)] == EncodeAll(rest)[..cut - at];
    DecodeOverPart(e, text[..cut], at, cut, rest);
    WholeGoesOn(chars, k, cut);
    var m := WholeChars(chars, cut);
    assert chars[..m] == chars[..k] + rest[..m - k] && chars[k..m] == rest[..m - k];
    EncodeAllParts(chars[..k], rest[..m - k]);
  }

  lemma {:induction false} DecodeCutsFrom(e: Encoding, chars: seq<Char>, k: nat, cuts: seq<nat>)
    requires !e.Coded? && k <= |chars| && Ascending(cuts, |EncodeAll(chars[..k])|, |EncodeAll(chars)|)
    ensures var m := if cuts == [] then k else WholeChars(chars, cuts[|cuts| - 1]);
            && k <= m
            && DecodeCuts(e, EncodeAll(chars), |EncodeAll(chars[..k])|, cuts)
               == Result(chars[k..m], |EncodeAll(chars[..m])|, m - k)
    decreases |cuts|
  {
    hide Decode, EncodeAll, WholeChars;
    if cuts != [] {
      DecodeFrom(e, chars, k, cuts[0]);
      var m := WholeChars(chars, cuts[0]);
      DecodeCutsFrom(e, chars, m, cuts[1..]);
      var last := if |cuts| == 1 then m else WholeChars(chars, cuts[|cuts| - 1]);
      assert chars[k..m] + chars[m..last] == chars[k..last];
    }
  }

  /** Well-formed text that arrives in any number of pieces, cut at any bytes: the calls together read exactly the
      characters that are whole up to the last cut, and count them; if the last cut is the end, they read the text. */
  lemma SplitEverywhere(e: Encoding, chars: seq<Char>, cuts: seq<nat>)
    requires !e.Coded? && cuts != [] && Ascending(cuts, 0, |EncodeAll(chars)|)
    ensures var text, last := EncodeAll(chars), cuts[|cuts| - 1];
            var k := WholeChars(chars, last);
            && DecodeCuts(e, text, 0, cuts) == Result(chars[..k], |EncodeAll(chars[..k])|, k)
            && (last == |text| ==> DecodeCuts(e, text, 0, cuts) == Decode(e, false, text, 0, |text|))
  {
    hide Decode, EncodeAll, DecodeCuts, WholeChars;
    assert |EncodeAll(chars[..0])| == 0 by { NoChars(chars); }
    DecodeCutsFrom(e, chars, 0, cuts);
    if cuts[|cuts| - 1] == |EncodeAll(chars)| {
      AllAreWhole(chars);
      assert chars[..|chars|] == chars;
      DecodeOverAll(e, EncodeAll(chars), 0, chars);
    }
  }

  lemma NoChars(chars: seq<Char>)
    ensures EncodeAll(chars[..0]) == []
  {
    assert chars[..0] == [];
  }
}
