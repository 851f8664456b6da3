/** Exactly which tables read back everything they write. */
module TableLaws {
  import opened Bytes
  import opened Wrappers
  import opened Patches
  import opened Charset
  import opened CharsetLaws
  import opened Utf8
  import opened Convert
  import opened Localize
  import opened TextLaws
  import opened CharacterLaws

  /** A text of characters that the encoding has. */
  ghost predicate HasAll(t: Table, ascii: bool, chars: seq<Char>) {
    forall i :: 0 <= i < |chars| ==> Has(t, ascii, chars[i])
  }

  lemma TableReads(t: Table, ascii: bool, linear: bool, other: Char -> Patch, chars: seq<Char>)
    requires Sound(t) && Truthful(t, ascii, linear) && Decodable(t.charset, ascii, linear) && HasAll(t, ascii, chars)
    ensures Usable(Coded(Some(t), ascii, linear)) && ReadsAll(Coded(Some(t), ascii, linear), other, chars)
  {
    hide Sound, Truthful, Decodable, Has, Reads, Usable;
    TruthfulIsUsable(t, ascii, linear);
    forall i | 0 <= i < |chars| ensures Reads(Coded(Some(t), ascii, linear), other, chars[i]) {
      assert Has(t, ascii, chars[i]);
      HasOne(t, ascii, chars[i]);
      if ascii && chars[i] < 0x80 {
        AsciiByteReads(t, linear, other, chars[i]);
      } else {
        CodeReads(t, ascii, linear, other, chars[i]);
      }
    }
  }

  lemma HasOne(t: Table, ascii: bool, ch: Char)
    requires Has(t, ascii, ch)
    ensures ch > 0
  {
  }

  /** If the first character read is another one, or none is, the text does not come back. */
  lemma WrongFirstChar(e: Encoding, other: Char -> Patch, ch: Char)
    requires Usable(e) && Represents(e, other, ch) && EmitChar(e, other, ch) != []
    requires Getc(e, EmitChar(e, other, ch), 0, |EmitChar(e, other, ch)|).0 != ch
    ensures !RoundTrips(e, other, [ch])
  {
    hide Stores, Run, Localized, Getc;
    LocalizedIs(e, other, false, [ch]);
    var bytes := EmitChar(e, other, ch);
    assert EmitAll(e, other, [ch]) == bytes + [] == bytes;
    hide EmitChar, EmitAll;
    var round := DecodeRound(e, false, bytes, 0, |bytes|);
    if round.Put? {
      DecodeGoesOn(e, false, bytes, 0, |bytes|);
      assert Decode(e, false, bytes, 0, |bytes|).chars[0] == round.chars[0] != ch;
    }
  }

  /** The bytes written for a character that goes through the table, and its entry. */
  lemma WritesCode(t: Table, ascii: bool, linear: bool, other: Char -> Patch, j: nat)
    requires Sound(t) && Truthful(t, ascii, linear) && LeftSpineReaches(Unmapped(t.charset), |t.charset| - 1)
    requires j < |t.charset| && Mapped(t.charset[j]) && t.charset[j].to > 0
    ensures Has(t, ascii, t.charset[j].to) && t.charset[j].from < 0x8000_0000
    ensures ascii && t.charset[j].to < 0x80 ==> t.charset[j].from == t.charset[j].to
    ensures !(ascii && t.charset[j].to < 0x80) ==>
              Stores(Coded(Some(t), ascii, linear), other, t.charset[j].to) == Plain(CodeBytes(t.charset[j].from))
  {
    var ch: Char := t.charset[j].to;
    InverseLookups(t.inv, t.charset);
    assert LooksBack(t.inv, t.charset[j]);
    assert Lookup(ch, t.inv) == t.charset[j].from;
    if ascii && ch < 0x80 {
      assert t.charset[ch] == Entry(ch, ch);
      SameCharSameEntry(t.charset, j, ch);
    } else {
      EmitsCode(t, ascii, linear, other, ch, t.charset[j].from);
    }
  }

  /** One byte of a longer code is not its character. */
  lemma LongCodeLost(t: Table, ascii: bool, other: Char -> Patch, j: nat)
    requires Sound(t) && Truthful(t, ascii, true) && LeftSpineReaches(Unmapped(t.charset), |t.charset| - 1)
    requires j < |t.charset| && Mapped(t.charset[j]) && t.charset[j].to > 0 && t.charset[j].from >= 0x100
    ensures Usable(Coded(Some(t), ascii, true)) && Has(t, ascii, t.charset[j].to)
    ensures !RoundTrips(Coded(Some(t), ascii, true), other, [t.charset[j].to])
  {
    var e := Coded(Some(t), ascii, true);
    var ch: Char, code: Char := t.charset[j].to, t.charset[j].from;
    WritesCode(t, ascii, true, other, j);
    TruthfulIsUsable(t, ascii, true);
    var bytes := CodeBytes(code);
    var b := bytes[0];
    assert t.charset[b].from == b;
    if Signed(t.charset[b].to) == ch {
      SameCharSameEntry(t.charset, b, j);
    }
    assert Getc(e, bytes, 0, |bytes|).0 != ch;
    WrongFirstChar(e, other, ch);
  }

  /** With both flags byte 0 is NUL, whatever character code 0 stands for. */
  lemma ZeroLost(t: Table, other: Char -> Patch, j: nat)
    requires Sound(t) && Truthful(t, true, true) && LeftSpineReaches(Unmapped(t.charset), |t.charset| - 1)
    requires j < |t.charset| && Mapped(t.charset[j]) && t.charset[j].to > 0 && t.charset[j].from == 0
    ensures Usable(Coded(Some(t), true, true)) && Has(t, true, t.charset[j].to)
    ensures !RoundTrips(Coded(Some(t), true, true), other, [t.charset[j].to])
  {
    var e := Coded(Some(t), true, true);
    var ch: Char := t.charset[j].to;
    WritesCode(t, true, true, other, j);
    TruthfulIsUsable(t, true, true);
    assert Stores(e, other, ch) == Plain([0]);
    assert Getc(e, [0], 0, 1).0 == 0;
    WrongFirstChar(e, other, ch);
  }

  /** A code that begins with another is cut short. */
  lemma PrefixedCodeLost(t: Table, ascii: bool, other: Char -> Patch, i: nat, j: nat)
    requires Sound(t) && Truthful(t, ascii, false) && LeftSpineReaches(Unmapped(t.charset), |t.charset| - 1)
    requires i < |t.charset| && j < |t.charset| && Mapped(t.charset[i]) && Mapped(t.charset[j]) && t.charset[j].to > 0
    requires ProperPrefix(t.charset[i].from, t.charset[j].from)
    ensures Usable(Coded(Some(t), ascii, false)) && Has(t, ascii, t.charset[j].to)
    ensures !RoundTrips(Coded(Some(t), ascii, false), other, [t.charset[j].to])
  {
    var e := Coded(Some(t), ascii, false);
    var ch: Char, code: Char := t.charset[j].to, t.charset[j].from;
    WritesCode(t, ascii, false, other, j);
    TruthfulIsUsable(t, ascii, false);
    var bytes := CodeBytes(code);
    var k := PrefixIsLeading(t.charset[i].from, code);
    assert Stores(e, other, ch) == Plain(bytes);
    assert Getc(e, bytes, 0, |bytes|).0 != ch by {
      PrefixTaken(t.charset, bytes, j, i, k);
    }
    WrongFirstChar(e, other, ch);
  }

  lemma PrefixTaken(s: seq<Entry>, bytes: seq<Byte>, j: nat, i: nat, k: nat)
    requires DistinctCodes(s) && Injective(s) && i < |s| && j < |s| && Mapped(s[i]) && Mapped(s[j])
    requires s[j].from < 0x8000_0000 && bytes == CodeBytes(s[j].from)
    requires 1 <= k < |bytes| && Leading(s[j].from, k) == s[i].from
    ensures TryCodes(s, bytes, 0, 0, 0, |bytes|).0 != s[j].to
    ensures TryCodes(s, bytes, 0, 0, 0, |bytes|).1 > 0
  {
    var code: Char := s[j].from;
    LookupIsCorrect(s, code);
    LookupIsCorrect(s, s[i].from);
    assert bytes[0..0 + |bytes|] == bytes;
    hide CodeBytes, Leading, Lookup, Search;
    TryCodesAtCode(s, bytes, 0, code, 0, |bytes|);
    var l := TryCodes(s, bytes, 0, 0, 0, |bytes|).1;
    assert l <= k;
    ShorterIsOther(s, code, j, l);
  }

  lemma ShorterIsOther(s: seq<Entry>, code: Char, j: nat, l: nat)
    requires Injective(s) && j < |s| && Mapped(s[j]) && s[j].from == code
    requires 1 <= l < |CodeBytes(code)| && Lookup(Leading(code, l), s) >= 0
    ensures Lookup(Leading(code, l), s) != s[j].to
  {
    LeadingIsPrefix(code, l);
    hide CodeBytes, Leading;
    var m := SearchHits(Leading(code, l), s, 0, |s| - 1);
    if s[m].to == s[j].to {
      SameCharSameEntry(s, j, m);
    }
  }

  /** The table round trip, exactly: with truthful flags, every text of characters that the encoding has comes back if
      and only if the codes can be read back. */
  lemma TableRoundTrip(t: Table, ascii: bool, linear: bool, other: Char -> Patch)
    requires Sound(t) && Truthful(t, ascii, linear) && LeftSpineReaches(Unmapped(t.charset), |t.charset| - 1)
    ensures Usable(Coded(Some(t), ascii, linear))
    ensures (forall chars :: HasAll(t, ascii, chars) ==> RoundTrips(Coded(Some(t), ascii, linear), other, chars))
            <==> Decodable(t.charset, ascii, linear)
  {
    TruthfulIsUsable(t, ascii, linear);
    if Decodable(t.charset, ascii, linear) {
      hide Sound, Truthful, Decodable, RoundTrips, ReadsAll, Usable, HasAll;
      forall chars | HasAll(t, ascii, chars)
        ensures RoundTrips(Coded(Some(t), ascii, linear), other, chars)
      {
        TableRoundTripOne(t, ascii, linear, other, chars);
      }
    } else {
      var ch := LostChar(t, ascii, linear, other);
      assert HasAll(t, ascii, [ch]);
    }
  }

  /** For the texts that come back the spine is not needed: an encoding may have lost a character, but what it has it
      reads back. */
  lemma TableRoundTripOne(t: Table, ascii: bool, linear: bool, other: Char -> Patch, chars: seq<Char>)
    requires Sound(t) && Truthful(t, ascii, linear) && Decodable(t.charset, ascii, linear) && HasAll(t, ascii, chars)
    ensures Usable(Coded(Some(t), ascii, linear)) && RoundTrips(Coded(Some(t), ascii, linear), other, chars)
  {
    hide Sound, Truthful, Decodable, ReadsAll, Usable, HasAll;
    TableReads(t, ascii, linear, other, chars);
    RoundTrip(Coded(Some(t), ascii, linear), other, chars);
  }

  lemma LostChar(t: Table, ascii: bool, linear: bool, other: Char -> Patch) returns (ch: Char)
    requires Sound(t) && Truthful(t, ascii, linear) && LeftSpineReaches(Unmapped(t.charset), |t.charset| - 1)
    requires !Decodable(t.charset, ascii, linear)
    ensures Usable(Coded(Some(t), ascii, linear)) && Has(t, ascii, ch)
    ensures !RoundTrips(Coded(Some(t), ascii, linear), other, [ch])
  {
    var s := t.charset;
    hide Sound, Truthful, RoundTrips, Usable, Has, LeftSpineReaches, ProperPrefix;
    if !linear {
      var i, j :| 0 <= i < |s| && 0 <= j < |s| && Mapped(s[i]) && Mapped(s[j]) && s[j].to > 0
                  && ProperPrefix(s[i].from, s[j].from);
      PrefixedCodeLost(t, ascii, other, i, j);
      ch := s[j].to;
    } else if !SingleBytes(s) {
      var j :| 0 <= j < |s| && Mapped(s[j]) && s[j].to > 0 && s[j].from >= 0x100;
      LongCodeLost(t, ascii, other, j);
      ch := s[j].to;
    } else {
      var j :| 0 <= j < |s| && s[j].from == 0 && Mapped(s[j]) && s[j].to != 0;
      ZeroLost(t, other, j);
      ch := s[j].to;
    }
  }

  /** The flags that compute_flags sets on a sorted table of at least 256 distinct codes are truthful. */
  lemma ComputedFlagsAreTruthful(t: Table)
    requires DistinctCodes(t.charset) && |t.charset| >= 256
    ensures Truthful(t, AsciiChecked(t.charset), LinearChecked(t.charset))
  {
    assert t.charset[0].from < t.charset[1].from;
  }
}
