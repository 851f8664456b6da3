/** Reading base64 gives back the bytes of every legal way of writing them. */
module Base64Laws {
  import opened Bytes
  import opened Base64

  /** A character of neither alphabet, other than padding: section 3.3 of RFC 4648. */
  predicate Junk(c: Byte) {
    Value(c) < 0
  }

  /** Four characters of an alphabet, without padding, for three bytes. */
  predicate SpellsThree(t: seq<Byte>, d: seq<Byte>)
    requires |t| >= 4 && |d| == 3
  {
    PAD !in t[..4] && Block(t, 4) >= 0 && Triple(Block(t, 4)) == d
  }

  /** The last group: two characters for one byte or three for two, followed by nothing or padded to four and then
      followed by anything. */
  predicate SpellsLast(t: seq<Byte>, d: seq<Byte>)
    requires 1 <= |d| <= 2
  {
    && |t| > |d|
    && PAD !in t[..|d| + 1] && Block(t, |d| + 1) >= 0 && Triple(Block(t, |d| + 1))[..|d|] == d
    && (|t| == |d| + 1 || (|t| >= 4 && forall i :: |d| < i < 4 ==> t[i] == PAD))
  }

  /** `t` is a way of writing `d`: groups, with junk allowed before each of them and after the last. */
  predicate Spells(t: seq<Byte>, d: seq<Byte>) {
    if d == [] then forall i :: 0 <= i < |t| ==> Junk(t[i])
    else if t == [] then false
    else if Junk(t[0]) then Spells(t[1..], d)
    else if |d| <= 2 then SpellsLast(t, d)
    else |t| >= 4 && SpellsThree(t, d[..3]) && Spells(t[4..], d[3..])
  }

  lemma JunkIsSkipped(t: seq<Byte>)
    requires t != [] && Junk(t[0])
    ensures Decoded(t) == Decoded(t[1..])
  {
  }

  /** Padding counts as zero bits, so a padded group has the word of its unpadded one. */
  lemma PaddedBlock(t: seq<Byte>, n: nat)
    requires 2 <= n <= 3 && |t| >= 4 && forall i :: n <= i < 4 ==> t[i] == PAD
    ensures Block(t, 4) == Block(t, n)
  {
  }

  lemma LastGroupRead(t: seq<Byte>, d: seq<Byte>)
    requires 1 <= |d| <= 2 && SpellsLast(t, d)
    ensures Decoded(t) == d
  {
    var n := |d| + 1;
    if |t| >= 4 {
      PaddedBlock(t, n);
      assert t[2] in t[..3];
      assert |d| == 2 ==> t[2] in t[..n];
    }
    hide Block, Triple;
  }

  /** What can complete a group of `n` characters. */
  function Completion(u: seq<Byte>, n: nat): seq<Byte>
    requires n <= 4
  {
    if |u| > 4 - n then u[..4 - n] else u
  }

  lemma JunkStopsBlock(t: seq<Byte>, j: nat)
    requires j < |t| && j < 4 && Junk(t[j])
    ensures Block(t, Ahead(t)) < 0
  {
  }

  /** A last group without its padding survives what follows it only if that is its padding or nothing: if there is junk
      among the characters that could complete it, no character of it is read. */
  lemma {:induction false} CutShortIsLost(g: seq<Byte>, u: seq<Byte>)
    requires |g| <= 3 && exists i :: 0 <= i < |Completion(u, |g|)| && Junk(u[i])
    ensures Decoded(g + u) == Decoded(u)
  {
    hide Block, Triple;
    if g == [] {
      assert g + u == u;
    } else {
      var i :| 0 <= i < |Completion(u, |g|)| && Junk(u[i]);
      assert (g + u)[|g| + i] == u[i];
      JunkStopsBlock(g + u, |g| + i);
      assert (g + u)[1..] == g[1..] + u;
      assert Completion(u, |g| - 1)[i] == u[i];
      CutShortIsLost(g[1..], u);
    }
  }

  /** A line break after "QQ" loses it, after its padding it does not. */
  lemma CutShortByLineBreak()
    ensures Decoded([81, 81]) == [65] == Decoded([81, 81, PAD, PAD, 10]) && Decoded([81, 81, 10]) == []
  {
    LastGroupRead([81, 81], [65]);
    LastGroupRead([81, 81, PAD, PAD, 10], [65]);
    assert Junk([10][0]) && [81, 81] + [10] == [81, 81, 10];
    CutShortIsLost([81, 81], [10]);
    JunkIsSkipped([10]);
    assert [10][1..] == [];
  }

  /** Every way of writing `d` is read as `d`. */
  lemma {:induction false} SpelledIsRead(t: seq<Byte>, d: seq<Byte>)
    requires Spells(t, d)
    ensures Decoded(t) == d
  {
    if d == [] {
      if t != [] {
        JunkIsSkipped(t);
        SpelledIsRead(t[1..], d);
      }
    } else if Junk(t[0]) {
      JunkIsSkipped(t);
      SpelledIsRead(t[1..], d);
    } else if |d| <= 2 {
      LastGroupRead(t, d);
    } else {
      SpelledIsRead(t[4..], d[3..]);
      assert t[2] in t[..4] && t[3] in t[..4];
      assert d == d[..3] + d[3..];
      hide Block, Triple;
    }
  }

  // ----- ways of writing

  lemma BlockOfSextets(a: Sextet, b: Sextet, c: Sextet, d: Sextet, rest: seq<Byte>)
    ensures var t: seq<Byte> := [Code(a), Code(b), Code(c), Code(d)] + rest;
            && PAD !in t[..4] && !Junk(t[0])
            && Block(t, 4) == a * 0x4_0000 + b * 0x1000 + c * 64 + d
            && Block(t, 3) == a * 0x4_0000 + b * 0x1000 + c * 64
            && Block(t, 2) == a * 0x4_0000 + b * 0x1000
  {
    ValueOfCode(a);
    ValueOfCode(b);
    ValueOfCode(c);
    ValueOfCode(d);
    hide Code, Value;
    assert ([Code(a), Code(b), Code(c), Code(d)] + rest)[..4] == [Code(a), Code(b), Code(c), Code(d)];
  }

  lemma SextetsOf(w: nat)
    requires w < 0x100_0000
    ensures w / 0x4_0000 < 64
    ensures w == w / 0x4_0000 * 0x4_0000 + w / 0x1000 % 64 * 0x1000 + w / 64 % 64 * 64 + w % 64
  {
    assert w / 0x1000 == w / 0x4_0000 * 64 + w / 0x1000 % 64;
    assert w / 64 == w / 0x1000 * 64 + w / 64 % 64;
  }

  lemma BlockOfCodes(w: nat, rest: seq<Byte>)
    requires w < 0x100_0000
    ensures var t := Codes(w) + rest;
            && PAD !in t[..4] && Block(t, 4) == w && !Junk(t[0])
            && (w % 64 == 0 ==> Block(t, 3) == w) && (w % 0x1000 == 0 ==> Block(t, 2) == w)
  {
    hide Code, Value, Block, Junk;
    SextetsOf(w);
    BlockOfSextets(w / 0x4_0000, w / 0x1000 % 64, w / 64 % 64, w % 64, rest);
    assert w % 0x1000 == w / 64 % 64 * 64 + w % 64;
  }

  lemma WordOfBytes(d: seq<Byte>)
    requires 1 <= |d| <= 3
    ensures Triple(Word(d))[..|d|] == d
    ensures |d| <= 2 ==> Word(d) % 64 == 0
    ensures |d| == 1 ==> Word(d) % 0x1000 == 0
  {
    var a, b, c := At(d, 0), At(d, 1), At(d, 2);
    BytesOf(a, b, c);
    assert Triple(Word(d)) == [a, b, c];
    assert d == [a, b, c][..|d|];
  }

  lemma BytesOf(a: Byte, b: Byte, c: Byte)
    ensures var w := a * 0x1_0000 + b * 0x100 + c;
            w / 0x1_0000 == a && w / 0x100 % 0x100 == b && w % 0x100 == c
            && (c == 0 ==> w % 64 == 0) && (b == 0 && c == 0 ==> w % 0x1000 == 0)
  {
    var w := a * 0x1_0000 + b * 0x100 + c;
    assert w / 0x100 == a * 0x100 + b;
  }

  /** Section 4: what u8_write_base64 writes, with junk before every group and after the last. `junk(k)` goes before
      group `k`. */
  function Sprinkled(d: seq<Byte>, junk: nat -> seq<Byte>, k: nat): seq<Byte> {
    junk(k) + if d == [] then []
              else if |d| <= 2 then Written(d) + junk(k + 1)
              else Written(d[..3]) + Sprinkled(d[3..], junk, k + 1)
  }

  ghost predicate AllJunk(junk: nat -> seq<Byte>) {
    forall k, i :: 0 <= i < |junk(k)| ==> Junk(junk(k)[i])
  }

  lemma {:induction false} JunkBefore(j: seq<Byte>, t: seq<Byte>, d: seq<Byte>)
    requires forall i :: 0 <= i < |j| ==> Junk(j[i])
    ensures Spells(t, d) ==> Spells(j + t, d)
  {
    if j == [] {
      assert j + t == t;
    } else {
      assert (j + t)[1..] == j[1..] + t;
      JunkBefore(j[1..], t, d);
      assert d == [] && Spells(t, d) ==> forall i :: 0 <= i < |j + t| ==> Junk((j + t)[i]);
    }
  }

  lemma LastGroupWritten(d: seq<Byte>, rest: seq<Byte>)
    requires 1 <= |d| <= 2
    ensures Spells(Written(d) + rest, d)
    ensures Spells(Written(d)[..|d| + 1], d) && PAD !in Written(d)[..|d| + 1]
  {
    var w, n := Word(d), |d| + 1;
    WordOfBytes(d);
    BlockOfCodes(w, []);
    assert Codes(w) + [] == Codes(w);
    var t, u := Written(d) + rest, Written(d)[..n];
    assert t[..n] == u == Codes(w)[..n];
    BlockOfPrefix(Codes(w), t, n);
    BlockOfPrefix(Codes(w), u, n);
    hide Codes, Word, Block, Triple, Written;
    assert forall c :: c in u ==> c in Codes(w)[..4];
  }

  lemma BlockOfPrefix(t: seq<Byte>, u: seq<Byte>, n: nat)
    requires 1 <= n <= 4 && n <= |t| && n <= |u| && t[..n] == u[..n]
    ensures Block(t, n) == Block(u, n) && t[0] == u[0]
  {
    assert forall i :: 0 <= i < n ==> t[i] == t[..n][i] && u[i] == u[..n][i];
  }

  lemma WholeGroupWritten(d: seq<Byte>, rest: seq<Byte>)
    requires |d| == 3
    ensures |Written(d)| == 4
    ensures var t := Written(d) + rest;
            !Junk(t[0]) && SpellsThree(t, d) && t[4..] == rest
  {
    assert d[..3] == d && d[3..] == [];
    WordOfBytes(d);
    BlockOfCodes(Word(d), rest);
    assert Written(d) == Codes(Word(d)) + [] == Codes(Word(d));
  }

  lemma {:induction false} SprinkledSpells(d: seq<Byte>, junk: nat -> seq<Byte>, k: nat)
    requires AllJunk(junk)
    ensures Spells(Sprinkled(d, junk, k), d)
    decreases |d|
  {
    hide Written, Block, Triple, Codes, Word;
    if d == [] {
      assert junk(k) + [] == junk(k);
    } else if |d| <= 2 {
      LastGroupWritten(d, junk(k + 1));
      JunkBefore(junk(k), Written(d) + junk(k + 1), d);
    } else {
      var rest := Sprinkled(d[3..], junk, k + 1);
      SprinkledSpells(d[3..], junk, k + 1);
      WholeGroupWritten(d[..3], rest);
      JunkBefore(junk(k), Written(d[..3]) + rest, d);
    }
  }

  lemma {:induction false} WrittenIsSprinkled(d: seq<Byte>, k: nat)
    ensures Sprinkled(d, _ => [], k) == Written(d)
    decreases |d|
  {
    if |d| > 2 {
      WrittenIsSprinkled(d[3..], k + 1);
      assert d[..3][..3] == d[..3] && d[..3][3..] == [];
      assert Written(d[..3]) == Codes(Word(d[..3])) + [] == Codes(Word(d[..3]));
    }
    hide Codes, Word;
  }

  /** Reading undoes writing. */
  lemma RoundTrip(d: seq<Byte>)
    ensures Decoded(Written(d)) == d && |Written(d)| == 4 * ((|d| + 2) / 3)
  {
    SprinkledSpells(d, _ => [], 0);
    WrittenIsSprinkled(d, 0);
    SpelledIsRead(Written(d), d);
    LengthInFours(d);
  }

  /** Junk before, between and after the groups makes no difference. */
  lemma JunkMakesNoDifference(d: seq<Byte>, junk: nat -> seq<Byte>)
    requires AllJunk(junk)
    ensures Decoded(Sprinkled(d, junk, 0)) == d
  {
    SprinkledSpells(d, junk, 0);
    SpelledIsRead(Sprinkled(d, junk, 0), d);
  }

  /** The two alphabets (section 5) may be mixed: '-' and '_' for '+' and '/'. */
  predicate SameSpelling(t: seq<Byte>, u: seq<Byte>) {
    |t| == |u| && forall i :: 0 <= i < |t| ==> Value(t[i]) == Value(u[i]) && (t[i] == PAD <==> u[i] == PAD)
  }

  lemma {:induction false} AlphabetMakesNoDifference(t: seq<Byte>, u: seq<Byte>)
    requires SameSpelling(t, u)
    ensures Decoded(t) == Decoded(u)
  {
    if t != [] {
      var n := Ahead(t);
      assert Block(t, n) == Block(u, n);
      hide Block, Triple, Value;
      AlphabetMakesNoDifference(t[1..], u[1..]);
      if |t| >= 4 {
        AlphabetMakesNoDifference(t[4..], u[4..]);
      }
    }
  }

  /** What is written without its final padding (section 3.2). */
  function Stripped(d: seq<Byte>): seq<Byte> {
    Written(d)[..|Written(d)| - |Pads(|d|)|]
  }

  lemma StrippedIsLegal(d: seq<Byte>)
    ensures |Pads(|d|)| <= |Written(d)| && Written(d) == Stripped(d) + Pads(|d|) && PAD !in Stripped(d)
    ensures Decoded(Stripped(d)) == d
  {
    PaddingReplacesCodes(d);
    assert Written(d) == Stripped(d) + Pads(|d|);
    StrippedSpells(d);
    SpelledIsRead(Stripped(d), d);
  }

  lemma DropEnd(a: seq<Byte>, b: seq<Byte>, n: nat)
    requires n <= |b|
    ensures (a + b)[..|a + b| - n] == a + b[..|b| - n]
  {
  }

  lemma WrittenSplits(d: seq<Byte>)
    requires |d| >= 3
    ensures Written(d) == Written(d[..3]) + Written(d[3..])
  {
    hide Codes, Word;
    assert d[..3][..3] == d[..3] && d[..3][3..] == [];
    var c := Codes(Word(d[..3]));
    assert Written(d[..3]) == c + [] == c;
  }

  lemma StrippedSplits(d: seq<Byte>)
    requires |d| >= 3 && |Pads(|d|)| <= |Written(d)|
    ensures |Pads(|d[3..]|)| <= |Written(d[3..])|
    ensures Stripped(d) == Written(d[..3]) + Stripped(d[3..])
  {
    hide Pads, Written, Unpadded, Padded;
    var rest := d[3..];
    PaddingReplacesCodes(rest);
    LengthInFours(rest);
    PadsRepeat(|d|);
    WrittenSplits(d);
    DropEnd(Written(d[..3]), Written(rest), |Pads(|d|)|);
  }

  lemma {:induction false} StrippedSpells(d: seq<Byte>)
    requires |Pads(|d|)| <= |Written(d)|
    ensures Spells(Stripped(d), d) && PAD !in Stripped(d)
    decreases |d|
  {
    if d == [] {
    } else if |d| <= 2 {
      hide Codes, Word, Spells;
      LastGroupWritten(d, []);
      assert Stripped(d) == Written(d)[..|d| + 1];
    } else {
      hide Written, Stripped, Block, Triple, Pads, SpellsLast;
      var rest := d[3..];
      StrippedSplits(d);
      StrippedSpells(rest);
      WholeGroupWritten(d[..3], Stripped(rest));
      assert Written(d[..3]) == (Written(d[..3]) + Stripped(rest))[..4];
    }
  }
}
