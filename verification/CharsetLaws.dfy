/** What sorting, inverting and flagging a charset table earn: the shortcuts agree with the search, and looking up in
    the table and in its inverse undo one another. */
module CharsetLaws {
  import opened Charset

  // ----- flags

  const INCLUDES_ASCII := 1
  const IS_LINEAR := 2

  predicate HasAscii(flags: nat) { flags % 2 == 1 }

  predicate HasLinear(flags: nat) { flags / 2 % 2 == 1 }

  /** What compute_flags checks before it sets the ASCII flag; a table of fewer than 256 entries is not checked. */
  predicate AsciiChecked(s: seq<Entry>) {
    |s| < 256 || forall i :: 1 <= i < 128 ==> s[i] == Entry(i, i)
  }

  predicate LinearChecked(s: seq<Entry>) {
    forall j :: 1 <= j < |s| ==> s[j].from == j
  }

  method ComputeFlags(chset: array<Entry>) returns (flags: nat)
    modifies chset
    ensures Sorted(chset[..]) && multiset(chset[..]) == old(multiset(chset[..]))
    ensures HasAscii(flags) <==> AsciiChecked(chset[..])
    ensures HasLinear(flags) <==> LinearChecked(chset[..])
    ensures flags == (if AsciiChecked(chset[..]) then 0x01 else 0) + if LinearChecked(chset[..]) then 0x02 else 0
  {
    var includesAscii, linear, i, j, size := true, true, 1, 1, chset.Length;
    SortCharset(chset);
    if size >= 256 {
      while i < 128
        invariant 1 <= i <= 128
        invariant includesAscii && forall k :: 1 <= k < i ==> chset[k] == Entry(k, k)
      {
        if chset[i].to != i || chset[i].from != i {
          includesAscii := false;
          assert chset[..][i] != Entry(i, i);
          break;
        } else {
          i := i + 1;
        }
      }
    }
    while j < size
      invariant 1 <= j
      invariant linear && forall k :: 1 <= k < j && k < size ==> chset[k].from == k
    {
      if chset[j].from != j {
        linear := false;
        assert chset[..][j].from != j;
        break;
      } else {
        j := j + 1;
      }
    }
    flags := if includesAscii && linear then INCLUDES_ASCII + IS_LINEAR
             else if includesAscii then INCLUDES_ASCII
             else if linear then IS_LINEAR
             else 0;
  }

  /** Distinct codes below 2^31 that have been sorted. */
  ghost predicate DistinctCodes(s: seq<Entry>) {
    Split(s, 0)
  }

  /** The ASCII flag is set exactly for the tables of fewer than 256 entries and for those that hold code 0 and look
      every byte from 1 to 127 up as itself. */
  lemma AsciiIsEarned(s: seq<Entry>)
    requires DistinctCodes(s)
    ensures AsciiChecked(s)
            <==> |s| < 256 || (s[0].from == 0 && forall b :: 1 <= b < 128 ==> Lookup(b, s) == b)
  {
    if |s| >= 256 {
      if AsciiChecked(s) {
        assert s[0].from < s[1].from;
        forall b | 1 <= b < 128 ensures Lookup(b, s) == b {
          LookupIsCorrect(s, b);
          assert s[b].from == b;
        }
      } else if s[0].from == 0 && forall b :: 1 <= b < 128 ==> Lookup(b, s) == b {
        CodesAtTheirPlace(s, 127);
        var i: U32 :| 1 <= i < 128 && s[i] != Entry(i, i);
        assert Lookup(i, s) == i;
        LookupIsCorrect(s, i);
      }
    }
  }

  lemma {:induction false} CodesAtTheirPlace(s: seq<Entry>, n: nat)
    requires DistinctCodes(s) && n < 128 <= |s| && s[0].from == 0
    requires forall b :: 1 <= b < 128 ==> Lookup(b, s) == b
    ensures forall i :: 0 <= i <= n ==> s[i].from == i
  {
    if n > 0 {
      CodesAtTheirPlace(s, n - 1);
      LookupIsCorrect(s, n);
      assert Lookup(n, s) == n;
      var p :| 0 <= p < |s| && s[p].from == n;
      assert n - 1 == s[n - 1].from < s[n].from;
    }
  }

  /** With the linear flag the byte is its own index: the entry there is what the search would find. */
  lemma LinearIsEarned(s: seq<Entry>)
    requires DistinctCodes(s) && |s| >= 256 && LinearChecked(s)
    ensures forall b :: 0 <= b < 256 ==> Lookup(b, s) == Signed(s[b].to)
  {
    assert s[0].from < s[1].from;
    forall b | 0 <= b < 256 ensures Lookup(b, s) == Signed(s[b].to) {
      LookupIsCorrect(s, b);
      assert s[b].from == b;
    }
  }

  /** The linear flag is set exactly if the last of n codes is n - 1, so that they are the numbers up to it. */
  lemma LinearIsConsecutive(s: seq<Entry>)
    requires DistinctCodes(s) && |s| >= 2
    ensures LinearChecked(s) <==> s[|s| - 1].from == |s| - 1
  {
    if s[|s| - 1].from == |s| - 1 {
      forall j | 1 <= j < |s| ensures s[j].from == j {
        CodesAscend(s, 0, j);
        CodesAscend(s, j, |s| - 1);
      }
    }
  }

  /** Codes that ascend are as far apart as their places, or farther. */
  lemma {:induction false} CodesAscend(s: seq<Entry>, i: nat, j: nat)
    requires DistinctCodes(s) && i <= j < |s|
    ensures s[j].from - s[i].from >= j - i
    decreases j - i
  {
    if i < j {
      CodesAscend(s, i, j - 1);
    }
  }

  // ----- inverting

  /** No two codes are mapped to the same code point. */
  ghost predicate Injective(s: seq<Entry>) {
    forall i, j :: 0 <= i < j < |s| && Mapped(s[i]) && Mapped(s[j]) ==> s[i].to != s[j].to
  }

  /** How many codes of a table are 2^31 or more. */
  function CountBig(s: seq<Entry>): nat {
    if s == [] then 0 else (if s[0].from >= 0x8000_0000 then 1 else 0) + CountBig(s[1..])
  }

  /** How many codes have no code point. */
  function Unmapped(s: seq<Entry>): nat {
    if s == [] then 0 else (if Mapped(s[0]) then 0 else 1) + Unmapped(s[1..])
  }

  lemma {:induction false} CountBigOfParts(a: seq<Entry>, b: seq<Entry>)
    ensures CountBig(a + b) == CountBig(a) + CountBig(b)
  {
    if a == [] {
      assert a + b == b;
    } else {
      assert (a + b)[1..] == a[1..] + b;
      CountBigOfParts(a[1..], b);
    }
  }

  lemma OneOut(b: seq<Entry>, j: nat)
    requires j < |b|
    ensures b == b[..j] + ([b[j]] + b[j + 1..])
    ensures multiset(b) == multiset(b[..j] + b[j + 1..]) + multiset{b[j]}
  {
    var l, r := b[..j], b[j + 1..];
    assert b == l + ([b[j]] + r);
    assert multiset(l + ([b[j]] + r)) == multiset(l) + multiset([b[j]] + r);
  }

  lemma HeadOut(a: seq<Entry>)
    requires a != []
    ensures a == [a[0]] + a[1..] && multiset(a) == multiset(a[1..]) + multiset{a[0]}
  {
    OneOut(a, 0);
    assert a[..0] + a[1..] == a[1..];
  }

  lemma WithoutOne(a: seq<Entry>, b: seq<Entry>) returns (j: nat)
    requires a != [] && multiset(a) == multiset(b)
    ensures j < |b| && b[j] == a[0] && multiset(a[1..]) == multiset(b[..j] + b[j + 1..])
  {
    assert a[0] in multiset(b);
    j :| 0 <= j < |b| && b[j] == a[0];
    OneOut(b, j);
    HeadOut(a);
    SameBesides(multiset(a[1..]), multiset(b[..j] + b[j + 1..]), a[0]);
  }

  lemma SameBesides(s: multiset<Entry>, t: multiset<Entry>, e: Entry)
    requires s + multiset{e} == t + multiset{e}
    ensures s == t
  {
    assert s == s + multiset{e} - multiset{e};
  }

  lemma {:induction false} CountBigOfMultiset(a: seq<Entry>, b: seq<Entry>)
    requires multiset(a) == multiset(b)
    ensures CountBig(a) == CountBig(b)
  {
    if a == [] {
      SameMultisetSameLength(a, b);
    } else {
      hide CountBig;
      var j := WithoutOne(a, b);
      HeadOut(a);
      OneOut(b, j);
      CountBigOfMultiset(a[1..], b[..j] + b[j + 1..]);
      CountBigOfParts(b[..j], [b[j]] + b[j + 1..]);
      CountBigOfParts([b[j]], b[j + 1..]);
      CountBigOfParts(b[..j], b[j + 1..]);
      CountBigOfParts([a[0]], a[1..]);
    }
  }

  lemma {:induction false} FlippedCounts(s: seq<Entry>)
    ensures CountBig(Flip(s)) == Unmapped(s)
  {
    if s != [] {
      assert Flip(s)[1..] == Flip(s[1..]);
      FlippedCounts(s[1..]);
    }
  }

  /** Sorting as `int` puts the codes of 2^31 and more first. */
  lemma {:induction false} BigCodesFirst(s: seq<Entry>)
    requires Sorted(s)
    ensures CountBig(s) <= |s|
    ensures forall i :: 0 <= i < |s| ==> (s[i].from >= 0x8000_0000 <==> i < CountBig(s))
  {
    if s != [] {
      var rest := s[1..];
      BigCodesFirst(rest);
      if CountBig(rest) > 0 {
        assert rest[0] == s[1] && Signed(s[0].from) <= Signed(s[1].from);
      }
      forall i | 0 <= i < |s| ensures s[i].from >= 0x8000_0000 <==> i < CountBig(s) {
        if i > 0 {
          assert s[i] == rest[i - 1];
          assert Signed(s[0].from) <= Signed(s[i].from);
        }
      }
    }
  }

  lemma DistinctEntriesOnce(s: seq<Entry>, x: Entry)
    requires forall i, j :: 0 <= i < j < |s| ==> s[i] != s[j]
    ensures multiset(s)[x] <= 1
  {
    if x in multiset(s) {
      var i :| 0 <= i < |s| && s[i] == x;
      assert s == s[..i] + [s[i]] + s[i + 1..];
      assert x !in s[..i] && x !in s[i + 1..];
    }
  }

  lemma EqualEntriesTwice(s: seq<Entry>, i: nat, j: nat)
    requires i < j < |s| && s[i] == s[j]
    ensures multiset(s)[s[i]] >= 2
  {
    assert s == s[..j] + [s[j]] + s[j + 1..];
    assert s[i] in s[..j];
  }

  /** Every entry of the inverse is the reverse of an entry of the table ... */
  lemma FromInverse(inv: seq<Entry>, s: seq<Entry>, p: nat) returns (i: nat)
    requires Inverse(inv, s) && p < |inv|
    ensures i < |s| && inv[p] == Entry(s[i].to, s[i].from)
  {
    assert inv[p] in multiset(Flip(s));
    i :| 0 <= i < |s| && Flip(s)[i] == inv[p];
  }

  /** ... and the reverse of every entry is there. */
  lemma ToInverse(inv: seq<Entry>, s: seq<Entry>, i: nat) returns (p: nat)
    requires Inverse(inv, s) && i < |s|
    ensures p < |inv| && inv[p] == Entry(s[i].to, s[i].from)
  {
    assert Flip(s)[i] in multiset(inv);
    p :| 0 <= p < |inv| && inv[p] == Flip(s)[i];
  }

  lemma InverseDistinct(inv: seq<Entry>, s: seq<Entry>, p: nat, q: nat)
    requires DistinctCodes(s) && Injective(s) && Inverse(inv, s)
    requires p < q < |inv| && inv[p].from < 0x8000_0000
    ensures inv[p].from != inv[q].from
  {
    var i := FromInverse(inv, s, p);
    var j := FromInverse(inv, s, q);
    if inv[p].from == inv[q].from {
      assert i == j;
      EqualEntriesTwice(inv, p, q);
      DistinctEntriesOnce(Flip(s), inv[p]);
    }
  }

  /** The inverse has the unmapped codes first and then the code points, ascending. */
  lemma InverseSplits(inv: seq<Entry>, s: seq<Entry>)
    requires DistinctCodes(s) && Injective(s) && Inverse(inv, s)
    ensures |inv| == |s| && Split(inv, Unmapped(s))
    ensures forall p :: 0 <= p < |inv| ==> Mapped(inv[p])
  {
    SameMultisetSameLength(inv, Flip(s));
    FlippedCounts(s);
    CountBigOfMultiset(inv, Flip(s));
    BigCodesFirst(inv);
    forall p | 0 <= p < |inv| ensures Mapped(inv[p]) {
      var i := FromInverse(inv, s, p);
    }
    forall p, q | Unmapped(s) <= p < q < |inv| ensures inv[p].from < inv[q].from {
      InverseDistinct(inv, s, p, q);
      assert Signed(inv[p].from) <= Signed(inv[q].from);
    }
  }

  /** Looking the code point of an entry up in the inverse gives back its code. */
  ghost predicate LooksBack(inv: seq<Entry>, e: Entry) {
    Lookup(e.to, inv) == e.from
  }

  lemma LooksBackIfFound(inv: seq<Entry>, s: seq<Entry>, p: nat, i: nat)
    requires p < |inv| && i < |s| && inv[p] == Entry(s[i].to, s[i].from) && s[i].from < 0x8000_0000
    ensures LooksBack(inv, s[i]) <==> Finds(inv, p, 0, |inv| - 1)
  {
  }

  /** The code point of every mapped code is found again in the inverse exactly when the left spine reaches the number
      of unmapped codes. */
  lemma InverseLookups(inv: seq<Entry>, s: seq<Entry>)
    requires DistinctCodes(s) && Injective(s) && Inverse(inv, s)
    ensures (forall i :: 0 <= i < |s| && Mapped(s[i]) ==> LooksBack(inv, s[i]))
            <==> LeftSpineReaches(Unmapped(s), |s| - 1)
  {
    hide Finds, LooksBack, LeftSpineReaches, Inverse, Unmapped, Injective;
    var k, top := Unmapped(s), |inv| - 1;
    InverseSplits(inv, s);
    SpineDecides(inv, k, top);
    if forall p :: k <= p <= top ==> Finds(inv, p, 0, top) {
      forall i | 0 <= i < |s| && Mapped(s[i]) ensures LooksBack(inv, s[i]) {
        var p := ToInverse(inv, s, i);
        LooksBackIfFound(inv, s, p, i);
      }
    } else {
      var p :| k <= p <= top && !Finds(inv, p, 0, top);
      var i := FromInverse(inv, s, p);
      LooksBackIfFound(inv, s, p, i);
    }
  }

  /** What is found is the entry of the code. */
  lemma {:induction false} SearchHits(code: U32, s: seq<Entry>, bot: int, top: int) returns (p: nat)
    requires 0 <= bot && top < |s| && Search(code, s, bot, top) >= 0
    ensures p < |s| && s[p].from == code && Signed(s[p].to) == Search(code, s, bot, top)
    decreases top - bot + 1
  {
    var split := bot + (top - bot) / 2;
    if code == s[split].from {
      p := split;
    } else if code < s[split].from {
      p := SearchHits(code, s, bot, split - 1);
    } else {
      p := SearchHits(code, s, split + 1, top);
    }
  }

  /** Whatever code the inverse gives for a character, the table gives back the character. */
  lemma InverseUndone(inv: seq<Entry>, s: seq<Entry>, ch: U32)
    requires DistinctCodes(s) && Inverse(inv, s) && ch < 0x8000_0000 && Lookup(ch, inv) >= 0
    ensures Lookup(ch, inv) < 0x8000_0000 && Lookup(Lookup(ch, inv), s) == ch
  {
    var p := SearchHits(ch, inv, 0, |inv| - 1);
    var i := FromInverse(inv, s, p);
    LookupIsCorrect(s, s[i].from);
  }

  /** A code point that no code has is not found in the inverse. */
  lemma InverseMisses(inv: seq<Entry>, s: seq<Entry>, ch: U32)
    requires Inverse(inv, s) && ch < 0x8000_0000
    requires forall i :: 0 <= i < |s| ==> s[i].to != ch
    ensures Lookup(ch, inv) == -1
  {
    forall p | 0 <= p < |inv| ensures inv[p].from != ch {
      var i := FromInverse(inv, s, p);
    }
    SearchMisses(ch, inv, 0, |inv| - 1);
  }
}
