/** Charset tables: sorting, inverting, searching, and the flags computed from them (convert.c). */
module Charset {
  type U32 = x: int | 0 <= x < 0x1_0000_0000

  /** U8_MB_MAP: both fields are unsigned. */
  datatype Entry = Entry(from: U32, to: U32)

  /** The value of an `unsigned int` converted to `int`. */
  function Signed(x: U32): int {
    if x < 0x8000_0000 then x else x - 0x1_0000_0000
  }

  /** A code point of 2^31 or more reads as negative: the shipped tables write 0xffffffff where there is none. */
  predicate Mapped(e: Entry) {
    e.to < 0x8000_0000
  }

  // ----- sorting

  /** charset_order compares the codes as `int`. */
  ghost predicate Sorted(s: seq<Entry>) {
    forall i, j :: 0 <= i < j < |s| ==> Signed(s[i].from) <= Signed(s[j].from)
  }

  function Insert(e: Entry, s: seq<Entry>): seq<Entry> {
    if s == [] || Signed(e.from) <= Signed(s[0].from) then [e] + s
    else [s[0]] + Insert(e, s[1..])
  }

  function Arranged(s: seq<Entry>): seq<Entry> {
    if s == [] then [] else Insert(s[0], Arranged(s[1..]))
  }

  lemma {:induction false} InsertAdds(e: Entry, s: seq<Entry>)
    ensures multiset(Insert(e, s)) == multiset(s) + multiset{e}
  {
    if s != [] {
      assert s == [s[0]] + s[1..];
      InsertAdds(e, s[1..]);
    }
  }

  lemma {:induction false} InsertSorts(e: Entry, s: seq<Entry>)
    requires Sorted(s)
    ensures Sorted(Insert(e, s))
    ensures forall i :: 0 <= i < |Insert(e, s)| ==> Insert(e, s)[i] == e || Insert(e, s)[i] in s
  {
    if s != [] && Signed(e.from) > Signed(s[0].from) {
      InsertSorts(e, s[1..]);
      var t := Insert(e, s[1..]);
      assert forall i :: 0 <= i < |t| ==> Signed(s[0].from) <= Signed(t[i].from);
    }
  }

  lemma {:induction false} ArrangedSorts(s: seq<Entry>)
    ensures Sorted(Arranged(s)) && multiset(Arranged(s)) == multiset(s)
  {
    if s != [] {
      assert s == [s[0]] + s[1..];
      ArrangedSorts(s[1..]);
      InsertSorts(s[0], Arranged(s[1..]));
      InsertAdds(s[0], Arranged(s[1..]));
    }
  }

  /** sort_charset. Of qsort only this is used: the same entries, in order. */
  method SortCharset(chset: array<Entry>)
    modifies chset
    ensures Sorted(chset[..]) && multiset(chset[..]) == old(multiset(chset[..]))
  {
    var s := Arranged(chset[..]);
    ArrangedSorts(chset[..]);
    SameMultisetSameLength(s, chset[..]);
    forall i | 0 <= i < chset.Length {
      chset[i] := s[i];
    }
    assert chset[..] == s;
  }

  lemma SameMultisetSameLength(s: seq<Entry>, t: seq<Entry>)
    requires multiset(s) == multiset(t)
    ensures |s| == |t|
  {
    assert |s| == |multiset(s)| && |t| == |multiset(t)|;
  }

  function Flip(s: seq<Entry>): (r: seq<Entry>)
    ensures |r| == |s| && forall i :: 0 <= i < |s| ==> r[i] == Entry(s[i].to, s[i].from)
  {
    if s == [] then [] else [Entry(s[0].to, s[0].from)] + Flip(s[1..])
  }

  /** What charset_inv is to charset. */
  ghost predicate Inverse(inv: seq<Entry>, charset: seq<Entry>) {
    Sorted(inv) && multiset(inv) == multiset(Flip(charset))
  }

  method InvertCharset(input: array<Entry>) returns (inv: array<Entry>)
    ensures fresh(inv) && inv.Length == input.Length && Inverse(inv[..], input[..])
  {
    inv := new Entry[input.Length];
    var i := 0;
    while i < input.Length
      invariant 0 <= i <= input.Length
      invariant inv[..i] == Flip(input[..])[..i]
    {
      inv[i] := Entry(input[i].to, input[i].from);
      i := i + 1;
    }
    assert inv[..] == Flip(input[..]);
    SortCharset(inv);
  }

  // ----- searching

  /** The binary search between two bounds. Codes are compared as unsigned integers, the answer is an `int`. */
  function Search(code: U32, map_: seq<Entry>, bot: int, top: int): int
    requires 0 <= bot && top < |map_|
    decreases top - bot + 1
  {
    if top < bot then -1
    else
      var split := bot + (top - bot) / 2;
      if code == map_[split].from then Signed(map_[split].to)
      else if code < map_[split].from then Search(code, map_, bot, split - 1)
      else Search(code, map_, split + 1, top)
  }

  /** mb_lookup_code, for any table. */
  function Lookup(code: U32, map_: seq<Entry>): int {
    Search(code, map_, 0, |map_| - 1)
  }

  method MbLookupCode(code: U32, map_: seq<Entry>) returns (r: int)
    ensures r == Lookup(code, map_)
  {
    var bot, top := 0, |map_| - 1;
    while top >= bot
      invariant 0 <= bot && top < |map_|
      invariant Lookup(code, map_) == Search(code, map_, bot, top)
      decreases top - bot + 1
    {
      var split := bot + (top - bot) / 2;
      if code == map_[split].from {
        return Signed(map_[split].to);
      } else if code < map_[split].from {
        top := split - 1;
      } else {
        bot := split + 1;
      }
    }
    return -1;
  }

  // ----- what the search finds

  /** The first `k` codes are 2^31 or more, so that they sort first as `int` but compare last as `unsigned`; the
      others are below 2^31 and ascend. */
  ghost predicate Split(s: seq<Entry>, k: nat) {
    && k <= |s|
    && (forall i :: 0 <= i < k ==> s[i].from >= 0x8000_0000)
    && (forall i :: k <= i < |s| ==> s[i].from < 0x8000_0000)
    && (forall i, j :: k <= i < j < |s| ==> s[i].from < s[j].from)
  }

  /** An entry below 2^31 is found by the search between two bounds. */
  ghost predicate Finds(s: seq<Entry>, p: nat, bot: int, top: int)
    requires p < |s| && 0 <= bot && top < |s|
  {
    Search(s[p].from, s, bot, top) == Signed(s[p].to)
  }

  lemma {:induction false} SearchMisses(code: U32, s: seq<Entry>, bot: int, top: int)
    requires 0 <= bot && top < |s|
    requires forall i :: bot <= i <= top ==> s[i].from != code
    ensures Search(code, s, bot, top) == -1
    decreases top - bot + 1
  {
    if bot <= top {
      var split := bot + (top - bot) / 2;
      SearchMisses(code, s, bot, split - 1);
      SearchMisses(code, s, split + 1, top);
    }
  }

  lemma {:induction false} SearchFindsAbove(s: seq<Entry>, k: nat, p: nat, bot: int, top: int)
    requires Split(s, k) && k <= bot <= p <= top < |s|
    ensures Finds(s, p, bot, top)
    decreases top - bot
  {
    var split := bot + (top - bot) / 2;
    if p < split {
      SearchFindsAbove(s, k, p, bot, split - 1);
    } else if split < p {
      SearchFindsAbove(s, k, p, split + 1, top);
    }
  }

  /** The middles probed by a search that keeps going left from `top`, until nothing below 2^31 is left, never fall
      below `k`. It depends on the two sizes alone. */
  predicate LeftSpineReaches(k: nat, top: int)
    decreases top + 1
  {
    top < k || (top / 2 >= k && LeftSpineReaches(k, top / 2 - 1))
  }

  /** One probe, from the left end. */
  lemma ProbeFromLeft(s: seq<Entry>, k: nat, p: nat, top: int)
    requires Split(s, k) && k <= p <= top < |s| && Mapped(s[p])
    ensures top / 2 < k ==> !Finds(s, p, 0, top)
    ensures k <= top / 2 <= p ==> Finds(s, p, 0, top)
    ensures p < top / 2 ==> (Finds(s, p, 0, top) <==> Finds(s, p, 0, top / 2 - 1))
  {
    var split := top / 2;
    if split < k {
      SearchMisses(s[p].from, s, 0, split - 1);
    } else if split < p {
      SearchFindsAbove(s, k, p, split + 1, top);
    }
  }

  /** Every entry below 2^31 is found exactly when the left spine reaches. */
  lemma {:induction false} SpineDecides(s: seq<Entry>, k: nat, top: int)
    requires Split(s, k) && top < |s|
    requires forall i :: k <= i < |s| ==> Mapped(s[i])
    ensures (forall p :: k <= p <= top ==> Finds(s, p, 0, top)) <==> LeftSpineReaches(k, top)
    decreases top + 1
  {
    hide Finds;
    if k <= top {
      var split := top / 2;
      forall p | k <= p <= top
        ensures split < k ==> !Finds(s, p, 0, top)
        ensures k <= split <= p ==> Finds(s, p, 0, top)
        ensures p < split ==> (Finds(s, p, 0, top) <==> Finds(s, p, 0, split - 1))
      {
        ProbeFromLeft(s, k, p, top);
      }
      if split < k {
        assert !Finds(s, top, 0, top);
      } else {
        SpineDecides(s, k, split - 1);
        if !LeftSpineReaches(k, top) {
          var p :| k <= p <= split - 1 && !Finds(s, p, 0, split - 1);
          assert !Finds(s, p, 0, top);
        } else {
          forall p | k <= p <= top ensures Finds(s, p, 0, top) {
            assert p <= split - 1 ==> Finds(s, p, 0, split - 1);
          }
        }
      }
    }
  }

  /** With no code of 2^31 or more the spine always reaches. */
  lemma {:induction false} SpineFromZero(top: int)
    requires top >= -1
    ensures LeftSpineReaches(0, top)
    decreases top + 1
  {
    if top >= 0 {
      SpineFromZero(top / 2 - 1);
    }
  }

  /** A sorted table of distinct codes below 2^31 is searched correctly, for every code. */
  lemma LookupIsCorrect(s: seq<Entry>, code: U32)
    requires Split(s, 0)
    ensures forall p :: 0 <= p < |s| && s[p].from == code ==> Lookup(code, s) == Signed(s[p].to)
    ensures (forall p :: 0 <= p < |s| ==> s[p].from != code) ==> Lookup(code, s) == -1
  {
    if forall p :: 0 <= p < |s| ==> s[p].from != code {
      SearchMisses(code, s, 0, |s| - 1);
    } else {
      forall p | 0 <= p < |s| && s[p].from == code ensures Lookup(code, s) == Signed(s[p].to) {
        SearchFindsAbove(s, 0, p, 0, |s| - 1);
      }
    }
  }
}
