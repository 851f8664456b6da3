/** What sorting a table makes of it: from the entries in any order to the table and the inverse that the registry
    holds. */
module SortingLaws {
  import opened Charset
  import opened CharsetLaws

  /** No two entries have the same code, and no code is 2^31 or more. */
  ghost predicate CodesDiffer(s: seq<Entry>) {
    && (forall i :: 0 <= i < |s| ==> s[i].from < 0x8000_0000)
    && (forall i, j :: 0 <= i < j < |s| ==> s[i].from != s[j].from)
  }

  lemma Whence(raw: seq<Entry>, s: seq<Entry>, i: nat) returns (p: nat)
    requires multiset(s) == multiset(raw) && i < |s|
    ensures p < |raw| && raw[p] == s[i]
  {
    assert s[i] in multiset(raw);
    p :| 0 <= p < |raw| && raw[p] == s[i];
  }

  lemma StillDiffer(raw: seq<Entry>, s: seq<Entry>, i: nat, j: nat)
    requires CodesDiffer(raw) && multiset(s) == multiset(raw) && i < j < |s|
    ensures s[i].from != s[j].from
  {
    var p := Whence(raw, s, i);
    var q := Whence(raw, s, j);
    if p == q {
      EqualEntriesTwice(s, i, j);
      DistinctEntriesOnce(raw, raw[p]);
    }
  }

  /** Distinct codes below 2^31, sorted, ascend. */
  lemma SortedAscends(raw: seq<Entry>, s: seq<Entry>)
    requires CodesDiffer(raw) && multiset(s) == multiset(raw) && Sorted(s)
    ensures DistinctCodes(s)
  {
    forall i | 0 <= i < |s| ensures s[i].from < 0x8000_0000 {
      var p := Whence(raw, s, i);
    }
    forall i, j | 0 <= i < j < |s| ensures s[i].from < s[j].from {
      StillDiffer(raw, s, i, j);
      assert Signed(s[i].from) <= Signed(s[j].from);
    }
  }

  lemma StillInjective(raw: seq<Entry>, s: seq<Entry>)
    requires CodesDiffer(raw) && multiset(s) == multiset(raw) && Injective(raw)
    ensures Injective(s)
  {
    forall i, j | 0 <= i < j < |s| && Mapped(s[i]) && Mapped(s[j]) ensures s[i].to != s[j].to {
      StillDiffer(raw, s, i, j);
      var p := Whence(raw, s, i);
      var q := Whence(raw, s, j);
    }
  }

  /** Sorting has one outcome only. */
  lemma {:induction false} SortedIsUnique(s: seq<Entry>, t: seq<Entry>)
    requires DistinctCodes(s) && DistinctCodes(t) && multiset(s) == multiset(t)
    ensures s == t
  {
    SameMultisetSameLength(s, t);
    if s != [] {
      var p := Whence(t, s, 0);
      var q := Whence(s, t, 0);
      assert s[0] == t[0];
      HeadOut(s);
      HeadOut(t);
      SameBesides(multiset(s[1..]), multiset(t[1..]), s[0]);
      SortedIsUnique(s[1..], t[1..]);
    }
  }

  lemma {:induction false} UnmappedOfParts(a: seq<Entry>, b: seq<Entry>)
    ensures Unmapped(a + b) == Unmapped(a) + Unmapped(b)
  {
    if a == [] {
      assert a + b == b;
    } else {
      assert (a + b)[1..] == a[1..] + b;
      UnmappedOfParts(a[1..], b);
    }
  }

  lemma {:induction false} UnmappedOfMultiset(a: seq<Entry>, b: seq<Entry>)
    requires multiset(a) == multiset(b)
    ensures Unmapped(a) == Unmapped(b)
  {
    if a == [] {
      SameMultisetSameLength(a, b);
    } else {
      hide Unmapped;
      var j := WithoutOne(a, b);
      HeadOut(a);
      OneOut(b, j);
      UnmappedOfMultiset(a[1..], b[..j] + b[j + 1..]);
      UnmappedOfParts(b[..j], [b[j]] + b[j + 1..]);
      UnmappedOfParts([b[j]], b[j + 1..]);
      UnmappedOfParts(b[..j], b[j + 1..]);
      UnmappedOfParts([a[0]], a[1..]);
    }
  }
}
