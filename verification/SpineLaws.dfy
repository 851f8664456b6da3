/** For which numbers of entries and of unmapped codes the inverse of a table finds all it should, and a table where it
    does not. */
module SpineLaws {
  import opened Charset
  import opened CharsetLaws

  function Pow2(j: nat): nat {
    if j == 0 then 1 else 2 * Pow2(j - 1)
  }

  /** The closed form: some doubling of `k + 1` is at most `n + 1`, and that of `k + 2` is more. */
  ghost predicate Reaching(k: nat, n: nat) {
    exists i: nat :: Doubled(k, n, i)
  }

  ghost predicate Doubled(k: nat, n: nat, i: nat) {
    (k + 1) * Pow2(i) <= n + 1 < (k + 2) * Pow2(i)
  }

  lemma DoubledHalf(k: nat, n: nat, i: nat)
    ensures Doubled(k, n, i + 1) <==> n > 0 && Doubled(k, (n - 1) / 2, i)
  {
    var p, q := (k + 1) * Pow2(i), (k + 2) * Pow2(i);
    assert (k + 1) * Pow2(i + 1) == 2 * p && (k + 2) * Pow2(i + 1) == 2 * q;
    PowerPositive(i);
    assert p >= Pow2(i) >= 1;
  }

  lemma {:induction false} PowerPositive(j: nat)
    ensures Pow2(j) >= 1 && Pow2(j) > j
  {
    if j > 0 {
      PowerPositive(j - 1);
    }
  }

  lemma DoubledSmall(k: nat, n: nat, i: nat)
    requires Doubled(k, n, i)
    ensures k <= n && (i == 0 <==> n == k)
  {
    PowerPositive(i);
    if i == 0 {
      assert (k + 1) * 1 <= n + 1 < (k + 2) * 1;
    } else {
      AtLeastTwice(k + 1, Pow2(i));
    }
  }

  lemma AtLeastTwice(c: nat, p: nat)
    requires p >= 2
    ensures c * p >= 2 * c
  {
    assert c * p == 2 * c + c * (p - 2);
  }

  /** With `k` unmapped codes in `n` entries all mapped ones are in reach of the search exactly in the closed form. */
  lemma {:induction false} SpineClosed(k: nat, n: nat)
    requires k <= n
    ensures LeftSpineReaches(k, n - 1) <==> Reaching(k, n)
    decreases n
  {
    if n == k {
      assert Pow2(0) == 1;
      assert Doubled(k, n, 0);
    } else {
      var half := (n - 1) / 2;
      assert LeftSpineReaches(k, n - 1) <==> half >= k && LeftSpineReaches(k, half - 1);
      if half >= k {
        SpineClosed(k, half);
      }
      if Reaching(k, n) {
        var i: nat :| Doubled(k, n, i);
        DoubledSmall(k, n, i);
        DoubledHalf(k, n, i - 1);
        DoubledSmall(k, half, i - 1);
        assert Reaching(k, half);
      }
      if half >= k && Reaching(k, half) {
        var i: nat :| Doubled(k, half, i);
        DoubledHalf(k, n, i);
      }
    }
  }

  /** A table of 256 entries: none unmapped, all of them, or one less than a power of two up to 127. */
  lemma SpineOf256(k: nat)
    requires k <= 256
    ensures LeftSpineReaches(k, 255) <==> k in {0, 1, 3, 7, 15, 31, 63, 127, 256}
  {
    SpineClosed(k, 256);
    PowersTo256();
    if Reaching(k, 256) {
      var i: nat :| Doubled(k, 256, i);
      if i > 8 {
        PowersGrow(9, i);
        assert (k + 1) * Pow2(i) >= Pow2(i);
      }
    }
    if k in {0, 1, 3, 7, 15, 31, 63, 127, 256} {
      var i := if k == 256 then 0 else if k == 127 then 1 else if k == 63 then 2 else if k == 31 then 3
               else if k == 15 then 4 else if k == 7 then 5 else if k == 3 then 6 else if k == 1 then 7 else 8;
      assert Doubled(k, 256, i);
    }
  }

  lemma PowersTo256()
    ensures Pow2(0) == 1 && Pow2(1) == 2 && Pow2(2) == 4 && Pow2(3) == 8 && Pow2(4) == 16
    ensures Pow2(5) == 32 && Pow2(6) == 64 && Pow2(7) == 128 && Pow2(8) == 256 && Pow2(9) == 512
  {
  }

  lemma {:induction false} PowersGrow(i: nat, j: nat)
    requires i <= j
    ensures Pow2(i) <= Pow2(j)
  {
    if i < j {
      PowersGrow(i, j - 1);
    }
  }

  /** One unmapped code and `n` entries: a mapped one is lost exactly if `n` is from 3 * 2^j - 1 to 4 * 2^j - 2, as
      are 2, 5 and 6, 11 to 14, 23 to 30, and 191 to 254. */
  ghost predicate LosesWithOne(n: nat) {
    exists j: nat :: UpperHalf(n, j)
  }

  ghost predicate UpperHalf(n: nat, j: nat) {
    3 * Pow2(j) - 1 <= n <= 4 * Pow2(j) - 2
  }

  lemma {:induction false} Bracket(m: nat) returns (a: nat)
    requires m >= 2
    ensures 2 * Pow2(a) <= m < 4 * Pow2(a)
  {
    if m < 4 {
      a := 0;
    } else {
      a := Bracket(m / 2);
      a := a + 1;
    }
  }

  lemma NextPower(i: nat, j: nat)
    ensures i < j ==> 2 * Pow2(i) <= Pow2(j)
  {
    if i < j {
      PowersGrow(i + 1, j);
    }
  }

  lemma BracketOnce(m: nat, a: nat, b: nat)
    requires 2 * Pow2(a) <= m < 4 * Pow2(a) && 2 * Pow2(b) <= m < 4 * Pow2(b)
    ensures a == b
  {
    NextPower(a, b);
    NextPower(b, a);
  }

  lemma SpineOfOne(n: nat)
    requires n >= 1
    ensures LeftSpineReaches(1, n - 1) <==> !LosesWithOne(n)
  {
    SpineClosed(1, n);
    var a := Bracket(n + 1);
    if n + 1 < 3 * Pow2(a) {
      assert Doubled(1, n, a);
      if LosesWithOne(n) {
        var j: nat :| UpperHalf(n, j);
        BracketOnce(n + 1, a, j);
      }
    } else {
      assert UpperHalf(n, a);
      if Reaching(1, n) {
        var i: nat :| Doubled(1, n, i);
        BracketOnce(n + 1, a, i);
      }
    }
  }

  // ----- a table that loses a character

  /** 191 codes; code 0 has no code point, the others are their own. */
  function LossyTable(): (s: seq<Entry>)
    ensures |s| == 191
    ensures forall i :: 0 <= i < |s| ==> s[i] == Entry(i, if i == 0 then 0xFFFF_FFFF else i)
  {
    seq(191, i requires 0 <= i < 191 => Entry(i, if i == 0 then 0xFFFF_FFFF else i))
  }

  lemma GoesLeft(inv: seq<Entry>, top: nat)
    requires top < |inv| && inv[top / 2].from > 1
    ensures Search(1, inv, 0, top) == Search(1, inv, 0, top / 2 - 1)
  {
  }

  lemma OneNotFound(inv: seq<Entry>)
    requires |inv| == 191 && forall i :: 0 <= i < 191 ==> inv[i].from == if i == 0 then 0xFFFF_FFFF else i
    ensures Lookup(1, inv) == -1
  {
    hide Search;
    GoesLeft(inv, 190);
    GoesLeft(inv, 94);
    GoesLeft(inv, 46);
    GoesLeft(inv, 22);
    GoesLeft(inv, 10);
    GoesLeft(inv, 4);
    GoesLeft(inv, 1);
    assert Search(1, inv, 0, -1) == -1 by { NothingToSearch(inv); }
  }

  lemma NothingToSearch(inv: seq<Entry>)
    ensures Search(1, inv, 0, -1) == -1
  {
  }

  /** Its inverse sorts the unmapped code first, and the search for 1 goes left past it. */
  lemma OneIsLost()
    ensures DistinctCodes(LossyTable()) && Injective(LossyTable()) && Inverse(Flip(LossyTable()), LossyTable())
    ensures Lookup(1, LossyTable()) == 1 && Lookup(1, Flip(LossyTable())) == -1
  {
    hide LossyTable, Flip, Lookup;
    LookupIsCorrect(LossyTable(), 1);
    assert LossyTable()[1].from == 1;
    OneNotFound(Flip(LossyTable()));
  }
}
