/** CityMurmur's 16-byte loop loses nothing: every step can be undone, and so a change to the seed state or to
    any one block is still visible in the state that the final mix receives. */
module CityMurmurLaws {
  import opened Word64
  import opened CityHash
  import opened CityHashLaws

  /** Takes the accumulator back out of MixIn. */
  function MixOut(mixed: bv64, m: bv64): bv64 {
    Xor(Mul(mixed, K1_INVERSE), Mul(ShiftMix(Mul(m, K1)), K1))
  }

  lemma MixOutUndoesMixIn(acc: bv64, m: bv64)
    ensures MixOut(MixIn(acc, m), m) == acc
  {
    var k := Mul(ShiftMix(Mul(m, K1)), K1);
    MulK1Undone(Xor(acc, k));
    XorCancels(acc, k);
    hide Xor, Mul, ShiftMix;
  }

  lemma MixInTellsWords(acc: bv64, m: bv64, m': bv64)
    requires MixIn(acc, m) == MixIn(acc, m')
    ensures m == m'
  {
    var x, x' := Mul(m, K1), Mul(m', K1);
    var k, k' := Mul(ShiftMix(x), K1), Mul(ShiftMix(x'), K1);
    MulK1Undone(Xor(acc, k));
    MulK1Undone(Xor(acc, k'));
    XorCommutes(acc, k);
    XorCommutes(acc, k');
    XorCancels(k, acc);
    XorCancels(k', acc);
    MulK1Undone(ShiftMix(x));
    MulK1Undone(ShiftMix(x'));
    ShiftMixUndoesItself(x);
    ShiftMixUndoesItself(x');
    MulK1Undone(m);
    MulK1Undone(m');
    hide Xor, Mul, ShiftMix;
  }

  /** For a fixed block the step is one-to-one on states. */
  lemma StepTellsStates(st: Murmur, st': Murmur, m0: bv64, m1: bv64)
    ensures MurmurStep(st, m0, m1) == MurmurStep(st', m0, m1) <==> st == st'
  {
    MixOutUndoesMixIn(st.a, m0);
    MixOutUndoesMixIn(st'.a, m0);
    MixOutUndoesMixIn(st.c, m1);
    MixOutUndoesMixIn(st'.c, m1);
    XorCancels(st.b, MixIn(st.a, m0));
    XorCancels(st'.b, MixIn(st'.a, m0));
    XorCancels(st.d, MixIn(st.c, m1));
    XorCancels(st'.d, MixIn(st'.c, m1));
    hide Xor, MixIn, MixOut;
  }

  /** For a fixed state the step is one-to-one on blocks. */
  lemma StepTellsBlocks(st: Murmur, m0: bv64, m1: bv64, m0': bv64, m1': bv64)
    ensures MurmurStep(st, m0, m1) == MurmurStep(st, m0', m1') <==> m0 == m0' && m1 == m1'
  {
    hide Xor, MixIn;
    if MurmurStep(st, m0, m1) == MurmurStep(st, m0', m1') {
      MixInTellsWords(st.a, m0, m0');
      MixInTellsWords(st.c, m1, m1');
    }
  }

  lemma FetchReadsEightBytes(s: seq<bv8>, t: seq<bv8>, p: nat)
    requires p + 8 <= |s| && p + 8 <= |t|
    ensures Fetch64(s, p) == Fetch64(t, p) <==> s[p..p + 8] == t[p..p + 8]
  {
    hide Fetch64;
    if Fetch64(s, p) == Fetch64(t, p) {
      FetchTellsBytes(s, t, p);
    }
    if s[p..p + 8] == t[p..p + 8] {
      forall i | p <= i < p + 8 ensures s[i] == t[i] {
        assert s[p..p + 8][i - p] == t[p..p + 8][i - p];
      }
      EightBytes(s, p, t, p);
    }
  }

  lemma FetchTellsBytes(s: seq<bv8>, t: seq<bv8>, p: nat)
    requires p + 8 <= |s| && p + 8 <= |t| && Fetch64(s, p) == Fetch64(t, p)
    ensures s[p] == t[p] && s[p + 1] == t[p + 1] && s[p + 2] == t[p + 2] && s[p + 3] == t[p + 3]
    ensures s[p + 4] == t[p + 4] && s[p + 5] == t[p + 5] && s[p + 6] == t[p + 6] && s[p + 7] == t[p + 7]
  {
  }

  lemma TwoWordsAreABlock(s: seq<bv8>, t: seq<bv8>, p: nat)
    requires p + 16 <= |s| && p + 16 <= |t|
    ensures Fetch64(s, p) == Fetch64(t, p) && Fetch64(s, p + 8) == Fetch64(t, p + 8)
            <==> s[p..p + 16] == t[p..p + 16]
  {
    hide Fetch64;
    FetchReadsEightBytes(s, t, p);
    FetchReadsEightBytes(s, t, p + 8);
    assert s[p..p + 16] == s[p..p + 8] + s[p + 8..p + 16];
    assert t[p..p + 16] == t[p..p + 8] + t[p + 8..p + 16];
    assert s[p..p + 8] == s[p..p + 16][..8] && t[p..p + 8] == t[p..p + 16][..8];
    assert s[p + 8..p + 16] == s[p..p + 16][8..] && t[p + 8..p + 16] == t[p..p + 16][8..];
  }

  /** Two messages agree from `lo` to `hi`. */
  ghost predicate SameOn(s: seq<bv8>, t: seq<bv8>, lo: nat, hi: nat)
    requires hi <= |s| && hi <= |t|
  {
    lo <= hi ==> Same(s, lo, t, lo, hi - lo)
  }

  /** The whole loop is one-to-one on states, whatever the message. */
  lemma {:induction false} StepsTellStates(st: Murmur, st': Murmur, s: seq<bv8>, p: nat, n: nat)
    requires p + 16 * n <= |s|
    ensures MurmurSteps(st, s, p, n) == MurmurSteps(st', s, p, n) <==> st == st'
  {
    hide MurmurStep, Fetch64;
    if n > 0 {
      StepsTellStates(st, st', s, p, n - 1);
      StepTellsStates(MurmurSteps(st, s, p, n - 1), MurmurSteps(st', s, p, n - 1),
                      Fetch64(s, p + 16 * (n - 1)), Fetch64(s, p + 16 * (n - 1) + 8));
    }
  }

  /** Two messages that agree on every one of `n` blocks except perhaps block `k`, from the same state. */
  lemma {:induction false} StepsTellBlock(st: Murmur, s: seq<bv8>, t: seq<bv8>, p: nat, n: nat, k: nat)
    requires p + 16 * n <= |s| && p + 16 * n <= |t| && k < n
    requires SameOn(s, t, p, p + 16 * k) && SameOn(s, t, p + 16 * k + 16, p + 16 * n)
    ensures MurmurSteps(st, s, p, n) == MurmurSteps(st, t, p, n)
            <==> s[p + 16 * k..p + 16 * k + 16] == t[p + 16 * k..p + 16 * k + 16]
  {
    hide MurmurStep, Fetch64;
    var m := n - 1;
    var last := p + 16 * m;
    var before, before' := MurmurSteps(st, s, p, m), MurmurSteps(st, t, p, m);
    if k == m {
      MurmurStepsSame(st, s, p, t, p, 16 * m, m);
      TwoWordsAreABlock(s, t, last);
      StepTellsBlocks(before, Fetch64(s, last), Fetch64(s, last + 8), Fetch64(t, last), Fetch64(t, last + 8));
    } else {
      StepsTellBlock(st, s, t, p, m, k);
      SamePart(s, p + 16 * k + 16, t, p + 16 * k + 16, 16 * (m - k), 16 * (m - k - 1), 16);
      FetchSame(s, last, t, last, 16, 0);
      FetchSame(s, last, t, last, 16, 8);
      StepTellsStates(before, before', Fetch64(s, last), Fetch64(s, last + 8));
    }
  }

  /** Messages of one length above 16, one seed and the same last 16 bytes that differ in at most loop block `k`:
      the state before the final mix is the same exactly when the messages are. */
  lemma MurmurTellsBlock(s: seq<bv8>, t: seq<bv8>, p: nat, len: nat, seed: Pair, k: nat)
    requires InMessage(s, p, len) && InMessage(t, p, len) && len > 16 && k < (len - 1) / 16
    requires SameOn(s, t, p, p + 16 * k) && SameOn(s, t, p + 16 * k + 16, p + len)
    requires SameOn(s, t, p + len - 16, p + len)
    ensures MurmurState(s, p, len, seed) == MurmurState(t, p, len, seed) <==> s[p..p + len] == t[p..p + len]
  {
    hide MurmurStep, Fetch64, HashLen16, Add, FromLength;
    var n := (len - 1) / 16;
    FetchSame(s, p + len - 16, t, p + len - 16, 16, 8);
    FetchSame(s, p + len - 16, t, p + len - 16, 16, 0);
    assert MurmurStart(s, p, len, seed) == MurmurStart(t, p, len, seed);
    StepsTellBlock(MurmurStart(s, p, len, seed), s, t, p, n, k);
    SliceSplits(s, t, p, p + 16 * k, p + 16 * k + 16, p + len);
  }

  lemma SliceSplits(s: seq<bv8>, t: seq<bv8>, a: nat, b: nat, c: nat, d: nat)
    requires a <= b <= c <= d <= |s| && d <= |t| && SameOn(s, t, a, b) && SameOn(s, t, c, d)
    ensures s[a..d] == t[a..d] <==> s[b..c] == t[b..c]
  {
    assert s[a..d] == s[a..b] + s[b..c] + s[c..d];
    assert t[a..d] == t[a..b] + t[b..c] + t[c..d];
    assert s[a..b] == t[a..b] && s[c..d] == t[c..d];
    assert s[b..c] == s[a..d][b - a..c - a] && t[b..c] == t[a..d][b - a..c - a];
  }

  /** For a message above 16 bytes the loop keeps apart any two states it may start from. */
  lemma MurmurTellsStart(s: seq<bv8>, p: nat, len: nat, seed: Pair, seed': Pair)
    requires InMessage(s, p, len) && len > 16
    ensures MurmurState(s, p, len, seed) == MurmurState(s, p, len, seed')
            <==> MurmurStart(s, p, len, seed) == MurmurStart(s, p, len, seed')
  {
    hide MurmurStep, Fetch64, MurmurStart;
    StepsTellStates(MurmurStart(s, p, len, seed), MurmurStart(s, p, len, seed'), s, p, (len - 1) / 16);
  }

  /** Hash128to64 is one-to-one in its low word: the final mix keeps whatever its first argument tells apart. */
  lemma HashLen16TellsLowWords(u: bv64, u': bv64, v: bv64)
    ensures HashLen16(u, v) == HashLen16(u', v) <==> u == u'
  {
    hide Xor, Mul, ShiftMix;
    if HashLen16(u, v) == HashLen16(u', v) {
      var a, a' := ShiftMix(Mul(Xor(u, v), K_MUL)), ShiftMix(Mul(Xor(u', v), K_MUL));
      UnMulK(ShiftMix(Mul(Xor(v, a), K_MUL)), ShiftMix(Mul(Xor(v, a'), K_MUL)));
      UnShiftMul(Xor(v, a), Xor(v, a'));
      XorCommutes(v, a);
      XorCommutes(v, a');
      XorCancels(a, v);
      XorCancels(a', v);
      UnShiftMul(Xor(u, v), Xor(u', v));
      XorCancels(u, v);
      XorCancels(u', v);
    }
  }

  lemma UnMulK(x: bv64, y: bv64)
    requires Mul(x, K_MUL) == Mul(y, K_MUL)
    ensures x == y
  {
    hide *;
    MulKMulUndone(x);
    MulKMulUndone(y);
  }

  lemma UnShiftMul(x: bv64, y: bv64)
    requires ShiftMix(Mul(x, K_MUL)) == ShiftMix(Mul(y, K_MUL))
    ensures x == y
  {
    hide *;
    ShiftMixUndoesItself(Mul(x, K_MUL));
    ShiftMixUndoesItself(Mul(y, K_MUL));
    UnMulK(x, y);
  }
}
