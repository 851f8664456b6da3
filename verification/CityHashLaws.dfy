/** What the hashes depend on: the bytes of the message, and not where it lies or what lies around it. */
module CityHashLaws {
  import opened Word64
  import opened CityHash

  /** The `len` bytes at `p` of `s` are those at `q` of `t`. */
  ghost predicate Same(s: seq<bv8>, p: nat, t: seq<bv8>, q: nat, len: nat) {
    p + len <= |s| && q + len <= |t| && forall j :: p <= j < p + len ==> s[j] == t[j - p + q]
  }

  lemma SamePart(s: seq<bv8>, p: nat, t: seq<bv8>, q: nat, len: nat, i: nat, n: nat)
    requires Same(s, p, t, q, len) && i + n <= len
    ensures Same(s, p + i, t, q + i, n)
  {
    forall j | p + i <= j < p + i + n ensures s[j] == t[j - (p + i) + (q + i)] {
      assert s[j] == t[j - p + q];
    }
  }

  lemma ByteSame(s: seq<bv8>, p: nat, t: seq<bv8>, q: nat, len: nat, i: nat)
    requires Same(s, p, t, q, len) && i < len
    ensures s[p + i] == t[q + i]
  {
  }

  lemma Fits(s: seq<bv8>, p: nat, t: seq<bv8>, q: nat, len: nat)
    requires Same(s, p, t, q, len)
    ensures p + len <= |s| && q + len <= |t|
  {
  }

  lemma FetchSame(s: seq<bv8>, p: nat, t: seq<bv8>, q: nat, len: nat, i: nat)
    requires Same(s, p, t, q, len) && i + 8 <= len
    ensures Fetch64(s, p + i) == Fetch64(t, q + i)
  {
    SamePart(s, p, t, q, len, i, 8);
    EightBytes(s, p + i, t, q + i);
  }

  lemma EightBytes(s: seq<bv8>, p: nat, t: seq<bv8>, q: nat)
    requires Same(s, p, t, q, 8)
    ensures Fetch64(s, p) == Fetch64(t, q)
  {
  }

  lemma FourBytes(s: seq<bv8>, p: nat, t: seq<bv8>, q: nat)
    requires Same(s, p, t, q, 4)
    ensures Fetch32(s, p) == Fetch32(t, q)
  {
  }

  lemma WeakHashSame(s: seq<bv8>, p: nat, t: seq<bv8>, q: nat, len: nat, i: nat, a: bv64, b: bv64)
    requires Same(s, p, t, q, len) && i + 32 <= len
    ensures WeakHashAt(s, p + i, a, b) == WeakHashAt(t, q + i, a, b)
  {
    hide Fetch64, WeakHash, Same;
    FetchSame(s, p, t, q, len, i);
    FetchSame(s, p, t, q, len, i + 8);
    FetchSame(s, p, t, q, len, i + 16);
    FetchSame(s, p, t, q, len, i + 24);
  }

  lemma TinySame(s: seq<bv8>, p: nat, t: seq<bv8>, q: nat, len: nat)
    requires InMessage(s, p, len) && InMessage(t, q, len) && Same(s, p, t, q, len) && len < 4
    ensures HashLen0to16(s, p, len) == HashLen0to16(t, q, len)
  {
    hide HashTiny, FromLength, Same;
    if len > 0 {
      ByteSame(s, p, t, q, len, 0);
      ByteSame(s, p, t, q, len, len / 2);
      ByteSame(s, p, t, q, len, len - 1);
    }
  }

  lemma FewSame(s: seq<bv8>, p: nat, t: seq<bv8>, q: nat, len: nat)
    requires InMessage(s, p, len) && InMessage(t, q, len) && Same(s, p, t, q, len) && 4 <= len <= 8
    ensures HashLen0to16(s, p, len) == HashLen0to16(t, q, len)
  {
    hide Fetch32, HashLen16, Add, TimesEight, FromLength, Same;
    SamePart(s, p, t, q, len, 0, 4);
    SamePart(s, p, t, q, len, len - 4, 4);
    FourBytes(s, p, t, q);
    FourBytes(s, p + len - 4, t, q + len - 4);
  }

  lemma NineSame(s: seq<bv8>, p: nat, t: seq<bv8>, q: nat, len: nat)
    requires InMessage(s, p, len) && InMessage(t, q, len) && Same(s, p, t, q, len) && 8 < len <= 16
    ensures HashLen0to16(s, p, len) == HashLen0to16(t, q, len)
  {
    hide Fetch64, HashLen16, Add, Xor, Rotate, FromLength, Same;
    FetchSame(s, p, t, q, len, 0);
    FetchSame(s, p, t, q, len, len - 8);
  }

  lemma ShortSame(s: seq<bv8>, p: nat, t: seq<bv8>, q: nat, len: nat)
    requires InMessage(s, p, len) && InMessage(t, q, len) && Same(s, p, t, q, len)
    ensures len <= 16 ==> HashLen0to16(s, p, len) == HashLen0to16(t, q, len)
  {
    hide HashLen0to16, Same;
    if len < 4 {
      TinySame(s, p, t, q, len);
    } else if len <= 8 {
      FewSame(s, p, t, q, len);
    } else if len <= 16 {
      NineSame(s, p, t, q, len);
    }
  }

  lemma MediumSame(s: seq<bv8>, p: nat, t: seq<bv8>, q: nat, len: nat)
    requires InMessage(s, p, len) && InMessage(t, q, len) && Same(s, p, t, q, len)
    ensures 16 < len <= 32 ==> HashLen17to32(s, p, len) == HashLen17to32(t, q, len)
    ensures 32 < len <= 64 ==> HashLen33to64(s, p, len) == HashLen33to64(t, q, len)
  {
    hide Fetch64, HashLen16, Fold, Add, Sub, Mul, Xor, Rotate, ShiftMix, FromLength, Same;
    if len > 16 {
      FetchSame(s, p, t, q, len, 0);
      FetchSame(s, p, t, q, len, 8);
      FetchSame(s, p, t, q, len, len - 8);
      FetchSame(s, p, t, q, len, len - 16);
    }
    if len > 32 {
      FetchSame(s, p, t, q, len, 16);
      FetchSame(s, p, t, q, len, 24);
      FetchSame(s, p, t, q, len, len - 24);
      FetchSame(s, p, t, q, len, len - 32);
    }
  }

  lemma StepSame(st: State, s: seq<bv8>, p: nat, t: seq<bv8>, q: nat, len: nat, i: nat)
    requires Same(s, p, t, q, len) && i + 64 <= len
    ensures Step(st, s, p + i) == Step(st, t, q + i)
  {
    hide Fetch64, WeakHashAt, Add, Mul, Xor, Rotate, Same;
    Fits(s, p, t, q, len);
    FetchSame(s, p, t, q, len, i + 16);
    FetchSame(s, p, t, q, len, i + 48);
    var x := Xor(Mul(Rotate(Add(Add(Add(st.x, st.y), st.v.first), Fetch64(s, p + i + 16)), 37), K1), st.w.second);
    var y := Xor(Mul(Rotate(Add(Add(st.y, st.v.second), Fetch64(s, p + i + 48)), 42), K1), st.v.first);
    var z := Rotate(Xor(st.z, st.w.first), 33);
    WeakHashSame(s, p, t, q, len, i, Mul(st.v.second, K1), Add(x, st.w.first));
    WeakHashSame(s, p, t, q, len, i + 32, Add(z, st.w.second), y);
  }

  lemma {:induction false} StepsSame(st: State, s: seq<bv8>, p: nat, t: seq<bv8>, q: nat, len: nat, n: nat)
    requires Same(s, p, t, q, len) && 64 * n <= len
    ensures Steps(st, s, p, n) == Steps(st, t, q, n)
  {
    hide Step, Same;
    Fits(s, p, t, q, len);
    if n > 0 {
      StepsSame(st, s, p, t, q, len, n - 1);
      StepSame(Steps(st, s, p, n - 1), s, p, t, q, len, 64 * (n - 1));
    }
  }

  lemma Start64Same(s: seq<bv8>, p: nat, t: seq<bv8>, q: nat, len: nat)
    requires InMessage(s, p, len) && InMessage(t, q, len) && Same(s, p, t, q, len) && len > 64
    ensures Start64(s, p, len) == Start64(t, q, len)
  {
    hide Fetch64, WeakHashAt, Add, Mul, Xor, Rotate, ShiftMix, FromLength, Same;
    FetchSame(s, p, t, q, len, 0);
    FetchSame(s, p, t, q, len, len - 16);
    FetchSame(s, p, t, q, len, len - 56);
    WeakHashSame(s, p, t, q, len, len - 64, FromLength(len), Xor(Fetch64(s, p + len - 16), K1));
    WeakHashSame(s, p, t, q, len, len - 32, Mul(FromLength(len), K1), K0);
  }

  /** CityHash64 depends on the bytes of the message alone. */
  lemma Hash64Same(s: seq<bv8>, p: nat, t: seq<bv8>, q: nat, len: nat)
    requires InMessage(s, p, len) && InMessage(t, q, len) && Same(s, p, t, q, len)
    ensures Hash64(s, p, len) == Hash64(t, q, len)
  {
    hide HashLen0to16, HashLen17to32, HashLen33to64, Start64, Finish64, Steps, Same;
    ShortSame(s, p, t, q, len);
    MediumSame(s, p, t, q, len);
    if len > 64 {
      Start64Same(s, p, t, q, len);
      StepsSame(Start64(s, p, len), s, p, t, q, len, (len - 1) / 64);
    }
  }

  lemma {:induction false} MurmurStepsSame(st: Murmur, s: seq<bv8>, p: nat, t: seq<bv8>, q: nat, len: nat, n: nat)
    requires Same(s, p, t, q, len) && 16 * n <= len
    ensures MurmurSteps(st, s, p, n) == MurmurSteps(st, t, q, n)
  {
    hide MurmurStep, Fetch64, Same;
    if n > 0 {
      MurmurStepsSame(st, s, p, t, q, len, n - 1);
      FetchSame(s, p, t, q, len, 16 * (n - 1));
      FetchSame(s, p, t, q, len, 16 * (n - 1) + 8);
    }
  }

  lemma MurmurSame(s: seq<bv8>, p: nat, t: seq<bv8>, q: nat, len: nat, seed: Pair)
    requires InMessage(s, p, len) && InMessage(t, q, len) && Same(s, p, t, q, len)
    ensures MurmurState(s, p, len, seed) == MurmurState(t, q, len, seed)
  {
    hide Fetch64, HashLen0to16, HashLen16, MurmurSteps, Add, Mul, ShiftMix, FromLength, Same;
    ShortSame(s, p, t, q, len);
    if len >= 8 {
      FetchSame(s, p, t, q, len, 0);
    }
    if len > 16 {
      FetchSame(s, p, t, q, len, len - 8);
      FetchSame(s, p, t, q, len, len - 16);
      MurmurStepsSame(MurmurStart(s, p, len, seed), s, p, t, q, len, (len - 1) / 16);
    }
  }

  lemma Start128Same(s: seq<bv8>, p: nat, t: seq<bv8>, q: nat, len: nat, seed: Pair)
    requires InMessage(s, p, len) && InMessage(t, q, len) && Same(s, p, t, q, len) && len >= 128
    ensures Start128(s, p, len, seed) == Start128(t, q, len, seed)
  {
    hide Fetch64, Add, Mul, Xor, Rotate, FromLength, Same;
    FetchSame(s, p, t, q, len, 0);
    FetchSame(s, p, t, q, len, 8);
    FetchSame(s, p, t, q, len, 88);
  }

  lemma TailStepSame(st: State, s: seq<bv8>, p: nat, t: seq<bv8>, q: nat, len: nat, i: nat)
    requires Same(s, p, t, q, len) && i + 32 <= len
    ensures TailStep(st, s, p + i) == TailStep(st, t, q + i)
  {
    hide Fetch64, WeakHashAt, Add, Sub, Mul, Rotate, Same;
    Fits(s, p, t, q, len);
    FetchSame(s, p, t, q, len, i + 16);
    WeakHashSame(s, p, t, q, len, i, st.v.first, st.v.second);
  }

  lemma {:induction false} TailStepsSame(st: State, s: seq<bv8>, p: nat, t: seq<bv8>, q: nat, len: nat, n: nat)
    requires Same(s, p, t, q, len) && 32 * n <= len
    ensures TailSteps(st, s, p + len, n) == TailSteps(st, t, q + len, n)
  {
    hide TailStep, Same;
    Fits(s, p, t, q, len);
    if n > 0 {
      TailStepsSame(st, s, p, t, q, len, n - 1);
      TailStepSame(TailSteps(st, s, p + len, n - 1), s, p, t, q, len, len - 32 * n);
    }
  }

  lemma SeededSame(s: seq<bv8>, p: nat, t: seq<bv8>, q: nat, len: nat, seed: Pair)
    requires InMessage(s, p, len) && InMessage(t, q, len) && Same(s, p, t, q, len)
    ensures Hash128WithSeed(s, p, len, seed) == Hash128WithSeed(t, q, len, seed)
  {
    hide MurmurState, MurmurFinish, Start128, Bridge128, Finish128, Steps, TailSteps, Same;
    if len < 128 {
      MurmurSame(s, p, t, q, len, seed);
    } else {
      Start128Same(s, p, t, q, len, seed);
      var start := Start128(s, p, len, seed);
      StepsSame(start, s, p, t, q, len, 2 * (len / 128));
      TailStepsSame(Bridge128(Steps(start, s, p, 2 * (len / 128))), s, p, t, q, len, (len % 128 + 31) / 32);
    }
  }

  /** CityHash128 depends on the bytes of the message alone, although its tail loop reads backwards. */
  lemma Hash128Same(s: seq<bv8>, p: nat, t: seq<bv8>, q: nat, len: nat)
    requires InMessage(s, p, len) && InMessage(t, q, len) && Same(s, p, t, q, len)
    ensures Hash128(s, p, len) == Hash128(t, q, len)
  {
    hide Fetch64, Hash128WithSeed, Xor, Mul, FromLength, Same;
    if len >= 16 {
      FetchSame(s, p, t, q, len, 0);
      FetchSame(s, p, t, q, len, 8);
      SamePart(s, p, t, q, len, 16, len - 16);
      SeededSame(s, p + 16, t, q + 16, len - 16, Pair(Xor(Fetch64(s, p), K3), Fetch64(s, p + 8)));
    } else if len >= 8 {
      FetchSame(s, p, t, q, len, 0);
      FetchSame(s, p, t, q, len, len - 8);
    } else {
      SeededSame(s, p, t, q, len, Pair(K0, K1));
    }
  }
}
