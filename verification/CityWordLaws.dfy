/** Nothing that is fetched is lost: every word that goes into a step of the hashes can be told from its result, and
    so can every word of the state. */
module CityWordLaws {
  import opened Word64
  import opened WordTells
  import opened CityHash
  import opened CityHashLaws
  import opened CityMurmurLaws

  /** Equal but for one word at most. */
  ghost predicate DifferInOne(m: seq<bv64>, n: seq<bv64>) {
    |m| == |n| && forall i, j :: 0 <= i < j < |m| ==> m[i] == n[i] || m[j] == n[j]
  }

  function Words(s: seq<bv8>, p: nat, n: nat): (m: seq<bv64>)
    requires p + 8 * n <= |s|
    ensures |m| == n && forall i :: 0 <= i < n ==> m[i] == Fetch64(s, p + 8 * i)
  {
    if n == 0 then [] else Words(s, p, n - 1) + [Fetch64(s, p + 8 * (n - 1))]
  }

  // ----- the weak hash

  lemma WeakHashFirst(w: bv64, x: bv64, y: bv64, z: bv64, a: bv64, b: bv64)
    ensures WeakHash(w, x, y, z, a, b).first == Add(Add(Add(Add(a, w), x), y), z)
  {
    hide Add, Rotate;
  }

  /** The weak hash is one-to-one in each of its four words and of its two seeds. */
  lemma WeakHashTells(m: seq<bv64>, n: seq<bv64>)
    requires |m| == 6 && DifferInOne(m, n)
    ensures WeakHash(m[0], m[1], m[2], m[3], m[4], m[5]) == WeakHash(n[0], n[1], n[2], n[3], n[4], n[5]) <==> m == n
  {
    hide Add, Rotate, WeakHash;
    if m[5] != n[5] {
      assert m[0] == n[0] && m[1] == n[1] && m[2] == n[2] && m[3] == n[3] && m[4] == n[4];
      WeakHashTellsLast(m[0], m[1], m[2], m[3], m[4], m[5], n[5]);
    } else if m != n {
      WeakHashFirst(m[0], m[1], m[2], m[3], m[4], m[5]);
      WeakHashFirst(n[0], n[1], n[2], n[3], n[4], n[5]);
      var c, c' := Add(m[4], m[0]), Add(n[4], n[0]);
      AddTells(m[4], n[4], n[0]);
      AddTells(m[0], n[0], n[4]);
      var d, d' := Add(c, m[1]), Add(c', n[1]);
      AddTells(c, c', n[1]);
      AddTells(m[1], n[1], c');
      AddTells(d, d', n[2]);
      AddTells(m[2], n[2], d');
      AddTells(Add(d, m[2]), Add(d', n[2]), n[3]);
      AddTells(m[3], n[3], Add(d', n[2]));
    }
  }

  lemma WeakHashTellsLast(w: bv64, x: bv64, y: bv64, z: bv64, a: bv64, b: bv64, b': bv64)
    ensures WeakHash(w, x, y, z, a, b) == WeakHash(w, x, y, z, a, b') <==> b == b'
  {
    hide Add, Rotate;
    var c := Add(a, w);
    var a2 := Add(Add(c, x), y);
    var r, r' := Rotate(Add(Add(b, c), z), 21), Rotate(Add(Add(b', c), z), 21);
    AddTells(Add(r, Rotate(a2, 44)), Add(r', Rotate(a2, 44)), c);
    AddTells(r, r', Rotate(a2, 44));
    RotateTells(Add(Add(b, c), z), Add(Add(b', c), z), 21);
    AddTells(Add(b, c), Add(b', c), z);
    AddTells(b, b', c);
  }

  /** For fixed words it is one-to-one on pairs of seeds. */
  lemma WeakHashTellsSeeds(s: seq<bv8>, p: nat, a: bv64, b: bv64, a': bv64, b': bv64)
    requires p + 32 <= |s|
    ensures WeakHashAt(s, p, a, b) == WeakHashAt(s, p, a', b') <==> a == a' && b == b'
  {
    hide Add, Rotate, WeakHash, Fetch64;
    var m := Words(s, p, 4);
    WeakHashFirst(m[0], m[1], m[2], m[3], a, b);
    WeakHashFirst(m[0], m[1], m[2], m[3], a', b');
    AddTells(a, a', m[0]);
    AddTells(Add(a, m[0]), Add(a', m[0]), m[1]);
    AddTells(Add(Add(a, m[0]), m[1]), Add(Add(a', m[0]), m[1]), m[2]);
    AddTells(Add(Add(Add(a, m[0]), m[1]), m[2]), Add(Add(Add(a', m[0]), m[1]), m[2]), m[3]);
    WeakHashTellsLast(m[0], m[1], m[2], m[3], a, b, b');
  }

  /** For fixed seeds it tells four words of which one may differ. */
  lemma WeakHashTellsWords(s: seq<bv8>, t: seq<bv8>, p: nat, a: bv64, b: bv64)
    requires p + 32 <= |s| && p + 32 <= |t| && DifferInOne(Words(s, p, 4), Words(t, p, 4))
    ensures WeakHashAt(s, p, a, b) == WeakHashAt(t, p, a, b) <==> Words(s, p, 4) == Words(t, p, 4)
  {
    hide WeakHash, Fetch64;
    var m, n := Words(s, p, 4), Words(t, p, 4);
    WeakHashTells(m + [a, b], n + [a, b]);
    assert m == (m + [a, b])[..4] && n == (n + [a, b])[..4];
  }

  // ----- the 64-byte step

  lemma StepParts(st: State, s: seq<bv8>, p: nat)
    requires p + 64 <= |s|
    ensures var r := Step(st, s, p);
            && r.z == Xor(Mul(Rotate(Add(Add(Add(st.x, st.y), st.v.first), Fetch64(s, p + 16)), 37), K1), st.w.second)
            && r.y == Xor(Mul(Rotate(Add(Add(st.y, st.v.second), Fetch64(s, p + 48)), 42), K1), st.v.first)
            && r.x == Rotate(Xor(st.z, st.w.first), 33)
            && r.v == WeakHashAt(s, p, Mul(st.v.second, K1), Add(r.z, st.w.first))
            && r.w == WeakHashAt(s, p + 32, Add(r.x, st.w.second), r.y)
  {
    hide Add, Mul, Xor, Rotate, WeakHashAt, Fetch64;
  }

  lemma HalvesDiffer(s: seq<bv8>, t: seq<bv8>, p: nat)
    requires p + 64 <= |s| && p + 64 <= |t| && DifferInOne(Words(s, p, 8), Words(t, p, 8))
    ensures DifferInOne(Words(s, p, 4), Words(t, p, 4)) && DifferInOne(Words(s, p + 32, 4), Words(t, p + 32, 4))
    ensures Words(s, p, 8) == Words(t, p, 8)
            <==> Words(s, p, 4) == Words(t, p, 4) && Words(s, p + 32, 4) == Words(t, p + 32, 4)
  {
    hide Fetch64;
    var m, n, hm, hn := Words(s, p, 8), Words(t, p, 8), Words(s, p + 32, 4), Words(t, p + 32, 4);
    assert Words(s, p, 4) == m[..4] && Words(t, p, 4) == n[..4];
    assert hm == m[4..] && hn == n[4..];
    assert m == m[..4] + m[4..] && n == n[..4] + n[4..];
  }

  /** A chunk of 64 bytes and another that differ in just one of their eight words take a state to different states. */
  lemma StepTellsWords(st: State, s: seq<bv8>, t: seq<bv8>, p: nat)
    requires p + 64 <= |s| && p + 64 <= |t| && DifferInOne(Words(s, p, 8), Words(t, p, 8))
    ensures Step(st, s, p) == Step(st, t, p) <==> Words(s, p, 8) == Words(t, p, 8)
  {
    hide Add, Mul, Xor, Rotate, WeakHashAt, Fetch64, Step;
    var m, n, r, r' := Words(s, p, 8), Words(t, p, 8), Step(st, s, p), Step(st, t, p);
    StepParts(st, s, p);
    StepParts(st, t, p);
    assert m[2] == Fetch64(s, p + 16) && n[2] == Fetch64(t, p + 16);
    assert m[6] == Fetch64(s, p + 48) && n[6] == Fetch64(t, p + 48);
    var x, y := Add(Add(st.x, st.y), st.v.first), Add(st.y, st.v.second);
    XorTells(Mul(Rotate(Add(x, m[2]), 37), K1), Mul(Rotate(Add(x, n[2]), 37), K1), st.w.second);
    MulK1Tells(Rotate(Add(x, m[2]), 37), Rotate(Add(x, n[2]), 37));
    RotateTells(Add(x, m[2]), Add(x, n[2]), 37);
    AddTells(m[2], n[2], x);
    XorTells(Mul(Rotate(Add(y, m[6]), 42), K1), Mul(Rotate(Add(y, n[6]), 42), K1), st.v.first);
    MulK1Tells(Rotate(Add(y, m[6]), 42), Rotate(Add(y, n[6]), 42));
    RotateTells(Add(y, m[6]), Add(y, n[6]), 42);
    AddTells(m[6], n[6], y);
    HalvesDiffer(s, t, p);
    if m[2] == n[2] && m[6] == n[6] {
      WeakHashTellsWords(s, t, p, Mul(st.v.second, K1), Add(r.z, st.w.first));
      WeakHashTellsWords(s, t, p + 32, Add(r.x, st.w.second), r.y);
      if m == n {
        assert r == r';
      }
    }
  }

  function StateWords(st: State): seq<bv64> {
    [st.v.first, st.v.second, st.w.first, st.w.second, st.x, st.y, st.z]
  }

  /** What x, y and v.first are mixed to, with the word at 48. */
  function Mixed(st: State, m6: bv64): bv64 {
    Xor(Mul(Rotate(Add(Add(st.y, st.v.second), m6), 42), K1), st.v.first)
  }

  /** For a fixed chunk the step keeps exactly v.second, w and z, the sum of x, y and v.first, and one mixture of y
      and v.first: six words of seven. */
  lemma StepKeeps(st: State, st': State, s: seq<bv8>, p: nat)
    requires p + 64 <= |s|
    ensures Step(st, s, p) == Step(st', s, p)
            <==> && st.v.second == st'.v.second && st.w == st'.w && st.z == st'.z
                 && Add(Add(st.x, st.y), st.v.first) == Add(Add(st'.x, st'.y), st'.v.first)
                 && Mixed(st, Fetch64(s, p + 48)) == Mixed(st', Fetch64(s, p + 48))
  {
    hide Add, Mixed, StepFrom, Step, Fetch64;
    StepIsFrom(st, s, p);
    StepIsFrom(st', s, p);
    StepFromTells(st.v.second, st.w, st.z, Add(Add(st.x, st.y), st.v.first), Mixed(st, Fetch64(s, p + 48)),
                  st'.v.second, st'.w, st'.z, Add(Add(st'.x, st'.y), st'.v.first), Mixed(st', Fetch64(s, p + 48)),
                  s, p);
  }

  /** The step as a function of what it keeps. */
  function StepFrom(v: bv64, w: Pair, z: bv64, sum: bv64, mixed: bv64, s: seq<bv8>, p: nat): State
    requires p + 64 <= |s|
  {
    var x, z1 := Rotate(Xor(z, w.first), 33), Xor(Mul(Rotate(Add(sum, Fetch64(s, p + 16)), 37), K1), w.second);
    State(WeakHashAt(s, p, Mul(v, K1), Add(z1, w.first)), WeakHashAt(s, p + 32, Add(x, w.second), mixed), x, mixed, z1)
  }

  lemma StepIsFrom(st: State, s: seq<bv8>, p: nat)
    requires p + 64 <= |s|
    ensures Step(st, s, p) == StepFrom(st.v.second, st.w, st.z, Add(Add(st.x, st.y), st.v.first),
                                       Mixed(st, Fetch64(s, p + 48)), s, p)
  {
    hide Add, Mul, Xor, Rotate, WeakHashAt, Fetch64;
  }

  lemma StepFromTells(v: bv64, w: Pair, z: bv64, u: bv64, y: bv64, v': bv64, w': Pair, z': bv64, u': bv64, y': bv64,
                      s: seq<bv8>, p: nat)
    requires p + 64 <= |s|
    ensures StepFrom(v, w, z, u, y, s, p) == StepFrom(v', w', z', u', y', s, p)
            <==> v == v' && w == w' && z == z' && u == u' && y == y'
  {
    hide Add, Mul, Xor, Rotate, WeakHashAt, Fetch64;
    var r, r' := StepFrom(v, w, z, u, y, s, p), StepFrom(v', w', z', u', y', s, p);
    if r == r' {
      assert r.v == r'.v && r.w == r'.w && r.x == r'.x && r.y == r'.y && r.z == r'.z;
      FirstHalfTold(s, p, r.z, v, w.first, v', w'.first);
      SecondHalfTold(s, p + 32, r.x, y, w.second, w'.second);
      RotateTells(Xor(z, w.first), Xor(z', w.first), 33);
      XorTells(z, z', w.first);
      SumTold(u, u', Fetch64(s, p + 16), w.second);
    }
  }

  lemma FirstHalfTold(s: seq<bv8>, p: nat, z: bv64, v: bv64, w: bv64, v': bv64, w': bv64)
    requires p + 32 <= |s| && WeakHashAt(s, p, Mul(v, K1), Add(z, w)) == WeakHashAt(s, p, Mul(v', K1), Add(z, w'))
    ensures v == v' && w == w'
  {
    hide Add, Mul, WeakHashAt;
    WeakHashTellsSeeds(s, p, Mul(v, K1), Add(z, w), Mul(v', K1), Add(z, w'));
    MulK1Tells(v, v');
    AddTells(w, w', z);
  }

  lemma SecondHalfTold(s: seq<bv8>, p: nat, x: bv64, y: bv64, w: bv64, w': bv64)
    requires p + 32 <= |s| && WeakHashAt(s, p, Add(x, w), y) == WeakHashAt(s, p, Add(x, w'), y)
    ensures w == w'
  {
    hide Add, WeakHashAt;
    WeakHashTellsSeeds(s, p, Add(x, w), y, Add(x, w'), y);
    AddTells(w, w', x);
  }

  lemma SumTold(u: bv64, u': bv64, f: bv64, w: bv64)
    requires Xor(Mul(Rotate(Add(u, f), 37), K1), w) == Xor(Mul(Rotate(Add(u', f), 37), K1), w)
    ensures u == u'
  {
    hide Add, Mul, Xor, Rotate;
    XorTells(Mul(Rotate(Add(u, f), 37), K1), Mul(Rotate(Add(u', f), 37), K1), w);
    MulK1Tells(Rotate(Add(u, f), 37), Rotate(Add(u', f), 37));
    RotateTells(Add(u, f), Add(u', f), 37);
    AddTells(u, u', f);
  }

  /** So it tells two states that differ in just one of their seven words. */
  lemma StepTellsState(st: State, st': State, s: seq<bv8>, p: nat)
    requires p + 64 <= |s| && DifferInOne(StateWords(st), StateWords(st'))
    ensures Step(st, s, p) == Step(st', s, p) <==> st == st'
  {
    hide Add, Mul, Xor, Rotate, WeakHashAt, Fetch64, Step, Mixed;
    var m, n := StateWords(st), StateWords(st');
    assert m[0] == st.v.first && m[1] == st.v.second && m[4] == st.x && m[5] == st.y;
    assert n[0] == st'.v.first && n[1] == st'.v.second && n[4] == st'.x && n[5] == st'.y;
    StepKeeps(st, st', s, p);
    if Step(st, s, p) == Step(st', s, p) {
      OneOfThree(m[4], m[5], m[0], n[4], n[5], n[0]);
    }
  }

  lemma OneOfThree(x: bv64, y: bv64, v: bv64, x': bv64, y': bv64, v': bv64)
    requires Add(Add(x, y), v) == Add(Add(x', y'), v')
    requires (x == x' && y == y') || (x == x' && v == v') || (y == y' && v == v')
    ensures x == x' && y == y' && v == v'
  {
    hide Add;
    AddTells(v, v', Add(x, y));
    AddTells(Add(x, y), Add(x', y'), v);
    AddTells(x, x', y);
    AddTells(y, y', x);
  }

  // ----- the tail

  lemma TailParts(st: State, s: seq<bv8>, p: nat)
    requires p + 32 <= |s|
    ensures var r, w1 := TailStep(st, s, p), Add(st.w.first, Fetch64(s, p + 16));
            && r.y == Add(Mul(Rotate(Sub(st.y, st.x), 42), K0), st.v.second)
            && r.x == Add(Mul(Rotate(st.x, 49), K0), w1)
            && r.w == Pair(Add(w1, st.v.first), st.w.second)
            && r.v == WeakHashAt(s, p, st.v.first, st.v.second) && r.z == st.z
  {
    hide Add, Sub, Mul, Rotate, WeakHashAt, Fetch64;
  }

  /** For a fixed chunk a tail step is one-to-one on states. */
  lemma TailStepTellsStates(st: State, st': State, s: seq<bv8>, p: nat)
    requires p + 32 <= |s|
    ensures TailStep(st, s, p) == TailStep(st', s, p) <==> st == st'
  {
    hide Add, Sub, Mul, Rotate, WeakHashAt, Fetch64, TailStep;
    TailParts(st, s, p);
    TailParts(st', s, p);
    if TailStep(st, s, p) == TailStep(st', s, p) {
      var f := Fetch64(s, p + 16);
      WeakHashTellsSeeds(s, p, st.v.first, st.v.second, st'.v.first, st'.v.second);
      AddTells(Add(st.w.first, f), Add(st'.w.first, f), st.v.first);
      AddTells(st.w.first, st'.w.first, f);
      AddTells(Mul(Rotate(st.x, 49), K0), Mul(Rotate(st'.x, 49), K0), Add(st.w.first, f));
      MulK0Tells(Rotate(st.x, 49), Rotate(st'.x, 49));
      RotateTells(st.x, st'.x, 49);
      var d, d' := Sub(st.y, st.x), Sub(st'.y, st.x);
      AddTells(Mul(Rotate(d, 42), K0), Mul(Rotate(d', 42), K0), st.v.second);
      MulK0Tells(Rotate(d, 42), Rotate(d', 42));
      RotateTells(d, d', 42);
      SubTells(st.y, st'.y, st.x);
    }
  }

  /** It tells two chunks that differ in just one of their four words. */
  lemma TailStepTellsWords(st: State, s: seq<bv8>, t: seq<bv8>, p: nat)
    requires p + 32 <= |s| && p + 32 <= |t| && DifferInOne(Words(s, p, 4), Words(t, p, 4))
    ensures TailStep(st, s, p) == TailStep(st, t, p) <==> Words(s, p, 4) == Words(t, p, 4)
  {
    hide Add, Sub, Mul, Rotate, WeakHashAt, Fetch64, TailStep;
    TailParts(st, s, p);
    TailParts(st, t, p);
    WeakHashTellsWords(s, t, p, st.v.first, st.v.second);
    assert Words(s, p, 4)[2] == Fetch64(s, p + 16) && Words(t, p, 4)[2] == Fetch64(t, p + 16);
  }

  /** The whole tail loop is one-to-one on states. */
  lemma {:induction false} TailTellsStates(st: State, st': State, s: seq<bv8>, end: nat, n: nat)
    requires 32 * n <= end <= |s|
    ensures TailSteps(st, s, end, n) == TailSteps(st', s, end, n) <==> st == st'
  {
    hide TailStep;
    if n > 0 {
      TailTellsStates(st, st', s, end, n - 1);
      TailStepTellsStates(TailSteps(st, s, end, n - 1), TailSteps(st', s, end, n - 1), s, end - 32 * n);
    }
  }

  /** Two messages that agree on every tail chunk except perhaps one word of the `k`-th from the end. */
  lemma {:induction false} TailTellsWord(st: State, s: seq<bv8>, t: seq<bv8>, end: nat, n: nat, k: nat)
    requires 32 * n <= end <= |s| && end <= |t| && 1 <= k <= n
    requires SameOn(s, t, end - 32 * n, end - 32 * k) && SameOn(s, t, end - 32 * k + 32, end)
    requires DifferInOne(Words(s, end - 32 * k, 4), Words(t, end - 32 * k, 4))
    ensures TailSteps(st, s, end, n) == TailSteps(st, t, end, n)
            <==> Words(s, end - 32 * k, 4) == Words(t, end - 32 * k, 4)
  {
    hide TailStep, Fetch64, DifferInOne, Same, Words;
    var u, u' := TailSteps(st, s, end, n - 1), TailSteps(st, t, end, n - 1);
    if k == n {
      SameTail(st, s, t, end, n - 1);
      TailStepTellsWords(u, s, t, end - 32 * n);
    } else {
      SameOnParts(s, t, end - 32 * n, end - 32 * n + 32, end - 32 * k);
      TailTellsWord(st, s, t, end, n - 1, k);
      TailStepTellsStates(u, u', s, end - 32 * n);
      SameTailStep(u', s, t, end - 32 * n);
    }
  }

  lemma SameOnParts(s: seq<bv8>, t: seq<bv8>, a: nat, b: nat, c: nat)
    requires a <= b <= c <= |s| && c <= |t| && SameOn(s, t, a, c)
    ensures SameOn(s, t, a, b) && SameOn(s, t, b, c)
  {
    SamePart(s, a, t, a, c - a, 0, b - a);
    SamePart(s, a, t, a, c - a, b - a, c - b);
  }

  lemma SameTailStep(st: State, s: seq<bv8>, t: seq<bv8>, p: nat)
    requires p + 32 <= |s| && p + 32 <= |t| && SameOn(s, t, p, p + 32)
    ensures TailStep(st, s, p) == TailStep(st, t, p)
  {
    hide TailStep, Same;
    TailStepSame(st, s, p, t, p, 32, 0);
  }

  lemma SameTail(st: State, s: seq<bv8>, t: seq<bv8>, end: nat, n: nat)
    requires 32 * n <= end <= |s| && end <= |t| && SameOn(s, t, end - 32 * n, end)
    ensures TailSteps(st, s, end, n) == TailSteps(st, t, end, n)
  {
    hide TailStep, Same, TailSteps;
    TailStepsSame(st, s, end - 32 * n, t, end - 32 * n, 32 * n, n);
  }

  /** The step between the loops is one-to-one. */
  lemma BridgeTellsStates(st: State, st': State)
    ensures Bridge128(st) == Bridge128(st') <==> st == st'
  {
    hide Add, Mul, Rotate;
    AddTells(st.y, st'.y, Add(Mul(Rotate(st.w.first, 37), K0), st.z));
    AddTells(st.x, st'.x, Mul(Rotate(Add(st.v.first, st.z), 49), K0));
  }

  // ----- the beginnings

  /** The tail's state starts from the seed, and from the words at 0, 8 and 88: it tells each of them. */
  lemma Start128Tells(s: seq<bv8>, t: seq<bv8>, p: nat, len: nat, seed: Pair, seed': Pair)
    requires InMessage(s, p, len) && InMessage(t, p, len) && len >= 128
    ensures Start128(s, p, len, seed) == Start128(t, p, len, seed')
            <==> && seed == seed' && Fetch64(s, p) == Fetch64(t, p) && Fetch64(s, p + 8) == Fetch64(t, p + 8)
                 && Fetch64(s, p + 88) == Fetch64(t, p + 88)
  {
    hide Add, Mul, Xor, Rotate, Fetch64, FromLength;
    var r, r' := Start128(s, p, len, seed), Start128(t, p, len, seed');
    if r == r' {
      AddTells(Fetch64(s, p), Fetch64(t, p), Mul(Rotate(Xor(seed.second, K1), 49), K1));
      AddTells(Fetch64(s, p + 8), Fetch64(t, p + 8), Mul(Rotate(r.v.first, 42), K1));
      MulK1Tells(Rotate(Add(seed.first, Fetch64(s, p + 88)), 53), Rotate(Add(seed.first, Fetch64(t, p + 88)), 53));
      RotateTells(Add(seed.first, Fetch64(s, p + 88)), Add(seed.first, Fetch64(t, p + 88)), 53);
      AddTells(Fetch64(s, p + 88), Fetch64(t, p + 88), seed.first);
    }
  }

  /** CityHash64's state starts from the last 64 bytes and from the first 8, and tells each of those words. */
  lemma Start64TellsEnds(s: seq<bv8>, t: seq<bv8>, p: nat, len: nat)
    requires InMessage(s, p, len) && InMessage(t, p, len) && len > 64
    requires Fetch64(s, p + len - 16) == Fetch64(t, p + len - 16)
    requires DifferInOne(Words(s, p + len - 64, 4), Words(t, p + len - 64, 4))
    requires DifferInOne(Words(s, p + len - 32, 4), Words(t, p + len - 32, 4))
    ensures Start64(s, p, len) == Start64(t, p, len)
            <==> && Words(s, p + len - 64, 4) == Words(t, p + len - 64, 4)
                 && Words(s, p + len - 32, 4) == Words(t, p + len - 32, 4) && Fetch64(s, p) == Fetch64(t, p)
  {
    hide Add, Mul, Xor, Rotate, ShiftMix, Fetch64, FromLength, WeakHashAt;
    WeakHashTellsWords(s, t, p + len - 64, FromLength(len), Xor(Fetch64(s, p + len - 16), K1));
    WeakHashTellsWords(s, t, p + len - 32, Mul(FromLength(len), K1), K0);
    var r, r' := Start64(s, p, len), Start64(t, p, len);
    assert Words(s, p + len - 64, 4)[1] == Fetch64(s, p + len - 56);
    assert Words(t, p + len - 64, 4)[1] == Fetch64(t, p + len - 56);
    if r == r' {
      MulK1Tells(Rotate(Add(r.z, Fetch64(s, p)), 39), Rotate(Add(r.z, Fetch64(t, p)), 39));
      RotateTells(Add(r.z, Fetch64(s, p)), Add(r.z, Fetch64(t, p)), 39);
      AddTells(Fetch64(s, p), Fetch64(t, p), r.z);
    }
  }

  /** A short message under two seeds. */
  lemma MurmurShortTellsSeeds(s: seq<bv8>, p: nat, len: nat, seed: Pair, seed': Pair)
    requires InMessage(s, p, len) && len <= 16
    ensures MurmurShort(s, p, len, seed) == MurmurShort(s, p, len, seed') <==> seed == seed'
  {
    hide Add, Mul, ShiftMix, Fetch64, CityHash.HashLen0to16;
    MulK1Tells(ShiftMix(Mul(seed.first, K1)), ShiftMix(Mul(seed'.first, K1)));
    ShiftMixTells(Mul(seed.first, K1), Mul(seed'.first, K1));
    MulK1Tells(seed.first, seed'.first);
  }

  /** And two short messages under one seed, as far as their 64-bit hashes differ. */
  lemma MurmurShortTellsHashes(s: seq<bv8>, t: seq<bv8>, p: nat, len: nat, seed: Pair)
    requires InMessage(s, p, len) && InMessage(t, p, len) && len <= 16
    ensures CityHash.HashLen0to16(s, p, len) != CityHash.HashLen0to16(t, p, len)
            ==> MurmurShort(s, p, len, seed) != MurmurShort(t, p, len, seed)
  {
    hide Add, Mul, ShiftMix, Fetch64, CityHash.HashLen0to16;
    AddTells(CityHash.HashLen0to16(s, p, len), CityHash.HashLen0to16(t, p, len), Mul(seed.second, K1));
  }

  /** A longer one starts from a pair that tells the word 8 from its end, and the first word of the seed after it. */
  lemma MurmurStartTells(s: seq<bv8>, t: seq<bv8>, p: nat, len: nat, seed: Pair)
    requires InMessage(s, p, len) && InMessage(t, p, len) && len > 16
    requires Fetch64(s, p + len - 8) != Fetch64(t, p + len - 8)
    ensures MurmurStart(s, p, len, seed) != MurmurStart(t, p, len, seed)
  {
    hide Add, HashLen16, Fetch64, FromLength;
    HashLen16TellsLowWords(Add(Fetch64(s, p + len - 8), K1), Add(Fetch64(t, p + len - 8), K1), seed.first);
    AddTells(Fetch64(s, p + len - 8), Fetch64(t, p + len - 8), K1);
  }

  // ----- short messages

  /** Of 17 to 32 bytes the word 16 from the end can be told, the other three fetched words being equal. */
  lemma HashLen17to32Tells(s: seq<bv8>, t: seq<bv8>, p: nat, len: nat)
    requires InMessage(s, p, len) && InMessage(t, p, len) && 16 < len <= 32
    requires Fetch64(s, p) == Fetch64(t, p) && Fetch64(s, p + 8) == Fetch64(t, p + 8)
    requires Fetch64(s, p + len - 8) == Fetch64(t, p + len - 8)
    ensures HashLen17to32(s, p, len) == HashLen17to32(t, p, len)
            <==> Fetch64(s, p + len - 16) == Fetch64(t, p + len - 16)
  {
    hide Add, Sub, Mul, Xor, Rotate, HashLen16, Fetch64, FromLength;
    var d, d' := Mul(Fetch64(s, p + len - 16), K0), Mul(Fetch64(t, p + len - 16), K0);
    var a, b, c := Mul(Fetch64(s, p), K1), Fetch64(s, p + 8), Mul(Fetch64(s, p + len - 8), K2);
    var u, v := Add(Rotate(Sub(a, b), 43), Rotate(c, 30)),
                Add(Sub(Add(a, Rotate(Xor(b, K3), 20)), c), FromLength(len));
    HashLen16TellsLowWords(Add(u, d), Add(u, d'), v);
    AddTells(d, d', u);
    MulK0Tells(Fetch64(s, p + len - 16), Fetch64(t, p + len - 16));
  }

  /** Each half of HashLen33to64 is one-to-one in each of its four arguments. */
  lemma FoldTells(m: seq<bv64>, n: seq<bv64>)
    requires |m| == 4 && DifferInOne(m, n)
    ensures Fold(m[0], m[1], m[2], m[3]) == Fold(n[0], n[1], n[2], n[3]) <==> m == n
  {
    hide Add, Rotate;
    if m != n {
      var c, c' := Add(m[1], m[2]), Add(n[1], n[2]);
      AddTells(m[1], n[1], n[2]);
      AddTells(m[2], n[2], n[1]);
      AddTells(c, c', n[3]);
      AddTells(m[3], n[3], c');
      AddTells(Add(c, m[3]), Add(c', n[3]), n[0]);
      AddTells(m[0], n[0], Add(c', n[3]));
    }
  }

  /** And the two halves are mixed so that the first word of the first can be told. */
  lemma MixTells(v: Pair, v': Pair, w: Pair)
    requires v.second == v'.second
    ensures var r, r' := ShiftMix(Add(Mul(Add(v.first, w.second), K2), Mul(Add(w.first, v.second), K0))),
                         ShiftMix(Add(Mul(Add(v'.first, w.second), K2), Mul(Add(w.first, v.second), K0)));
            Mul(ShiftMix(Add(Mul(r, K0), v.second)), K2) == Mul(ShiftMix(Add(Mul(r', K0), v.second)), K2) <==> v == v'
  {
    hide Add, Mul, ShiftMix;
    var g := Mul(Add(w.first, v.second), K0);
    var q, q' := Add(Mul(Add(v.first, w.second), K2), g), Add(Mul(Add(v'.first, w.second), K2), g);
    var r, r' := ShiftMix(q), ShiftMix(q');
    MulK2Tells(ShiftMix(Add(Mul(r, K0), v.second)), ShiftMix(Add(Mul(r', K0), v.second)));
    ShiftMixTells(Add(Mul(r, K0), v.second), Add(Mul(r', K0), v.second));
    AddTells(Mul(r, K0), Mul(r', K0), v.second);
    MulK0Tells(r, r');
    ShiftMixTells(q, q');
    AddTells(Mul(Add(v.first, w.second), K2), Mul(Add(v'.first, w.second), K2), g);
    MulK2Tells(Add(v.first, w.second), Add(v'.first, w.second));
    AddTells(v.first, v'.first, w.second);
  }

  /** Of 9 to 16 bytes the first word can be told from the hash, the last being equal. */
  lemma HashLen9to16Tells(s: seq<bv8>, t: seq<bv8>, p: nat, len: nat)
    requires InMessage(s, p, len) && InMessage(t, p, len) && 8 < len <= 16
    requires Fetch64(s, p + len - 8) == Fetch64(t, p + len - 8)
    ensures CityHash.HashLen0to16(s, p, len) == CityHash.HashLen0to16(t, p, len) <==> Fetch64(s, p) == Fetch64(t, p)
  {
    hide Add, Xor, Rotate, HashLen16, Fetch64, FromLength;
    var b := Fetch64(s, p + len - 8);
    var r := Rotate(Add(b, FromLength(len)), len as bv7);
    XorTells(HashLen16(Fetch64(s, p), r), HashLen16(Fetch64(t, p), r), b);
    HashLen16TellsLowWords(Fetch64(s, p), Fetch64(t, p), r);
  }

  // ----- the ends

  /** The end of CityHash64 tells v.first, y and z, the other words being equal. */
  lemma Finish64Tells(st: State, st': State)
    requires DifferInOne([st.v.first, st.y, st.z], [st'.v.first, st'.y, st'.z])
    requires st.v.second == st'.v.second && st.w == st'.w && st.x == st'.x
    ensures Finish64(st) == Finish64(st') <==> st == st'
  {
    hide Add, Mul, ShiftMix, HashLen16;
    var m, n := [st.v.first, st.y, st.z], [st'.v.first, st'.y, st'.z];
    assert st.v.first == m[0] && st.y == m[1] && st.z == m[2] && st'.v.first == n[0] && st'.y == n[1] && st'.z == n[2];
    var h, h' := HashLen16(m[0], st.w.first), HashLen16(n[0], st.w.first);
    var k, k' := Mul(ShiftMix(m[1]), K1), Mul(ShiftMix(n[1]), K1);
    HashLen16TellsLowWords(Add(Add(h, k), m[2]), Add(Add(h', k'), n[2]),
                           Add(HashLen16(st.v.second, st.w.second), st.x));
    HashLen16TellsLowWords(m[0], n[0], st.w.first);
    MulK1Tells(ShiftMix(m[1]), ShiftMix(n[1]));
    ShiftMixTells(m[1], n[1]);
    AddTells(h, h', k);
    AddTells(k, k', h);
    AddTells(Add(h, k), Add(h', k'), m[2]);
    AddTells(m[2], n[2], Add(h, k));
  }

  /** The end of CityHash128 tells x, y and the second words of v and w, the others being equal. */
  lemma Finish128Tells(st: State, st': State)
    requires st.v.first == st'.v.first && st.w.first == st'.w.first && st.z == st'.z
    requires DifferInOne([st.x, st.y, st.v.second, st.w.second], [st'.x, st'.y, st'.v.second, st'.w.second])
    ensures Finish128(st) == Finish128(st') <==> st == st'
  {
    hide Add, HashLen16;
    var m, n := [st.x, st.y, st.v.second, st.w.second], [st'.x, st'.y, st'.v.second, st'.w.second];
    assert st.x == m[0] && st.y == m[1] && st.v.second == m[2] && st.w.second == m[3];
    assert st'.x == n[0] && st'.y == n[1] && st'.v.second == n[2] && st'.w.second == n[3];
    HashLen16TellsLowWords(m[0], n[0], st.v.first);
    HashLen16TellsLowWords(m[1], n[1], st.w.first);
    EndTells(HashLen16(m[0], st.v.first), HashLen16(m[1], st.w.first), m[2], m[3],
             HashLen16(n[0], st.v.first), HashLen16(n[1], st.w.first), n[2], n[3]);
  }

  lemma EndTells(x: bv64, y: bv64, v: bv64, w: bv64, x': bv64, y': bv64, v': bv64, w': bv64)
    requires (y == y' && v == v' && w == w') || (x == x' && v == v' && w == w')
             || (x == x' && y == y' && w == w') || (x == x' && y == y' && v == v')
    ensures Add(HashLen16(Add(x, v), w), y) == Add(HashLen16(Add(x', v'), w'), y')
            && HashLen16(Add(x, w), Add(y, v)) == HashLen16(Add(x', w'), Add(y', v'))
            <==> x == x' && y == y' && v == v' && w == w'
  {
    hide Add, HashLen16;
    if w != w' {
      HashLen16TellsLowWords(Add(x, w), Add(x, w'), Add(y, v));
      AddTells(w, w', x);
    } else if y != y' {
      AddTells(y, y', HashLen16(Add(x, v), w));
    } else {
      AddTells(HashLen16(Add(x, v), w), HashLen16(Add(x', v'), w), y);
      HashLen16TellsLowWords(Add(x, v), Add(x', v'), w);
      AddTells(x, x', v);
      AddTells(v, v', x);
    }
  }

  /** The end of CityMurmur tells a and d. */
  lemma MurmurFinishTells(st: Murmur, st': Murmur)
    requires st.b == st'.b && st.c == st'.c && (st.a == st'.a || st.d == st'.d)
    ensures MurmurFinish(st) == MurmurFinish(st') <==> st == st'
  {
    hide Xor, HashLen16;
    HashLen16TellsLowWords(st.a, st'.a, st.c);
    HashLen16TellsLowWords(st.d, st'.d, st.b);
    XorTells(HashLen16(st.a, st.c), HashLen16(st'.a, st.c), HashLen16(st.d, st.b));
    XorTells(HashLen16(st.d, st.b), HashLen16(st'.d, st.b), HashLen16(st.a, st.c));
  }

  // ----- a whole message

  /** The state of CityHash128WithSeed before its end. */
  function Before128(s: seq<bv8>, p: nat, len: nat, seed: Pair): State
    requires InMessage(s, p, len) && len >= 128
  {
    var chunks := 2 * (len / 128);
    TailSteps(Bridge128(Steps(Start128(s, p, len, seed), s, p, chunks)), s, p + len, (len % 128 + 31) / 32)
  }

  /** Two messages of one length of 128 or more that agree on their whole chunks of 128 bytes and on the rest but for
      one word of it reach the same state before the end exactly if they are the same. */
  lemma TailWordTold(s: seq<bv8>, t: seq<bv8>, p: nat, len: nat, seed: Pair, k: nat)
    requires InMessage(s, p, len) && InMessage(t, p, len) && len >= 128
    requires 1 <= k && 32 * k <= len % 128 + 31
    requires SameOn(s, t, p, p + 128 * (len / 128)) && SameOn(s, t, p + len - 32 * k + 32, p + len)
    requires SameOn(s, t, p, p + len - 32 * k)
    requires DifferInOne(Words(s, p + len - 32 * k, 4), Words(t, p + len - 32 * k, 4))
    ensures Before128(s, p, len, seed) == Before128(t, p, len, seed)
            <==> Words(s, p + len - 32 * k, 4) == Words(t, p + len - 32 * k, 4)
  {
    hide Same, Start128, Steps, Bridge128, TailSteps, DifferInOne, Words;
    var n := (len % 128 + 31) / 32;
    var main := 128 * (len / 128);
    StartOfMain(s, t, p, len, seed);
    StepsSame(Start128(s, p, len, seed), s, p, t, p, main, 2 * (len / 128));
    var st := Bridge128(Steps(Start128(s, p, len, seed), s, p, 2 * (len / 128)));
    SameOnParts(s, t, p, p + len - 32 * n, p + len - 32 * k);
    TailTellsWord(st, s, t, p + len, n, k);
  }

  lemma StartOfMain(s: seq<bv8>, t: seq<bv8>, p: nat, len: nat, seed: Pair)
    requires InMessage(s, p, len) && InMessage(t, p, len) && len >= 128 && SameOn(s, t, p, p + 128 * (len / 128))
    ensures Start128(s, p, len, seed) == Start128(t, p, len, seed)
  {
    hide Add, Mul, Xor, Rotate, Fetch64, FromLength, Same;
    var main := 128 * (len / 128);
    FetchSame(s, p, t, p, main, 0);
    FetchSame(s, p, t, p, main, 8);
    FetchSame(s, p, t, p, main, 88);
  }
}
