/** The hashing procedures themselves: each reads its range of a message, assigns its words step by step and is
    proved to return the hash of the same name. The message records every byte that was fetched. */
module CityHashRun {
  import opened Word64
  import opened CityHash

  ghost function Range(lo: int, hi: int): set<int>
    decreases hi - lo
  {
    set i: int | lo <= i < hi && InRange(lo, i, hi)
  }

  ghost predicate InRange(lo: int, i: int, hi: int) { lo <= i < hi }

  /** The fetches of HashLen33to64 in their order. */
  lemma Covers33to64(t: set<int>, s: int, len: int)
    requires 32 < len <= 64
    ensures t + Range(s + 24, s + 32) + Range(s, s + 8) + Range(s + len - 16, s + len - 16 + 8) + Range(s + 8, s + 16)
            + Range(s + 16, s + 24) + Range(s + 16, s + 24) + Range(s + len - 32, s + len - 32 + 8)
            + Range(s + len - 8, s + len - 8 + 8) + Range(s + len - 24, s + len - 24 + 8)
            + Range(s + len - 16, s + len - 16 + 8)
            == t + Range(s, s + len)
  {
  }

  /** The fetches of one 64-byte step, after everything from `start` up to it. */
  lemma CoversChunk(t: set<int>, s: int)
    ensures t + Range(s + 16, s + 16 + 8) + Range(s + 48, s + 48 + 8) + Range(s, s + 32) + Range(s + 32, s + 32 + 32)
            == t + Range(s, s + 64)
  {
  }

  lemma CoversStep(t: set<int>, start: int, s: int)
    requires start <= s
    ensures t + Range(start, s) + Range(s, s + 64) == t + Range(start, s + 64)
  {
  }

  lemma Covers64(t: set<int>, s: int, len: int, end: int)
    requires 64 < len && s + len - 64 <= end <= s + len
    ensures t + Range(s, s + 8) + Range(s + len - 16, s + len - 16 + 8) + Range(s + len - 56, s + len - 56 + 8)
            + Range(s + len - 64, s + len - 64 + 32) + Range(s + len - 32, s + len - 32 + 32) + Range(s, end)
            == t + Range(s, s + len)
  {
  }

  lemma RangeEmpty(t: set<int>, s: int)
    ensures t + Range(s, s) == t
  {
  }

  class Message {
    const data: seq<bv8>
    /** Every offset that has been fetched. */
    ghost var touched: set<int>

    constructor (data: seq<bv8>)
      ensures this.data == data && touched == {}
    {
      this.data := data;
      touched := {};
    }

    method FetchByte(p: nat) returns (r: bv8)
      requires p < |data|
      modifies this
      ensures r == data[p] && touched == old(touched) + Range(p, p + 1)
    {
      r := data[p];
      touched := touched + Range(p, p + 1);
    }

    method Fetch32(p: nat) returns (r: bv64)
      requires p + 4 <= |data|
      modifies this
      ensures r == CityHash.Fetch32(data, p) && touched == old(touched) + Range(p, p + 4)
    {
      r := CityHash.Fetch32(data, p);
      touched := touched + Range(p, p + 4);
    }

    method Fetch64(p: nat) returns (r: bv64)
      requires p + 8 <= |data|
      modifies this
      ensures r == CityHash.Fetch64(data, p) && touched == old(touched) + Range(p, p + 8)
    {
      r := CityHash.Fetch64(data, p);
      touched := touched + Range(p, p + 8);
    }
  }

  method HashLen0to16(m: Message, s: nat, len: nat) returns (h: bv64)
    requires InMessage(m.data, s, len) && len <= 16
    modifies m
    ensures h == CityHash.HashLen0to16(m.data, s, len)
    ensures m.touched == old(m.touched) + Range(s, s + len)
  {
    hide Add, Xor, Rotate, HashLen16, HashTiny, FromLength, TimesEight, CityHash.Fetch64, CityHash.Fetch32;
    if len > 8 {
      var a := m.Fetch64(s);
      var b := m.Fetch64(s + len - 8);
      h := Xor(HashLen16(a, Rotate(Add(b, FromLength(len)), len as bv7)), b);
    } else if len >= 4 {
      var a := m.Fetch32(s);
      var b := m.Fetch32(s + len - 4);
      h := HashLen16(Add(FromLength(len), TimesEight(a)), b);
    } else if len > 0 {
      var a := m.FetchByte(s);
      var b := m.FetchByte(s + len / 2);
      var c := m.FetchByte(s + len - 1);
      h := HashTiny(a, b, c, len as bv32);
    } else {
      h := K2;
    }
  }

  method HashLen17to32(m: Message, s: nat, len: nat) returns (h: bv64)
    requires InMessage(m.data, s, len) && 16 < len <= 32
    modifies m
    ensures h == CityHash.HashLen17to32(m.data, s, len)
    ensures m.touched == old(m.touched) + Range(s, s + len)
  {
    hide Add, Sub, Mul, Xor, Rotate, HashLen16, FromLength, CityHash.Fetch64;
    var a := m.Fetch64(s);
    a := Mul(a, K1);
    var b := m.Fetch64(s + 8);
    var c := m.Fetch64(s + len - 8);
    c := Mul(c, K2);
    var d := m.Fetch64(s + len - 16);
    d := Mul(d, K0);
    h := HashLen16(Add(Add(Rotate(Sub(a, b), 43), Rotate(c, 30)), d),
                   Add(Sub(Add(a, Rotate(Xor(b, K3), 20)), c), FromLength(len)));
  }

  method WeakHashLen32WithSeeds(w: bv64, x: bv64, y: bv64, z: bv64, a0: bv64, b0: bv64) returns (r: Pair)
    ensures r == WeakHash(w, x, y, z, a0, b0)
  {
    hide Add, Rotate;
    var a, b := a0, b0;
    a := Add(a, w);
    b := Rotate(Add(Add(b, a), z), 21);
    var c := a;
    a := Add(a, x);
    a := Add(a, y);
    b := Add(b, Rotate(a, 44));
    r := Pair(Add(a, z), Add(b, c));
  }

  method WeakHashLen32WithSeeds3(m: Message, s: nat, a: bv64, b: bv64) returns (r: Pair)
    requires s + 32 <= |m.data|
    modifies m
    ensures r == WeakHashAt(m.data, s, a, b)
    ensures m.touched == old(m.touched) + Range(s, s + 32)
  {
    hide WeakHash, CityHash.Fetch64;
    var w := m.Fetch64(s);
    var x := m.Fetch64(s + 8);
    var y := m.Fetch64(s + 16);
    var z := m.Fetch64(s + 24);
    r := WeakHashLen32WithSeeds(w, x, y, z, a, b);
  }

  method HashLen33to64(m: Message, s: nat, len: nat) returns (h: bv64)
    requires InMessage(m.data, s, len) && 32 < len <= 64
    modifies m
    ensures h == CityHash.HashLen33to64(m.data, s, len)
    ensures m.touched == old(m.touched) + Range(s, s + len)
  {
    hide Add, Mul, Rotate, ShiftMix, FromLength, CityHash.Fetch64, Range;
    Covers33to64(m.touched, s, len);
    var z := m.Fetch64(s + 24);
    var m0 := m.Fetch64(s);
    var a := m.Fetch64(s + len - 16);
    a := Add(m0, Mul(Add(FromLength(len), a), K0));
    var b := Rotate(Add(a, z), 52);
    var c := Rotate(a, 37);
    var t := m.Fetch64(s + 8);
    a := Add(a, t);
    c := Add(c, Rotate(a, 7));
    t := m.Fetch64(s + 16);
    a := Add(a, t);
    var vf := Add(a, z);
    var vs := Add(Add(b, Rotate(a, 31)), c);
    a := m.Fetch64(s + 16);
    t := m.Fetch64(s + len - 32);
    a := Add(a, t);
    z := m.Fetch64(s + len - 8);
    b := Rotate(Add(a, z), 52);
    c := Rotate(a, 37);
    t := m.Fetch64(s + len - 24);
    a := Add(a, t);
    c := Add(c, Rotate(a, 7));
    t := m.Fetch64(s + len - 16);
    a := Add(a, t);
    var wf := Add(a, z);
    var ws := Add(Add(b, Rotate(a, 31)), c);
    var r := ShiftMix(Add(Mul(Add(vf, ws), K2), Mul(Add(wf, vs), K0)));
    h := Mul(ShiftMix(Add(Mul(r, K0), vs)), K2);
  }

  lemma StepsGrow(st: State, s: seq<bv8>, p: nat, n: nat)
    requires p + 64 * n + 64 <= |s|
    ensures Steps(st, s, p, 0) == st
    ensures Steps(st, s, p, n + 1) == Step(Steps(st, s, p, n), s, p + 64 * n)
  {
    hide Step;
  }

  /** The statements on one chunk of 64 bytes: CityHash64 has them once in its loop, CityHash128WithSeed twice. */
  method Chunk(m: Message, s: nat, st: State) returns (r: State)
    requires s + 64 <= |m.data|
    modifies m
    ensures r == Step(st, m.data, s)
    ensures m.touched == old(m.touched) + Range(s, s + 64)
  {
    hide Add, Mul, Xor, Rotate, WeakHashAt, CityHash.Fetch64, Range;
    CoversChunk(m.touched, s);
    var State(v, w, x, y, z) := st;
    var m2 := m.Fetch64(s + 16);
    x := Mul(Rotate(Add(Add(Add(x, y), v.first), m2), 37), K1);
    var m6 := m.Fetch64(s + 48);
    y := Mul(Rotate(Add(Add(y, v.second), m6), 42), K1);
    x := Xor(x, w.second);
    y := Xor(y, v.first);
    z := Rotate(Xor(z, w.first), 33);
    v := WeakHashLen32WithSeeds3(m, s, Mul(v.second, K1), Add(x, w.first));
    w := WeakHashLen32WithSeeds3(m, s + 32, Add(z, w.second), y);
    var tmp := z;
    z := x;
    x := tmp;
    r := State(v, w, x, y, z);
  }

  /** The do-while loop of CityHash64 over `len` bytes, a positive multiple of 64. */
  method Chunks64(m: Message, start: nat, length: nat, st: State) returns (r: State)
    requires InMessage(m.data, start, length) && length > 0 && length % 64 == 0
    modifies m
    ensures r == Steps(st, m.data, start, length / 64)
    ensures m.touched == old(m.touched) + Range(start, start + length)
  {
    hide Step, Range, Steps;
    var s, len := start, length;
    r := st;
    ghost var done := 0;
    RangeEmpty(m.touched, start);
    StepsGrow(st, m.data, start, 0);
    while true
      invariant 0 <= 64 * done < length && s == start + 64 * done && len == length - 64 * done
      invariant r == Steps(st, m.data, start, done)
      invariant m.touched == old(m.touched) + Range(start, s)
      decreases len
    {
      CoversStep(old(m.touched), start, s);
      StepsGrow(st, m.data, start, done);
      r := Chunk(m, s, r);
      s := s + 64;
      len := len - 64;
      done := done + 1;
      if len == 0 {
        break;
      }
    }
    assert done == length / 64;
  }

  method CityHash64(m: Message, s: nat, len: nat) returns (h: bv64)
    requires InMessage(m.data, s, len)
    modifies m
    ensures h == Hash64(m.data, s, len)
    ensures m.touched == old(m.touched) + Range(s, s + len)
  {
    hide Add, Mul, Xor, Rotate, ShiftMix, HashLen16, WeakHashAt, FromLength, CityHash.Fetch64, Range, Steps,
         CityHash.HashLen0to16, CityHash.HashLen17to32, CityHash.HashLen33to64;
    if len <= 32 {
      if len <= 16 {
        h := HashLen0to16(m, s, len);
      } else {
        h := HashLen17to32(m, s, len);
      }
    } else if len <= 64 {
      h := HashLen33to64(m, s, len);
    } else {
      var rounded := 64 * ((len - 1) / 64);
      Covers64(m.touched, s, len, s + rounded);
      var x := m.Fetch64(s);
      var y := m.Fetch64(s + len - 16);
      y := Xor(y, K1);
      var z := m.Fetch64(s + len - 56);
      z := Xor(z, K0);
      var v := WeakHashLen32WithSeeds3(m, s + len - 64, FromLength(len), y);
      var w := WeakHashLen32WithSeeds3(m, s + len - 32, Mul(FromLength(len), K1), K0);
      z := Add(z, Mul(ShiftMix(v.second), K1));
      x := Mul(Rotate(Add(z, x), 39), K1);
      y := Mul(Rotate(y, 33), K1);
      var st := Chunks64(m, s, rounded, State(v, w, x, y, z));
      h := HashLen16(Add(Add(HashLen16(st.v.first, st.w.first), Mul(ShiftMix(st.y), K1)), st.z),
                     Add(HashLen16(st.v.second, st.w.second), st.x));
    }
  }

  // ----- 128-bit hashes

  lemma CoversMurmur(t: set<int>, s: int, len: int, end: int)
    requires 16 < len && s + len - 16 <= end <= s + len
    ensures t + Range(s + len - 8, s + len - 8 + 8) + Range(s + len - 16, s + len - 16 + 8) + Range(s, end)
            == t + Range(s, s + len)
  {
  }

  lemma CoversBlock(t: set<int>, start: int, s: int)
    requires start <= s
    ensures t + Range(start, s) + Range(s, s + 8) + Range(s + 8, s + 8 + 8) == t + Range(start, s + 16)
  {
  }

  lemma CoversHead(t: set<int>, s: int, len: int)
    requires 8 <= len
    ensures t + Range(s, s + len) + Range(s, s + 8) == t + Range(s, s + len)
  {
  }

  lemma MurmurGrow(st: Murmur, s: seq<bv8>, p: nat, n: nat)
    requires p + 16 * n + 16 <= |s|
    ensures MurmurSteps(st, s, p, 0) == st
    ensures MurmurSteps(st, s, p, n + 1)
            == MurmurStep(MurmurSteps(st, s, p, n),
                          CityHash.Fetch64(s, p + 16 * n), CityHash.Fetch64(s, p + 16 * n + 8))
  {
    hide MurmurStep, CityHash.Fetch64;
  }

  /** The do-while loop of CityMurmur, for a message of `length` bytes. */
  method MurmurBlocks(m: Message, start: nat, length: nat, st: Murmur) returns (r: Murmur)
    requires InMessage(m.data, start, length) && length > 16
    modifies m
    ensures r == MurmurSteps(st, m.data, start, (length - 1) / 16)
    ensures m.touched == old(m.touched) + Range(start, start + 16 * ((length - 1) / 16))
  {
    hide Mul, Xor, ShiftMix, CityHash.Fetch64, Range, MurmurSteps;
    var Murmur(a, b, c, d) := st;
    var s, l := start, length - 16;
    ghost var done := 0;
    RangeEmpty(m.touched, start);
    MurmurGrow(st, m.data, start, 0);
    while true
      invariant l == length - 16 - 16 * done > 0 && s == start + 16 * done
      invariant Murmur(a, b, c, d) == MurmurSteps(st, m.data, start, done)
      invariant m.touched == old(m.touched) + Range(start, s)
      decreases l
    {
      CoversBlock(old(m.touched), start, s);
      MurmurGrow(st, m.data, start, done);
      var m0 := m.Fetch64(s);
      a := Xor(a, Mul(ShiftMix(Mul(m0, K1)), K1));
      a := Mul(a, K1);
      b := Xor(b, a);
      var m1 := m.Fetch64(s + 8);
      c := Xor(c, Mul(ShiftMix(Mul(m1, K1)), K1));
      c := Mul(c, K1);
      d := Xor(d, c);
      s := s + 16;
      l := l - 16;
      done := done + 1;
      if l <= 0 {
        break;
      }
    }
    assert done == (length - 1) / 16;
    r := Murmur(a, b, c, d);
  }

  method CityMurmur(m: Message, start: nat, len: nat, seed: Pair) returns (h: Pair)
    requires InMessage(m.data, start, len)
    modifies m
    ensures h == MurmurFinish(MurmurState(m.data, start, len, seed))
    ensures m.touched == old(m.touched) + Range(start, start + len)
  {
    hide Add, Mul, Xor, ShiftMix, HashLen16, FromLength, CityHash.Fetch64, Range, CityHash.HashLen0to16, MurmurSteps;
    var a, b, c, d := seed.first, seed.second, 0 as bv64, 0 as bv64;
    if len <= 16 {
      a := Mul(ShiftMix(Mul(a, K1)), K1);
      var short := HashLen0to16(m, start, len);
      c := Add(Mul(b, K1), short);
      d := c;
      if len >= 8 {
        CoversHead(old(m.touched), start, len);
        d := m.Fetch64(start);
      }
      d := ShiftMix(Add(a, d));
    } else {
      c := m.Fetch64(start + len - 8);
      c := HashLen16(Add(c, K1), a);
      d := m.Fetch64(start + len - 16);
      d := HashLen16(Add(b, FromLength(len)), Add(c, d));
      a := Add(a, d);
      var st := MurmurBlocks(m, start, len, Murmur(a, b, c, d));
      a, b, c, d := st.a, st.b, st.c, st.d;
      CoversMurmur(old(m.touched), start, len, start + 16 * ((len - 1) / 16));
    }
    assert Murmur(a, b, c, d) == MurmurState(m.data, start, len, seed);
    a := HashLen16(a, c);
    b := HashLen16(d, b);
    h := Pair(Xor(a, b), HashLen16(b, a));
  }

  /** The do-while loop of CityHash128WithSeed, two chunks to an iteration: it takes the same single steps as
      CityHash64's loop, two for every 128 bytes. */
  method Chunks128(m: Message, start: nat, length: nat, st: State) returns (r: State)
    requires InMessage(m.data, start, length) && length >= 128
    modifies m
    ensures r == Steps(st, m.data, start, 2 * (length / 128))
    ensures m.touched == old(m.touched) + Range(start, start + 128 * (length / 128))
  {
    hide Step, Range, Steps;
    var s, len := start, length;
    r := st;
    ghost var done := 0;
    RangeEmpty(m.touched, start);
    StepsGrow(st, m.data, start, 0);
    while true
      invariant s == start + 128 * done && len == length - 128 * done && len >= 128
      invariant r == Steps(st, m.data, start, 2 * done)
      invariant m.touched == old(m.touched) + Range(start, s)
      decreases len
    {
      CoversStep(old(m.touched), start, s);
      StepsGrow(st, m.data, start, 2 * done);
      r := Chunk(m, s, r);
      s := s + 64;
      CoversStep(old(m.touched), start, s);
      StepsGrow(st, m.data, start, 2 * done + 1);
      r := Chunk(m, s, r);
      s := s + 64;
      len := len - 128;
      done := done + 1;
      if len < 128 {
        break;
      }
    }
    assert done == length / 128;
  }

  lemma TailGrow(st: State, s: seq<bv8>, end: nat, n: nat)
    requires 32 * n + 32 <= end <= |s|
    ensures TailSteps(st, s, end, 0) == st
    ensures TailSteps(st, s, end, n + 1) == TailStep(TailSteps(st, s, end, n), s, end - 32 * (n + 1))
  {
    hide TailStep;
  }

  lemma CoversTail(t: set<int>, end: int, s: int)
    requires s <= end
    ensures t + Range(s, end) + Range(s - 32 + 16, s - 32 + 16 + 8) + Range(s - 32, s - 32 + 32)
            == t + Range(s - 32, end)
  {
  }

  /** The tail loop: at most four chunks of 32 bytes, read backwards from the end. The last of them may begin before
      `s`, but never before `s - 128`. */
  method Tail128(m: Message, s: nat, len: nat, st: State) returns (r: State, rounds: nat)
    requires InMessage(m.data, s, len) && len < 128 <= s
    modifies m
    ensures rounds == (len + 31) / 32 <= 4
    ensures r == TailSteps(st, m.data, s + len, rounds)
    ensures m.touched == old(m.touched) + Range(s + len - 32 * rounds, s + len)
  {
    hide Add, Sub, Mul, Rotate, WeakHashAt, CityHash.Fetch64, Range, TailSteps;
    var State(v, w, x, y, z) := st;
    var tailDone := 0;
    rounds := 0;
    RangeEmpty(m.touched, s + len);
    TailGrow(st, m.data, s + len, 0);
    while tailDone < len
      invariant tailDone == 32 * rounds < len + 32
      invariant State(v, w, x, y, z) == TailSteps(st, m.data, s + len, rounds)
      invariant m.touched == old(m.touched) + Range(s + len - tailDone, s + len)
    {
      CoversTail(old(m.touched), s + len, s + len - tailDone);
      TailGrow(st, m.data, s + len, rounds);
      tailDone := tailDone + 32;
      y := Add(Mul(Rotate(Sub(y, x), 42), K0), v.second);
      var f := m.Fetch64(s + len - tailDone + 16);
      w := w.(first := Add(w.first, f));
      x := Add(Mul(Rotate(x, 49), K0), w.first);
      w := w.(first := Add(w.first, v.first));
      v := WeakHashLen32WithSeeds3(m, s + len - tailDone, v.first, v.second);
      rounds := rounds + 1;
    }
    r := State(v, w, x, y, z);
  }

  lemma Covers128(t: set<int>, s: int, len: int, mid: int, low: int)
    requires 128 <= len && s + 128 <= mid && s <= low <= mid <= s + len
    ensures t + Range(s, s + 8) + Range(s + 8, s + 8 + 8) + Range(s + 88, s + 88 + 8) + Range(s, mid)
            + Range(low, s + len)
            == t + Range(s, s + len)
  {
  }

  method CityHash128WithSeed(m: Message, start: nat, length: nat, seed: Pair) returns (h: Pair)
    requires InMessage(m.data, start, length)
    modifies m
    ensures h == Hash128WithSeed(m.data, start, length, seed)
    ensures m.touched == old(m.touched) + Range(start, start + length)
  {
    hide Add, Mul, Xor, Rotate, HashLen16, FromLength, CityHash.Fetch64, Range, Steps, TailSteps, MurmurState,
         MurmurFinish;
    if length < 128 {
      h := CityMurmur(m, start, length, seed);
      return;
    }
    var x, y := seed.first, seed.second;
    var z := Mul(FromLength(length), K1);
    var f := m.Fetch64(start);
    var v1 := Add(Mul(Rotate(Xor(y, K1), 49), K1), f);
    f := m.Fetch64(start + 8);
    var v2 := Add(Mul(Rotate(v1, 42), K1), f);
    var w1 := Add(Mul(Rotate(Add(y, z), 35), K1), x);
    f := m.Fetch64(start + 88);
    var w2 := Mul(Rotate(Add(x, f), 53), K1);
    var st := Chunks128(m, start, length, State(Pair(v1, v2), Pair(w1, w2), x, y, z));
    var s, len := start + 128 * (length / 128), length % 128;
    y := Add(st.y, Add(Mul(Rotate(st.w.first, 37), K0), st.z));
    x := Add(st.x, Mul(Rotate(Add(st.v.first, st.z), 49), K0));
    var rounds;
    st, rounds := Tail128(m, s, len, st.(y := y, x := x));
    Covers128(old(m.touched), start, length, s, s + len - 32 * rounds);
    x := HashLen16(st.x, st.v.first);
    y := HashLen16(st.y, st.w.first);
    h := Pair(Add(HashLen16(Add(x, st.v.second), st.w.second), y),
              HashLen16(Add(x, st.w.second), Add(y, st.v.second)));
  }

  lemma CoversSeed(t: set<int>, s: int, len: int)
    requires len >= 16
    ensures t + Range(s, s + 8) + Range(s + 8, s + 8 + 8) + Range(s + 16, s + 16 + (len - 16)) == t + Range(s, s + len)
  {
  }

  lemma CoversPair(t: set<int>, s: int, len: int)
    requires 8 <= len < 16
    ensures t + Range(s, s + 8) + Range(s + len - 8, s + len - 8 + 8) == t + Range(s, s + len)
  {
  }

  method CityHash128(m: Message, s: nat, len: nat) returns (h: Pair)
    requires InMessage(m.data, s, len)
    modifies m
    ensures h == Hash128(m.data, s, len)
    ensures m.touched == old(m.touched) + Range(s, s + len)
  {
    hide Mul, Xor, FromLength, CityHash.Fetch64, Range, Hash128WithSeed;
    if len >= 16 {
      CoversSeed(m.touched, s, len);
      var a := m.Fetch64(s);
      var b := m.Fetch64(s + 8);
      h := CityHash128WithSeed(m, s + 16, len - 16, Pair(Xor(a, K3), b));
    } else if len >= 8 {
      CoversPair(m.touched, s, len);
      var a := m.Fetch64(s);
      var b := m.Fetch64(s + len - 8);
      var empty := new Message([]);
      h := CityHash128WithSeed(empty, 0, 0, Pair(Xor(a, Mul(FromLength(len), K0)), Xor(b, K1)));
    } else {
      h := CityHash128WithSeed(m, s, len, Pair(K0, K1));
    }
  }
}
