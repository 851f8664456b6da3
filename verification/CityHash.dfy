/** What CityHash computes, as functions on a message and the offset `p` of the range that is hashed. */
module CityHash {
  import opened Word64

  datatype Pair = Pair(first: bv64, second: bv64)

  /** Offsets and lengths are size_t values. */
  predicate InMessage(s: seq<bv8>, p: nat, len: nat) {
    p + len <= |s| < 0x1_0000_0000_0000_0000
  }

  /** A little-endian load; on a big-endian machine the original swaps the bytes to the same effect. */
  function Fetch64(s: seq<bv8>, p: nat): bv64
    requires p + 8 <= |s|
  {
    (s[p] as bv64) | ((s[p + 1] as bv64) << 8) | ((s[p + 2] as bv64) << 16) | ((s[p + 3] as bv64) << 24) |
    ((s[p + 4] as bv64) << 32) | ((s[p + 5] as bv64) << 40) | ((s[p + 6] as bv64) << 48) | ((s[p + 7] as bv64) << 56)
  }

  function Fetch32(s: seq<bv8>, p: nat): bv64
    requires p + 4 <= |s|
  {
    (s[p] as bv64) | ((s[p + 1] as bv64) << 8) | ((s[p + 2] as bv64) << 16) | ((s[p + 3] as bv64) << 24)
  }

  /** Hash128to64. */
  function HashLen16(u: bv64, v: bv64): bv64 {
    var a := ShiftMix(Mul(Xor(u, v), K_MUL));
    Mul(ShiftMix(Mul(Xor(v, a), K_MUL)), K_MUL)
  }

  /** The hash of one to three bytes, given the first, middle and last of them; y and z are 32-bit words. */
  function HashTiny(a: bv8, b: bv8, c: bv8, len: bv32): bv64 {
    var y := (a as bv32) + ((b as bv32) << 8);
    var z := len + ((c as bv32) << 2);
    Mul(ShiftMix(Xor(Mul(y as bv64, K2), Mul(z as bv64, K3))), K2)
  }

  function HashLen0to16(s: seq<bv8>, p: nat, len: nat): bv64
    requires InMessage(s, p, len) && len <= 16
  {
    var n := FromLength(len);
    if len > 8 then
      var b := Fetch64(s, p + len - 8);
      Xor(HashLen16(Fetch64(s, p), Rotate(Add(b, n), len as bv7)), b)
    else if len >= 4 then
      HashLen16(Add(n, TimesEight(Fetch32(s, p))), Fetch32(s, p + len - 4))
    else if len > 0 then
      HashTiny(s[p], s[p + len / 2], s[p + len - 1], len as bv32)
    else
      K2
  }

  function TimesEight(a: bv64): bv64 { a << 3 }

  function HashLen17to32(s: seq<bv8>, p: nat, len: nat): bv64
    requires InMessage(s, p, len) && 16 < len <= 32
  {
    var a := Mul(Fetch64(s, p), K1);
    var b := Fetch64(s, p + 8);
    var c := Mul(Fetch64(s, p + len - 8), K2);
    var d := Mul(Fetch64(s, p + len - 16), K0);
    HashLen16(Add(Add(Rotate(Sub(a, b), 43), Rotate(c, 30)), d),
              Add(Sub(Add(a, Rotate(Xor(b, K3), 20)), c), FromLength(len)))
  }

  function WeakHash(w: bv64, x: bv64, y: bv64, z: bv64, a: bv64, b: bv64): Pair {
    var c := Add(a, w);
    var b1 := Rotate(Add(Add(b, c), z), 21);
    var a2 := Add(Add(c, x), y);
    Pair(Add(a2, z), Add(Add(b1, Rotate(a2, 44)), c))
  }

  function WeakHashAt(s: seq<bv8>, p: nat, a: bv64, b: bv64): Pair
    requires p + 32 <= |s|
  {
    WeakHash(Fetch64(s, p), Fetch64(s, p + 8), Fetch64(s, p + 16), Fetch64(s, p + 24), a, b)
  }

  /** One half of HashLen33to64: `z`, `a` and two more words give a pair. */
  function Fold(z: bv64, a: bv64, m1: bv64, m2: bv64): Pair {
    var b := Rotate(Add(a, z), 52);
    var c := Rotate(a, 37);
    var a1 := Add(a, m1);
    var c1 := Add(c, Rotate(a1, 7));
    var a2 := Add(a1, m2);
    Pair(Add(a2, z), Add(Add(b, Rotate(a2, 31)), c1))
  }

  function HashLen33to64(s: seq<bv8>, p: nat, len: nat): bv64
    requires InMessage(s, p, len) && 32 < len <= 64
  {
    var v := Fold(Fetch64(s, p + 24),
                  Add(Fetch64(s, p), Mul(Add(FromLength(len), Fetch64(s, p + len - 16)), K0)),
                  Fetch64(s, p + 8), Fetch64(s, p + 16));
    var w := Fold(Fetch64(s, p + len - 8),
                  Add(Fetch64(s, p + 16), Fetch64(s, p + len - 32)),
                  Fetch64(s, p + len - 24), Fetch64(s, p + len - 16));
    var r := ShiftMix(Add(Mul(Add(v.first, w.second), K2), Mul(Add(w.first, v.second), K0)));
    Mul(ShiftMix(Add(Mul(r, K0), v.second)), K2)
  }

  // ----- the 64-byte step

  /** The 56 bytes of state that the long-message loops keep. */
  datatype State = State(v: Pair, w: Pair, x: bv64, y: bv64, z: bv64)

  /** What one 64-byte chunk at `p` does to the state, x and z exchanged at the end. */
  function Step(st: State, s: seq<bv8>, p: nat): State
    requires p + 64 <= |s|
  {
    var x := Xor(Mul(Rotate(Add(Add(Add(st.x, st.y), st.v.first), Fetch64(s, p + 16)), 37), K1), st.w.second);
    var y := Xor(Mul(Rotate(Add(Add(st.y, st.v.second), Fetch64(s, p + 48)), 42), K1), st.v.first);
    var z := Rotate(Xor(st.z, st.w.first), 33);
    var v := WeakHashAt(s, p, Mul(st.v.second, K1), Add(x, st.w.first));
    var w := WeakHashAt(s, p + 32, Add(z, st.w.second), y);
    State(v, w, z, y, x)
  }

  /** `n` consecutive chunks. */
  function Steps(st: State, s: seq<bv8>, p: nat, n: nat): State
    requires p + 64 * n <= |s|
  {
    if n == 0 then st else Step(Steps(st, s, p, n - 1), s, p + 64 * (n - 1))
  }

  function Start64(s: seq<bv8>, p: nat, len: nat): State
    requires InMessage(s, p, len) && len > 64
  {
    var y := Xor(Fetch64(s, p + len - 16), K1);
    var z := Xor(Fetch64(s, p + len - 56), K0);
    var v := WeakHashAt(s, p + len - 64, FromLength(len), y);
    var w := WeakHashAt(s, p + len - 32, Mul(FromLength(len), K1), K0);
    var z1 := Add(z, Mul(ShiftMix(v.second), K1));
    State(v, w, Mul(Rotate(Add(z1, Fetch64(s, p)), 39), K1), Mul(Rotate(y, 33), K1), z1)
  }

  function Finish64(st: State): bv64 {
    HashLen16(Add(Add(HashLen16(st.v.first, st.w.first), Mul(ShiftMix(st.y), K1)), st.z),
              Add(HashLen16(st.v.second, st.w.second), st.x))
  }

  function Hash64(s: seq<bv8>, p: nat, len: nat): bv64
    requires InMessage(s, p, len)
  {
    if len <= 16 then HashLen0to16(s, p, len)
    else if len <= 32 then HashLen17to32(s, p, len)
    else if len <= 64 then HashLen33to64(s, p, len)
    else Finish64(Steps(Start64(s, p, len), s, p, (len - 1) / 64))
  }

  // ----- CityMurmur

  datatype Murmur = Murmur(a: bv64, b: bv64, c: bv64, d: bv64)

  /** One word `m` mixed into one accumulator. */
  function MixIn(acc: bv64, m: bv64): bv64 {
    Mul(Xor(acc, Mul(ShiftMix(Mul(m, K1)), K1)), K1)
  }

  /** One 16-byte block, as its two words. */
  function MurmurStep(st: Murmur, m0: bv64, m1: bv64): Murmur {
    var a := MixIn(st.a, m0);
    var c := MixIn(st.c, m1);
    Murmur(a, Xor(st.b, a), c, Xor(st.d, c))
  }

  function MurmurSteps(st: Murmur, s: seq<bv8>, p: nat, n: nat): Murmur
    requires p + 16 * n <= |s|
  {
    if n == 0 then st
    else MurmurStep(MurmurSteps(st, s, p, n - 1), Fetch64(s, p + 16 * (n - 1)), Fetch64(s, p + 16 * (n - 1) + 8))
  }

  function MurmurShort(s: seq<bv8>, p: nat, len: nat, seed: Pair): Murmur
    requires InMessage(s, p, len) && len <= 16
  {
    var a := Mul(ShiftMix(Mul(seed.first, K1)), K1);
    var c := Add(Mul(seed.second, K1), HashLen0to16(s, p, len));
    Murmur(a, seed.second, c, ShiftMix(Add(a, if len >= 8 then Fetch64(s, p) else c)))
  }

  function MurmurStart(s: seq<bv8>, p: nat, len: nat, seed: Pair): Murmur
    requires InMessage(s, p, len) && len > 16
  {
    var c := HashLen16(Add(Fetch64(s, p + len - 8), K1), seed.first);
    var d := HashLen16(Add(seed.second, FromLength(len)), Add(c, Fetch64(s, p + len - 16)));
    Murmur(Add(seed.first, d), seed.second, c, d)
  }

  /** The state of CityMurmur before its final mix; its loop runs once for every 16 bytes but the last 1 to 16. */
  function MurmurState(s: seq<bv8>, p: nat, len: nat, seed: Pair): Murmur
    requires InMessage(s, p, len)
  {
    if len <= 16 then MurmurShort(s, p, len, seed)
    else MurmurSteps(MurmurStart(s, p, len, seed), s, p, (len - 1) / 16)
  }

  function MurmurFinish(st: Murmur): Pair {
    var a := HashLen16(st.a, st.c);
    var b := HashLen16(st.d, st.b);
    Pair(Xor(a, b), HashLen16(b, a))
  }

  // ----- 128-bit hashes

  function Start128(s: seq<bv8>, p: nat, len: nat, seed: Pair): State
    requires InMessage(s, p, len) && len >= 128
  {
    var x, y := seed.first, seed.second;
    var z := Mul(FromLength(len), K1);
    var v1 := Add(Mul(Rotate(Xor(y, K1), 49), K1), Fetch64(s, p));
    State(Pair(v1, Add(Mul(Rotate(v1, 42), K1), Fetch64(s, p + 8))),
          Pair(Add(Mul(Rotate(Add(y, z), 35), K1), x), Mul(Rotate(Add(x, Fetch64(s, p + 88)), 53), K1)),
          x, y, z)
  }

  function Bridge128(st: State): State {
    var y := Add(st.y, Add(Mul(Rotate(st.w.first, 37), K0), st.z));
    st.(y := y, x := Add(st.x, Mul(Rotate(Add(st.v.first, st.z), 49), K0)))
  }

  /** One 32-byte tail chunk at `p`. */
  function TailStep(st: State, s: seq<bv8>, p: nat): State
    requires p + 32 <= |s|
  {
    var y := Add(Mul(Rotate(Sub(st.y, st.x), 42), K0), st.v.second);
    var w1 := Add(st.w.first, Fetch64(s, p + 16));
    var x := Add(Mul(Rotate(st.x, 49), K0), w1);
    State(WeakHashAt(s, p, st.v.first, st.v.second), Pair(Add(w1, st.v.first), st.w.second), x, y, st.z)
  }

  /** `n` tail chunks, taken backwards from `end`. */
  function TailSteps(st: State, s: seq<bv8>, end: nat, n: nat): State
    requires 32 * n <= end <= |s|
  {
    if n == 0 then st else TailStep(TailSteps(st, s, end, n - 1), s, end - 32 * n)
  }

  function Finish128(st: State): Pair {
    var x := HashLen16(st.x, st.v.first);
    var y := HashLen16(st.y, st.w.first);
    Pair(Add(HashLen16(Add(x, st.v.second), st.w.second), y), HashLen16(Add(x, st.w.second), Add(y, st.v.second)))
  }

  function Hash128WithSeed(s: seq<bv8>, p: nat, len: nat, seed: Pair): Pair
    requires InMessage(s, p, len)
  {
    if len < 128 then MurmurFinish(MurmurState(s, p, len, seed))
    else
      var chunks := 2 * (len / 128);
      var st := Bridge128(Steps(Start128(s, p, len, seed), s, p, chunks));
      Finish128(TailSteps(st, s, p + len, (len % 128 + 31) / 32))
  }

  function Hash128(s: seq<bv8>, p: nat, len: nat): Pair
    requires InMessage(s, p, len)
  {
    if len >= 16 then
      Hash128WithSeed(s, p + 16, len - 16, Pair(Xor(Fetch64(s, p), K3), Fetch64(s, p + 8)))
    else if len >= 8 then
      Hash128WithSeed([], 0, 0,
                      Pair(Xor(Fetch64(s, p), Mul(FromLength(len), K0)), Xor(Fetch64(s, p + len - 8), K1)))
    else
      Hash128WithSeed(s, p, len, Pair(K0, K1))
  }
}
