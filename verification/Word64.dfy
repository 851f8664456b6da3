/** The 64-bit words that CityHash computes with. `bv64` wraps around exactly as `uint64` does.

    Every operation is a named function: the proofs about whole messages hide the bodies and reason with the
    laws below, so that no wide multiplication reaches the solver as bits. */
module Word64 {
  const K0: bv64 := 0xc3a5c85c97cb3127
  const K1: bv64 := 0xb492b66fbe98f273
  const K2: bv64 := 0x9ae16a3b2f90404f
  const K3: bv64 := 0xc949d7c7509e6557
  /** The multiplier of Hash128to64. */
  const K_MUL: bv64 := 0x9ddfea08eb382d69

  /** The inverses of K0, K1, K2 and K_MUL modulo 2^64; an odd number always has one. */
  const K0_INVERSE: bv64 := 0x81bc9c5aa9c72e97
  const K1_INVERSE: bv64 := 0x1ec3fe17279602bb
  const K2_INVERSE: bv64 := 0xb5a360ae14bed6af
  const K_MUL_INVERSE: bv64 := 0xdc56e6f5090b32d9

  function Add(a: bv64, b: bv64): bv64 { a + b }

  function Sub(a: bv64, b: bv64): bv64 { a - b }

  function Mul(a: bv64, b: bv64): bv64 { a * b }

  function Xor(a: bv64, b: bv64): bv64 { a ^ b }

  function FromLength(len: nat): bv64
    requires len < 0x1_0000_0000_0000_0000
  {
    len as bv64
  }

  function ShiftMix(val: bv64): bv64 { val ^ (val >> 47) }

  function Rotate(val: bv64, shift: bv7): bv64
    requires shift < 64
  {
    if shift == 0 then val else (val >> shift) | (val << (64 - shift))
  }

  // ----- laws

  lemma XorCommutes(a: bv64, b: bv64)
    ensures Xor(a, b) == Xor(b, a)
  {
  }

  lemma XorCancels(a: bv64, m: bv64)
    ensures Xor(Xor(a, m), m) == a
  {
    XorBits(a, m);
    XorOfXor(a, m);
    hide *;
  }

  lemma XorBits(a: bv64, m: bv64)
    ensures Xor(a, m) == a ^ m
  {
  }

  lemma XorOfXor(a: bv64, m: bv64)
    ensures Xor(a ^ m, m) == a
  {
  }

  /** 2 * 47 is at least 64, so the shifted copy of the shifted copy is gone: ShiftMix is its own inverse. */
  lemma ShiftMixUndoesItself(v: bv64)
    ensures ShiftMix(ShiftMix(v)) == v
  {
    ShiftMixBits(v);
    ShiftMixOfBits(v);
    hide *;
  }

  lemma ShiftMixBits(v: bv64)
    ensures ShiftMix(v) == v ^ (v >> 47)
  {
  }

  lemma ShiftMixOfBits(v: bv64)
    ensures ShiftMix(v ^ (v >> 47)) == v
  {
  }

  lemma MulK1Undone(a: bv64)
    ensures Mul(Mul(a, K1), K1_INVERSE) == a
  {
    MulK1Bits(a);
    MulK1InverseBits(a);
    hide *;
  }

  lemma MulK1Bits(a: bv64)
    ensures Mul(a, K1) == a * 0xb492b66fbe98f273
  {
  }

  lemma MulK1InverseBits(a: bv64)
    ensures Mul(a * 0xb492b66fbe98f273, K1_INVERSE) == a
  {
  }

  lemma MulK0Undone(a: bv64)
    ensures Mul(Mul(a, K0), K0_INVERSE) == a
  {
    MulK0Bits(a);
    MulK0InverseBits(a);
    hide *;
  }

  lemma MulK0Bits(a: bv64)
    ensures Mul(a, K0) == a * 0xc3a5c85c97cb3127
  {
  }

  lemma MulK0InverseBits(a: bv64)
    ensures Mul(a * 0xc3a5c85c97cb3127, K0_INVERSE) == a
  {
  }

  lemma MulK2Undone(a: bv64)
    ensures Mul(Mul(a, K2), K2_INVERSE) == a
  {
    MulK2Bits(a);
    MulK2InverseBits(a);
    hide *;
  }

  lemma MulK2Bits(a: bv64)
    ensures Mul(a, K2) == a * 0x9ae16a3b2f90404f
  {
  }

  lemma MulK2InverseBits(a: bv64)
    ensures Mul(a * 0x9ae16a3b2f90404f, K2_INVERSE) == a
  {
  }

  lemma MulKMulUndone(a: bv64)
    ensures Mul(Mul(a, K_MUL), K_MUL_INVERSE) == a
  {
    MulKMulBits(a);
    MulKMulInverseBits(a);
    hide *;
  }

  lemma MulKMulBits(a: bv64)
    ensures Mul(a, K_MUL) == a * 0x9ddfea08eb382d69
  {
  }

  lemma MulKMulInverseBits(a: bv64)
    ensures Mul(a * 0x9ddfea08eb382d69, K_MUL_INVERSE) == a
  {
  }

  // ----- a factor told from the product

  lemma MulK0Tells(p: bv64, p': bv64)
    ensures Mul(p, K0) == Mul(p', K0) <==> p == p'
  {
    hide Mul;
    MulK0Undone(p);
    MulK0Undone(p');
  }

  lemma MulK1Tells(p: bv64, p': bv64)
    ensures Mul(p, K1) == Mul(p', K1) <==> p == p'
  {
    hide Mul;
    MulK1Undone(p);
    MulK1Undone(p');
  }

  lemma MulK2Tells(p: bv64, p': bv64)
    ensures Mul(p, K2) == Mul(p', K2) <==> p == p'
  {
    hide Mul;
    MulK2Undone(p);
    MulK2Undone(p');
  }

  lemma ShiftMixTells(p: bv64, p': bv64)
    ensures ShiftMix(p) == ShiftMix(p') <==> p == p'
  {
    hide ShiftMix;
    ShiftMixUndoesItself(p);
    ShiftMixUndoesItself(p');
  }
}
