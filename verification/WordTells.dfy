/** Sums, differences, exclusive ors and rotations tell what they were made of. */
module WordTells {
  import opened Word64

  lemma SubAdd(p: bv64, q: bv64)
    ensures Sub(Add(p, q), q) == p
  {
    AddBits(p, q);
    SubOfSum(p, q);
    hide *;
  }

  lemma AddBits(p: bv64, q: bv64)
    ensures Add(p, q) == p + q
  {
  }

  lemma SubOfSum(p: bv64, q: bv64)
    ensures Sub(p + q, q) == p
  {
  }

  lemma SubBits(p: bv64, q: bv64)
    ensures Sub(p, q) == p - q
  {
  }

  lemma SumOfDifference(p: bv64, q: bv64)
    ensures Add(p - q, q) == p && Sub(p, p - q) == q
  {
  }

  lemma SubBack(p: bv64, q: bv64)
    ensures Add(Sub(p, q), q) == p && Sub(p, Sub(p, q)) == q
  {
    SubBits(p, q);
    SumOfDifference(p, q);
    hide *;
  }

  lemma AddCommutes(p: bv64, q: bv64)
    ensures Add(p, q) == Add(q, p)
  {
  }

  lemma AddTells(p: bv64, p': bv64, q: bv64)
    ensures Add(p, q) == Add(p', q) <==> p == p'
    ensures Add(q, p) == Add(q, p') <==> p == p'
  {
    hide Add, Sub;
    SubAdd(p, q);
    SubAdd(p', q);
    AddCommutes(p, q);
    AddCommutes(p', q);
  }

  lemma SubTells(p: bv64, p': bv64, q: bv64)
    ensures Sub(p, q) == Sub(p', q) <==> p == p'
    ensures Sub(q, p) == Sub(q, p') <==> p == p'
  {
    hide Add, Sub;
    SubBack(p, q);
    SubBack(p', q);
    SubBack(q, p);
    SubBack(q, p');
  }

  lemma XorTells(p: bv64, p': bv64, q: bv64)
    ensures Xor(p, q) == Xor(p', q) <==> p == p'
    ensures Xor(q, p) == Xor(q, p') <==> p == p'
  {
    hide Xor;
    XorCancels(p, q);
    XorCancels(p', q);
    XorCommutes(p, q);
    XorCommutes(p', q);
  }

  /** A rotation by any of the numbers of bits that a state is rotated by. */
  lemma RotateTells(v: bv64, w: bv64, s: bv7)
    requires s in {21, 33, 37, 39, 42, 49, 53}
    ensures Rotate(v, s) == Rotate(w, s) <==> v == w
  {
    if Rotate(v, s) == Rotate(w, s) {
      RotateTold(v, w, s);
    }
  }

  lemma RotateTold(v: bv64, w: bv64, s: bv7)
    requires s in {21, 33, 37, 39, 42, 49, 53} && Rotate(v, s) == Rotate(w, s)
    ensures v == w
  {
    hide Rotate;
    if s == 21 {
      Rotate21Told(v, w);
    } else if s == 33 {
      Rotate33Told(v, w);
    } else if s == 37 {
      Rotate37Told(v, w);
    } else if s == 39 {
      Rotate39Told(v, w);
    } else if s == 42 {
      Rotate42Told(v, w);
    } else if s == 49 {
      Rotate49Told(v, w);
    } else {
      Rotate53Told(v, w);
    }
  }

  lemma Rotate21Told(v: bv64, w: bv64)
    requires Rotate(v, 21) == Rotate(w, 21)
    ensures v == w
  {
    Rotate21Bits(v);
    Rotate21Bits(w);
    hide Rotate;
    Rotate21BitsTell(v, w);
  }

  lemma Rotate21Bits(v: bv64)
    ensures Rotate(v, 21) == (v >> 21) | (v << 43)
  {
  }

  lemma Rotate21BitsTell(v: bv64, w: bv64)
    requires (v >> 21) | (v << 43) == (w >> 21) | (w << 43)
    ensures v == w
  {
  }

  lemma Rotate33Told(v: bv64, w: bv64)
    requires Rotate(v, 33) == Rotate(w, 33)
    ensures v == w
  {
    Rotate33Bits(v);
    Rotate33Bits(w);
    hide Rotate;
    Rotate33BitsTell(v, w);
  }

  lemma Rotate33Bits(v: bv64)
    ensures Rotate(v, 33) == (v >> 33) | (v << 31)
  {
  }

  lemma Rotate33BitsTell(v: bv64, w: bv64)
    requires (v >> 33) | (v << 31) == (w >> 33) | (w << 31)
    ensures v == w
  {
  }

  lemma Rotate37Told(v: bv64, w: bv64)
    requires Rotate(v, 37) == Rotate(w, 37)
    ensures v == w
  {
    Rotate37Bits(v);
    Rotate37Bits(w);
    hide Rotate;
    Rotate37BitsTell(v, w);
  }

  lemma Rotate37Bits(v: bv64)
    ensures Rotate(v, 37) == (v >> 37) | (v << 27)
  {
  }

  lemma Rotate37BitsTell(v: bv64, w: bv64)
    requires (v >> 37) | (v << 27) == (w >> 37) | (w << 27)
    ensures v == w
  {
  }

  lemma Rotate39Told(v: bv64, w: bv64)
    requires Rotate(v, 39) == Rotate(w, 39)
    ensures v == w
  {
    Rotate39Bits(v);
    Rotate39Bits(w);
    hide Rotate;
    Rotate39BitsTell(v, w);
  }

  lemma Rotate39Bits(v: bv64)
    ensures Rotate(v, 39) == (v >> 39) | (v << 25)
  {
  }

  lemma Rotate39BitsTell(v: bv64, w: bv64)
    requires (v >> 39) | (v << 25) == (w >> 39) | (w << 25)
    ensures v == w
  {
  }

  lemma Rotate42Told(v: bv64, w: bv64)
    requires Rotate(v, 42) == Rotate(w, 42)
    ensures v == w
  {
    Rotate42Bits(v);
    Rotate42Bits(w);
    hide Rotate;
    Rotate42BitsTell(v, w);
  }

  lemma Rotate42Bits(v: bv64)
    ensures Rotate(v, 42) == (v >> 42) | (v << 22)
  {
  }

  lemma Rotate42BitsTell(v: bv64, w: bv64)
    requires (v >> 42) | (v << 22) == (w >> 42) | (w << 22)
    ensures v == w
  {
  }

  lemma Rotate49Told(v: bv64, w: bv64)
    requires Rotate(v, 49) == Rotate(w, 49)
    ensures v == w
  {
    Rotate49Bits(v);
    Rotate49Bits(w);
    hide Rotate;
    Rotate49BitsTell(v, w);
  }

  lemma Rotate49Bits(v: bv64)
    ensures Rotate(v, 49) == (v >> 49) | (v << 15)
  {
  }

  lemma Rotate49BitsTell(v: bv64, w: bv64)
    requires (v >> 49) | (v << 15) == (w >> 49) | (w << 15)
    ensures v == w
  {
  }

  lemma Rotate53Told(v: bv64, w: bv64)
    requires Rotate(v, 53) == Rotate(w, 53)
    ensures v == w
  {
    Rotate53Bits(v);
    Rotate53Bits(w);
    hide Rotate;
    Rotate53BitsTell(v, w);
  }

  lemma Rotate53Bits(v: bv64)
    ensures Rotate(v, 53) == (v >> 53) | (v << 11)
  {
  }

  lemma Rotate53BitsTell(v: bv64, w: bv64)
    requires (v >> 53) | (v << 11) == (w >> 53) | (w << 11)
    ensures v == w
  {
  }
}
