/** Known answers: the hashes of the bytes 0, 1, 2, and so on, at the lengths where one case ends and another begins.
    They fix what no law does: the constants, the rotations, and the order of the arguments. */
module KnownAnswers {
  import opened Word64
  import opened CityHash

  ghost predicate Counts(s: seq<bv8>, n: nat) {
    |s| == n <= 256 && forall i :: 0 <= i < n ==> s[i] == i as bv8
  }

  lemma Length(s: seq<bv8>, n: nat)
    requires Counts(s, n)
    ensures |s| == n
  {
  }

  // ----- CityHash64

  lemma Hash64Of3(s: seq<bv8>)
    requires Counts(s, 3)
    ensures Hash64(s, 0, 0) == K2 && Hash64(s, 0, 3) == 0x34e803dc175e241f
  {
    assert s[0] == 0 && s[1] == 1 && s[2] == 2;
  }

  lemma Hash64Of8(s: seq<bv8>)
    requires Counts(s, 8)
    ensures Hash64(s, 0, 8) == 0xbab32314ab07fa4e
  {
    assert Fetch32(s, 0) == 0x03020100 && Fetch32(s, 4) == 0x07060504;
  }

  lemma Hash64Of16(s: seq<bv8>)
    requires Counts(s, 16)
    ensures Hash64(s, 0, 16) == 0x2fb0d75f94362763
  {
    assert Fetch64(s, 0) == 0x0706050403020100;
    assert Fetch64(s, 8) == 0x0f0e0d0c0b0a0908;
    hide Fetch64;
  }

  lemma Hash64Of32(s: seq<bv8>)
    requires Counts(s, 32)
    ensures Hash64(s, 0, 32) == 0x40cfef3d008869dc
  {
    assert Fetch64(s, 0) == 0x0706050403020100;
    assert Fetch64(s, 8) == 0x0f0e0d0c0b0a0908;
    assert Fetch64(s, 16) == 0x1716151413121110;
    assert Fetch64(s, 24) == 0x1f1e1d1c1b1a1918;
    hide Fetch64;
  }

  lemma Hash64Of64(s: seq<bv8>)
    requires Counts(s, 64)
    ensures Hash64(s, 0, 64) == 0xf7a2aca4d0a3fde1
  {
    assert Fetch64(s, 0) == 0x0706050403020100;
    assert Fetch64(s, 8) == 0x0f0e0d0c0b0a0908;
    assert Fetch64(s, 16) == 0x1716151413121110;
    assert Fetch64(s, 24) == 0x1f1e1d1c1b1a1918;
    assert Fetch64(s, 32) == 0x2726252423222120;
    assert Fetch64(s, 40) == 0x2f2e2d2c2b2a2928;
    assert Fetch64(s, 48) == 0x3736353433323130;
    assert Fetch64(s, 56) == 0x3f3e3d3c3b3a3938;
    hide Fetch64;
  }

  /** 192 bytes: the state at the beginning, and after each of two steps. */
  const A0 := State(Pair(0x4e4a46423e3a36f0, 0x4cdd88d0a2454e5c), Pair(0x3cd39a91b1708cf0, 0xd614d19969dcb07b),
                    0x56e98678be043273, 0xa3ec04ab4520e777, 0xe4d9fbcdaae21374)
  const A1 := State(Pair(0x55ac1e91740d5f84, 0x111ee1a3d991eab2), Pair(0xb0a6e61c929a95d9, 0x3256ca9be4dd2f4d),
                    0x0dc94fc26c0530ae, 0x7881b4869b14ee20, 0xf6eb67e7a87b5992)
  const A2 := State(Pair(0xd8dc4f895f51e726, 0xf474bb0808683d9f), Pair(0x9d91768345bda5fa, 0x3d20da9648a6ad46),
                    0x9d70e625a326c0fd, 0x5106102ce6cde5a2, 0x9d7a31b0fe0ff6fe)

  lemma BeginOf192(s: seq<bv8>)
    requires Counts(s, 192)
    ensures Start64(s, 0, 192) == A0
  {
    assert Fetch64(s, 0) == 0x0706050403020100;
    assert Fetch64(s, 128) == 0x8786858483828180;
    assert Fetch64(s, 136) == 0x8f8e8d8c8b8a8988;
    assert Fetch64(s, 144) == 0x9796959493929190;
    assert Fetch64(s, 152) == 0x9f9e9d9c9b9a9998;
    assert Fetch64(s, 160) == 0xa7a6a5a4a3a2a1a0;
    assert Fetch64(s, 168) == 0xafaeadacabaaa9a8;
    assert Fetch64(s, 176) == 0xb7b6b5b4b3b2b1b0;
    assert Fetch64(s, 184) == 0xbfbebdbcbbbab9b8;
    hide Fetch64;
  }

  lemma FirstOf192(s: seq<bv8>)
    requires Counts(s, 192)
    ensures Step(A0, s, 0) == A1
  {
    assert Fetch64(s, 0) == 0x0706050403020100;
    assert Fetch64(s, 8) == 0x0f0e0d0c0b0a0908;
    assert Fetch64(s, 16) == 0x1716151413121110;
    assert Fetch64(s, 24) == 0x1f1e1d1c1b1a1918;
    assert Fetch64(s, 32) == 0x2726252423222120;
    assert Fetch64(s, 40) == 0x2f2e2d2c2b2a2928;
    assert Fetch64(s, 48) == 0x3736353433323130;
    assert Fetch64(s, 56) == 0x3f3e3d3c3b3a3938;
    hide Fetch64;
  }

  lemma SecondOf192(s: seq<bv8>)
    requires Counts(s, 192)
    ensures Step(A1, s, 64) == A2
  {
    assert Fetch64(s, 64) == 0x4746454443424140;
    assert Fetch64(s, 72) == 0x4f4e4d4c4b4a4948;
    assert Fetch64(s, 80) == 0x5756555453525150;
    assert Fetch64(s, 88) == 0x5f5e5d5c5b5a5958;
    assert Fetch64(s, 96) == 0x6766656463626160;
    assert Fetch64(s, 104) == 0x6f6e6d6c6b6a6968;
    assert Fetch64(s, 112) == 0x7776757473727170;
    assert Fetch64(s, 120) == 0x7f7e7d7c7b7a7978;
    hide Fetch64;
  }

  lemma EndOf192()
    ensures Finish64(A2) == 0x72fbf51862497cb8
  {
  }

  lemma Hash64Of192(s: seq<bv8>)
    requires Counts(s, 192)
    ensures Hash64(s, 0, 192) == 0x72fbf51862497cb8
  {
    hide Step, Start64, Finish64, Counts;
    assert |s| == 192 by { Length(s, 192); }
    BeginOf192(s);
    FirstOf192(s);
    SecondOf192(s);
    EndOf192();
    assert Steps(A0, s, 0, 0) == A0;
    assert Steps(A0, s, 0, 1) == A1;
  }

  // ----- CityHash128

  lemma Hash128Of3(s: seq<bv8>)
    requires Counts(s, 3)
    ensures Hash128(s, 0, 0) == Pair(0x3df09dfc64c09a2b, 0x3cb540c392e51e29)
    ensures Hash128(s, 0, 3) == Pair(0x10dc1926b0850ac2, 0x80c20dad5cdd0e6f)
  {
    assert s[0] == 0 && s[1] == 1 && s[2] == 2;
  }

  lemma Hash128Of8(s: seq<bv8>)
    requires Counts(s, 8)
    ensures Hash128(s, 0, 8) == Pair(0xd0bfe8984e1e8682, 0x565141a0cf7fc611)
  {
    assert Fetch64(s, 0) == 0x0706050403020100;
    hide Fetch64;
  }

  lemma Hash128Of16(s: seq<bv8>)
    requires Counts(s, 16)
    ensures Hash128(s, 0, 16) == Pair(0x17ceade677c2f945, 0x579ed60675c8fedc)
  {
    assert Fetch64(s, 0) == 0x0706050403020100;
    assert Fetch64(s, 8) == 0x0f0e0d0c0b0a0908;
    hide Fetch64;
  }

  /** From 16 bytes on the first 16 are the seed. */
  const SEED := Pair(0xce4fd2c3539c6457, 0x0f0e0d0c0b0a0908)

  lemma Seeded(s: seq<bv8>)
    requires |s| >= 16 && Counts(s, |s|)
    ensures Hash128(s, 0, |s|) == Hash128WithSeed(s, 16, |s| - 16, SEED)
  {
    assert Fetch64(s, 0) == 0x0706050403020100;
    assert Fetch64(s, 8) == 0x0f0e0d0c0b0a0908;
    hide Fetch64, Hash128WithSeed;
  }

  /** 8 more, and 16. */
  const C8 := Murmur(0x22ee1245e84ebcc9, 0x0f0e0d0c0b0a0908,
                     0xaa342677a203d4b6, 0x3a042759fb60b9d1)
  const C16 := Murmur(0x22ee1245e84ebcc9, 0x0f0e0d0c0b0a0908,
                      0x869be4e3ea60355b, 0x3a042759fb60b9d1)

  lemma StateOf24(s: seq<bv8>)
    requires Counts(s, 24)
    ensures MurmurState(s, 16, 8, SEED) == C8
  {
    assert Fetch32(s, 16) == 0x13121110 && Fetch32(s, 20) == 0x17161514;
    assert Fetch64(s, 16) == 0x1716151413121110;
    hide Fetch64, Fetch32;
  }

  lemma StateOf32(s: seq<bv8>)
    requires Counts(s, 32)
    ensures MurmurState(s, 16, 16, SEED) == C16
  {
    assert Fetch64(s, 16) == 0x1716151413121110;
    assert Fetch64(s, 24) == 0x1f1e1d1c1b1a1918;
    hide Fetch64;
  }

  lemma EndOfShort()
    ensures MurmurFinish(C8) == Pair(0xc33e90e09eca8274, 0xa780ae878096c2e9)
    ensures MurmurFinish(C16) == Pair(0xfe71590c670b561d, 0x498f5b464f875a30)
  {
  }

  lemma Hash128Of24(s: seq<bv8>)
    requires Counts(s, 24)
    ensures Hash128(s, 0, 24) == Pair(0xc33e90e09eca8274, 0xa780ae878096c2e9)
  {
    hide Counts, Fetch64, MurmurState, MurmurFinish, Hash128;
    assert |s| == 24 by { Length(s, 24); }
    Seeded(s);
    StateOf24(s);
    EndOfShort();
  }

  lemma Hash128Of32(s: seq<bv8>)
    requires Counts(s, 32)
    ensures Hash128(s, 0, 32) == Pair(0xfe71590c670b561d, 0x498f5b464f875a30)
  {
    hide Counts, Fetch64, MurmurState, MurmurFinish, Hash128;
    assert |s| == 32 by { Length(s, 32); }
    Seeded(s);
    StateOf32(s);
    EndOfShort();
  }

  /** 48 more: the state at the beginning, and after each of two blocks. */
  const D0 := Murmur(0x5490881b44b99dac, 0x0f0e0d0c0b0a0908,
                     0xbbd854d1706f6103, 0x8640b557f11d3955)
  const D1 := Murmur(0xe64b0512e2d8f3ff, 0xe945081ee9d2faf7,
                     0x6b6e127b5a6e62c7, 0xed2ea72cab735b92)
  const D2 := Murmur(0x29a60b2da744f6ed, 0xc0e303334e960c1a,
                     0x92774e38376fb3ef, 0x7f59e9149c1ce87d)

  lemma BeginOf64(s: seq<bv8>)
    requires Counts(s, 64)
    ensures MurmurStart(s, 16, 48, SEED) == D0
  {
    assert Fetch64(s, 48) == 0x3736353433323130;
    assert Fetch64(s, 56) == 0x3f3e3d3c3b3a3938;
    hide Fetch64;
  }

  lemma BlocksOf64(s: seq<bv8>)
    requires Counts(s, 64)
    ensures MurmurStep(D0, Fetch64(s, 16), Fetch64(s, 24)) == D1
    ensures MurmurStep(D1, Fetch64(s, 32), Fetch64(s, 40)) == D2
  {
    assert Fetch64(s, 16) == 0x1716151413121110;
    assert Fetch64(s, 24) == 0x1f1e1d1c1b1a1918;
    assert Fetch64(s, 32) == 0x2726252423222120;
    assert Fetch64(s, 40) == 0x2f2e2d2c2b2a2928;
    hide Fetch64;
  }

  lemma EndOf64()
    ensures MurmurFinish(D2) == Pair(0x83d9a0502fd851d0, 0x718073343ea63f22)
  {
  }

  lemma Hash128Of64(s: seq<bv8>)
    requires Counts(s, 64)
    ensures Hash128(s, 0, 64) == Pair(0x83d9a0502fd851d0, 0x718073343ea63f22)
  {
    hide Counts, Fetch64, MurmurStart, MurmurStep, MurmurFinish, Hash128;
    assert |s| == 64 by { Length(s, 64); }
    Seeded(s);
    BeginOf64(s);
    BlocksOf64(s);
    EndOf64();
    assert MurmurSteps(D0, s, 16, 0) == D0;
    assert MurmurSteps(D0, s, 16, 1) == D1;
  }

  /** 128 more: the state at the beginning, after two steps, and after the step between the loops. */
  const E0 := State(Pair(0x9a430a21a159709a, 0xd6cd477edbf4843e), Pair(0xe45bd9a55e220cde, 0x1a0e0681b4614f77),
                    0xce4fd2c3539c6457, 0x0f0e0d0c0b0a0908, 0x495b37df4c793980)
  const E1 := State(Pair(0xeb4d0ca0f922784a, 0x9b93fb88d3e93e9a), Pair(0x3044a63207dabba4, 0x1ee145879b150602),
                    0x092d9aaf5680773d, 0x19a6c2ae4dc88148, 0x50859c26df5d829f)
  const E2 := State(Pair(0xebc76c04a3de289e, 0xeaee2b3749c85470), Pair(0x992ee827496f98fc, 0x22952bcf52ebdf27),
                    0x6c439c9db0609d0a, 0x2a69b33fca5c2bba, 0xaf3445bb5f6d5143)
  const E3 := State(Pair(0xebc76c04a3de289e, 0xeaee2b3749c85470), Pair(0x992ee827496f98fc, 0x22952bcf52ebdf27),
                    0x1737f31b3d83d815, 0x05ec22ae7bd918e4, 0xaf3445bb5f6d5143)

  lemma BeginOf144(s: seq<bv8>)
    requires Counts(s, 144)
    ensures Start128(s, 16, 128, SEED) == E0
  {
    assert Fetch64(s, 16) == 0x1716151413121110;
    assert Fetch64(s, 24) == 0x1f1e1d1c1b1a1918;
    assert Fetch64(s, 104) == 0x6f6e6d6c6b6a6968;
    hide Fetch64;
  }

  lemma FirstOf144(s: seq<bv8>)
    requires Counts(s, 144)
    ensures Step(E0, s, 16) == E1
  {
    assert Fetch64(s, 16) == 0x1716151413121110;
    assert Fetch64(s, 24) == 0x1f1e1d1c1b1a1918;
    assert Fetch64(s, 32) == 0x2726252423222120;
    assert Fetch64(s, 40) == 0x2f2e2d2c2b2a2928;
    assert Fetch64(s, 48) == 0x3736353433323130;
    assert Fetch64(s, 56) == 0x3f3e3d3c3b3a3938;
    assert Fetch64(s, 64) == 0x4746454443424140;
    assert Fetch64(s, 72) == 0x4f4e4d4c4b4a4948;
    hide Fetch64;
  }

  lemma SecondOf144(s: seq<bv8>)
    requires Counts(s, 144)
    ensures Step(E1, s, 80) == E2
  {
    assert Fetch64(s, 80) == 0x5756555453525150;
    assert Fetch64(s, 88) == 0x5f5e5d5c5b5a5958;
    assert Fetch64(s, 96) == 0x6766656463626160;
    assert Fetch64(s, 104) == 0x6f6e6d6c6b6a6968;
    assert Fetch64(s, 112) == 0x7776757473727170;
    assert Fetch64(s, 120) == 0x7f7e7d7c7b7a7978;
    assert Fetch64(s, 128) == 0x8786858483828180;
    assert Fetch64(s, 136) == 0x8f8e8d8c8b8a8988;
    hide Fetch64;
  }

  lemma EndOf144()
    ensures Bridge128(E2) == E3 && Finish128(E3) == Pair(0xa6bdeceec903d0fc, 0xc56b79626912c1bc)
  {
  }

  lemma Hash128Of144(s: seq<bv8>)
    requires Counts(s, 144)
    ensures Hash128(s, 0, 144) == Pair(0xa6bdeceec903d0fc, 0xc56b79626912c1bc)
  {
    hide Step, Start128, Bridge128, TailStep, Finish128, Counts, Fetch64, Hash128;
    assert |s| == 144 by { Length(s, 144); }
    Seeded(s);
    BeginOf144(s);
    FirstOf144(s);
    SecondOf144(s);
    EndOf144();
    assert Steps(E0, s, 16, 0) == E0;
    assert Steps(E0, s, 16, 1) == E1;
    assert TailSteps(E3, s, 144, 0) == E3;
  }

  /** 192 more: the state at the beginning, after two steps, and after the step between the loops,
      and after two steps of the tail. */
  const B0 := State(Pair(0x9a430a21a159709a, 0xd6cd477edbf4843e), Pair(0x5993170107deca78, 0x1a0e0681b4614f77),
                    0xce4fd2c3539c6457, 0x0f0e0d0c0b0a0908, 0x6e08d3cef2b5d640)
  const B1 := State(Pair(0xeb4d0ca0f922784a, 0x8180c7328dd41be8), Pair(0x21cc999ecd2826ce, 0xb28edd57529cefd5),
                    0xfab58e1c1bcde267, 0x19a6c2ae4dc88148, 0x50859c26df5d829f)
  const B2 := State(Pair(0x9717778877e34ea8, 0x647cbb452f452ecc), Pair(0xc9d3b582093b68a1, 0x0ad1e59dead5144c),
                    0x093ad228b8a482dc, 0xf0a09f3070ec9993, 0x9952626ab03d8037)
  const B3 := State(Pair(0x9717778877e34ea8, 0x647cbb452f452ecc), Pair(0xc9d3b582093b68a1, 0x0ad1e59dead5144c),
                    0x0f23af693402a6c8, 0xf6a96204d6b60afe, 0x9952626ab03d8037)
  const B4 := State(Pair(0xa6227e8b76de4598, 0x8a80428db655dec8), Pair(0x28b1f2cf44e17909, 0x0ad1e59dead5144c),
                    0x582653552da91278, 0x27c085234f603240, 0x9952626ab03d8037)
  const B5 := State(Pair(0x34ad050df558bc08, 0x3eca72c0709bfa70), Pair(0x767b16ff5f626041, 0x0ad1e59dead5144c),
                    0xfcfd40a37d2f748e, 0x11b627d3f062ca1c, 0x9952626ab03d8037)

  lemma BeginOf208(s: seq<bv8>)
    requires Counts(s, 208)
    ensures Start128(s, 16, 192, SEED) == B0
  {
    assert Fetch64(s, 16) == 0x1716151413121110;
    assert Fetch64(s, 24) == 0x1f1e1d1c1b1a1918;
    assert Fetch64(s, 104) == 0x6f6e6d6c6b6a6968;
    hide Fetch64;
  }

  lemma FirstOf208(s: seq<bv8>)
    requires Counts(s, 208)
    ensures Step(B0, s, 16) == B1
  {
    assert Fetch64(s, 16) == 0x1716151413121110;
    assert Fetch64(s, 24) == 0x1f1e1d1c1b1a1918;
    assert Fetch64(s, 32) == 0x2726252423222120;
    assert Fetch64(s, 40) == 0x2f2e2d2c2b2a2928;
    assert Fetch64(s, 48) == 0x3736353433323130;
    assert Fetch64(s, 56) == 0x3f3e3d3c3b3a3938;
    assert Fetch64(s, 64) == 0x4746454443424140;
    assert Fetch64(s, 72) == 0x4f4e4d4c4b4a4948;
    hide Fetch64;
  }

  lemma SecondOf208(s: seq<bv8>)
    requires Counts(s, 208)
    ensures Step(B1, s, 80) == B2
  {
    assert Fetch64(s, 80) == 0x5756555453525150;
    assert Fetch64(s, 88) == 0x5f5e5d5c5b5a5958;
    assert Fetch64(s, 96) == 0x6766656463626160;
    assert Fetch64(s, 104) == 0x6f6e6d6c6b6a6968;
    assert Fetch64(s, 112) == 0x7776757473727170;
    assert Fetch64(s, 120) == 0x7f7e7d7c7b7a7978;
    assert Fetch64(s, 128) == 0x8786858483828180;
    assert Fetch64(s, 136) == 0x8f8e8d8c8b8a8988;
    hide Fetch64;
  }

  lemma TailOf208(s: seq<bv8>)
    requires Counts(s, 208)
    ensures TailStep(B3, s, 176) == B4 && TailStep(B4, s, 144) == B5
  {
    assert Fetch64(s, 144) == 0x9796959493929190;
    assert Fetch64(s, 152) == 0x9f9e9d9c9b9a9998;
    assert Fetch64(s, 160) == 0xa7a6a5a4a3a2a1a0;
    assert Fetch64(s, 168) == 0xafaeadacabaaa9a8;
    assert Fetch64(s, 176) == 0xb7b6b5b4b3b2b1b0;
    assert Fetch64(s, 184) == 0xbfbebdbcbbbab9b8;
    assert Fetch64(s, 192) == 0xc7c6c5c4c3c2c1c0;
    assert Fetch64(s, 200) == 0xcfcecdcccbcac9c8;
    hide Fetch64;
  }

  lemma EndOf208()
    ensures Bridge128(B2) == B3 && Finish128(B5) == Pair(0x2cf7d6637c66b10f, 0xffaca59be76596fc)
  {
  }

  lemma Hash128Of208(s: seq<bv8>)
    requires Counts(s, 208)
    ensures Hash128(s, 0, 208) == Pair(0x2cf7d6637c66b10f, 0xffaca59be76596fc)
  {
    hide Step, Start128, Bridge128, TailStep, Finish128, Counts, Fetch64, Hash128;
    assert |s| == 208 by { Length(s, 208); }
    Seeded(s);
    BeginOf208(s);
    FirstOf208(s);
    SecondOf208(s);
    TailOf208(s);
    EndOf208();
    assert Steps(B0, s, 16, 0) == B0;
    assert Steps(B0, s, 16, 1) == B1;
    assert TailSteps(B3, s, 208, 0) == B3;
    assert TailSteps(B3, s, 208, 1) == B4;
  }
}
