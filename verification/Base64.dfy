/** Base64 writing and reading (convert.c), section 4 of RFC 4648. Characters are their ASCII codes. */
module Base64 {
  import opened Bytes

  const PAD: Byte := '=' as int

  type Sextet = v: int | 0 <= v < 64

  /** base64_codes: the upper-case letters, the lower-case letters, the digits, '+' and '/'. */
  function Code(v: Sextet): Byte {
    if v < 26 then v + 'A' as int
    else if v < 52 then v - 26 + 'a' as int
    else if v < 62 then v - 52 + '0' as int
    else if v == 62 then '+' as int
    else '/' as int
  }

  /** encode_base64_byte: the six bits of a character of either alphabet, 0 for padding, -1 for any other. */
  function Value(c: Byte): (v: int)
    ensures -1 <= v < 64
  {
    if 'A' as int <= c <= 'Z' as int then c - 'A' as int
    else if 'a' as int <= c <= 'z' as int then 26 + (c - 'a' as int)
    else if '0' as int <= c <= '9' as int then 52 + (c - '0' as int)
    else if c == '+' as int || c == '-' as int then 62
    else if c == '/' as int || c == '_' as int then 63
    else if c == PAD then 0
    else -1
  }

  lemma ValueOfCode(v: Sextet)
    ensures Value(Code(v)) == v && Code(v) != PAD
  {
  }

  // ----- writing

  /** The 24 bits that one to three bytes begin. */
  function Word(data: seq<Byte>): (w: nat)
    ensures w < 0x100_0000
  {
    At(data, 0) * 0x1_0000 + At(data, 1) * 0x100 + At(data, 2)
  }

  /** The four codes of a word. */
  function Codes(w: nat): (c: seq<Byte>)
    requires w < 0x100_0000
    ensures |c| == 4
  {
    [Code(w / 0x4_0000), Code(w / 0x1000 % 64), Code(w / 64 % 64), Code(w % 64)]
  }

  function Written(data: seq<Byte>): seq<Byte> {
    if data == [] then []
    else if |data| == 1 then Codes(Word(data))[..2] + [PAD, PAD]
    else if |data| == 2 then Codes(Word(data))[..3] + [PAD]
    else Codes(Word(data[..3])) + Written(data[3..])
  }

  /** What the writing loop stores before padding: the codes of whole words. */
  function Unpadded(data: seq<Byte>): seq<Byte> {
    if data == [] then []
    else if |data| <= 3 then Codes(Word(data))
    else Codes(Word(data[..3])) + Unpadded(data[3..])
  }

  /** The padding that replaces the last codes. */
  function Pads(n: nat): seq<Byte> {
    match n % 3
    case 0 => []
    case 1 => [PAD, PAD]
    case _ => [PAD]
  }

  lemma {:induction false} LengthInFours(data: seq<Byte>)
    ensures |Unpadded(data)| == |Written(data)| == 4 * ((|data| + 2) / 3)
  {
    hide Codes, Word;
    if |data| > 3 {
      LengthInFours(data[3..]);
    } else if |data| == 3 {
      assert data[3..] == [];
    }
  }

  /** `u` with its last codes replaced. */
  function Padded(u: seq<Byte>, pads: seq<Byte>): seq<Byte>
    requires |pads| <= |u|
  {
    u[..|u| - |pads|] + pads
  }

  lemma PaddedAfter(c: seq<Byte>, u: seq<Byte>, pads: seq<Byte>)
    requires |pads| <= |u|
    ensures Padded(c + u, pads) == c + Padded(u, pads)
  {
  }

  lemma PadsRepeat(n: nat)
    requires n >= 3
    ensures Pads(n) == Pads(n - 3)
  {
    assert (n - 3) % 3 == n % 3;
  }

  lemma PaddingOfLast(data: seq<Byte>)
    requires |data| <= 3
    ensures |Pads(|data|)| <= |Unpadded(data)| && Written(data) == Padded(Unpadded(data), Pads(|data|))
  {
    PadsOfFew();
    hide Codes, Word, Pads;
    if data == [] {
    } else if |data| == 3 {
      assert data[..3] == data && data[3..] == [];
    } else {
      var c := Codes(Word(data));
      assert c[..|c| - 0] == c;
    }
  }

  lemma PadsOfFew()
    ensures Pads(0) == [] == Pads(3) && Pads(1) == [PAD, PAD] && Pads(2) == [PAD]
  {
  }

  lemma {:induction false} PaddingReplacesCodes(data: seq<Byte>)
    ensures |Pads(|data|)| <= |Unpadded(data)| && Written(data) == Padded(Unpadded(data), Pads(|data|))
  {
    hide Codes, Word, Pads, Padded;
    if |data| > 3 {
      var rest := data[3..];
      PaddingReplacesCodes(rest);
      PadsRepeat(|data|);
      PaddedAfter(Codes(Word(data[..3])), Unpadded(rest), Pads(|data|));
    } else {
      PaddingOfLast(data);
    }
  }

  /** The next one to three bytes as a word. */
  method NextWord(data: seq<Byte>, start: nat) returns (sixbit: nat, scan: nat)
    requires start < |data|
    ensures var rest := data[start..];
            && scan == start + (if |rest| < 3 then |rest| else 3) && sixbit < 0x100_0000
            && sixbit == Word(if |rest| <= 3 then rest else rest[..3])
            && data[scan..] == (if |rest| <= 3 then [] else rest[3..])
  {
    scan := start;
    sixbit := (data[scan] as int) * 0x1_0000;
    scan := scan + 1;
    if scan < |data| {
      sixbit := sixbit + (data[scan] as int) * 0x100;
      scan := scan + 1;
    }
    if scan < |data| {
      sixbit := sixbit + data[scan];
      scan := scan + 1;
    }
  }

  method StoreCodes(result: array<Byte>, write: nat, sixbit: nat)
    requires write + 4 <= result.Length && sixbit < 0x100_0000
    modifies result
    ensures result[..write + 4] == old(result[..write]) + Codes(sixbit)
  {
    result[write] := Code(sixbit / 0x4_0000);
    result[write + 1] := Code(sixbit / 0x1000 % 64);
    result[write + 2] := Code(sixbit / 64 % 64);
    result[write + 3] := Code(sixbit % 64);
  }

  lemma UnpaddedStep(done: seq<Byte>, rest: seq<Byte>)
    requires rest != []
    ensures var w, next := Word(if |rest| <= 3 then rest else rest[..3]), if |rest| <= 3 then [] else rest[3..];
            done + Unpadded(rest) == done + Codes(w) + Unpadded(next)
  {
    hide Codes, Word;
    if |rest| > 3 {
      var first, more := Codes(Word(rest[..3])), Unpadded(rest[3..]);
      assert done + (first + more) == done + first + more;
    }
  }

  lemma PadsOfRemainder(n: nat)
    ensures Pads(n) == Pads(n % 3)
  {
  }

  lemma UnpaddedNothing()
    ensures Unpadded([]) == []
  {
  }

  /** The switch that ends u8_write_base64; its first case falls through to the second. */
  method PutPadding(result: array<Byte>, write: nat, leftover: nat)
    requires leftover < 3 && |Pads(leftover)| <= write <= result.Length
    modifies result
    ensures result[..write] == Padded(old(result[..write]), Pads(leftover))
  {
    if leftover == 1 {
      result[write - 1] := PAD;
      result[write - 2] := PAD;
    }
    if leftover == 1 || leftover == 2 {
      result[write - 1] := PAD;
    }
  }

  /** u8_write_base64. */
  method WriteBase64(data: seq<Byte>) returns (result: array<Byte>, resultLen: nat)
    ensures resultLen < result.Length && result[resultLen] == 0
    ensures result[..resultLen] == Written(data) && resultLen == 4 * ((|data| + 2) / 3)
  {
    hide Codes, Word, Unpadded, Written, Pads, Padded;
    var len := |data|;
    result := new Byte[(len / 3 + 1) * 4 + 1];
    var scan, write, leftover := 0, 0, len % 3;
    LengthInFours(data);
    PaddingReplacesCodes(data);
    assert data[0..] == data && result[..0] == [];
    while scan < len
      invariant 0 <= scan <= len && (scan % 3 == 0 || scan == len)
      invariant write == 4 * ((scan + 2) / 3)
      invariant result[..write] + Unpadded(data[scan..]) == Unpadded(data)
    {
      UnpaddedStep(result[..write], data[scan..]);
      var sixbit;
      sixbit, scan := NextWord(data, scan);
      StoreCodes(result, write, sixbit);
      write := write + 4;
    }
    PaddingReplacesCodes(data[scan..]);
    UnpaddedNothing();
    assert data[scan..] == [] && result[..write] + [] == result[..write];
    PadsOfRemainder(|data|);
    PutPadding(result, write, leftover);
    resultLen := write;
    result[write] := 0;
  }

  // ----- reading

  /** encode_base64_block on the first `n` characters of the rest, missing ones counting as 0: negative if any of them
      is of neither alphabet. Only the sign of a negative result is used. */
  function Block(t: seq<Byte>, n: nat): (w: int)
    requires 1 <= n <= 4 && n <= |t|
    ensures -1 <= w < 0x100_0000
  {
    var v0 := Value(t[0]);
    var v1 := if n > 1 then Value(t[1]) else 0;
    var v2 := if n > 2 then Value(t[2]) else 0;
    var v3 := if n > 3 then Value(t[3]) else 0;
    if v0 < 0 || v1 < 0 || v2 < 0 || v3 < 0 then -1
    else v0 * 0x4_0000 + v1 * 0x1000 + v2 * 64 + v3
  }

  /** The three bytes of a word. */
  function Triple(w: nat): (d: seq<Byte>)
    requires w < 0x100_0000
    ensures |d| == 3
  {
    [w / 0x1_0000, w / 0x100 % 0x100, w % 0x100]
  }

  /** How many characters are read together. */
  function Ahead(t: seq<Byte>): nat {
    if |t| > 3 then 4 else |t|
  }

  /** The bytes that reading the rest `t` gives. */
  function Decoded(t: seq<Byte>): seq<Byte> {
    if t == [] then []
    else
      var w := Block(t, Ahead(t));
      if w < 0 then Decoded(t[1..])
      else if |t| <= 2 then Triple(w)[..1]
      else if |t| == 3 then Triple(w)[..2]
      else if t[2] == PAD then Triple(w)[..1]
      else if t[3] == PAD then Triple(w)[..2]
      else Triple(w) + Decoded(t[4..])
  }

  /** How many bytes reading stores, three for every block. */
  function Stored(t: seq<Byte>): nat {
    if t == [] then 0
    else if Block(t, Ahead(t)) < 0 then Stored(t[1..])
    else 3 + if |t| <= 3 || t[2] == PAD || t[3] == PAD then 0 else Stored(t[4..])
  }

  /** The buffer of one byte more than the input is enough for every input but a single character of the alphabet. */
  lemma {:induction false} StoredFits(t: seq<Byte>)
    ensures Stored(t) <= |t| + 1 <==> !(|t| == 1 && Value(t[0]) >= 0)
    ensures Stored(t) <= |t| + 2
  {
    hide Block;
    if t != [] && Block(t, Ahead(t)) < 0 {
      StoredFits(t[1..]);
    } else if |t| >= 4 {
      StoredFits(t[4..]);
    }
    OneCharacter(t);
  }

  lemma OneCharacter(t: seq<Byte>)
    ensures |t| == 1 ==> (Block(t, Ahead(t)) < 0 <==> Value(t[0]) < 0)
  {
  }

  method StoreTriple(result: array<Byte>, write: nat, bytes: nat)
    requires write + 3 <= result.Length && bytes < 0x100_0000
    modifies result
    ensures result[..write + 3] == old(result[..write]) + Triple(bytes)
  {
    result[write] := bytes / 0x1_0000;
    result[write + 1] := bytes / 0x100 % 0x100;
    result[write + 2] := bytes % 0x100;
  }

  lemma Parts(all: seq<Byte>, a: seq<Byte>, b: seq<Byte>)
    requires all == a + b && |b| == 3
    ensures all[..|a| + 1] == a + b[..1] && all[..|a| + 2] == a + b[..2]
  {
  }

  /** u8_read_base64. It allocates one byte more than the input and stores three for each block: outside of that for a
      single character of the alphabet, about whose result nothing is said, and for no other input. */
  method ReadBase64(src: seq<Byte>) returns (result: array<Byte>, size: nat, inside: bool)
    ensures result.Length == |src| + 1
    ensures inside <==> Stored(src) <= result.Length
    ensures inside <==> !(|src| == 1 && Value(src[0]) >= 0)
    ensures inside ==> size <= result.Length && result[..size] == Decoded(src)
  {
    hide Block, Decoded, Stored, Triple, Value;
    StoredFits(src);
    result := new Byte[|src| + 1];
    var read, write := 0, 0;
    size := 0;
    assert src[0..] == src && result[..0] == [];
    DecodedNothing();
    while read < |src|
      invariant 0 <= read <= |src| && write == size
      invariant write + Stored(src[read..]) == Stored(src) && write <= result.Length
      invariant result[..size] + Decoded(src[read..]) == Decoded(src)
      invariant read == |src| ==> result[..size] == Decoded(src) && write == Stored(src)
    {
      ghost var done, rest := result[..size], src[read..];
      DecodedStep(done, rest);
      var n := if read + 3 < |src| then 4 else |src| - read;
      var bytes := Block(src[read..], n);
      if bytes < 0 {
        read := read + 1;
        assert src[read..] == rest[1..];
        assert read == |src| ==> src[read..] == [];
      } else if write + 3 > result.Length {
        return result, 0, false;
      } else {
        StoreTriple(result, write, bytes);
        write := write + 3;
        Parts(result[..size + 3], done, Triple(bytes));
        if read + 1 == |src| {
          size := size + 1;
          break;
        } else if read + 2 == |src| {
          size := size + 1;
          break;
        } else if read + 3 == |src| {
          size := size + 2;
          break;
        } else if src[read + 2] == PAD {
          size := size + 1;
          break;
        } else if src[read + 3] == PAD {
          size := size + 2;
          break;
        } else {
          size := size + 3;
          read := read + 4;
          assert src[read..] == rest[4..];
          assert read == |src| ==> src[read..] == [];
        }
      }
    }
    inside := true;
  }

  lemma DecodedNothing()
    ensures Decoded([]) == [] && Stored([]) == 0
  {
  }

  /** One round of the reading loop at the rest `t`, with `done` before it. */
  lemma DecodedStep(done: seq<Byte>, t: seq<Byte>)
    requires t != []
    ensures var w := Block(t, Ahead(t));
            if w < 0 then Decoded(t) == Decoded(t[1..]) && Stored(t) == Stored(t[1..])
            else if |t| <= 3 || t[2] == PAD || t[3] == PAD then
              Stored(t) == 3 && Decoded(t) == Triple(w)[..if |t| <= 2 || (|t| > 3 && t[2] == PAD) then 1 else 2]
            else Stored(t) == 3 + Stored(t[4..]) && done + Decoded(t) == done + Triple(w) + Decoded(t[4..])
  {
    hide Block;
    if |t| > 3 && Block(t, 4) >= 0 {
      var w := Block(t, 4);
      assert done + (Triple(w) + Decoded(t[4..])) == done + Triple(w) + Decoded(t[4..]);
    }
  }
}
