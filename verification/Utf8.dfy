/** The UTF-8 reader and writer under the codecs: u8_sgetc_lim and u8_putc, with sequences of up to six bytes
    (RFC 2279; RFC 3629 later kept those of at most four). */
module Utf8 {
  import opened Bytes

  /** What a C `int` holds as a character. */
  const CHAR_LIMIT := 0x8000_0000
  type Char = c: int | 0 <= c < 0x8000_0000

  /** get_utf8_size. */
  function SizeOfLead(b: Byte): int {
    if b < 0x80 then 1
    else if b < 0xC0 then -1
    else if b < 0xE0 then 2
    else if b < 0xF0 then 3
    else if b < 0xF8 then 4
    else if b < 0xFC then 5
    else if b < 0xFE then 6
    else -1
  }

  // ----- writing

  /** 64^n, the weight of the character bits above `n` continuation bytes. */
  function Weight(n: nat): nat
    requires n <= 5
  {
    match n
    case 0 => 1
    case 1 => 0x40
    case 2 => 0x1000
    case 3 => 0x4_0000
    case 4 => 0x100_0000
    case _ => 0x4000_0000
  }

  /** How many bytes u8_putc writes; NUL is written in two, so that strings stay NUL-free. */
  function SizeOf(ch: Char): nat {
    if ch == 0 then 2
    else if ch < 0x80 then 1
    else if ch < 0x800 then 2
    else if ch < 0x1_0000 then 3
    else if ch < 0x20_0000 then 4
    else if ch < 0x400_0000 then 5
    else 6
  }

  function LeadMark(size: nat): Byte
    requires 1 <= size <= 6
  {
    match size
    case 1 => 0x00
    case 2 => 0xC0
    case 3 => 0xE0
    case 4 => 0xF0
    case 5 => 0xF8
    case _ => 0xFC
  }

  /** The character without its last `n` groups of six bits. */
  function High(ch: Char, n: nat): nat
    requires n <= 5
  {
    ch / Weight(n)
  }

  /** The last `n` continuation bytes. */
  function Tail(ch: Char, n: nat): (t: seq<Byte>)
    requires n <= 5
    ensures |t| == n
  {
    if n == 0 then [] else [0x80 + High(ch, n - 1) % 64] + Tail(ch, n - 1)
  }

  function Encode(ch: Char): (bytes: seq<Byte>)
    ensures |bytes| == SizeOf(ch)
  {
    var size := SizeOf(ch);
    [LeadMark(size) + High(ch, size - 1)] + Tail(ch, size - 1)
  }

  function EncodeAll(chars: seq<Char>): seq<Byte> {
    if chars == [] then [] else Encode(chars[0]) + EncodeAll(chars[1..])
  }

  /** A string output stream, as far as its text goes. */
  class Output {
    var text: seq<Byte>

    constructor ()
      ensures text == []
    {
      text := [];
    }

    /** u8_putc into a stream that can grow. */
    method Putc(ch: Char)
      modifies this
      ensures text == old(text) + Encode(ch)
    {
      var size := SizeOf(ch);
      var shift := size - 1;
      var write: seq<Byte> := [LeadMark(size) + High(ch, shift)];
      while shift > 0
        invariant 0 <= shift < size
        invariant write + Tail(ch, shift) == Encode(ch)
      {
        shift := shift - 1;
        write := write + [0x80 + High(ch, shift) % 64];
      }
      text := text + write;
    }
  }

  // ----- reading

  /** Reads `n` continuation bytes; a byte of another kind ends the sequence early with U+FFFD. */
  function Continue(mem: seq<Byte>, scan: nat, ch: nat, n: nat): (nat, nat)
    decreases n
  {
    if n == 0 then (ch, scan)
    else if At(mem, scan) < 0x80 || At(mem, scan) >= 0xC0 then (0xFFFD, scan)
    else Continue(mem, scan + 1, ch * 64 + At(mem, scan) % 64, n - 1)
  }

  /** The character bits of a lead byte. */
  function LeadBits(b: Byte, size: int): nat {
    match size
    case 2 => b % 0x20
    case 3 => b % 0x10
    case 4 => b % 0x08
    case 5 => b % 0x04
    case _ => b % 0x02
  }

  /** u8_sgetc_lim: the character and the new position. It looks at NUL before it looks at the limit, and at the limit
      for the first byte only. */
  function Sgetc(mem: seq<Byte>, scan: nat, lim: nat): (int, nat) {
    var byte := At(mem, scan);
    if byte == 0 then (-1, scan)
    else if scan >= lim then (-1, scan)
    else if byte < 0x80 then (byte, scan + 1)
    else
      var size := SizeOfLead(byte);
      if size < 0 then (0xFFFD, scan + 1)
      else
        var r := Continue(mem, scan + 1, LeadBits(byte, size), size - 1);
        (r.0, r.1)
  }

  method SgetcLim(mem: seq<Byte>, sptr: nat, lim: nat) returns (ch: int, scan: nat)
    ensures (ch, scan) == Sgetc(mem, sptr, lim)
  {
    var byte := At(mem, sptr);
    scan := sptr;
    if byte == 0 {
      return -1, scan;
    } else if scan >= lim {
      return -1, scan;
    } else if byte < 0x80 {
      return byte, scan + 1;
    } else if byte < 0xC0 || byte >= 0xFE {
      return 0xFFFD, scan + 1;
    }
    var size;
    if byte < 0xE0 {
      size, ch := 2, byte % 0x20;
    } else if byte < 0xF0 {
      size, ch := 3, byte % 0x10;
    } else if byte < 0xF8 {
      size, ch := 4, byte % 0x08;
    } else if byte < 0xFC {
      size, ch := 5, byte % 0x04;
    } else {
      size, ch := 6, byte % 0x02;
    }
    var i := size - 1;
    scan := scan + 1;
    while i > 0
      invariant i >= 0 && ch >= 0
      invariant Continue(mem, scan, ch, i) == Continue(mem, sptr + 1, LeadBits(byte, size), size - 1)
    {
      if At(mem, scan) < 0x80 || At(mem, scan) >= 0xC0 {
        return 0xFFFD, scan;
      } else {
        ch := ch * 64 + At(mem, scan) % 64;
        scan := scan + 1;
        i := i - 1;
      }
    }
  }

  // ----- reading what was written

  /** `bytes` lie in memory at `pos`. */
  ghost predicate LiesAt(mem: seq<Byte>, pos: nat, bytes: seq<Byte>) {
    pos + |bytes| <= |mem| && mem[pos..pos + |bytes|] == bytes
  }

  lemma LiesAtParts(mem: seq<Byte>, pos: nat, a: seq<Byte>, b: seq<Byte>)
    ensures LiesAt(mem, pos, a + b) <==> LiesAt(mem, pos, a) && LiesAt(mem, pos + |a|, b)
  {
    if LiesAt(mem, pos, a + b) {
      assert mem[pos..pos + |a|] == (a + b)[..|a|] == a;
      assert mem[pos + |a|..pos + |a| + |b|] == (a + b)[|a|..] == b;
    }
    if LiesAt(mem, pos, a) && LiesAt(mem, pos + |a|, b) {
      assert mem[pos..pos + |a + b|] == mem[pos..pos + |a|] + mem[pos + |a|..pos + |a| + |b|];
    }
  }

  lemma ByteAt(mem: seq<Byte>, pos: nat, b: Byte)
    requires LiesAt(mem, pos, [b])
    ensures At(mem, pos) == b
  {
    assert mem[pos..pos + 1][0] == mem[pos];
  }

  lemma DigitsSplit(ch: Char, n: nat)
    requires 1 <= n <= 5
    ensures High(ch, n - 1) == High(ch, n) * 64 + High(ch, n - 1) % 64
  {
    HighOfHigh(ch, n);
    hide High;
  }

  lemma HighOfHigh(ch: Char, n: nat)
    requires 1 <= n <= 5
    ensures High(ch, n) == High(ch, n - 1) / 64
  {
    match n
    case 1 =>
    case 2 =>
    case 3 =>
    case 4 =>
    case _ =>
  }

  lemma ContinueOn(mem: seq<Byte>, scan: nat, c: nat, n: nat, digit: nat)
    requires n > 0 && digit < 64 && At(mem, scan) == 0x80 + digit
    ensures Continue(mem, scan, c, n) == Continue(mem, scan + 1, c * 64 + digit, n - 1)
  {
  }

  lemma TailLies(mem: seq<Byte>, scan: nat, ch: Char, n: nat)
    requires 1 <= n <= 5 && LiesAt(mem, scan, Tail(ch, n))
    ensures At(mem, scan) == 0x80 + High(ch, n - 1) % 64 && LiesAt(mem, scan + 1, Tail(ch, n - 1))
  {
    hide LiesAt, High, At;
    var b := 0x80 + High(ch, n - 1) % 64;
    LiesAtParts(mem, scan, [b], Tail(ch, n - 1));
    ByteAt(mem, scan, b);
  }

  lemma {:induction false} ContinueReadsTail(mem: seq<Byte>, scan: nat, ch: Char, n: nat)
    requires n <= 5 && LiesAt(mem, scan, Tail(ch, n))
    ensures Continue(mem, scan, High(ch, n), n) == (ch, scan + n)
    decreases n
  {
    if n > 0 {
      hide *;
      TailLies(mem, scan, ch, n);
      DigitsSplit(ch, n);
      ContinueOn(mem, scan, High(ch, n), n, High(ch, n - 1) % 64);
      ContinueReadsTail(mem, scan + 1, ch, n - 1);
    }
  }

  lemma LeadOf(ch: Char)
    ensures var size, lead := SizeOf(ch), Encode(ch)[0];
            lead != 0 && SizeOfLead(lead) == size
            && (size == 1 ==> lead == ch < 0x80)
            && (size > 1 ==> lead >= 0xC0 && LeadBits(lead, size) == High(ch, size - 1))
  {
    hide Tail;
  }

  /** Reading undoes writing, whatever follows. */
  lemma SgetcReadsEncode(mem: seq<Byte>, scan: nat, lim: nat, ch: Char)
    requires LiesAt(mem, scan, Encode(ch)) && scan < lim
    ensures Sgetc(mem, scan, lim) == (ch, scan + SizeOf(ch))
  {
    var size := SizeOf(ch);
    var lead := Encode(ch)[0];
    LeadOf(ch);
    LiesAtParts(mem, scan, [lead], Tail(ch, size - 1));
    assert Encode(ch) == [lead] + Tail(ch, size - 1);
    assert At(mem, scan) == mem[scan..scan + 1][0] == lead;
    ContinueReadsTail(mem, scan + 1, ch, size - 1);
  }

  lemma {:induction false} ContinueBounds(mem: seq<Byte>, scan: nat, ch: nat, n: nat)
    ensures scan <= Continue(mem, scan, ch, n).1 <= scan + n
    decreases n
  {
    if n > 0 {
      ContinueBounds(mem, scan + 1, ch * 64 + At(mem, scan) % 64, n - 1);
    }
  }

  /** A character takes no more bytes than its lead byte announces; an error consumes nothing. */
  lemma SgetcBounds(mem: seq<Byte>, scan: nat, lim: nat)
    ensures var (ch, next) := Sgetc(mem, scan, lim);
            if ch < 0 then ch == -1 && next == scan
            else scan < next <= scan + 6 && (next == scan + 1 || next <= scan + SizeOfLead(At(mem, scan)))
  {
    var byte := At(mem, scan);
    var size := SizeOfLead(byte);
    if byte >= 0x80 && size > 0 {
      ContinueBounds(mem, scan + 1, LeadBits(byte, size), size - 1);
    }
  }

  /** A character that was read whole fits an `int`. */
  lemma {:induction false} ContinueFits(mem: seq<Byte>, scan: nat, ch: nat, n: nat)
    requires n <= 5 && ch < 2 * Weight(5 - n)
    ensures Continue(mem, scan, ch, n).0 < CHAR_LIMIT
    decreases n
  {
    if n > 0 {
      ContinueFits(mem, scan + 1, ch * 64 + At(mem, scan) % 64, n - 1);
    }
  }

  lemma SgetcFits(mem: seq<Byte>, scan: nat, lim: nat)
    ensures Sgetc(mem, scan, lim).0 < CHAR_LIMIT
  {
    var byte := At(mem, scan);
    var size := SizeOfLead(byte);
    if byte >= 0x80 && size > 0 {
      ContinueFits(mem, scan + 1, LeadBits(byte, size), size - 1);
    }
  }

  lemma {:induction false} EncodeAllParts(a: seq<Char>, b: seq<Char>)
    ensures EncodeAll(a + b) == EncodeAll(a) + EncodeAll(b)
  {
    if a == [] {
      assert a + b == b;
    } else {
      assert (a + b)[1..] == a[1..] + b;
      EncodeAllParts(a[1..], b);
    }
  }
}
