/** Decoding: table_mb2uc, encgetc and u8_convert. */
module Convert {
  import opened Bytes
  import opened Wrappers
  import opened Charset
  import opened Utf8

  /** A charset and its inverse, as u8_define_encoding leaves them. */
  datatype Table = Table(charset: seq<Entry>, inv: seq<Entry>)

  /** Default is the NULL encoding and Utf8Encoding the one called utf8_encoding; any other encoding may have a table
      and the two flags. Conversion functions of an encoding are not part of this model. */
  datatype Encoding = Default | Utf8Encoding | Coded(table: Option<Table>, ascii: bool, linear: bool)

  /** A linear table is indexed with any byte. */
  ghost predicate Usable(e: Encoding) {
    e.Coded? && e.table.Some? && e.linear ==> |e.table.value.charset| >= 256
  }

  // ----- one character

  /** Extends `code`, the first `i` bytes at `scan`, one byte at a time until the table knows it: the character and how
      many bytes it took, or -1. */
  function TryCodes(charset: seq<Entry>, mem: seq<Byte>, scan: nat, code: U32, i: nat, n: nat): (int, int)
    decreases n - i
  {
    if i >= n then (-1, -1)
    else
      var next := (code * 256 + At(mem, scan + i)) % 0x1_0000_0000;
      var found := Lookup(next, charset);
      if found >= 0 then (found, i + 1) else TryCodes(charset, mem, scan, next, i + 1, n)
  }

  method TableMb2uc(charset: seq<Entry>, mem: seq<Byte>, s: nat, n: nat) returns (o: int, size: int)
    ensures (o, size) == TryCodes(charset, mem, s, 0, 0, if n > 4 then 4 else n)
  {
    var i, code, nBytes := 0, 0, if n > 4 then 4 else n;
    while i < nBytes
      invariant 0 <= i <= nBytes && 0 <= code < 0x1_0000_0000
      invariant TryCodes(charset, mem, s, 0, 0, nBytes) == TryCodes(charset, mem, s, code, i, nBytes)
    {
      code := (code * 256 + At(mem, s + i)) % 0x1_0000_0000;
      var try_ := MbLookupCode(code, charset);
      if try_ >= 0 {
        return try_, i + 1;
      }
      i := i + 1;
    }
    return -1, -1;
  }

  predicate Follows(mem: seq<Byte>, s: nat, i: nat) {
    0x80 <= At(mem, s + i) <= 0xC0
  }

  /** u8_validptr: a lead byte and as many bytes after it as it asks for, each from 0x80 to 0xC0. */
  predicate ValidPtr(mem: seq<Byte>, s: nat) {
    var size := SizeOfLead(At(mem, s));
    size > 0 && forall i :: 1 <= i < size ==> Follows(mem, s, i)
  }

  /** encgetc: the character, or a negative number, and the new position. */
  function Getc(e: Encoding, mem: seq<Byte>, scan: nat, end: nat): (int, nat)
    requires Usable(e) && scan <= end
  {
    var byte := At(mem, scan);
    match e
    case Default =>
      if byte < 0x80 then (byte, scan + 1)
      else if SizeOfLead(byte) > end - scan then (-2, scan)
      else if ValidPtr(mem, scan) then Sgetc(mem, scan, end)
      else (byte, scan + 1)
    case Utf8Encoding =>
      if byte < 0x80 then (byte, scan + 1)
      else if SizeOfLead(byte) > end - scan then (-2, scan)
      else Sgetc(mem, scan, end)
    case Coded(None, _, _) => (byte, scan + 1)
    case Coded(Some(t), ascii, true) =>
      if byte < 0x80 && ascii then (byte, scan + 1) else (Signed(t.charset[byte].to), scan + 1)
    case Coded(Some(t), _, false) =>
      var len := end - scan;
      var (c, l) := TryCodes(t.charset, mem, scan, 0, 0, if len > 4 then 4 else len);
      if l < 0 then (l, scan) else (c, scan + l)
  }

  method Encgetc(e: Encoding, mem: seq<Byte>, scan: nat, end: nat) returns (c: int, next: nat)
    requires Usable(e) && scan <= end
    ensures (c, next) == Getc(e, mem, scan, end)
  {
    var byte := At(mem, scan);
    if e.Default? || e.Utf8Encoding? {
      if byte < 0x80 {
        return byte, scan + 1;
      } else if SizeOfLead(byte) > end - scan {
        return -2, scan;
      } else if e.Utf8Encoding? {
        c, next := SgetcLim(mem, scan, end);
      } else if ValidPtr(mem, scan) {
        c, next := SgetcLim(mem, scan, end);
      } else {
        return byte, scan + 1;
      }
    } else if e.table.Some? && e.linear {
      if byte < 0x80 && e.ascii {
        return byte, scan + 1;
      } else {
        return Signed(e.table.value.charset[byte].to), scan + 1;
      }
    } else if e.table.Some? {
      var len := end - scan;
      if len > 16 {
        len := 16;
      }
      var l;
      c, l := TableMb2uc(e.table.value.charset, mem, scan, len);
      if l < 0 {
        return l, scan;
      }
      return c, scan + l;
    } else {
      return byte, scan + 1;
    }
  }

  // ----- facts about one character

  lemma {:induction false} LookupFits(code: U32, s: seq<Entry>, bot: int, top: int)
    requires 0 <= bot && top < |s|
    ensures Search(code, s, bot, top) < CHAR_LIMIT
    decreases top - bot + 1
  {
    if bot <= top {
      var split := bot + (top - bot) / 2;
      LookupFits(code, s, bot, split - 1);
      LookupFits(code, s, split + 1, top);
    }
  }

  lemma {:induction false} TryCodesBounds(charset: seq<Entry>, mem: seq<Byte>, scan: nat, code: U32, i: nat, n: nat)
    ensures var (c, l) := TryCodes(charset, mem, scan, code, i, n);
            if l < 0 then (c, l) == (-1, -1) else i < l <= n && 0 <= c < CHAR_LIMIT
    decreases n - i
  {
    if i < n {
      var next := (code * 256 + At(mem, scan + i)) % 0x1_0000_0000;
      LookupFits(next, charset, 0, |charset| - 1);
      TryCodesBounds(charset, mem, scan, next, i + 1, n);
    }
  }

  /** A character that is read advances the position, by at most six bytes and not beyond the end. */
  lemma GetcBounds(e: Encoding, mem: seq<Byte>, scan: nat, end: nat)
    requires Usable(e) && scan <= end
    ensures var (c, next) := Getc(e, mem, scan, end);
            c < CHAR_LIMIT && scan <= next <= scan + 6 && (c >= 0 ==> scan < next) && (scan < end ==> next <= end)
  {
    SgetcBounds(mem, scan, end);
    SgetcFits(mem, scan, end);
    if e.Coded? && e.table.Some? {
      var len := end - scan;
      TryCodesBounds(e.table.value.charset, mem, scan, 0, 0, if len > 4 then 4 else len);
    }
  }

  // ----- whole texts

  /** What one round of u8_convert's loop does: stop, leaving the scanner somewhere and returning the count so far
      (None) or an error, or put characters out and go on. */
  datatype Round = Stop(scan: nat, error: Option<int>) | Put(chars: seq<Char>, next: nat)

  function DecodeRound(e: Encoding, crlf: bool, mem: seq<Byte>, scan: nat, end: nat): (r: Round)
    requires Usable(e) && scan < end
    ensures r.Put? ==> r.next > scan
  {
    GetcBounds(e, mem, scan, end);
    var (c, next) := Getc(e, mem, scan, end);
    if c == -2 then Stop(next, None)
    else if c < 0 then Stop(next, Some(c))
    else if crlf && c == 13 then
      GetcBounds(e, mem, next, end);
      var (c2, next2) := Getc(e, mem, next, end);
      if c2 < 0 then Stop(scan, None)
      else if c2 == 10 then Put([10], next2) else Put([13, c2], next2)
    else Put([c], next)
  }

  /** The characters put out, the position of the scanner at the end and the value returned. */
  datatype Result = Result(chars: seq<Char>, scan: nat, ret: int)

  /** A result to which `chars`, put out in `n` rounds, are added in front. */
  function Extend(chars: seq<Char>, n: nat, r: Result): Result {
    Result(chars + r.chars, r.scan, if r.ret < 0 then r.ret else n + r.ret)
  }

  /** u8_convert from `scan` on. It counts rounds, so two characters that begin with '\r' count as one when CRLFs are
      converted. */
  function Decode(e: Encoding, crlf: bool, mem: seq<Byte>, scan: nat, end: nat): Result
    requires Usable(e)
    decreases end - scan
  {
    if scan >= end then Result([], scan, 0)
    else
      match DecodeRound(e, crlf, mem, scan, end)
      case Stop(at, None) => Result([], at, 0)
      case Stop(at, Some(error)) => Result([], at, error)
      case Put(chars, next) => Extend(chars, 1, Decode(e, crlf, mem, next, end))
  }

  lemma ExtendTwice(chars: seq<Char>, n: nat, more: seq<Char>, r: Result)
    ensures Extend(chars, n, Extend(more, 1, r)) == Extend(chars + more, n + 1, r)
  {
    assert chars + (more + r.chars) == chars + more + r.chars;
  }

  lemma EncodeOneMore(chars: seq<Char>, ch: Char)
    ensures EncodeAll(chars + [ch]) == EncodeAll(chars) + Encode(ch)
  {
    EncodeAllParts(chars, [ch]);
    assert EncodeAll([ch]) == Encode(ch);
  }

  /** u8_convert. */
  method U8Convert(e: Encoding, crlf: bool, out: Output, mem: seq<Byte>, start: nat, end: nat)
    returns (scan: nat, ret: int)
    requires Usable(e)
    modifies out
    ensures var r := Decode(e, crlf, mem, start, end);
            scan == r.scan && ret == r.ret && out.text == old(out.text) + EncodeAll(r.chars)
  {
    hide Getc, Encode, EncodeAll, Usable;
    scan := start;
    var charsRead := 0;
    ghost var all := Decode(e, crlf, mem, start, end);
    ghost var done: seq<Char> := [];
    assert EncodeAll([]) == [] by { EncodeNothing(); }
    while scan < end
      invariant charsRead >= 0
      invariant all == Extend(done, charsRead, Decode(e, crlf, mem, scan, end))
      invariant out.text == old(out.text) + EncodeAll(done)
      decreases end - scan
    {
      GetcBounds(e, mem, scan, end);
      var lastScan := scan;
      var c;
      c, scan := Encgetc(e, mem, scan, end);
      ghost var before := done;
      assert done + [] == done;
      if c < 0 {
        if c == -2 {
          return scan, charsRead;
        } else {
          return scan, c;
        }
      } else if crlf && c == 13 {
        GetcBounds(e, mem, scan, end);
        var nc;
        nc, scan := Encgetc(e, mem, scan, end);
        if nc < 0 {
          return lastScan, charsRead;
        } else if nc == 10 {
          EncodeOneMore(done, 10);
          out.Putc(10);
          done := done + [10];
        } else {
          EncodeOneMore(done, 13);
          EncodeOneMore(done + [13], nc);
          out.Putc(13);
          out.Putc(nc);
          done := done + [13] + [nc];
          assert done == before + [13, nc];
        }
      } else {
        EncodeOneMore(done, c);
        out.Putc(c);
        done := done + [c];
      }
      ExtendTwice(before, charsRead, done[|before|..], Decode(e, crlf, mem, scan, end));
      charsRead := charsRead + 1;
    }
    assert done + [] == done;
    ret := charsRead;
  }

  lemma EncodeNothing()
    ensures EncodeAll([]) == []
  {
  }
}
