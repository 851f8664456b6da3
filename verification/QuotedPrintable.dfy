/** Reading quoted-printable text (convert.c), section 6.7 of RFC 2045. */
module QuotedPrintable {
  import opened Bytes

  const EQUALS: Byte := '=' as int
  const LF: Byte := 10
  const CR: Byte := 13

  predicate IsHexDigit(c: Byte) {
    '0' as int <= c <= '9' as int || 'A' as int <= c <= 'F' as int || 'a' as int <= c <= 'f' as int
  }

  function HexDigit(c: Byte): (v: Byte)
    requires IsHexDigit(c)
    ensures v < 16
  {
    if c <= '9' as int then c - '0' as int
    else if c <= 'F' as int then c - 'A' as int + 10
    else c - 'a' as int + 10
  }

  /** What sscanf with "%x" makes of two characters; `other` stands for what it leaves when they are not two hexadecimal
      digits. */
  function Scanned(a: Byte, b: Byte, other: (Byte, Byte) -> Byte): Byte {
    if IsHexDigit(a) && IsHexDigit(b) then HexDigit(a) * 16 + HexDigit(b) else other(a, b)
  }

  /** The bytes read from `read` on. It looks up to two characters beyond the end of the text. */
  function Decoded(mem: seq<Byte>, read: nat, to: nat, other: (Byte, Byte) -> Byte): seq<Byte>
    decreases to - read
  {
    if read >= to then []
    else if At(mem, read) != EQUALS then [At(mem, read)] + Decoded(mem, read + 1, to, other)
    else if At(mem, read + 1) == LF then Decoded(mem, read + 2, to, other)
    else if At(mem, read + 1) == CR && At(mem, read + 2) == LF then Decoded(mem, read + 3, to, other)
    else [Scanned(At(mem, read + 1), At(mem, read + 2), other)] + Decoded(mem, read + 3, to, other)
  }

  /** One round of the loop, with `done` before it. */
  lemma DecodedStep(done: seq<Byte>, mem: seq<Byte>, read: nat, to: nat, other: (Byte, Byte) -> Byte)
    ensures read >= to ==> Decoded(mem, read, to, other) == []
    ensures read < to ==>
              done + Decoded(mem, read, to, other)
              == if At(mem, read) != EQUALS then (done + [At(mem, read)]) + Decoded(mem, read + 1, to, other)
                 else if At(mem, read + 1) == LF then done + Decoded(mem, read + 2, to, other)
                 else
                   (if At(mem, read + 1) == CR && At(mem, read + 2) == LF then done
                    else done + [Scanned(At(mem, read + 1), At(mem, read + 2), other)])
                   + Decoded(mem, read + 3, to, other)
  {
    hide At, Scanned;
  }

  /** u8_read_quoted_printable: one byte at most for every character, and the NUL after them. */
  method ReadQuotedPrintable(mem: seq<Byte>, from: nat, to: nat, other: (Byte, Byte) -> Byte)
    returns (result: array<Byte>, size: nat)
    requires from <= to
    ensures result.Length == to - from + 1 && size <= to - from
    ensures result[..size] == Decoded(mem, from, to, other) && result[size] == 0
  {
    hide Decoded, Scanned, At;
    result := new Byte[to - from + 1];
    var read: int := from;
    size := 0;
    ghost var all := Decoded(mem, from, to, other);
    assert result[..0] == [] && [] + all == all;
    while read < to
      invariant size <= to - from && from + size <= read
      invariant result[..size] + Decoded(mem, read, to, other) == all
      decreases (to as int) - read
    {
      ghost var done := result[..size];
      DecodedStep(done, mem, read, to, other);
      if At(mem, read) == EQUALS {
        if At(mem, read + 1) == LF {
          read := read + 2;
        } else if At(mem, read + 1) == CR && At(mem, read + 2) == LF {
          read := read + 3;
        } else {
          var codedChar := Scanned(At(mem, read + 1), At(mem, read + 2), other);
          result[size] := codedChar;
          size := size + 1;
          read := read + 3;
          assert result[..size] == done + [codedChar];
        }
      } else {
        result[size] := At(mem, read);
        size := size + 1;
        read := read + 1;
        assert result[..size] == done + [At(mem, read - 1)];
      }
    }
    DecodedStep([], mem, read, to, other);
    assert result[..size] + [] == result[..size];
    result[size] := 0;
  }

  // ----- legal writings

  /** A byte written as itself, a byte written as two hexadecimal digits, or a soft line break, which is no byte. */
  datatype Unit = Literal(b: Byte) | Coded(hi: Byte, lo: Byte) | SoftBreak(crlf: bool)

  predicate Legal(u: Unit) {
    match u
    case Literal(b) => b != EQUALS
    case Coded(hi, lo) => IsHexDigit(hi) && IsHexDigit(lo)
    case SoftBreak(_) => true
  }

  function Text(u: Unit): seq<Byte> {
    match u
    case Literal(b) => [b]
    case Coded(hi, lo) => [EQUALS, hi, lo]
    case SoftBreak(true) => [EQUALS, CR, LF]
    case SoftBreak(false) => [EQUALS, LF]
  }

  function Meaning(u: Unit): seq<Byte>
    requires Legal(u)
  {
    match u
    case Literal(b) => [b]
    case Coded(hi, lo) => [HexDigit(hi) * 16 + HexDigit(lo)]
    case SoftBreak(_) => []
  }

  predicate AllLegal(units: seq<Unit>) {
    forall i :: 0 <= i < |units| ==> Legal(units[i])
  }

  function Render(units: seq<Unit>): seq<Byte> {
    if units == [] then [] else Text(units[0]) + Render(units[1..])
  }

  function Meanings(units: seq<Unit>): seq<Byte>
    requires AllLegal(units)
  {
    if units == [] then [] else Meaning(units[0]) + Meanings(units[1..])
  }

  lemma TextStarts(u: Unit)
    ensures |Text(u)| >= 1
  {
  }

  /** The reader at a unit. */
  lemma UnitRead(mem: seq<Byte>, pos: nat, to: nat, u: Unit, other: (Byte, Byte) -> Byte)
    requires Legal(u) && pos + |Text(u)| <= to
    requires At(mem, pos) == Text(u)[0]
    requires |Text(u)| >= 2 ==> At(mem, pos + 1) == Text(u)[1]
    requires |Text(u)| >= 3 ==> At(mem, pos + 2) == Text(u)[2]
    ensures Decoded(mem, pos, to, other) == Meaning(u) + Decoded(mem, pos + |Text(u)|, to, other)
  {
    hide At, HexDigit;
  }

  lemma {:induction false} DecodedInContext(before: seq<Byte>, units: seq<Unit>, other: (Byte, Byte) -> Byte)
    requires AllLegal(units)
    ensures var mem := before + Render(units);
            Decoded(mem, |before|, |mem|, other) == Meanings(units)
    decreases |units|
  {
    hide Decoded, Text, Meaning, Legal;
    var mem := before + Render(units);
    if units == [] {
      NothingLeft(mem, |before|, other);
    } else {
      var t, rest := Text(units[0]), units[1..];
      assert mem == before + t + Render(rest);
      assert |t| >= 1 by { TextStarts(units[0]); }
      UnitRead(mem, |before|, |mem|, units[0], other);
      DecodedInContext(before + t, rest, other);
    }
  }

  lemma NothingLeft(mem: seq<Byte>, pos: nat, other: (Byte, Byte) -> Byte)
    requires pos >= |mem|
    ensures Decoded(mem, pos, |mem|, other) == []
  {
  }

  /** Reading undoes every legal writing. */
  lemma ReadsEveryWriting(units: seq<Unit>, other: (Byte, Byte) -> Byte)
    requires AllLegal(units)
    ensures Decoded(Render(units), 0, |Render(units)|, other) == Meanings(units)
  {
    DecodedInContext([], units, other);
    assert [] + Render(units) == Render(units);
  }

  // ----- plain text and soft breaks

  lemma DecodedOnce(mem: seq<Byte>, read: nat, to: nat, other: (Byte, Byte) -> Byte)
    ensures Decoded(mem, read, to, other)
            == if read >= to then []
               else if At(mem, read) != EQUALS then [At(mem, read)] + Decoded(mem, read + 1, to, other)
               else if At(mem, read + 1) == LF then Decoded(mem, read + 2, to, other)
               else if At(mem, read + 1) == CR && At(mem, read + 2) == LF then Decoded(mem, read + 3, to, other)
               else [Scanned(At(mem, read + 1), At(mem, read + 2), other)] + Decoded(mem, read + 3, to, other)
  {
    hide At, Scanned;
  }

  lemma AtShifts(before: seq<Byte>, mem: seq<Byte>, i: nat)
    ensures At(before + mem, |before| + i) == At(mem, i)
  {
  }

  /** What is read does not depend on what lies before. */
  lemma {:induction false} DecodedShifts(before: seq<Byte>, mem: seq<Byte>, read: nat, other: (Byte, Byte) -> Byte)
    ensures Decoded(before + mem, |before| + read, |before + mem|, other) == Decoded(mem, read, |mem|, other)
    decreases |mem| - read
  {
    hide Decoded, Scanned, At;
    DecodedOnce(before + mem, |before| + read, |before + mem|, other);
    DecodedOnce(mem, read, |mem|, other);
    if read < |mem| {
      AtShifts(before, mem, read);
      AtShifts(before, mem, read + 1);
      AtShifts(before, mem, read + 2);
      DecodedShifts(before, mem, read + 1, other);
      DecodedShifts(before, mem, read + 2, other);
      DecodedShifts(before, mem, read + 3, other);
    }
  }

  /** What has no '=' is read as itself, line ends and all, before whatever follows. */
  lemma {:induction false} ReadsPlain(plain: seq<Byte>, rest: seq<Byte>, other: (Byte, Byte) -> Byte)
    requires '=' as int !in plain
    ensures Decoded(plain + rest, 0, |plain + rest|, other) == plain + Decoded(rest, 0, |rest|, other)
  {
    hide Decoded;
    if plain == [] {
      assert [] + rest == rest;
    } else {
      var mem, more := plain + rest, plain[1..] + rest;
      assert mem == [plain[0]] + more;
      DecodedOnce(mem, 0, |mem|, other);
      DecodedShifts([plain[0]], more, 0, other);
      ReadsPlain(plain[1..], rest, other);
    }
  }

  /** A soft line break, of either kind, vanishes. */
  lemma SoftBreaksVanish(plain: seq<Byte>, rest: seq<Byte>, crlf: bool, other: (Byte, Byte) -> Byte)
    requires '=' as int !in plain
    ensures var line := plain + ['=' as int] + (if crlf then ['\r' as int, '\n' as int] else ['\n' as int]);
            Decoded(line + rest, 0, |line + rest|, other) == plain + Decoded(rest, 0, |rest|, other)
  {
    var sign: seq<Byte> := ['=' as int] + if crlf then ['\r' as int, '\n' as int] else ['\n' as int];
    ReadsPlain(plain, sign + rest, other);
    assert plain + (sign + rest)
           == plain + ['=' as int] + (if crlf then ['\r' as int, '\n' as int] else ['\n' as int]) + rest;
    DecodedShifts(sign, rest, 0, other);
  }

  // ----- the writings of given bytes

  /** A digit from 0 to 15 in hexadecimal, in capitals or not. */
  function Digit(v: Byte, capital: bool): (c: Byte)
    requires v < 16
    ensures IsHexDigit(c) && HexDigit(c) == v
  {
    (if capital then "0123456789ABCDEF" else "0123456789abcdef")[v] as int
  }

  /** There are no other digits. */
  lemma NoOtherDigits(c: Byte)
    requires IsHexDigit(c)
    ensures c == Digit(HexDigit(c), true) || c == Digit(HexDigit(c), false)
  {
  }

  /** A byte is written with its high digit first, each digit in capitals or not. */
  lemma PairRead(b: Byte, capital1: bool, capital2: bool, rest: seq<Byte>, other: (Byte, Byte) -> Byte)
    ensures var pair := ['=' as int, Digit(b / 16, capital1), Digit(b % 16, capital2)];
            Decoded(pair + rest, 0, |pair + rest|, other) == [b] + Decoded(rest, 0, |rest|, other)
  {
    hide Digit, HexDigit, Decoded;
    var pair: seq<Byte> := ['=' as int, Digit(b / 16, capital1), Digit(b % 16, capital2)];
    DecodedOnce(pair + rest, 0, |pair + rest|, other);
    DecodedShifts(pair, rest, 0, other);
  }

  /** What a writer chooses for each byte: whether to code it, in capitals or not, and the soft line breaks before it,
      each with a '\r' or without. */
  datatype Choice = Choice(coded: bool, capital: bool, breaks: seq<bool>)

  /** A byte as its choice has it; '=' is always coded. */
  function UnitOf(b: Byte, c: Choice): (u: Unit)
    ensures Legal(u) && Meaning(u) == [b] && (u.Coded? <==> c.coded || b == EQUALS)
  {
    if c.coded || b == EQUALS then Coded(Digit(b / 16, c.capital), Digit(b % 16, c.capital)) else Literal(b)
  }

  function Breaks(crlfs: seq<bool>): seq<Unit> {
    if crlfs == [] then [] else [SoftBreak(crlfs[0])] + Breaks(crlfs[1..])
  }

  /** The bytes from the `k`-th on, with the breaks after the last. */
  function Units(data: seq<Byte>, choices: nat -> Choice, k: nat): seq<Unit> {
    Breaks(choices(k).breaks)
    + if data == [] then [] else [UnitOf(data[0], choices(k))] + Units(data[1..], choices, k + 1)
  }

  lemma {:induction false} BreaksMean(crlfs: seq<bool>, units: seq<Unit>)
    requires AllLegal(units)
    ensures AllLegal(Breaks(crlfs) + units) && Meanings(Breaks(crlfs) + units) == Meanings(units)
  {
    hide HexDigit;
    if crlfs == [] {
      assert Breaks(crlfs) + units == units;
    } else {
      BreaksMean(crlfs[1..], units);
      assert (Breaks(crlfs) + units)[1..] == Breaks(crlfs[1..]) + units;
    }
  }

  /** Whatever is chosen for the bytes is a legal writing of them. */
  lemma {:induction false} EveryChoiceIsLegal(data: seq<Byte>, choices: nat -> Choice, k: nat)
    ensures AllLegal(Units(data, choices, k)) && Meanings(Units(data, choices, k)) == data
    decreases |data|
  {
    hide HexDigit, Digit, UnitOf;
    if data == [] {
      BreaksMean(choices(k).breaks, []);
    } else {
      EveryChoiceIsLegal(data[1..], choices, k + 1);
      var u, rest := UnitOf(data[0], choices(k)), Units(data[1..], choices, k + 1);
      assert ([u] + rest)[1..] == rest;
      BreaksMean(choices(k).breaks, [u] + rest);
    }
  }

  /** Reading gives the bytes back from any writing of them: any bytes coded, in capitals or not, any soft breaks. */
  lemma ReadsEveryChoice(data: seq<Byte>, choices: nat -> Choice, other: (Byte, Byte) -> Byte)
    ensures var text := Render(Units(data, choices, 0));
            Decoded(text, 0, |text|, other) == data
  {
    hide *;
    EveryChoiceIsLegal(data, choices, 0);
    ReadsEveryWriting(Units(data, choices, 0), other);
  }
}
