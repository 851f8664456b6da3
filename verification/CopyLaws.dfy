/** What u8_localize does with any bytes at all when it writes UTF-8: it copies them. */
module CopyLaws {
  import opened Bytes
  import opened Patches
  import opened Utf8
  import opened Convert
  import opened Localize
  import opened ChunkLaws
  import opened MalformedLaws

  /** The bytes without the NULs, and with a '\r' before each newline if line ends are asked for. */
  function Kept(crlf: bool, bytes: seq<Byte>): seq<Byte> {
    if bytes == [] then []
    else
      (if bytes[0] == 0 then [] else if crlf && bytes[0] == 10 then [13, 10] else [bytes[0]])
      + Kept(crlf, bytes[1..])
  }

  /** At `i` begins a sequence of several bytes that reads as an ASCII character. */
  predicate ShortAt(mem: seq<Byte>, i: nat) {
    At(mem, i) >= 0xC0 && Sgetc(mem, i, |mem|).0 < 0x80
  }

  ghost predicate Copies(e: Encoding, other: Char -> Patch, crlf: bool, mem: seq<Byte>, scan: nat)
    requires scan <= |mem|
  {
    Rest(e, other, crlf, mem, State(scan, false), |mem|) == (Plain(Kept(crlf, mem[scan..])), State(|mem|, false))
  }

  // ----- one sequence

  lemma {:induction false} ContinueTrails(mem: seq<Byte>, scan: nat, ch: nat, n: nat)
    requires scan <= |mem|
    ensures scan <= Continue(mem, scan, ch, n).1 <= |mem|
    ensures forall k :: scan <= k < Continue(mem, scan, ch, n).1 ==> Trails(mem[k])
    decreases n
  {
    if n > 0 && Trails(At(mem, scan)) {
      ContinueTrails(mem, scan + 1, ch * 64 + At(mem, scan) % 64, n - 1);
    }
  }

  /** A byte of 0x80 or more and what is read with it. */
  lemma SequenceBytes(mem: seq<Byte>, scan: nat)
    requires scan < |mem| && mem[scan] >= 0x80
    ensures var (ch, next) := Sgetc(mem, scan, |mem|);
            && ch >= 0 && scan < next <= |mem| && (mem[scan] < 0xC0 ==> ch == 0xFFFD && next == scan + 1)
            && forall k :: scan < k < next ==> Trails(mem[k])
  {
    var b := mem[scan];
    if SizeOfLead(b) > 0 {
      ContinueTrails(mem, scan + 1, LeadBits(b, SizeOfLead(b)), SizeOfLead(b) - 1);
    }
  }

  lemma {:induction false} KeptParts(crlf: bool, a: seq<Byte>, b: seq<Byte>)
    ensures Kept(crlf, a + b) == Kept(crlf, a) + Kept(crlf, b)
  {
    if a == [] {
      assert a + b == b;
    } else {
      assert (a + b)[1..] == a[1..] + b;
      KeptParts(crlf, a[1..], b);
    }
  }

  lemma {:induction false} KeptWhole(crlf: bool, a: seq<Byte>)
    requires forall i :: 0 <= i < |a| ==> a[i] >= 0x80
    ensures Kept(crlf, a) == a
  {
    if a != [] {
      KeptWhole(crlf, a[1..]);
    }
  }

  lemma CopyOf(mem: seq<Byte>, from: nat, to: nat)
    requires from <= to <= |mem|
    ensures Copy(mem, from, to - from) == mem[from..to]
  {
  }

  // ----- one round

  /** What is stored for a byte of 0x80 or more, and where the scanner goes. */
  lemma StepAtSequence(e: Encoding, other: Char -> Patch, crlf: bool, mem: seq<Byte>, scan: nat)
    requires !e.Coded? && scan < |mem| && mem[scan] >= 0x80
    ensures var next := Sgetc(mem, scan, |mem|).1;
            scan < next <= |mem|
            && if ShortAt(mem, scan) then
                 var patch := Step(e, other, crlf, mem, State(scan, false), |mem|).1;
                 patch.back == 0 && patch.bytes != [] && patch.bytes[0] < 0x80
               else Step(e, other, crlf, mem, State(scan, false), |mem|)
                    == (State(next, false), Plain(mem[scan..next]))
  {
    SequenceBytes(mem, scan);
    var next := Sgetc(mem, scan, |mem|).1;
    CopyOf(mem, scan, next);
    hide Sgetc, Copy;
  }

  /** A byte below 0x80. */
  lemma StepAtAscii(e: Encoding, other: Char -> Patch, crlf: bool, mem: seq<Byte>, scan: nat)
    requires !e.Coded? && scan < |mem| && mem[scan] < 0x80
    ensures mem[scan] == 0 ==> Step(e, other, crlf, mem, State(scan, false), |mem|) == (State(scan + 1, false), NOTHING)
    ensures mem[scan] > 0 && !(crlf && mem[scan] == 10) ==>
              Step(e, other, crlf, mem, State(scan, false), |mem|) == (State(scan + 1, false), Plain([mem[scan]]))
    ensures crlf && mem[scan] == 10 ==>
              && Step(e, other, crlf, mem, State(scan, false), |mem|) == (State(scan, true), Plain([13]))
              && Step(e, other, crlf, mem, State(scan, true), |mem|) == (State(scan + 1, false), Plain([10]))
  {
  }

  // ----- the whole

  /** After a round that stores `bytes`, which are those up to `next`. */
  lemma CopiesOn(e: Encoding, other: Char -> Patch, crlf: bool, mem: seq<Byte>, scan: nat, next: nat, bytes: seq<Byte>)
    requires scan < next <= |mem| && bytes == Kept(crlf, mem[scan..next])
    requires Rest(e, other, crlf, mem, State(scan, false), |mem|)
             == After(Plain(bytes), Rest(e, other, crlf, mem, State(next, false), |mem|))
    ensures Copies(e, other, crlf, mem, next) ==> Copies(e, other, crlf, mem, scan)
    ensures Copies(e, other, crlf, mem, scan) && Rest(e, other, crlf, mem, State(next, false), |mem|).0.back == 0 ==>
              Copies(e, other, crlf, mem, next)
  {
    hide Rest, Kept;
    assert mem[scan..] == mem[scan..next] + mem[next..];
    KeptParts(crlf, mem[scan..next], mem[next..]);
    var rest := Rest(e, other, crlf, mem, State(next, false), |mem|).0;
    if rest.back == 0 {
      ThenPlain(bytes, rest.bytes);
      if Copies(e, other, crlf, mem, scan) {
        assert (bytes + rest.bytes)[|bytes|..] == rest.bytes;
        assert (bytes + Kept(crlf, mem[next..]))[|bytes|..] == Kept(crlf, mem[next..]);
      }
    }
  }

  /** In UTF-8 nothing is ever taken back. */
  lemma {:induction false} RestIsPlain(e: Encoding, other: Char -> Patch, crlf: bool, mem: seq<Byte>, st: State)
    requires !e.Coded? && (st.inCrlf ==> crlf)
    ensures Rest(e, other, crlf, mem, st, |mem|).0.back == 0
    decreases Measure(st, |mem|)
  {
    hide Run, Measure, Patch.Then;
    if st.scan >= |mem| {
      RunEnds(e, other, crlf, mem, st, |mem|, false, 0, NOTHING);
    } else {
      RestStep(e, other, crlf, mem, st, |mem|);
      StepDescends(e, other, crlf, mem, st, |mem|);
      StepIsPlain(e, other, crlf, mem, st);
      var (st', patch) := Step(e, other, crlf, mem, st, |mem|);
      RestIsPlain(e, other, crlf, mem, st');
      ThenPlain(patch.bytes, Rest(e, other, crlf, mem, st', |mem|).0.bytes);
    }
  }

  lemma StepIsPlain(e: Encoding, other: Char -> Patch, crlf: bool, mem: seq<Byte>, st: State)
    requires !e.Coded?
    ensures Step(e, other, crlf, mem, st, |mem|).1.back == 0
  {
    hide Sgetc, Copy;
  }

  lemma KeptOne(crlf: bool, b: Byte)
    ensures Kept(crlf, [b]) == if b == 0 then [] else if crlf && b == 10 then [13, 10] else [b]
  {
    assert [b][1..] == [];
    assert Kept(crlf, []) == [];
  }

  /** What is stored from a byte below 0x80 on. */
  lemma AsciiStored(e: Encoding, other: Char -> Patch, crlf: bool, mem: seq<Byte>, scan: nat)
    requires !e.Coded? && scan < |mem| && mem[scan] < 0x80
    ensures Rest(e, other, crlf, mem, State(scan, false), |mem|)
            == After(Plain(if mem[scan] == 0 then [] else if crlf && mem[scan] == 10 then [13, 10] else [mem[scan]]),
                     Rest(e, other, crlf, mem, State(scan + 1, false), |mem|))
  {
    hide Rest, Step, Patch.Then, After;
    StepAtAscii(e, other, crlf, mem, scan);
    RestStep(e, other, crlf, mem, State(scan, false), |mem|);
    if crlf && mem[scan] == 10 {
      RestStep(e, other, crlf, mem, State(scan, true), |mem|);
      AfterAfter(Plain([13]), Plain([10]), Rest(e, other, crlf, mem, State(scan + 1, false), |mem|));
      ThenPlain([13], [10]);
      assert [13] + [10] == [13, 10];
    }
  }

  lemma AtAscii(e: Encoding, other: Char -> Patch, crlf: bool, mem: seq<Byte>, scan: nat)
    requires !e.Coded? && scan < |mem| && mem[scan] < 0x80
    ensures Copies(e, other, crlf, mem, scan) <==> Copies(e, other, crlf, mem, scan + 1)
  {
    hide Rest, Copies, Kept;
    AsciiStored(e, other, crlf, mem, scan);
    RestIsPlain(e, other, crlf, mem, State(scan + 1, false));
    KeptOne(crlf, mem[scan]);
    assert mem[scan..scan + 1] == [mem[scan]];
    CopiesOn(e, other, crlf, mem, scan, scan + 1, Kept(crlf, [mem[scan]]));
  }

  lemma AtSequence(e: Encoding, other: Char -> Patch, crlf: bool, mem: seq<Byte>, scan: nat)
    requires !e.Coded? && scan < |mem| && mem[scan] >= 0x80 && !ShortAt(mem, scan)
    ensures var next := Sgetc(mem, scan, |mem|).1;
            && scan < next <= |mem| && (forall k :: scan < k < next ==> Trails(mem[k]))
            && (Copies(e, other, crlf, mem, scan) <==> Copies(e, other, crlf, mem, next))
  {
    hide Rest, Step, Sgetc, ShortAt, Copies;
    var next := Sgetc(mem, scan, |mem|).1;
    SequenceBytes(mem, scan);
    StepAtSequence(e, other, crlf, mem, scan);
    RestStep(e, other, crlf, mem, State(scan, false), |mem|);
    RestIsPlain(e, other, crlf, mem, State(next, false));
    KeptWhole(crlf, mem[scan..next]);
    CopiesOn(e, other, crlf, mem, scan, next, mem[scan..next]);
  }

  lemma AtShort(e: Encoding, other: Char -> Patch, crlf: bool, mem: seq<Byte>, scan: nat)
    requires !e.Coded? && scan < |mem| && ShortAt(mem, scan)
    ensures !Copies(e, other, crlf, mem, scan)
  {
    hide Step, Sgetc, Rest;
    var st := State(scan, false);
    var (st', patch) := Step(e, other, crlf, mem, st, |mem|);
    StepAtSequence(e, other, crlf, mem, scan);
    StepDescends(e, other, crlf, mem, st, |mem|);
    RestStep(e, other, crlf, mem, st, |mem|);
    RestIsPlain(e, other, crlf, mem, st');
    ThenPlain(patch.bytes, Rest(e, other, crlf, mem, st', |mem|).0.bytes);
    assert Rest(e, other, crlf, mem, st, |mem|).0.bytes[0] == patch.bytes[0] < 0x80;
    assert Kept(crlf, mem[scan..])[0] == mem[scan] >= 0xC0;
  }

  lemma {:induction false} CopiesRest(e: Encoding, other: Char -> Patch, crlf: bool, mem: seq<Byte>, scan: nat)
    requires !e.Coded? && scan <= |mem|
    ensures Copies(e, other, crlf, mem, scan) <==> forall i :: scan <= i < |mem| ==> !ShortAt(mem, i)
    decreases |mem| - scan
  {
    hide Rest, Sgetc, Copies;
    if scan == |mem| {
      NothingCopied(e, other, crlf, mem);
    } else if mem[scan] < 0x80 {
      AtAscii(e, other, crlf, mem, scan);
      CopiesRest(e, other, crlf, mem, scan + 1);
    } else if ShortAt(mem, scan) {
      AtShort(e, other, crlf, mem, scan);
    } else {
      AtSequence(e, other, crlf, mem, scan);
      CopiesRest(e, other, crlf, mem, Sgetc(mem, scan, |mem|).1);
    }
  }

  lemma NothingCopied(e: Encoding, other: Char -> Patch, crlf: bool, mem: seq<Byte>)
    ensures Copies(e, other, crlf, mem, |mem|)
  {
    hide Step;
  }

  /** A growing call into UTF-8 stores any bytes, well-formed or not, as they are but for NULs, which it drops, and
      for the line ends, exactly if no sequence of several bytes reads as an ASCII character. */
  lemma CopiesBytes(e: Encoding, other: Char -> Patch, crlf: bool, mem: seq<Byte>)
    requires !e.Coded?
    ensures Run(e, other, crlf, mem, State(0, false), |mem|, false, 0) == (Plain(Kept(crlf, mem)), State(|mem|, false))
            <==> forall i :: 0 <= i < |mem| ==> !ShortAt(mem, i)
  {
    hide Run, ShortAt, Kept;
    CopiesRest(e, other, crlf, mem, 0);
    assert mem[0..] == mem;
  }

  /** So a text without NULs is not changed at all. */
  lemma {:induction false} KeptUnchanged(mem: seq<Byte>)
    requires 0 !in mem
    ensures Kept(false, mem) == mem
  {
    if mem != [] {
      KeptUnchanged(mem[1..]);
    }
  }

  /** The shortest of those sequences begin with 0xC0 or 0xC1. */
  lemma TwoByteShort(mem: seq<Byte>, i: nat)
    requires i + 1 < |mem| && 0xC0 <= mem[i] < 0xE0 && Trails(mem[i + 1])
    ensures ShortAt(mem, i) <==> mem[i] < 0xC2
  {
    var c := (mem[i] % 0x20) as int * 64 + mem[i + 1] % 64;
    assert Continue(mem, i + 1, mem[i] % 0x20, 1) == Continue(mem, i + 2, c, 0) == (c, i + 2);
  }
}
