/** Encoding: table_uc2mb and u8_localize. */
module Localize {
  import opened Bytes
  import opened Wrappers
  import opened Patches
  import opened Charset
  import opened Utf8
  import opened Convert

  // ----- one character

  /** A code as one to four bytes, most significant first. */
  function CodeBytes(code: Char): (bytes: seq<Byte>)
    ensures 1 <= |bytes| <= 4
  {
    if code < 0x100 then [code]
    else if code < 0x1_0000 then [code / 0x100, code % 0x100]
    else if code < 0x100_0000 then [code / 0x1_0000, code / 0x100 % 0x100, code % 0x100]
    else [code / 0x100_0000, code / 0x1_0000 % 0x100, code / 0x100 % 0x100, code % 0x100]
  }

  /** What table_uc2mb stores for a character; it fails on a code that is negative as an `int`. */
  function TableBytes(ch: Char, inv: seq<Entry>): (r: Option<seq<Byte>>)
    ensures r.Some? ==> 1 <= |r.value| <= 4
  {
    LookupFits(ch, inv, 0, |inv| - 1);
    var code := Lookup(ch, inv);
    if code < 0 then None else Some(CodeBytes(code))
  }

  /** `n` bytes of memory. */
  function Copy(mem: seq<Byte>, from: nat, n: nat): (r: seq<Byte>)
    ensures |r| == n && forall i :: 0 <= i < n ==> r[i] == At(mem, from + i)
    decreases n
  {
    if n == 0 then [] else [At(mem, from)] + Copy(mem, from + 1, n - 1)
  }

  /** What the encoding's own conversion function or wctomb does for a character that the table does not have: it stores
      at most 8 bytes, for which the buffer keeps room, or it fails, and its negative result moves the write pointer
      back. */
  ghost predicate Converts(other: Char -> Patch) {
    forall ch :: |other(ch).bytes| <= 8 && (other(ch).back == 0 || other(ch).bytes == [])
  }

  /** What is stored for `ch`, which was read from the bytes `raw`. */
  function Emit(e: Encoding, other: Char -> Patch, ch: Char, raw: seq<Byte>): Patch {
    if !e.Coded? then Plain(if ch < 0x80 then [ch] else raw)
    else if ch < 0x80 && e.ascii then Plain([ch])
    else
      match (if e.table.Some? then TableBytes(ch, e.table.value.inv) else None)
      case Some(bytes) => Plain(bytes)
      case None => other(ch)
  }

  // ----- the loop of u8_localize

  /** Where the scanner is, and whether the '\r' of a line end has been written and its '\n' has not. */
  datatype State = State(scan: nat, inCrlf: bool)

  /** One round: the character to write (negative to write nothing), the bytes it was read from and the new state. */
  function Read(crlf: bool, mem: seq<Byte>, st: State, end: nat): (int, State) {
    var scan := st.scan;
    if crlf && st.inCrlf then (10, State(scan + 1, false))
    else
      var (ch, next) := Sgetc(mem, scan, end);
      if crlf && ch == 10 then (13, State(scan, true)) else (ch, State(next, st.inCrlf))
  }

  function Step(e: Encoding, other: Char -> Patch, crlf: bool, mem: seq<Byte>, st: State, end: nat)
    : (State, Patch)
  {
    SgetcFits(mem, st.scan, end);
    SgetcBounds(mem, st.scan, end);
    var (ch, st') := Read(crlf, mem, st, end);
    if ch < 0 then (st'.(scan := st'.scan + 1), NOTHING)
    else (st', Emit(e, other, ch, Copy(mem, st.scan, st'.scan - st.scan)))
  }

  /** The scanner may be set back to a newline, but not twice: this goes down in every round. */
  function Measure(st: State, end: nat): nat {
    if st.scan >= end then 0 else 2 * (end - st.scan) - if st.inCrlf then 1 else 0
  }

  lemma StepDescends(e: Encoding, other: Char -> Patch, crlf: bool, mem: seq<Byte>, st: State, end: nat)
    requires st.scan < end && (st.inCrlf ==> crlf)
    ensures var st' := Step(e, other, crlf, mem, st, end).0;
            Measure(st', end) < Measure(st, end) && st.scan <= st'.scan && (st'.inCrlf ==> crlf && st'.scan < end)
  {
    SgetcBounds(mem, st.scan, end);
  }

  /** What is stored from a state on, and the state at the end. A buffer of the caller's is `fixed`: the loop goes on
      only while more than 8 bytes of `room` are left in it. */
  function Run(e: Encoding, other: Char -> Patch, crlf: bool, mem: seq<Byte>, st: State, end: nat,
               fixed: bool, room: int)
    : (Patch, State)
    requires st.inCrlf ==> crlf
    decreases Measure(st, end)
  {
    if st.scan >= end || (fixed && room <= 8) then (NOTHING, st)
    else
      StepDescends(e, other, crlf, mem, st, end);
      var (st', patch) := Step(e, other, crlf, mem, st, end);
      var (rest, last) := Run(e, other, crlf, mem, st', end, fixed, room - patch.Grown());
      (patch.Then(rest), last)
  }

  // ----- procedures

  method TableUc2mb(o: array<Byte>, at: nat, ch: Char, inv: seq<Entry>) returns (size: int)
    requires at + 4 <= o.Length
    modifies o
    ensures var bytes := TableBytes(ch, inv);
            if bytes.None? then size == -1 && o[..] == old(o[..])
            else size == |bytes.value| && o[..at + size] == old(o[..at]) + bytes.value
                 && o[at + size..] == old(o[at + size..])
  {
    var code := MbLookupCode(ch, inv);
    LookupFits(ch, inv, 0, |inv| - 1);
    if code < 0 {
      return -1;
    } else if code < 0x100 {
      o[at] := code;
      return 1;
    } else if code < 0x1_0000 {
      o[at] := code / 0x100;
      o[at + 1] := code % 0x100;
      return 2;
    } else if code < 0x100_0000 {
      o[at] := code / 0x1_0000;
      o[at + 1] := code / 0x100 % 0x100;
      o[at + 2] := code % 0x100;
      return 3;
    } else {
      o[at] := code / 0x100_0000;
      o[at + 1] := code / 0x1_0000 % 0x100;
      o[at + 2] := code / 0x100 % 0x100;
      o[at + 3] := code % 0x100;
      return 4;
    }
  }

  /** memcpy of `bytes` to `o` at `at`. */
  method Store(o: array<Byte>, at: nat, bytes: seq<Byte>)
    requires at + |bytes| <= o.Length
    modifies o
    ensures o[..at + |bytes|] == old(o[..at]) + bytes && o[at + |bytes|..] == old(o[at + |bytes|..])
  {
    forall i | 0 <= i < |bytes| {
      o[at + i] := bytes[i];
    }
  }

  /** The part of the loop that writes one character, read from the bytes between `last` and `scan`. The new position
      may lie before the buffer. */
  method Put(e: Encoding, other: Char -> Patch, mem: seq<Byte>, last: nat, scan: nat, ch: Char,
             o: array<Byte>, at: nat) returns (write: int)
    requires last <= scan <= last + 6 && at + 8 < o.Length && Converts(other)
    modifies o
    ensures var patch := Emit(e, other, ch, Copy(mem, last, scan - last));
            && write == at + patch.Grown() <= at + 8
            && if write < 0 then Plain(old(o[..at])).Then(patch).back > 0
               else Plain(old(o[..at])).Then(patch) == Plain(o[..write])
    ensures o[at + 8..] == old(o[at + 8..])
  {
    hide TableBytes, Patch.Then, Copy;
    ghost var before := o[..at];
    if !e.Coded? {
      if ch < 0x80 {
        o[at] := ch;
        o[at + 1] := 0;
        ThenPlain(before, [ch]);
        return at + 1;
      } else {
        var n := scan - last;
        Store(o, at, Copy(mem, last, n));
        o[at + n] := 0;
        ThenPlain(before, Copy(mem, last, n));
        return at + n;
      }
    } else if ch < 0x80 && e.ascii {
      o[at] := ch;
      o[at + 1] := 0;
      ThenPlain(before, [ch]);
      return at + 1;
    }
    var outsize := -1;
    if e.table.Some? {
      outsize := TableUc2mb(o, at, ch, e.table.value.inv);
    }
    if outsize >= 0 {
      ThenPlain(before, TableBytes(ch, e.table.value.inv).value);
      return at + outsize;
    }
    write := PutOther(other(ch), o, at);
  }

  /** The conversion of a character that the table does not have. */
  method PutOther(l: Patch, o: array<Byte>, at: nat) returns (write: int)
    requires |l.bytes| <= 8 && (l.back == 0 || l.bytes == []) && at + 8 < o.Length
    modifies o
    ensures write == at + l.Grown() <= at + 8
    ensures if write < 0 then Plain(old(o[..at])).Then(l).back > 0
            else Plain(old(o[..at])).Then(l) == Plain(o[..write])
    ensures o[at + 8..] == old(o[at + 8..])
  {
    Store(o, at, l.bytes);
    return at + l.Grown();
  }

  method Grow(buf: array<Byte>, used: nat) returns (larger: array<Byte>)
    requires used <= buf.Length
    ensures fresh(larger) && larger.Length == buf.Length + 1024 && larger[..used] == buf[..used]
  {
    larger := new Byte[buf.Length + 1024];
    forall i | 0 <= i < used {
      larger[i] := buf[i];
    }
  }

  /** The part of the loop that reads: a newline is first turned into a '\r', with the scanner set back, and then
      written as itself. */
  method NextChar(crlf: bool, mem: seq<Byte>, start: nat, midway: bool, end: nat)
    returns (ch: int, scan: nat, inCrlf: bool)
    ensures (ch, State(scan, inCrlf)) == Read(crlf, mem, State(start, midway), end)
    ensures ch < CHAR_LIMIT && start <= scan <= start + 6
  {
    SgetcBounds(mem, start, end);
    SgetcFits(mem, start, end);
    inCrlf := midway;
    if !crlf {
      ch, scan := SgetcLim(mem, start, end);
    } else if inCrlf {
      ch := 10;
      inCrlf := false;
      scan := start + 1;
    } else {
      ch, scan := SgetcLim(mem, start, end);
      if ch == 10 {
        ch := 13;
        inCrlf := true;
        scan := start;
      }
    }
  }

  /** What has been stored, `done`, followed by what a run stores. */
  ghost function After(done: Patch, run: (Patch, State)): (Patch, State) {
    (done.Then(run.0), run.1)
  }

  lemma OneRound(e: Encoding, other: Char -> Patch, crlf: bool, mem: seq<Byte>, st: State, end: nat,
                 fixed: bool, room: int, done: Patch)
    requires (st.inCrlf ==> crlf) && st.scan < end && (fixed ==> room > 8)
    ensures var (st', patch) := Step(e, other, crlf, mem, st, end);
            (st'.inCrlf ==> crlf) && Measure(st', end) < Measure(st, end)
            && After(done, Run(e, other, crlf, mem, st, end, fixed, room))
               == After(done.Then(patch), Run(e, other, crlf, mem, st', end, fixed, room - patch.Grown()))
  {
    hide Step, Patch.Then;
    StepDescends(e, other, crlf, mem, st, end);
    var (st', patch) := Step(e, other, crlf, mem, st, end);
    ThenThen(done, patch, Run(e, other, crlf, mem, st', end, fixed, room - patch.Grown()).0);
  }

  lemma RunEnds(e: Encoding, other: Char -> Patch, crlf: bool, mem: seq<Byte>, st: State, end: nat,
                fixed: bool, room: int, done: Patch)
    requires st.inCrlf ==> crlf
    ensures done == NOTHING ==> After(done, Run(e, other, crlf, mem, st, end, fixed, room))
                                == Run(e, other, crlf, mem, st, end, fixed, room)
    ensures st.scan >= end || (fixed && room <= 8) ==>
              After(done, Run(e, other, crlf, mem, st, end, fixed, room)) == (done, st)
  {
    hide Step, Patch.Then;
    ThenNothing(Run(e, other, crlf, mem, st, end, fixed, room).0);
    ThenNothing(done);
  }

  /** A round by the character that is read. */
  lemma StepOf(e: Encoding, other: Char -> Patch, crlf: bool, mem: seq<Byte>, st: State, end: nat)
    ensures var (ch, read) := Read(crlf, mem, st, end);
            var (st', patch) := Step(e, other, crlf, mem, st, end);
            && ch < CHAR_LIMIT && st.scan <= read.scan
            && (ch < 0 ==> st' == read.(scan := read.scan + 1) && patch == NOTHING)
            && (ch >= 0 ==> st' == read && patch == Emit(e, other, ch, Copy(mem, st.scan, read.scan - st.scan)))
  {
    hide Emit, Copy;
    SgetcFits(mem, st.scan, end);
    SgetcBounds(mem, st.scan, end);
  }

  /** What was taken back from before the buffer is not made good. */
  lemma BackRemains(done: Patch, run: (Patch, State))
    ensures After(done, run).0.back >= done.back
  {
  }

  /** One round of the loop: a buffer that is not fixed grows first if less than 9 bytes are left. */
  method Turn(e: Encoding, other: Char -> Patch, mem: seq<Byte>, crlf: bool, start: nat, midway: bool, end: nat,
              fixed: bool, buffer: array<Byte>, at: nat)
    returns (buf: array<Byte>, scan: nat, inCrlf: bool, write: int)
    requires Converts(other) && at < buffer.Length && (fixed ==> at + 8 < buffer.Length)
    modifies buffer
    ensures var (st', patch) := Step(e, other, crlf, mem, State(start, midway), end);
            && st' == State(scan, inCrlf) && write == at + patch.Grown() < buf.Length
            && if write < 0 then Plain(old(buffer[..at])).Then(patch).back > 0
               else Plain(old(buffer[..at])).Then(patch) == Plain(buf[..write])
    ensures if fixed then buf == buffer else buf == buffer || fresh(buf)
    ensures fixed ==> buffer[at + 8..] == old(buffer[at + 8..])
  {
    hide Emit, Read, Step, Copy, Converts, Patch.Then;
    StepOf(e, other, crlf, mem, State(start, midway), end);
    var ch;
    ch, scan, inCrlf := NextChar(crlf, mem, start, midway, end);
    buf := buffer;
    if !fixed && at + 8 >= buf.Length {
      buf := Grow(buf, at);
    }
    write := at;
    if ch < 0 {
      scan := scan + 1;
      ThenNothing(Plain(buf[..at]));
    } else {
      write := Put(e, other, mem, start, scan, ch, buf, at);
    }
  }

  /** u8_localize: into a caller's buffer, or into an allocated one. It stores outside the buffer exactly if there is
      no room for the NUL at the end, or if the write pointer is moved back to before the buffer; then nothing is said
      about the other results. */
  method U8Localize(e: Encoding, other: Char -> Patch, mem: seq<Byte>, start: nat, end: nat, crlf: bool,
                    buffer: array?<Byte>)
    returns (buf: array<Byte>, written: nat, scanner: nat, inside: bool)
    requires Converts(other) && start <= end
    modifies buffer
    ensures var size := if buffer == null then 0 else buffer.Length;
            var run := Run(e, other, crlf, mem, State(start, false), end, buffer != null, size);
            && (inside <==> (if buffer == null then start < end else size >= 1) && run.0.back == 0)
            && (inside ==> written < buf.Length && buf[written] == 0 && run.0 == Plain(buf[..written])
                           && scanner == run.1.scan)
    ensures if buffer == null then fresh(buf) else buf == buffer
  {
    hide Run, Step, After, Measure, Patch.Then, Converts;
    var scan: nat, write: nat, inCrlf, fixed := start, 0, false, buffer != null;
    if buffer == null {
      buf := new Byte[2 * (end - start)];
    } else {
      buf := buffer;
    }
    ghost var size := if fixed then buf.Length else 0;
    ghost var all := Run(e, other, crlf, mem, State(start, false), end, fixed, size);
    RunEnds(e, other, crlf, mem, State(start, false), end, fixed, size, NOTHING);
    assert buf[..0] == [];
    while scan < end && (!fixed || write + 8 < buf.Length)
      invariant (inCrlf ==> crlf) && (write < buf.Length || write == 0 == buf.Length)
      invariant if fixed then buf == buffer else fresh(buf) && (buf.Length == 0 <==> start == end)
      invariant start == end ==> scan == start
      invariant all == After(Plain(buf[..write]),
                             Run(e, other, crlf, mem, State(scan, inCrlf), end, fixed, size - write))
      decreases Measure(State(scan, inCrlf), end)
    {
      OneRound(e, other, crlf, mem, State(scan, inCrlf), end, fixed, size - write, Plain(buf[..write]));
      ghost var done, patch := Plain(buf[..write]), Step(e, other, crlf, mem, State(scan, inCrlf), end).1;
      var moved;
      buf, scan, inCrlf, moved := Turn(e, other, mem, crlf, scan, inCrlf, end, fixed, buf, write);
      if moved < 0 {
        BackRemains(done.Then(patch),
                    Run(e, other, crlf, mem, State(scan, inCrlf), end, fixed, size - write - patch.Grown()));
        return buf, 0, scan, false;
      }
      write := moved;
    }
    RunEnds(e, other, crlf, mem, State(scan, inCrlf), end, fixed, size - write, Plain(buf[..write]));
    if write == buf.Length {
      return buf, 0, scan, false;
    }
    buf[write] := 0;
    return buf, write, scan, true;
  }
}
