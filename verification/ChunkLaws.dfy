/** Encoding a text in several calls into buffers of the caller's. */
module ChunkLaws {
  import opened Bytes
  import opened Patches
  import opened Utf8
  import opened Convert
  import opened Localize
  import opened TextLaws

  /** Outside a buffer of the caller's the room does not matter. */
  lemma {:induction false} RoomDoesNotMatter(e: Encoding, other: Char -> Patch, crlf: bool, mem: seq<Byte>,
                                             st: State, end: nat, room: int, room': int)
    requires st.inCrlf ==> crlf
    ensures Run(e, other, crlf, mem, st, end, false, room) == Run(e, other, crlf, mem, st, end, false, room')
    decreases Measure(st, end)
  {
    hide Step, Measure, Patch.Then;
    if st.scan < end {
      StepDescends(e, other, crlf, mem, st, end);
      var (st', patch) := Step(e, other, crlf, mem, st, end);
      RoomDoesNotMatter(e, other, crlf, mem, st', end, room - patch.Grown(), room' - patch.Grown());
    }
  }

  /** What is stored from a state on without a bound. */
  function Rest(e: Encoding, other: Char -> Patch, crlf: bool, mem: seq<Byte>, st: State, end: nat): (Patch, State)
    requires st.inCrlf ==> crlf
  {
    Run(e, other, crlf, mem, st, end, false, 0)
  }

  lemma RestStep(e: Encoding, other: Char -> Patch, crlf: bool, mem: seq<Byte>, st: State, end: nat)
    requires (st.inCrlf ==> crlf) && st.scan < end
    ensures var (st', patch) := Step(e, other, crlf, mem, st, end);
            (st'.inCrlf ==> crlf)
            && Rest(e, other, crlf, mem, st, end) == After(patch, Rest(e, other, crlf, mem, st', end))
  {
    hide Run, Step, Patch.Then;
    RunOn(e, other, crlf, mem, st, end, false, 0);
    var (st', patch) := Step(e, other, crlf, mem, st, end);
    RoomDoesNotMatter(e, other, crlf, mem, st', end, 0, -patch.Grown());
  }

  ghost predicate AtNewline(mem: seq<Byte>, scan: nat, end: nat) {
    scan < end && Sgetc(mem, scan, end).0 == 10
  }

  lemma StepKeepsNewline(e: Encoding, other: Char -> Patch, crlf: bool, mem: seq<Byte>, st: State, end: nat)
    requires st.scan < end && (st.inCrlf ==> crlf)
    ensures var st' := Step(e, other, crlf, mem, st, end).0; st'.inCrlf ==> AtNewline(mem, st'.scan, end)
  {
    hide Sgetc, Emit;
  }

  lemma AfterAfter(a: Patch, b: Patch, run: (Patch, State))
    ensures After(a, After(b, run)) == After(a.Then(b), run) && After(NOTHING, run) == run
  {
    ThenThen(a, b, run.0);
    ThenNothing(run.0);
  }

  /** What a bounded call leaves undone is what the unbounded run from its last state stores. */
  lemma {:induction false} BoundedIsPrefix(e: Encoding, other: Char -> Patch, crlf: bool, mem: seq<Byte>,
                                           st: State, end: nat, room: int)
    requires (st.inCrlf ==> crlf) && (st.inCrlf ==> AtNewline(mem, st.scan, end))
    ensures var (patch, last) := Run(e, other, crlf, mem, st, end, true, room);
            && (last.inCrlf ==> crlf && AtNewline(mem, last.scan, end)) && st.scan <= last.scan
            && Rest(e, other, crlf, mem, st, end) == After(patch, Rest(e, other, crlf, mem, last, end))
    decreases Measure(st, end)
  {
    hide Step, Measure, After, Rest, Patch.Then, AtNewline;
    if st.scan < end && room > 8 {
      StepDescends(e, other, crlf, mem, st, end);
      StepKeepsNewline(e, other, crlf, mem, st, end);
      RestStep(e, other, crlf, mem, st, end);
      var (st', patch) := Step(e, other, crlf, mem, st, end);
      BoundedIsPrefix(e, other, crlf, mem, st', end, room - patch.Grown());
      var (more, last) := Run(e, other, crlf, mem, st', end, true, room - patch.Grown());
      AfterAfter(patch, more, Rest(e, other, crlf, mem, last, end));
    } else {
      AfterAfter(NOTHING, NOTHING, Rest(e, other, crlf, mem, st, end));
    }
  }

  /** Calls of u8_localize one after another into buffers of the given sizes, each from where the scanner was left. */
  function Calls(e: Encoding, other: Char -> Patch, crlf: bool, mem: seq<Byte>, scan: nat, end: nat,
                 sizes: seq<nat>): (Patch, nat)
    decreases |sizes|
  {
    if sizes == [] then (NOTHING, scan)
    else
      var (patch, last) := Run(e, other, crlf, mem, State(scan, false), end, true, sizes[0]);
      var (rest, final) := Calls(e, other, crlf, mem, last.scan, end, sizes[1..]);
      (patch.Then(rest), final)
  }

  /** How many calls stop between the '\r' and the '\n' of a line end. */
  function TornCalls(e: Encoding, other: Char -> Patch, crlf: bool, mem: seq<Byte>, scan: nat, end: nat,
                     sizes: seq<nat>): nat
    decreases |sizes|
  {
    if sizes == [] then 0
    else
      var last := Run(e, other, crlf, mem, State(scan, false), end, true, sizes[0]).1;
      (if last.inCrlf then 1 else 0) + TornCalls(e, other, crlf, mem, last.scan, end, sizes[1..])
  }

  lemma {:induction false} NoneTornWithoutLineEnds(e: Encoding, other: Char -> Patch, mem: seq<Byte>, scan: nat,
                                                   end: nat, sizes: seq<nat>)
    ensures TornCalls(e, other, false, mem, scan, end, sizes) == 0
    decreases |sizes|
  {
    hide Run;
    if sizes != [] {
      BoundedIsPrefix(e, other, false, mem, State(scan, false), end, sizes[0]);
      var last := Run(e, other, false, mem, State(scan, false), end, true, sizes[0]).1;
      NoneTornWithoutLineEnds(e, other, mem, last.scan, end, sizes[1..]);
    }
  }

  /** Whoever starts again at a newline inside its line end stores the '\r' once more. */
  lemma RestartRepeats(e: Encoding, other: Char -> Patch, mem: seq<Byte>, scan: nat, end: nat)
    requires AtNewline(mem, scan, end)
    ensures Rest(e, other, true, mem, State(scan, false), end)
            == After(Stores(e, other, 13), Rest(e, other, true, mem, State(scan, true), end))
  {
    hide Rest, Emit, Sgetc;
    RestStep(e, other, true, mem, State(scan, false), end);
    AsciiNeedsNoBytes(e, other, 13, []);
  }

  /** The calls and then one call for the rest. */
  ghost predicate Concatenate(e: Encoding, other: Char -> Patch, crlf: bool, mem: seq<Byte>, scan: nat, end: nat,
                              sizes: seq<nat>)
  {
    var (patch, final) := Calls(e, other, crlf, mem, scan, end, sizes);
    Rest(e, other, crlf, mem, State(scan, false), end)
    == After(patch, Rest(e, other, crlf, mem, State(final, false), end))
  }

  lemma {:induction false} CallsConcatenate(e: Encoding, other: Char -> Patch, crlf: bool, mem: seq<Byte>,
                                            scan: nat, end: nat, sizes: seq<nat>)
    requires TornCalls(e, other, crlf, mem, scan, end, sizes) == 0 || Stores(e, other, 13) == NOTHING
    ensures Concatenate(e, other, crlf, mem, scan, end, sizes)
    decreases |sizes|
  {
    hide Run, Rest, After, Patch.Then, Stores, AtNewline;
    var all := Rest(e, other, crlf, mem, State(scan, false), end);
    if sizes == [] {
      AfterAfter(NOTHING, NOTHING, all);
    } else {
      BoundedIsPrefix(e, other, crlf, mem, State(scan, false), end, sizes[0]);
      var (patch, last) := Run(e, other, crlf, mem, State(scan, false), end, true, sizes[0]);
      if last.inCrlf {
        RestartRepeats(e, other, mem, last.scan, end);
        AfterAfter(NOTHING, NOTHING, Rest(e, other, crlf, mem, last, end));
      }
      CallsConcatenate(e, other, crlf, mem, last.scan, end, sizes[1..]);
      var (rest, final) := Calls(e, other, crlf, mem, last.scan, end, sizes[1..]);
      AfterAfter(patch, rest, Rest(e, other, crlf, mem, State(final, false), end));
    }
  }

  /** Every torn call makes the output longer by one '\r'. */
  lemma {:induction false} CallsGrow(e: Encoding, other: Char -> Patch, crlf: bool, mem: seq<Byte>,
                                     scan: nat, end: nat, sizes: seq<nat>)
    ensures var (patch, final) := Calls(e, other, crlf, mem, scan, end, sizes);
            patch.Grown() + Rest(e, other, crlf, mem, State(final, false), end).0.Grown()
            == Rest(e, other, crlf, mem, State(scan, false), end).0.Grown()
               + TornCalls(e, other, crlf, mem, scan, end, sizes) * Stores(e, other, 13).Grown()
    decreases |sizes|
  {
    hide Run, Rest, Patch.Then, Patch.Grown, Stores, AtNewline;
    if sizes == [] {
      assert NOTHING.Grown() == 0 by { NothingGrows(); }
    } else {
      BoundedIsPrefix(e, other, crlf, mem, State(scan, false), end, sizes[0]);
      var (patch, last) := Run(e, other, crlf, mem, State(scan, false), end, true, sizes[0]);
      if last.inCrlf {
        RestartRepeats(e, other, mem, last.scan, end);
        ThenGrows(Stores(e, other, 13), Rest(e, other, crlf, mem, last, end).0);
      }
      ThenGrows(patch, Rest(e, other, crlf, mem, last, end).0);
      CallsGrow(e, other, crlf, mem, last.scan, end, sizes[1..]);
      ThenGrows(patch, Calls(e, other, crlf, mem, last.scan, end, sizes[1..]).0);
      Distributes(if last.inCrlf then 1 else 0, TornCalls(e, other, crlf, mem, last.scan, end, sizes[1..]),
                  Stores(e, other, 13).Grown());
    }
  }

  lemma NothingGrows()
    ensures NOTHING.Grown() == 0
  {
  }

  lemma Distributes(m: int, n: int, g: int)
    ensures (m + n) * g == m * g + n * g
  {
  }

  /** The calls put out, together, what one call with its own buffer puts out up to where the last of them stopped,
      exactly if none of them stopped inside a line end, or nothing is stored for a '\r'. */
  lemma CallsConcatenateExactly(e: Encoding, other: Char -> Patch, crlf: bool, mem: seq<Byte>, scan: nat, end: nat,
                                sizes: seq<nat>)
    requires Converts(other)
    ensures Concatenate(e, other, crlf, mem, scan, end, sizes)
            <==> TornCalls(e, other, crlf, mem, scan, end, sizes) == 0 || Stores(e, other, 13) == NOTHING
  {
    hide Rest, Calls, TornCalls, Patch.Then, Emit;
    var torn, cr := TornCalls(e, other, crlf, mem, scan, end, sizes), Stores(e, other, 13);
    if torn == 0 || cr == NOTHING {
      CallsConcatenate(e, other, crlf, mem, scan, end, sizes);
    } else if Concatenate(e, other, crlf, mem, scan, end, sizes) {
      var (patch, final) := Calls(e, other, crlf, mem, scan, end, sizes);
      CallsGrow(e, other, crlf, mem, scan, end, sizes);
      ThenGrows(patch, Rest(e, other, crlf, mem, State(final, false), end).0);
      assert torn * cr.Grown() == 0;
      GrowthOfOne(e, other, 13);
      assert false;
    }
  }

  lemma GrowthOfOne(e: Encoding, other: Char -> Patch, ch: Char)
    requires Converts(other)
    ensures Stores(e, other, ch).Grown() == 0 <==> Stores(e, other, ch) == NOTHING
  {
    hide TableBytes;
    EncodesSomething(ch);
  }

  lemma EncodesSomething(ch: Char)
    ensures Encode(ch) != []
  {
  }

  /** A call into at least 9 bytes gets past a character, except that a newline that is to become a line end needs room
      for two rounds. */
  lemma CallProgresses(e: Encoding, other: Char -> Patch, crlf: bool, mem: seq<Byte>, scan: nat, end: nat,
                       size: nat)
    requires size >= 9 && scan < end
    ensures var last := Run(e, other, crlf, mem, State(scan, false), end, true, size).1;
            last.scan > scan
            <==> !crlf || Sgetc(mem, scan, end).0 != 10 || size > 8 + Stores(e, other, 13).Grown()
  {
    hide Run, Emit, Sgetc, Measure, AtNewline;
    SgetcBounds(mem, scan, end);
    SgetcFits(mem, scan, end);
    var st := State(scan, false);
    var (st', patch) := Step(e, other, crlf, mem, st, end);
    StepDescends(e, other, crlf, mem, st, end);
    StepKeepsNewline(e, other, crlf, mem, st, end);
    RunOn(e, other, crlf, mem, st, end, true, size);
    BoundedIsPrefix(e, other, crlf, mem, st', end, size - patch.Grown());
    if crlf && Sgetc(mem, scan, end).0 == 10 {
      AsciiNeedsNoBytes(e, other, 13, []);
      assert st' == State(scan, true) && patch == Stores(e, other, 13);
      if size - patch.Grown() > 8 {
        var (st'', patch') := Step(e, other, crlf, mem, st', end);
        RunOn(e, other, crlf, mem, st', end, true, size - patch.Grown());
        BoundedIsPrefix(e, other, crlf, mem, st'', end, size - patch.Grown() - patch'.Grown());
        assert st''.scan == scan + 1;
      } else {
        RunEnds(e, other, crlf, mem, st', end, true, size - patch.Grown(), NOTHING);
      }
    }
  }

  /** Enough calls, into buffers with room for a character each, put out what one call with its own buffer does. */
  lemma {:induction false} ChunksAreOneShot(e: Encoding, other: Char -> Patch, crlf: bool, mem: seq<Byte>, scan: nat,
                                            end: nat, sizes: seq<nat>)
    requires forall i :: 0 <= i < |sizes| ==> sizes[i] >= 9 && (crlf ==> sizes[i] > 8 + Stores(e, other, 13).Grown())
    requires TornCalls(e, other, crlf, mem, scan, end, sizes) == 0 || Stores(e, other, 13) == NOTHING
    requires end <= scan + |sizes|
    ensures var (patch, final) := Calls(e, other, crlf, mem, scan, end, sizes);
            final >= end && patch == Rest(e, other, crlf, mem, State(scan, false), end).0
  {
    hide Run, Rest, After, Patch.Then, Stores;
    CallsConcatenate(e, other, crlf, mem, scan, end, sizes);
    CallsReach(e, other, crlf, mem, scan, end, sizes);
    var (patch, final) := Calls(e, other, crlf, mem, scan, end, sizes);
    NothingLeft(e, other, crlf, mem, final, end, patch);
  }

  lemma NothingLeft(e: Encoding, other: Char -> Patch, crlf: bool, mem: seq<Byte>, scan: nat, end: nat, patch: Patch)
    requires scan >= end
    ensures After(patch, Rest(e, other, crlf, mem, State(scan, false), end)).0 == patch
  {
    hide Patch.Then;
    ThenNothing(patch);
  }

  lemma {:induction false} CallsReach(e: Encoding, other: Char -> Patch, crlf: bool, mem: seq<Byte>, scan: nat,
                                      end: nat, sizes: seq<nat>)
    requires forall i :: 0 <= i < |sizes| ==> sizes[i] >= 9 && (crlf ==> sizes[i] > 8 + Stores(e, other, 13).Grown())
    requires end <= scan + |sizes|
    ensures Calls(e, other, crlf, mem, scan, end, sizes).1 >= end
    decreases |sizes|
  {
    hide Run, Rest, Stores;
    if sizes != [] {
      BoundedIsPrefix(e, other, crlf, mem, State(scan, false), end, sizes[0]);
      var last := Run(e, other, crlf, mem, State(scan, false), end, true, sizes[0]).1;
      if scan < end {
        CallProgresses(e, other, crlf, mem, scan, end, sizes[0]);
      }
      CallsReach(e, other, crlf, mem, last.scan, end, sizes[1..]);
    }
  }
}
