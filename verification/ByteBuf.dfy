/** The growable byte buffer of bytebuf.c: the buffer as a value, what runs of writes do to that value, and the
    object whose write procedure has exactly that effect. */
module ByteBuf {
  import opened Bytes

  const DEFAULT_SIZE := 1024
  /** Sizes are 32-bit unsigned integers. */
  const UINT_LIMIT := 0x1_0000_0000
  /** `bufsize * 2` wraps from here on. */
  const HALF := 0x8000_0000

  /** The new size of a growing buffer: `bufsize * 2` when that exceeds the need, which all may wrap. */
  function GrownSize(bufsize: nat, need: nat): nat {
    var doubled, needSize := bufsize * 2 % UINT_LIMIT, need % UINT_LIMIT;
    if doubled > needSize then doubled else 1024 * (1 + needSize / 1024) % UINT_LIMIT
  }

  /** The first allocation of a buffer that has none. */
  function FirstSize(growbuf: int): nat {
    if growbuf > 1 then growbuf else DEFAULT_SIZE
  }

  function Zeros(n: nat): (z: seq<Byte>)
    ensures |z| == n && forall i :: 0 <= i < n ==> z[i] == 0
  {
    seq(n, _ => 0)
  }

  /** What has been written, the bytes of the buffer after it, and how many bytes reallocation has carried over so
      far. */
  datatype State = State(contents: seq<Byte>, tail: seq<Byte>, growable: bool, copied: nat) {
    function Capacity(): nat {
      |contents| + |tail|
    }
  }

  /** A write of `data` that would reach the limit of the buffer has to grow it. */
  predicate Reaches(st: State, data: seq<Byte>) {
    |st.contents| + |data| >= st.Capacity()
  }

  /** The overflow of a fixed buffer. */
  predicate Rejected(st: State, data: seq<Byte>) {
    data != [] && Reaches(st, data) && !st.growable
  }

  predicate Grows(st: State, data: seq<Byte>) {
    data != [] && Reaches(st, data) && st.growable
  }

  function SizeAfter(st: State, data: seq<Byte>): nat {
    GrownSize(st.Capacity(), |st.contents| + |data| + 1)
  }

  /** The new size has wrapped, and what is to be copied does not fit. */
  predicate Overruns(st: State, data: seq<Byte>) {
    Grows(st, data) && SizeAfter(st, data) < |st.contents| + |data|
  }

  /** A write. After one that overruns the tail has no meaning. */
  function Write(st: State, data: seq<Byte>): State {
    if data == [] || Rejected(st, data) then st
    else if !Reaches(st, data) then st.(contents := st.contents + data, tail := st.tail[|data|..])
    else
      var left := SizeAfter(st, data) - |st.contents| - |data|;
      State(st.contents + data, Zeros(if left < 0 then 0 else left), true, st.copied + st.Capacity())
  }

  /** While the need is below 2^32 - 1024 nothing but the doubling wraps, and the new size exceeds the need. */
  lemma GrownSizeFits(bufsize: nat, need: nat)
    requires need < UINT_LIMIT - 1024
    ensures need < GrownSize(bufsize, need) < UINT_LIMIT
    ensures GrownSize(bufsize, need) == bufsize * 2 % UINT_LIMIT || GrownSize(bufsize, need) <= need + 1024
  {
    assert need < 1024 * (1 + need / 1024) <= need + 1024;
  }

  // ----- runs

  function Run(st: State, writes: seq<seq<Byte>>): State
    decreases |writes|
  {
    if writes == [] then st else Run(Write(st, writes[0]), writes[1..])
  }

  /** The bytes of the successful writes of a run. */
  function Accepted(st: State, writes: seq<seq<Byte>>): seq<Byte>
    decreases |writes|
  {
    if writes == [] then []
    else (if Rejected(st, writes[0]) then [] else writes[0]) + Accepted(Write(st, writes[0]), writes[1..])
  }

  function Total(writes: seq<seq<Byte>>): nat {
    if writes == [] then 0 else |writes[0]| + Total(writes[1..])
  }

  function Concat(writes: seq<seq<Byte>>): seq<Byte> {
    if writes == [] then [] else writes[0] + Concat(writes[1..])
  }

  /** The limit always stays beyond what has been written. */
  predicate Open(st: State) {
    |st.contents| < st.Capacity()
  }

  predicate ZeroTail(st: State) {
    forall i :: 0 <= i < |st.tail| ==> st.tail[i] == 0
  }

  lemma WriteAppends(st: State, data: seq<Byte>)
    ensures var next := Write(st, data);
            && next.contents == st.contents + (if Rejected(st, data) then [] else data)
            && next.growable == st.growable && (!st.growable ==> next.Capacity() == st.Capacity())
            && (ZeroTail(st) ==> ZeroTail(next)) && (Rejected(st, data) ==> next == st)
            && (Open(st) && !Grows(st, data) ==> Open(next))
  {
    hide GrownSize;
  }

  /** Over any run the contents are what was there and the successful writes; a growing buffer accepts them all, a fixed
      one keeps its size and its limit beyond the contents, and a tail of zeros stays one. */
  lemma {:induction false} RunAppends(st: State, writes: seq<seq<Byte>>)
    ensures Run(st, writes).contents == st.contents + Accepted(st, writes)
    ensures Run(st, writes).growable == st.growable
    ensures !st.growable ==> Run(st, writes).Capacity() == st.Capacity() && (Open(st) ==> Open(Run(st, writes)))
    ensures st.growable ==> Accepted(st, writes) == Concat(writes)
    ensures ZeroTail(st) ==> ZeroTail(Run(st, writes))
    decreases |writes|
  {
    hide Write, ZeroTail, Open, Reaches;
    if writes != [] {
      WriteAppends(st, writes[0]);
      RunAppends(Write(st, writes[0]), writes[1..]);
    }
  }

  // ----- growth

  /** The need stays where nothing but the doubling wraps. */
  predicate InLimits(st: State, writes: seq<seq<Byte>>) {
    |st.contents| + Total(writes) + 1 < UINT_LIMIT - 1024
  }

  lemma WriteGrows(st: State, data: seq<Byte>)
    requires |st.contents| + |data| + 1 < UINT_LIMIT - 1024
    ensures !Overruns(st, data) && (Open(st) || Grows(st, data) ==> Open(Write(st, data)))
    ensures |Write(st, data).contents| <= |st.contents| + |data|
    ensures if Grows(st, data) then Write(st, data).Capacity() == SizeAfter(st, data) < UINT_LIMIT
                                    && |st.contents| + |data| + 1 < SizeAfter(st, data)
                                    && Write(st, data).copied == st.copied + st.Capacity()
                                    && |Write(st, data).contents| == |st.contents| + |data|
            else Write(st, data).Capacity() == st.Capacity() && Write(st, data).copied == st.copied
                 && |Write(st, data).contents| >= |st.contents|
  {
    hide GrownSize;
    GrownSizeFits(st.Capacity(), |st.contents| + |data| + 1);
  }

  /** The limit stays beyond what has been written. */
  lemma {:induction false} RunStaysOpen(st: State, writes: seq<seq<Byte>>)
    requires Open(st) && InLimits(st, writes)
    ensures Open(Run(st, writes))
    decreases |writes|
  {
    hide Write, GrownSize, Open;
    if writes != [] {
      WriteGrows(st, writes[0]);
      RunStaysOpen(Write(st, writes[0]), writes[1..]);
    }
  }

  /** The new size: twice the old one, less 2^32 from 2^31 bytes on, if that exceeds the need, or else the least
      multiple of 1024 that does. */
  lemma GrownSizeIs(bufsize: nat, need: nat)
    requires bufsize < UINT_LIMIT && need < UINT_LIMIT - 1024
    ensures var doubled, r := bufsize + bufsize - (if bufsize < 0x8000_0000 then 0 else 0x1_0000_0000),
                              GrownSize(bufsize, need);
            if doubled > need then r == doubled else r % 1024 == 0 && r - 1024 <= need < r
  {
    assert need < 1024 * (1 + need / 1024) <= need + 1024;
  }

  /** A run reallocates exactly if what it writes, with what was there, reaches the size of the buffer. */
  lemma {:induction false} ReallocatesExactly(st: State, writes: seq<seq<Byte>>)
    requires st.growable && Open(st) && InLimits(st, writes)
    ensures Run(st, writes).copied >= st.copied
    ensures Run(st, writes).copied == st.copied <==> |st.contents| + Total(writes) < st.Capacity()
    decreases |writes|
  {
    hide Write, GrownSize;
    if writes != [] {
      var next := Write(st, writes[0]);
      WriteGrows(st, writes[0]);
      WriteAppends(st, writes[0]);
      ReallocatesExactly(next, writes[1..]);
    }
  }

  /** A buffer of the default size is reallocated when its contents reach 1024 bytes; so is one whose `u8_growbuf` is a
      size, which is its first allocation, when they reach that. */
  lemma DefaultReallocates(growbuf: int, data: seq<Byte>, writes: seq<seq<Byte>>)
    requires growbuf != 0 && |data| < FirstSize(growbuf) && |data| + Total(writes) + 1 < UINT_LIMIT - 1024
    ensures Run(State(data, Zeros(FirstSize(growbuf) - |data|), true, 0), writes).copied == 0
            <==> |data| + Total(writes) < if growbuf <= 1 then 1024 else growbuf
  {
    ReallocatesExactly(State(data, Zeros(FirstSize(growbuf) - |data|), true, 0), writes);
  }

  /** A growing buffer at least doubles exactly while it is below 2^31 bytes; from there on `bufsize * 2` wraps. */
  lemma GrowthDoubles(bufsize: nat, need: nat)
    requires bufsize < need < UINT_LIMIT - 1024
    ensures need < GrownSize(bufsize, need) <= need + 1024 || GrownSize(bufsize, need) == 2 * bufsize > need
    ensures GrownSize(bufsize, need) >= 2 * bufsize <==> bufsize < HALF
  {
    assert need < 1024 * (1 + need / 1024) <= need + 1024;
  }

  /** Nothing in the run grows at 2^31 bytes or more. */
  predicate GrowsBelowHalf(st: State, writes: seq<seq<Byte>>)
    decreases |writes|
  {
    writes == []
    || ((Grows(st, writes[0]) ==> st.Capacity() < HALF) && GrowsBelowHalf(Write(st, writes[0]), writes[1..]))
  }

  /** Every growth in the run at least doubles the capacity. */
  predicate AlwaysDoubles(st: State, writes: seq<seq<Byte>>)
    decreases |writes|
  {
    writes == []
    || ((Grows(st, writes[0]) ==> Write(st, writes[0]).Capacity() >= 2 * st.Capacity())
        && AlwaysDoubles(Write(st, writes[0]), writes[1..]))
  }

  /** Over any run within 32 bits every growth at least doubles if and only if none happens at 2^31 bytes or more. */
  lemma {:induction false} DoublesExactly(st: State, writes: seq<seq<Byte>>)
    requires InLimits(st, writes)
    ensures AlwaysDoubles(st, writes) <==> GrowsBelowHalf(st, writes)
    decreases |writes|
  {
    hide Write, GrownSize;
    if writes != [] {
      WriteGrows(st, writes[0]);
      DoublesExactly(Write(st, writes[0]), writes[1..]);
      if Grows(st, writes[0]) {
        GrowthDoubles(st.Capacity(), |st.contents| + |writes[0]| + 1);
      }
    }
  }

  /** A run of less than 2^31 bytes never grows there. */
  lemma {:induction false} SmallRunsStayBelow(st: State, writes: seq<seq<Byte>>)
    requires |st.contents| + Total(writes) < HALF
    ensures GrowsBelowHalf(st, writes)
    decreases |writes|
  {
    hide Write, GrownSize;
    if writes != [] {
      WriteGrows(st, writes[0]);
      SmallRunsStayBelow(Write(st, writes[0]), writes[1..]);
    }
  }

  function Max(a: int, b: int): int { if a < b then b else a }

  /** The capacity stays within what the run began with, twice what has been written, and the need rounded up. */
  lemma {:induction false} CapacityBounded(st: State, writes: seq<seq<Byte>>, start: nat)
    requires InLimits(st, writes)
    requires st.Capacity() <= Max(start, Max(2 * |st.contents|, |st.contents| + 1025))
    ensures var end := Run(st, writes);
            end.Capacity() <= Max(start, Max(2 * |end.contents|, |end.contents| + 1025))
    decreases |writes|
  {
    hide Write, GrownSize;
    if writes != [] {
      WriteGrows(st, writes[0]);
      if Grows(st, writes[0]) {
        GrowthDoubles(st.Capacity(), |st.contents| + |writes[0]| + 1);
      }
      CapacityBounded(Write(st, writes[0]), writes[1..], start);
    }
  }

  // ----- what growth copies

  /** A growth at 2^31 bytes or more has to leave room for what was copied before it. */
  predicate Affordable(st: State, data: seq<Byte>) {
    Grows(st, data) && st.Capacity() >= HALF ==> st.copied <= SizeAfter(st, data) - st.Capacity()
  }

  predicate AllAffordable(st: State, writes: seq<seq<Byte>>)
    decreases |writes|
  {
    writes == [] || (Affordable(st, writes[0]) && AllAffordable(Write(st, writes[0]), writes[1..]))
  }

  /** What has been copied in excess of a capacity of 2^31 bytes or more is never made good. */
  lemma {:induction false} ExcessStays(st: State, writes: seq<seq<Byte>>)
    requires InLimits(st, writes) && st.Capacity() >= HALF && st.copied > st.Capacity()
    ensures Run(st, writes).copied > Run(st, writes).Capacity()
    decreases |writes|
  {
    hide Write, GrownSize;
    if writes != [] {
      WriteGrows(st, writes[0]);
      ExcessStays(Write(st, writes[0]), writes[1..]);
    }
  }

  /** All growth together has copied no more than the final capacity if and only if each growth at 2^31 bytes or more
      leaves room for what was copied before it. */
  lemma {:induction false} RunAmortisedExactly(st: State, writes: seq<seq<Byte>>)
    requires InLimits(st, writes) && st.copied <= st.Capacity()
    ensures Run(st, writes).copied <= Run(st, writes).Capacity() <==> AllAffordable(st, writes)
    decreases |writes|
  {
    hide Write, GrownSize;
    if writes != [] {
      var next := Write(st, writes[0]);
      WriteGrows(st, writes[0]);
      if Grows(st, writes[0]) {
        GrowthDoubles(st.Capacity(), |st.contents| + |writes[0]| + 1);
      }
      if Affordable(st, writes[0]) {
        RunAmortisedExactly(next, writes[1..]);
      } else {
        ExcessStays(next, writes[1..]);
      }
    }
  }

  /** Below 2^31 bytes everything is affordable. */
  lemma {:induction false} BelowHalfAffordable(st: State, writes: seq<seq<Byte>>)
    requires GrowsBelowHalf(st, writes)
    ensures AllAffordable(st, writes)
    decreases |writes|
  {
    hide Write, GrownSize;
    if writes != [] {
      BelowHalfAffordable(Write(st, writes[0]), writes[1..]);
    }
  }

  /** How often the run grows at 2^31 bytes or more. */
  function BigGrowths(st: State, writes: seq<seq<Byte>>): nat
    decreases |writes|
  {
    if writes == [] then 0
    else
      (if Grows(st, writes[0]) && st.Capacity() >= HALF then 1 else 0)
      + BigGrowths(Write(st, writes[0]), writes[1..])
  }

  /** At most one such growth can be afforded in a run, and none after 2^31 bytes have been copied. */
  lemma {:induction false} OneBigGrowth(st: State, writes: seq<seq<Byte>>)
    requires InLimits(st, writes) && AllAffordable(st, writes)
    ensures BigGrowths(st, writes) <= if st.copied >= HALF then 0 else 1
    decreases |writes|
  {
    hide Write, GrownSize;
    if writes != [] {
      WriteGrows(st, writes[0]);
      OneBigGrowth(Write(st, writes[0]), writes[1..]);
    }
  }

  /** A full buffer of 2^31 bytes: one growth by a byte is affordable if nothing much was copied before, and then no
      other is. */
  lemma HalfFullIsNotAmortised(st: State, a: seq<Byte>, b: seq<Byte>)
    requires st.growable && |st.contents| == HALF - 1 && |st.tail| == 1 && |a| == 1 && |b| == 1024
    ensures Run(st, [a]).copied <= Run(st, [a]).Capacity() == HALF + 1024 <==> st.copied <= 1024
    ensures st.copied + 2 * HALF <= Run(st, [a, b]).copied && Run(st, [a, b]).Capacity() == HALF + 2048
  {
    var one := Write(st, a);
    assert [a, b][1..] == [b] && [b][1..] == [] && [a][1..] == [];
    assert GrownSize(HALF, HALF + 1) == HALF + 1024 && GrownSize(HALF + 1024, HALF + 1025) == HALF + 2048;
    hide Write, GrownSize;
    assert [a, b][0] == a && [b][0] == b && [a][0] == a;
    assert Run(st, [a, b]) == Run(one, [b]) == Run(Write(one, b), []) == Write(one, b);
    assert Run(st, [a]) == Run(one, []) == one;
    WriteGrows(st, a);
    WriteGrows(one, b);
  }

  // ----- the buffer object

  class Buffer {
    /** u8_buf; u8_lim is its end. */
    var buf: array?<Byte>
    /** u8_ptr, as an offset. */
    var ptr: nat
    var growbuf: int
    ghost var copied: nat

    ghost predicate Valid()
      reads this, buf
    {
      buf != null && ptr <= buf.Length
    }

    ghost function Value(): State
      requires Valid()
      reads this, buf
    {
      State(buf[..ptr], buf[ptr..], growbuf != 0, copied)
    }

    /** u8_realloc, and zeroes from the pointer on. */
    method Realloc(newSize: nat)
      requires Valid() && ptr <= newSize
      modifies this
      ensures Valid() && fresh(buf) && ptr == old(ptr) && growbuf == old(growbuf)
      ensures Value() == State(old(buf[..ptr]), Zeros(newSize - ptr), growbuf != 0, old(copied + buf.Length))
    {
      var newbuf := new Byte[newSize](_ => 0);
      forall i | 0 <= i < ptr {
        newbuf[i] := buf[i];
      }
      copied := copied + buf.Length;
      assert newbuf[..ptr] == buf[..ptr];
      buf := newbuf;
    }

    /** memcpy at the pointer, which then moves past the copy. */
    method Append(data: seq<Byte>)
      requires Valid() && ptr + |data| <= buf.Length
      modifies this`ptr, buf
      ensures Valid() && buf == old(buf) && ptr == old(ptr) + |data|
      ensures Value() == old(State(buf[..ptr] + data, buf[ptr..][|data|..], growbuf != 0, copied))
    {
      forall i | 0 <= i < |data| {
        buf[ptr + i] := data[i];
      }
      ptr := ptr + |data|;
    }

    /** _u8_bufwrite: the number of bytes written, or -1. It stores beyond the buffer, and `inside` is false, exactly
        if a first write does not fit the first allocation, which is not checked, or the new size has wrapped: nothing
        is said about the buffer then. */
    method BufWrite(data: seq<Byte>) returns (r: int, inside: bool)
      requires buf != null ==> Valid()
      modifies this, buf
      ensures inside <==> data == [] || if old(buf) == null then |data| <= FirstSize(growbuf)
                                        else !Overruns(old(Value()), data)
      ensures r == if data != [] && old(buf) != null && Rejected(old(Value()), data) then -1 else |data|
      ensures data == [] ==> buf == old(buf) && ptr == old(ptr)
      ensures data != [] && old(buf) == null && inside ==>
                Valid() && Value() == State(data, Zeros(FirstSize(growbuf) - |data|), growbuf != 0, 0)
      ensures old(buf) != null && inside ==> Valid() && Value() == Write(old(Value()), data)
      ensures old(buf) != null ==> (buf == old(buf) || fresh(buf)) && (r == -1 ==> buf == old(buf))
      ensures growbuf == old(growbuf)
    {
      hide GrownSize;
      var len := |data|;
      if len == 0 {
        return 0, true;
      } else if buf == null {
        var bufsize := FirstSize(growbuf);
        buf := new Byte[bufsize](_ => 0);
        ptr := 0;
        copied := 0;
        if len > bufsize {
          return len, false;
        }
        assert buf[0..] == Zeros(bufsize) && buf[..0] == [];
      } else if ptr + len >= buf.Length {
        if growbuf == 0 {
          return -1, true;
        }
        var newSize := GrownSize(buf.Length, ptr + len + 1);
        if newSize < ptr + len {
          return len, false;
        }
        Realloc(newSize);
      }
      ZerosDrop(|buf[ptr..]|, len);
      Append(data);
      return len, true;
    }
  }

  lemma ZerosDrop(n: nat, k: nat)
    requires k <= n
    ensures Zeros(n)[k..] == Zeros(n - k)
  {
  }
}
