/** Where a call into a caller's buffer stops, and what it stores: from the text and the size of the buffer. */
module FillLaws {
  import opened Wrappers
  import opened Patches
  import opened Utf8
  import opened Convert
  import opened Localize
  import opened TextLaws
  import opened BufferLaws

  /** Where the write pointer is before the `m`-th character. */
  function Before(e: Encoding, other: Char -> Patch, crlf: bool, chars: seq<Char>, m: nat): int
    requires m <= |chars|
  {
    Balance(e, other, Written(crlf, chars[..m]))
  }

  /** The newline at `m` is the one at which a buffer of `size` bytes has room for its '\r' and then for no more. */
  predicate TornAt(e: Encoding, other: Char -> Patch, crlf: bool, chars: seq<Char>, size: int, m: nat)
    requires m < |chars|
  {
    && crlf && chars[m] == 10
    && Before(e, other, crlf, chars, m) < size - 8
    && Before(e, other, crlf, chars, m) + Stores(e, other, 13).Grown() >= size - 8
  }

  /** No call into `size` bytes gets past the `m`-th character. */
  predicate FullAt(e: Encoding, other: Char -> Patch, crlf: bool, chars: seq<Char>, size: int, m: nat)
    requires m < |chars|
  {
    Before(e, other, crlf, chars, m) >= size - 8 || TornAt(e, other, crlf, chars, size, m)
  }

  /** The first character at which the buffer is full is the `n`-th, if there is one, and there a line end is torn. */
  ghost predicate Stops(e: Encoding, other: Char -> Patch, crlf: bool, chars: seq<Char>, size: int,
                        n: nat, torn: bool)
  {
    && n <= |chars|
    && (forall j :: 0 <= j < n ==> !FullAt(e, other, crlf, chars, size, j))
    && (n < |chars| ==> FullAt(e, other, crlf, chars, size, n))
    && (torn <==> n < |chars| && TornAt(e, other, crlf, chars, size, n))
  }

  /** A call tears a line end. */
  ghost predicate Tears(e: Encoding, other: Char -> Patch, crlf: bool, chars: seq<Char>, size: int) {
    exists n :: 0 <= n < |chars| && Stops(e, other, crlf, chars, size, n, true)
  }

  /** How far the write pointer moves over one character. */
  function Growth(e: Encoding, other: Char -> Patch, crlf: bool, ch: Char): int {
    if crlf && ch == 10 then Stores(e, other, 13).Grown() + Stores(e, other, 10).Grown()
    else Stores(e, other, ch).Grown()
  }

  lemma BeforeNone(e: Encoding, other: Char -> Patch, crlf: bool, chars: seq<Char>)
    ensures Before(e, other, crlf, chars, 0) == 0
  {
    WrittenOne(crlf, []);
    assert chars[..0] == [];
  }

  lemma BeforeRest(e: Encoding, other: Char -> Patch, crlf: bool, chars: seq<Char>, m: nat)
    requires m < |chars|
    ensures Before(e, other, crlf, chars, m + 1)
            == Growth(e, other, crlf, chars[0]) + Before(e, other, crlf, chars[1..], m)
  {
    hide Stores, Written, Balance;
    var first, rest := chars[..m + 1], chars[1..][..m];
    assert first[1..] == rest && first[0] == chars[0];
    WrittenOne(crlf, first);
    var text := Written(crlf, rest);
    if crlf && chars[0] == 10 {
      BalanceFirst(e, other, 13, [10] + text);
      BalanceFirst(e, other, 10, text);
      assert [13, 10] + text == [13] + ([10] + text);
    } else {
      BalanceFirst(e, other, chars[0], text);
    }
  }

  lemma BalanceFirst(e: Encoding, other: Char -> Patch, a: Char, rest: seq<Char>)
    ensures Balance(e, other, [a] + rest) == Stores(e, other, a).Grown() + Balance(e, other, rest)
  {
    hide Stores;
    assert ([a] + rest)[1..] == rest;
  }

  lemma FullRest(e: Encoding, other: Char -> Patch, crlf: bool, chars: seq<Char>, size: int, m: nat)
    requires m + 1 < |chars|
    ensures var less := size - Growth(e, other, crlf, chars[0]);
            && (TornAt(e, other, crlf, chars, size, m + 1) <==> TornAt(e, other, crlf, chars[1..], less, m))
            && (FullAt(e, other, crlf, chars, size, m + 1) <==> FullAt(e, other, crlf, chars[1..], less, m))
  {
    hide Stores, Before, Growth;
    BeforeRest(e, other, crlf, chars, m);
  }

  lemma StopsLater(e: Encoding, other: Char -> Patch, crlf: bool, chars: seq<Char>, size: int, n: nat, torn: bool)
    requires chars != [] && !FullAt(e, other, crlf, chars, size, 0)
    requires Stops(e, other, crlf, chars[1..], size - Growth(e, other, crlf, chars[0]), n, torn)
    ensures Stops(e, other, crlf, chars, size, n + 1, torn)
  {
    hide Growth, FullAt, TornAt;
    var less := size - Growth(e, other, crlf, chars[0]);
    forall j | 0 <= j < n + 1 ensures !FullAt(e, other, crlf, chars, size, j) {
      if j > 0 {
        FullRest(e, other, crlf, chars, size, j - 1);
        assert !FullAt(e, other, crlf, chars[1..], less, j - 1);
      }
    }
    if n + 1 < |chars| {
      FullRest(e, other, crlf, chars, size, n);
    }
  }

  /** At most one place can be the first. */
  lemma StopsOnce(e: Encoding, other: Char -> Patch, crlf: bool, chars: seq<Char>, size: int,
                  n: nat, torn: bool, n': nat, torn': bool)
    requires Stops(e, other, crlf, chars, size, n, torn) && Stops(e, other, crlf, chars, size, n', torn')
    ensures n == n' && torn == torn'
  {
    hide FullAt, TornAt;
  }

  /** A call stops at the first character at which the buffer is full, inside its line end or before it, whether or not
      conversions fail. */
  lemma {:induction false} FillStops(e: Encoding, other: Char -> Patch, crlf: bool, chars: seq<Char>, size: int)
    ensures var (_, n, torn) := Fill(e, other, crlf, chars, true, size);
            Stops(e, other, crlf, chars, size, n, torn)
    decreases |chars|
  {
    hide Stores, Before, Growth, Patch.Then, Stops;
    if chars == [] {
      StopsAtOnce(e, other, crlf, chars, size);
    } else {
      BeforeNone(e, other, crlf, chars);
      if FullAt(e, other, crlf, chars, size, 0) {
        StopsAtOnce(e, other, crlf, chars, size);
      } else {
        var less := size - Growth(e, other, crlf, chars[0]);
        GrowthIs(e, other, crlf, chars[0]);
        FillStops(e, other, crlf, chars[1..], less);
        StopsLater(e, other, crlf, chars, size, Fill(e, other, crlf, chars[1..], true, less).1,
                   Fill(e, other, crlf, chars[1..], true, less).2);
      }
    }
  }

  lemma GrowthIs(e: Encoding, other: Char -> Patch, crlf: bool, ch: Char)
    ensures Growth(e, other, crlf, ch)
            == if crlf && ch == 10 then Stores(e, other, 13).Grown() + Stores(e, other, 10).Grown()
               else Stores(e, other, ch).Grown()
  {
  }

  lemma StopsAtOnce(e: Encoding, other: Char -> Patch, crlf: bool, chars: seq<Char>, size: int)
    requires chars == [] || FullAt(e, other, crlf, chars, size, 0)
    ensures Stops(e, other, crlf, chars, size, 0, chars != [] && TornAt(e, other, crlf, chars, size, 0))
  {
  }

  /** So it is torn exactly if the first place where the buffer is full is inside a line end. */
  lemma FillTears(e: Encoding, other: Char -> Patch, crlf: bool, chars: seq<Char>, size: int)
    ensures Fill(e, other, crlf, chars, true, size).2 <==> Tears(e, other, crlf, chars, size)
  {
    hide Fill, FullAt, TornAt, Stops;
    FillStops(e, other, crlf, chars, size);
    var (_, n, torn) := Fill(e, other, crlf, chars, true, size);
    if torn {
      assert Stops(e, other, crlf, chars, size, n, true);
    }
    if Tears(e, other, crlf, chars, size) {
      var m :| 0 <= m < |chars| && Stops(e, other, crlf, chars, size, m, true);
      StopsOnce(e, other, crlf, chars, size, n, torn, m, true);
    }
  }

  // ----- without failing conversions

  lemma {:induction false} BeforeAscends(e: Encoding, other: Char -> Patch, crlf: bool, chars: seq<Char>,
                                         j: nat, m: nat)
    requires j < m <= |chars| && forall i :: 0 <= i < |chars| ==> Growth(e, other, crlf, chars[i]) >= 0
    ensures Before(e, other, crlf, chars, j) + Growth(e, other, crlf, chars[j]) <= Before(e, other, crlf, chars, m)
    decreases m
  {
    hide Before, Growth;
    BeforeRest(e, other, crlf, chars, m - 1);
    BeforeNone(e, other, crlf, chars);
    if j > 0 {
      BeforeRest(e, other, crlf, chars, j - 1);
      BeforeAscends(e, other, crlf, chars[1..], j - 1, m - 1);
    } else if m > 1 {
      BeforeNone(e, other, crlf, chars[1..]);
      BeforeAscends(e, other, crlf, chars[1..], 0, m - 1);
      assert Growth(e, other, crlf, chars[1..][0]) >= 0;
    } else {
      BeforeNone(e, other, crlf, chars[1..]);
    }
  }

  /** If no character moves the write pointer back, neither a '\r', nor a '\n', any newline with room for its '\r' and
      then for no more tears the call. */
  lemma TearsPlainly(e: Encoding, other: Char -> Patch, crlf: bool, chars: seq<Char>, size: int)
    requires forall i :: 0 <= i < |chars| ==> Growth(e, other, crlf, chars[i]) >= 0
    requires Stores(e, other, 10).Grown() >= 0
    ensures Tears(e, other, crlf, chars, size)
            <==> exists m :: 0 <= m < |chars| && TornAt(e, other, crlf, chars, size, m)
  {
    hide Stores, Before;
    if m: nat :| m < |chars| && TornAt(e, other, crlf, chars, size, m) {
      forall j | 0 <= j < m ensures !FullAt(e, other, crlf, chars, size, j) {
        BeforeAscends(e, other, crlf, chars, j, m);
      }
      assert Stops(e, other, crlf, chars, size, m, true);
    }
  }

  // ----- what is stored

  /** The characters that a call writes which takes `n` of a text: one that is torn writes a '\r' more. */
  function WrittenBy(crlf: bool, chars: seq<Char>, n: nat, torn: bool): seq<Char>
    requires n <= |chars|
  {
    Written(crlf, chars[..n]) + if torn then [13] else []
  }

  lemma WrittenByRest(crlf: bool, chars: seq<Char>, n: nat, torn: bool)
    requires n < |chars|
    ensures WrittenBy(crlf, chars, n + 1, torn)
            == (if crlf && chars[0] == 10 then [13, 10] else [chars[0]]) + WrittenBy(crlf, chars[1..], n, torn)
  {
    hide Written;
    assert chars[..n + 1][1..] == chars[1..][..n];
    WrittenOne(crlf, chars[..n + 1]);
  }

  lemma WrittenByNone(crlf: bool, chars: seq<Char>, torn: bool)
    ensures WrittenBy(crlf, chars, 0, torn) == if torn then [13] else []
  {
    assert chars[..0] == [];
    WrittenOne(crlf, []);
  }

  lemma StoresFirst(e: Encoding, other: Char -> Patch, a: Char, b: Char, rest: seq<Char>)
    ensures StoresAll(e, other, []) == NOTHING && StoresAll(e, other, [a]) == Stores(e, other, a)
    ensures StoresAll(e, other, [a] + rest) == Stores(e, other, a).Then(StoresAll(e, other, rest))
    ensures StoresAll(e, other, [a, b] + rest)
            == Stores(e, other, a).Then(Stores(e, other, b)).Then(StoresAll(e, other, rest))
  {
    hide Stores, Patch.Then;
    assert ([a] + rest)[1..] == rest && [a][1..] == [];
    assert ([a, b] + rest)[1..] == [b] + rest && ([b] + rest)[1..] == rest;
    ThenNothing(Stores(e, other, a));
    ThenThen(Stores(e, other, a), Stores(e, other, b), StoresAll(e, other, rest));
  }

  /** A call stores the characters it takes, and a '\r' more if it is torn. */
  lemma {:induction false} FillStores(e: Encoding, other: Char -> Patch, crlf: bool, chars: seq<Char>,
                                      fixed: bool, room: int)
    ensures var (patch, n, torn) := Fill(e, other, crlf, chars, fixed, room);
            patch == StoresAll(e, other, WrittenBy(crlf, chars, n, torn))
    decreases |chars|
  {
    hide Stores, StoresAll, Patch.Then, WrittenBy;
    var (patch, n, torn) := Fill(e, other, crlf, chars, fixed, room);
    StoresFirst(e, other, 13, 10, []);
    if n == 0 {
      WrittenByNone(crlf, chars, torn);
    } else {
      var newline := crlf && chars[0] == 10;
      var less := room - if newline then Stores(e, other, 13).Grown() + Stores(e, other, 10).Grown()
                         else Stores(e, other, chars[0]).Grown();
      FillStores(e, other, crlf, chars[1..], fixed, less);
      WrittenByRest(crlf, chars, n - 1, torn);
      var more := WrittenBy(crlf, chars[1..], n - 1, torn);
      StoresFirst(e, other, if newline then 13 else chars[0], 10, more);
    }
  }

  lemma FillInside(e: Encoding, other: Char -> Patch, crlf: bool, chars: seq<Char>, size: int, n: nat, torn: bool)
    requires Converts(other) && Stops(e, other, crlf, chars, size, n, torn)
    ensures var fill := Fill(e, other, crlf, chars, true, size);
            && fill.1 == n && fill.2 == torn
            && (fill.0.back == 0 <==> NeverBefore(e, other, WrittenBy(crlf, chars, n, torn), 0))
  {
    hide Stops, Fill, StoresAll, NeverBefore, WrittenBy, Patch.Then, Converts;
    FillStops(e, other, crlf, chars, size);
    StopsOnce(e, other, crlf, chars, size, n, torn, Fill(e, other, crlf, chars, true, size).1,
              Fill(e, other, crlf, chars, true, size).2);
    FillStores(e, other, crlf, chars, true, size);
    StoresAhead(e, other, WrittenBy(crlf, chars, n, torn), []);
    ThenNothing(StoresAll(e, other, WrittenBy(crlf, chars, n, torn)));
  }

  /** A call into a caller's buffer stays inside it exactly if, over the characters up to where it stops, no beginning
      of what is written has more characters that cannot be converted than bytes. */
  lemma StaysInsideFixed(e: Encoding, other: Char -> Patch, crlf: bool, chars: seq<Char>, size: nat, n: nat, torn: bool)
    requires Converts(other) && Stops(e, other, crlf, chars, size, n, torn)
    ensures Run(e, other, crlf, EncodeAll(chars), State(0, false), |EncodeAll(chars)|, true, size).0.back == 0
            <==> NeverBefore(e, other, WrittenBy(crlf, chars, n, torn), 0)
  {
    hide Run, Stops, Fill, EncodeAll, NeverBefore, WrittenBy, Converts;
    var text := EncodeAll(chars);
    assert text[0..0 + |text|] == text;
    RunFills(e, other, crlf, text, 0, |text|, chars, true, size);
    FillInside(e, other, crlf, chars, size, n, torn);
  }

  /** An accented letter in ASCII again: into 9 bytes of the caller's it takes the write pointer before the buffer,
      into 8 it is not reached. */
  lemma AccentIntoNineBytes()
    ensures var e, text := Coded(None, true, false), EncodeAll([0xE9]);
            && Run(e, AsciiOnly, false, text, State(0, false), |text|, true, 9).0 == Patch(1, [])
            && Run(e, AsciiOnly, false, text, State(0, false), |text|, true, 8).0 == NOTHING
  {
    var e, chars := Coded(None, true, false), [0xE9];
    AsciiStores(0xE9);
    hide Run, Stores, EncodeAll, Encode;
    var text := EncodeAll(chars);
    assert text[0..0 + |text|] == text;
    RunFills(e, AsciiOnly, false, text, 0, |text|, chars, true, 9);
    RunFills(e, AsciiOnly, false, text, 0, |text|, chars, true, 8);
    FillOne(e, AsciiOnly, 0xE9, 9);
    FillOne(e, AsciiOnly, 0xE9, 8);
  }

  lemma FillOne(e: Encoding, other: Char -> Patch, ch: Char, room: int)
    ensures Fill(e, other, false, [ch], true, room).0 == if room <= 8 then NOTHING else Stores(e, other, ch)
  {
    hide Stores, Patch.Then;
    assert [ch][1..] == [];
    ThenNothing(Stores(e, other, ch));
  }
}
