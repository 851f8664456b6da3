/** Which texts u8_localize stores inside its buffer: the conversion of a character may fail, and then the write pointer
    goes back. */
module BufferLaws {
  import opened Bytes
  import opened Wrappers
  import opened Patches
  import opened Utf8
  import opened Convert
  import opened Localize
  import opened TextLaws

  /** How far the write pointer is after the characters: it moves on over the bytes of those that can be converted, and
      back at the others. */
  function Balance(e: Encoding, other: Char -> Patch, chars: seq<Char>): int {
    if chars == [] then 0 else Stores(e, other, chars[0]).Grown() + Balance(e, other, chars[1..])
  }

  /** The write pointer never gets before a buffer in which `done` bytes have been written. */
  ghost predicate NeverBefore(e: Encoding, other: Char -> Patch, chars: seq<Char>, done: nat) {
    forall k :: 0 <= k <= |chars| ==> done + Balance(e, other, chars[..k]) >= 0
  }

  lemma NeverBeforeRest(e: Encoding, other: Char -> Patch, chars: seq<Char>, done: nat)
    requires chars != []
    ensures var next := done + Stores(e, other, chars[0]).Grown();
            NeverBefore(e, other, chars, done) <==> next >= 0 && NeverBefore(e, other, chars[1..], next)
  {
    hide Stores;
    var next, rest := done + Stores(e, other, chars[0]).Grown(), chars[1..];
    BalanceRest(e, other, chars, 0);
    assert rest[..0] == [];
    if NeverBefore(e, other, chars, done) {
      assert done + Balance(e, other, chars[..1]) >= 0;
      forall k | 0 <= k <= |rest| ensures next + Balance(e, other, rest[..k]) >= 0 {
        BalanceRest(e, other, chars, k);
        var k' := k + 1;
        assert done + Balance(e, other, chars[..k']) >= 0;
      }
    }
    if next >= 0 && NeverBefore(e, other, rest, next) {
      forall k | 0 <= k <= |chars| ensures done + Balance(e, other, chars[..k]) >= 0 {
        if k > 0 {
          BalanceRest(e, other, chars, k - 1);
          assert next + Balance(e, other, rest[..k - 1]) >= 0;
        } else {
          assert chars[..0] == [];
        }
      }
    }
  }

  lemma BalanceRest(e: Encoding, other: Char -> Patch, chars: seq<Char>, k: nat)
    requires k < |chars|
    ensures Balance(e, other, chars[..k + 1]) == Stores(e, other, chars[0]).Grown() + Balance(e, other, chars[1..][..k])
  {
    hide Stores;
    assert chars[..k + 1][1..] == chars[1..][..k];
  }

  lemma {:induction false} StoresAhead(e: Encoding, other: Char -> Patch, chars: seq<Char>, done: seq<Byte>)
    requires Converts(other)
    ensures Plain(done).Then(StoresAll(e, other, chars)).back == 0 <==> NeverBefore(e, other, chars, |done|)
    decreases |chars|
  {
    hide Stores, Patch.Then, NeverBefore;
    if chars == [] {
      ThenNothing(Plain(done));
      assert NeverBefore(e, other, [], |done|) by { NothingIsNeverBefore(e, other, |done|); }
    } else {
      var a, rest := Stores(e, other, chars[0]), StoresAll(e, other, chars[1..]);
      NeverBeforeRest(e, other, chars, |done|);
      ThenThen(Plain(done), a, rest);
      OneOrTheOther(e, other, chars[0]);
      BackOrOn(done, a);
      if |done| + a.Grown() >= 0 {
        StoresAhead(e, other, chars[1..], Plain(done).Then(a).bytes);
      } else {
        ThenGrows(Plain(done).Then(a), rest);
      }
    }
  }

  lemma NothingIsNeverBefore(e: Encoding, other: Char -> Patch, done: nat)
    ensures NeverBefore(e, other, [], done)
  {
  }

  lemma OneOrTheOther(e: Encoding, other: Char -> Patch, ch: Char)
    requires Converts(other)
    ensures Stores(e, other, ch).back == 0 || Stores(e, other, ch).bytes == []
  {
  }

  lemma BackOrOn(done: seq<Byte>, a: Patch)
    requires a.back == 0 || a.bytes == []
    ensures var r := Plain(done).Then(a);
            if |done| + a.Grown() >= 0 then r == Plain(r.bytes) && |r.bytes| == |done| + a.Grown() else r.back > 0
  {
  }

  /** The call that allocates its buffer stays inside it exactly if no beginning of what is written has more characters
      that cannot be converted than bytes. */
  lemma StaysInside(e: Encoding, other: Char -> Patch, crlf: bool, chars: seq<Char>)
    requires Converts(other)
    ensures Localized(e, other, crlf, chars).back == 0 <==> NeverBefore(e, other, Written(crlf, chars), 0)
  {
    hide Run, StoresAll, EncodeAll, Written, RepresentsAll, Patch.Then, NeverBefore;
    RunOverText(e, other, crlf, chars);
    StoresAhead(e, other, Written(crlf, chars), []);
    ThenNothing(StoresAll(e, other, Written(crlf, chars)));
  }

  /** What wctomb does in the C locale: a character beyond ASCII fails with -1. */
  function AsciiOnly(ch: Char): Patch {
    if ch < 0x80 then Plain([ch]) else Patch(1, [])
  }

  /** An e with an acute accent first of all, in ASCII and without an escape, and the NUL goes before the buffer; after
      another character it takes that one's place. */
  lemma AccentGoesBefore()
    ensures Converts(AsciiOnly)
    ensures Localized(Coded(None, true, false), AsciiOnly, false, [0xE9]).back == 1
    ensures Localized(Coded(None, true, false), AsciiOnly, false, [65, 0xE9]) == NOTHING
  {
    var e := Coded(None, true, false);
    AsciiStores(0xE9);
    AsciiStores(65);
    hide Localized, Stores, Patch.Then;
    StoresTwo(e, AsciiOnly, 65, 0xE9);
    OneByteLess(65);
  }

  lemma OneByteLess(b: Byte)
    ensures Plain([b]).Then(Patch(1, [])) == NOTHING
  {
  }

  lemma StoresTwo(e: Encoding, other: Char -> Patch, a: Char, b: Char)
    ensures Localized(e, other, false, [b]) == Stores(e, other, b)
    ensures Localized(e, other, false, [a, b]) == Stores(e, other, a).Then(Stores(e, other, b))
  {
    hide Localized, Stores, Patch.Then;
    LocalizedStores(e, other, [b]);
    LocalizedStores(e, other, [a, b]);
    assert [a, b][1..] == [b] && [b][1..] == [];
    ThenNothing(Stores(e, other, b));
  }

  lemma AsciiStores(ch: Char)
    ensures Stores(Coded(None, true, false), AsciiOnly, ch) == AsciiOnly(ch)
  {
    hide Encode;
  }

  lemma LocalizedStores(e: Encoding, other: Char -> Patch, chars: seq<Char>)
    ensures Localized(e, other, false, chars) == StoresAll(e, other, chars)
  {
    hide Run, EncodeAll, StoresAll, RepresentsAll;
    RunOverText(e, other, false, chars);
  }
}
