/** What moving a write pointer and storing at it does to the bytes before the pointer. */
module Patches {
  import opened Bytes

  /** The pointer moves `back`, and then over the `bytes` that are stored. */
  datatype Patch = Patch(back: nat, bytes: seq<Byte>) {
    /** How far the pointer moves on. */
    function Grown(): int {
      |bytes| - back
    }

    /** This and then `next`, which may take back bytes of this one, and more. */
    function Then(next: Patch): Patch {
      if next.back <= |bytes| then Patch(back, bytes[..|bytes| - next.back] + next.bytes)
      else Patch(back + (next.back - |bytes|), next.bytes)
    }
  }

  const NOTHING := Patch(0, [])

  function Plain(bytes: seq<Byte>): Patch {
    Patch(0, bytes)
  }

  lemma ThenThen(a: Patch, b: Patch, c: Patch)
    ensures a.Then(b).Then(c) == a.Then(b.Then(c))
  {
    if b.back <= |a.bytes| && c.back <= |b.bytes| {
      var kept := a.bytes[..|a.bytes| - b.back];
      assert (kept + b.bytes)[..|kept + b.bytes| - c.back] + c.bytes
             == kept + (b.bytes[..|b.bytes| - c.back] + c.bytes);
    } else if b.back <= |a.bytes| {
      var kept := a.bytes[..|a.bytes| - b.back];
      assert c.back <= |kept + b.bytes| ==>
          (kept + b.bytes)[..|kept + b.bytes| - c.back] == a.bytes[..|a.bytes| - b.Then(c).back];
    }
  }

  lemma ThenNothing(a: Patch)
    ensures a.Then(NOTHING) == a && NOTHING.Then(a) == a
  {
    assert a.bytes[..|a.bytes|] + [] == a.bytes && [] + a.bytes == a.bytes;
  }

  lemma ThenGrows(a: Patch, b: Patch)
    ensures a.Then(b).Grown() == a.Grown() + b.Grown() && a.Then(b).back >= a.back
  {
  }

  lemma ThenPlain(a: seq<Byte>, b: seq<Byte>)
    ensures Plain(a).Then(Plain(b)) == Plain(a + b)
  {
    assert a[..|a|] == a;
  }
}
