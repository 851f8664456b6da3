/** Entity lookup (ctype.c): a table of names in strcmp order, searched by name with a binary search and by code
    with a linear one. */
module Entities {
  import opened Bytes
  import opened Wrappers

  datatype Entity = Entity(name: seq<Byte>, code: int)

  /** strcmp on strings without their NUL. */
  function StrCmp(a: seq<Byte>, b: seq<Byte>): int {
    if a == [] then (if b == [] then 0 else -1)
    else if b == [] then 1
    else if a[0] == b[0] then StrCmp(a[1..], b[1..])
    else if a[0] < b[0] then -1 else 1
  }

  ghost predicate Sorted(table: seq<Entity>) {
    forall i, j :: 0 <= i < j < |table| ==> StrCmp(table[i].name, table[j].name) < 0
  }

  /** The code a name has, -1 when it has none. */
  function CodeOf(table: seq<Entity>, name: seq<Byte>): int {
    if table == [] then -1
    else if table[0].name == name then table[0].code
    else CodeOf(table[1..], name)
  }

  /** The first name that has the code. */
  function NameOf(table: seq<Entity>, code: int): Option<seq<Byte>> {
    if table == [] then None
    else if table[0].code == code then Some(table[0].name)
    else NameOf(table[1..], code)
  }

  // ----- strcmp is a strict order

  lemma StrCmpZero(a: seq<Byte>, b: seq<Byte>)
    ensures StrCmp(a, b) == 0 <==> a == b
  {
    if a != [] && b != [] {
      StrCmpZero(a[1..], b[1..]);
      if a[1..] == b[1..] && a[0] == b[0] {
        assert a == [a[0]] + a[1..] && b == [b[0]] + b[1..];
      }
    }
  }

  lemma StrCmpFlips(a: seq<Byte>, b: seq<Byte>)
    ensures StrCmp(a, b) == -StrCmp(b, a)
  {
  }

  /** `a` comes before `b` in a dictionary of unsigned bytes: they agree up to some place, where `a` ends or has the
      lower byte. */
  ghost predicate Precedes(a: seq<Byte>, b: seq<Byte>) {
    exists k :: PrecedesAt(a, b, k)
  }

  ghost predicate PrecedesAt(a: seq<Byte>, b: seq<Byte>, k: int) {
    0 <= k <= |a| && k < |b| && a[..k] == b[..k] && (k < |a| ==> a[k] < b[k])
  }

  /** strcmp is dictionary order. */
  lemma {:induction false} StrCmpIsOrder(a: seq<Byte>, b: seq<Byte>)
    ensures StrCmp(a, b) < 0 <==> Precedes(a, b)
    ensures StrCmp(a, b) > 0 <==> Precedes(b, a)
  {
    if a == [] || b == [] || a[0] != b[0] {
      OrderAtOnce(a, b);
      OrderAtOnce(b, a);
    } else {
      StrCmpIsOrder(a[1..], b[1..]);
      OrderLater(a, b);
      OrderLater(b, a);
    }
  }

  lemma FirstAgrees(a: seq<Byte>, b: seq<Byte>, k: int)
    requires PrecedesAt(a, b, k)
    ensures k > 0 ==> a[0] == b[0]
  {
    if k > 0 {
      assert a[..k][0] == b[..k][0];
    }
  }

  lemma OrderAtOnce(a: seq<Byte>, b: seq<Byte>)
    requires a == [] || b == [] || a[0] != b[0]
    ensures Precedes(a, b) <==> b != [] && (a == [] || a[0] < b[0])
  {
    if Precedes(a, b) {
      var k :| PrecedesAt(a, b, k);
      FirstAgrees(a, b, k);
    }
    if b != [] && (a == [] || a[0] < b[0]) {
      assert PrecedesAt(a, b, 0);
    }
  }

  lemma OrderLater(a: seq<Byte>, b: seq<Byte>)
    requires a != [] && b != [] && a[0] == b[0]
    ensures Precedes(a, b) <==> Precedes(a[1..], b[1..])
  {
    if Precedes(a, b) {
      var k :| PrecedesAt(a, b, k);
      assert k > 0;
      assert a[1..][..k - 1] == a[..k][1..] && b[1..][..k - 1] == b[..k][1..];
      assert PrecedesAt(a[1..], b[1..], k - 1);
    }
    if Precedes(a[1..], b[1..]) {
      var k :| PrecedesAt(a[1..], b[1..], k);
      assert a[..k + 1] == [a[0]] + a[1..][..k] && b[..k + 1] == [b[0]] + b[1..][..k];
      assert PrecedesAt(a, b, k + 1);
    }
  }

  // ----- facts about tables

  lemma {:induction false} CodeAt(table: seq<Entity>, i: nat)
    requires i < |table| && Sorted(table)
    ensures CodeOf(table, table[i].name) == table[i].code
  {
    StrCmpZero(table[0].name, table[i].name);
    if i > 0 {
      assert StrCmp(table[0].name, table[i].name) < 0;
      CodeAt(table[1..], i - 1);
    }
  }

  lemma {:induction false} CodeAbsent(table: seq<Entity>, name: seq<Byte>)
    requires forall i :: 0 <= i < |table| ==> table[i].name != name
    ensures CodeOf(table, name) == -1
  {
    if table != [] {
      CodeAbsent(table[1..], name);
    }
  }

  /** Everything on the searched side of a probe compares the same way. */
  lemma OneSide(table: seq<Entity>, name: seq<Byte>, m: nat)
    requires Sorted(table) && m < |table|
    ensures StrCmp(name, table[m].name) < 0 ==> forall j :: m <= j < |table| ==> table[j].name != name
    ensures StrCmp(name, table[m].name) > 0 ==> forall j :: 0 <= j <= m ==> table[j].name != name
  {
    StrCmpFlips(name, table[m].name);
    forall j | 0 <= j < |table| && StrCmp(name, table[m].name) != 0 && table[j].name == name
      ensures if StrCmp(name, table[m].name) < 0 then j < m else m < j
    {
      StrCmpZero(name, table[m].name);
      if j < m {
        assert StrCmp(table[j].name, table[m].name) < 0;
      } else {
        assert StrCmp(table[m].name, table[j].name) < 0;
      }
    }
  }

  /** In a sorted table looking up by name undoes looking up by code, and a code is found exactly when it is there. */
  lemma {:induction false} LookupsInverse(table: seq<Entity>, code: int)
    requires Sorted(table)
    ensures NameOf(table, code).Some? ==> CodeOf(table, NameOf(table, code).value) == code
    ensures NameOf(table, code).Some? <==> exists i :: 0 <= i < |table| && table[i].code == code
  {
    if table != [] {
      var rest := table[1..];
      LookupsInverse(rest, code);
      if table[0].code == code {
        CodeAt(table, 0);
      } else {
        assert forall i :: 0 < i < |table| ==> table[i] == rest[i - 1];
        if NameOf(table, code).Some? {
          var i := NameIndex(rest, code);
          StrCmpZero(table[0].name, rest[i].name);
          assert StrCmp(table[0].name, table[i + 1].name) < 0;
        }
      }
    }
  }

  lemma {:induction false} NameIndex(table: seq<Entity>, code: int) returns (i: nat)
    requires NameOf(table, code).Some?
    ensures i < |table| && table[i].code == code && NameOf(table, code) == Some(table[i].name)
    ensures forall j :: 0 <= j < i ==> table[j].code != code
  {
    if table[0].code == code {
      i := 0;
    } else {
      i := NameIndex(table[1..], code);
      i := i + 1;
    }
  }

  // ----- the procedures

  /** C's division rounds toward zero. */
  function Half(x: int): int {
    if x < 0 then -(-x / 2) else x / 2
  }

  /** u8_entity2code: `top` starts one past the table, so the middle is checked before it is used. */
  method Entity2Code(table: seq<Entity>, entity: seq<Byte>) returns (code: int)
    ensures Sorted(table) ==> code == CodeOf(table, entity)
  {
    var top, bot, middle, cmp: int := |table|, 0, |table| / 2, 1;
    while top >= bot && middle < |table| && middle >= 0 && cmp != 0
      invariant 0 <= bot <= |table| && -1 <= top <= |table|
      invariant cmp != 0 ==> middle == Half(bot + top)
      invariant cmp == 0 ==> 0 <= middle < |table| && table[middle].name == entity
      invariant Sorted(table) ==> forall j :: 0 <= j < |table| && table[j].name == entity ==> bot <= j <= top
      decreases if cmp == 0 then 0 else 1, top - bot
    {
      cmp := StrCmp(entity, table[middle].name);
      if Sorted(table) {
        OneSide(table, entity, middle);
      }
      StrCmpZero(entity, table[middle].name);
      if cmp < 0 {
        top := middle - 1;
        middle := Half(bot + top);
      } else if cmp > 0 {
        bot := middle + 1;
        middle := Half(bot + top);
      } else {
        break;
      }
    }
    if cmp == 0 {
      code := table[middle].code;
      if Sorted(table) {
        CodeAt(table, middle);
      }
    } else {
      code := -1;
      if Sorted(table) {
        CodeAbsent(table, entity);
      }
    }
  }

  /** u8_code2entity. */
  method Code2Entity(table: seq<Entity>, code: int) returns (name: Option<seq<Byte>>)
    ensures name == NameOf(table, code)
  {
    var i := 0;
    while i < |table|
      invariant 0 <= i <= |table|
      invariant NameOf(table, code) == NameOf(table[i..], code)
    {
      if table[i].code == code {
        return Some(table[i].name);
      }
      i := i + 1;
    }
    return None;
  }

  datatype Decomposition = Decomposition(code: nat, decomp: seq<Byte>)

  /** lookup_char: the plain binary search over the decompositions; their codes ascend. */
  method LookupChar(decompositions: seq<Decomposition>, ch: nat) returns (found: Option<Decomposition>)
    requires forall i, j :: 0 <= i < j < |decompositions| ==> decompositions[i].code < decompositions[j].code
    ensures found.Some? ==> found.value in decompositions && found.value.code == ch
    ensures found.None? ==> forall d :: d in decompositions ==> d.code != ch
  {
    var bot, top := 0, |decompositions| - 1;
    while top >= bot
      invariant 0 <= bot <= top + 1 <= |decompositions|
      invariant forall j :: 0 <= j < |decompositions| && decompositions[j].code == ch ==> bot <= j <= top
    {
      var mid := bot + (top - bot) / 2;
      if decompositions[mid].code == ch {
        return Some(decompositions[mid]);
      } else if ch < decompositions[mid].code {
        top := mid - 1;
      } else {
        bot := mid + 1;
      }
    }
    return None;
  }
}
