/** The registry of encodings as a value: what defining encodings and adding aliases does to it, over any run. */
module RegistryModel {
  import opened Bytes
  import opened Charset
  import opened EncodingNames

  type Name = seq<Byte>

  /** What tells encodings apart: the charset by its address, the two conversion functions by theirs (0 for none). */
  datatype Key = Key(charset: array?<Entry>, flags: int, uc2mb: nat, mb2uc: nat)

  /** An encoding: its names, the oldest first, and its key. */
  datatype Known = Known(names: seq<Name>, key: Key)

  predicate HasName(names: seq<Name>, name: Name) {
    exists i :: 0 <= i < |names| && Same(names[i], name)
  }

  /** The first entry with the key, or the length. */
  function FindKey(es: seq<Known>, key: Key): (i: nat)
    ensures i <= |es|
    ensures forall j :: 0 <= j < i ==> es[j].key != key
    ensures i < |es| ==> es[i].key == key
  {
    if es == [] || es[0].key == key then 0 else 1 + FindKey(es[1..], key)
  }

  /** The first entry with a name that compares equal, or the length. */
  function Lookup(es: seq<Known>, name: Name): (i: nat)
    ensures i <= |es|
    ensures forall j :: 0 <= j < i ==> !HasName(es[j].names, name)
    ensures i < |es| ==> HasName(es[i].names, name)
  {
    if es == [] || HasName(es[0].names, name) then 0 else 1 + Lookup(es[1..], name)
  }

  lemma FindKeyIs(es: seq<Known>, key: Key, i: nat)
    requires i <= |es| && (forall j :: 0 <= j < i ==> es[j].key != key) && (i < |es| ==> es[i].key == key)
    ensures FindKey(es, key) == i
  {
  }

  lemma LookupIs(es: seq<Known>, name: Name, i: nat)
    requires i <= |es| && (forall j :: 0 <= j < i ==> !HasName(es[j].names, name))
    requires i < |es| ==> HasName(es[i].names, name)
    ensures Lookup(es, name) == i
  {
    hide HasName;
  }

  function WithAlias(names: seq<Name>, name: Name): seq<Name> {
    if HasName(names, name) then names else names + [name]
  }

  /** One call. An empty charset is not kept: the entry has none. */
  datatype Call = Define(name: Name, key: Key, empty: bool) | Alias(index: nat, alias: Name)

  /** The key that a new entry gets. */
  function Kept(c: Call): Key
    requires c.Define?
  {
    if c.empty then c.key.(charset := null) else c.key
  }

  /** The registry after a call; new entries come first. */
  function After(es: seq<Known>, c: Call): seq<Known> {
    match c
    case Alias(i, name) =>
      if i < |es| then es[i := es[i].(names := WithAlias(es[i].names, name))] else es
    case Define(name, key, _) =>
      var i := FindKey(es, key);
      if i < |es| then es[i := es[i].(names := WithAlias(es[i].names, name))]
      else if Lookup(es, name) < |es| then es
      else [Known([name], Kept(c))] + es
  }

  lemma AfterAlias(es: seq<Known>, i: nat, name: Name)
    requires i < |es|
    ensures After(es, Alias(i, name)) == es[i := es[i].(names := WithAlias(es[i].names, name))]
  {
  }

  /** The three ways that a definition goes. */
  lemma AfterDefine(es: seq<Known>, c: Call)
    requires c.Define?
    ensures var i, k := FindKey(es, c.key), Lookup(es, c.name);
            if i < |es| then After(es, c) == After(es, Alias(i, c.name)) && Returned(es, c) == i
            else if k < |es| then After(es, c) == es && Returned(es, c) == k
            else After(es, c) == [Known([c.name], Kept(c))] + es && Returned(es, c) == 0
  {
    hide WithAlias;
  }

  /** The entry that a definition returns, in the registry after it. */
  function Returned(es: seq<Known>, c: Call): (i: nat)
    requires c.Define?
    ensures i < |After(es, c)|
  {
    if FindKey(es, c.key) < |es| then FindKey(es, c.key)
    else if Lookup(es, c.name) < |es| then Lookup(es, c.name)
    else 0
  }

  function Run(es: seq<Known>, calls: seq<Call>): seq<Known>
    decreases |calls|
  {
    if calls == [] then es else Run(After(es, calls[0]), calls[1..])
  }

  // ----- invariants

  ghost predicate UniqueKeys(es: seq<Known>) {
    forall i, j :: 0 <= i < j < |es| ==> es[i].key != es[j].key
  }

  /** No entry has two names of which the older compares equal to the newer. */
  ghost predicate DistinctNames(es: seq<Known>) {
    forall e :: e in es ==> forall i, j :: 0 <= i < j < |e.names| ==> !Same(e.names[i], e.names[j])
  }

  ghost predicate AllWellEnded(es: seq<Known>) {
    forall e :: e in es ==> forall i :: 0 <= i < |e.names| ==> WellEnded(e.names[i])
  }

  predicate Resolves(es: seq<Known>, name: Name) {
    Lookup(es, name) < |es|
  }

  lemma {:induction false} SameAsItself(name: Name)
    ensures Same(name, name)
  {
    if name != [] {
      SameAsItself(name[1..]);
    }
  }

  lemma AliasKeepsNames(names: seq<Name>, name: Name)
    ensures names <= WithAlias(names, name) && HasName(WithAlias(names, name), name)
    ensures forall n :: HasName(names, n) ==> HasName(WithAlias(names, name), n)
  {
    var more := WithAlias(names, name);
    SameAsItself(name);
    assert !HasName(names, name) ==> more[|names|] == name;
    forall n | HasName(names, n) ensures HasName(more, n) {
      var i :| 0 <= i < |names| && Same(names[i], n);
      assert more[i] == names[i];
    }
  }

  /** A definition keeps the keys unique exactly when it finds an entry, or the key it keeps is new. */
  lemma DefineKeepsKeysUnique(es: seq<Known>, c: Call)
    requires UniqueKeys(es) && c.Define?
    ensures UniqueKeys(After(es, c))
            <==> FindKey(es, c.key) < |es| || Resolves(es, c.name) || FindKey(es, Kept(c)) == |es|
  {
    var next := After(es, c);
    if FindKey(es, c.key) == |es| && !Resolves(es, c.name) {
      var k := FindKey(es, Kept(c));
      assert forall i :: 0 < i < |next| ==> next[i] == es[i - 1];
      if k < |es| {
        assert next[0].key == next[k + 1].key;
      }
    }
  }

  /** Two definitions with the same empty charset and names that differ: the second does not find the first, which has
      kept no charset, and two entries have one key. */
  lemma EmptyCharsetTwice(charset: array<Entry>, a: Name, b: Name)
    requires !Same(a, b)
    ensures var key := Key(charset, 0, 0, 0);
            var es := Run([], [Define(a, key, true), Define(b, key, true)]);
            |es| == 2 && es[0].key == es[1].key && !UniqueKeys(es)
  {
    var key := Key(charset, 0, 0, 0);
    var first, second := Define(a, key, true), Define(b, key, true);
    var one := [Known([a], Kept(first))];
    assert After([], first) == one;
    assert [first, second][1..] == [second] && [second][1..] == [];
    hide Same;
    assert !HasName([a], b);
    assert FindKey(one, key) == 1 && Lookup(one, b) == 1;
    assert After(one, second) == [Known([b], Kept(second))] + one;
    assert Run([], [first, second]) == Run(one, [second]) == Run(After(one, second), []);
  }

  lemma AliasKeepsKeysUnique(es: seq<Known>, c: Call)
    requires UniqueKeys(es) && c.Alias?
    ensures UniqueKeys(After(es, c))
  {
  }

  /** A call whose charset is NULL when it is empty. */
  predicate Regular(c: Call) {
    c.Define? ==> (c.empty ==> c.key.charset == null)
  }

  lemma CallKeepsKeysUnique(es: seq<Known>, c: Call)
    requires UniqueKeys(es) && Regular(c)
    ensures UniqueKeys(After(es, c))
  {
    if c.Define? {
      DefineKeepsKeysUnique(es, c);
    } else {
      AliasKeepsKeysUnique(es, c);
    }
  }

  lemma FoundResolves(es: seq<Known>, i: nat, name: Name)
    requires i < |es| && HasName(es[i].names, name)
    ensures Resolves(es, name)
  {
  }

  /** Whatever resolved still resolves, and what was defined resolves. */
  lemma CallKeepsResolving(es: seq<Known>, c: Call, name: Name)
    requires Resolves(es, name) || (c.Define? && c.name == name)
    ensures Resolves(After(es, c), name)
  {
    hide Same, HasName, WithAlias, Resolves;
    var next := After(es, c);
    if c.Define? && c.name == name {
      var i := Returned(es, c);
      SameAsItself(name);
      if FindKey(es, c.key) < |es| {
        AliasKeepsNames(es[i].names, name);
      } else if Lookup(es, name) == |es| {
        OneName(name);
      }
      FoundResolves(next, i, name);
    } else {
      ResolvesAt(es, name);
      var k := Lookup(es, name);
      if c.Define? && FindKey(es, c.key) == |es| && Lookup(es, c.name) == |es| {
        assert next[k + 1] == es[k];
        FoundResolves(next, k + 1, name);
      } else {
        var added := if c.Define? then c.name else c.alias;
        AliasKeepsNames(es[k].names, added);
        FoundResolves(next, k, name);
      }
    }
  }

  lemma ResolvesAt(es: seq<Known>, name: Name)
    requires Resolves(es, name)
    ensures Lookup(es, name) < |es|
  {
  }

  lemma OneName(name: Name)
    ensures HasName([name], name)
  {
    SameAsItself(name);
    assert [name][0] == name;
  }

  lemma CallKeepsNamesDistinct(es: seq<Known>, c: Call)
    requires DistinctNames(es)
    ensures DistinctNames(After(es, c))
  {
    hide Same;
  }

  function NameOf(c: Call): Name {
    if c.Define? then c.name else c.alias
  }

  lemma CallKeepsWellEnded(es: seq<Known>, c: Call)
    requires AllWellEnded(es) && WellEnded(NameOf(c))
    ensures AllWellEnded(After(es, c))
  {
    hide WellEnded, Same;
  }

  // ----- what is known stays

  /** The old entries are the last of the new ones, in their order and with their keys; each has its old names, the
      oldest first, and perhaps more. */
  ghost predicate Keeps(es: seq<Known>, next: seq<Known>) {
    |es| <= |next| && forall i {:trigger es[i]} :: 0 <= i < |es| ==>
                        next[|next| - |es| + i].key == es[i].key && es[i].names <= next[|next| - |es| + i].names
  }

  lemma KeepsAll(es: seq<Known>, next: seq<Known>, last: seq<Known>)
    ensures Keeps(es, es)
    ensures Keeps(es, next) && Keeps(next, last) ==> Keeps(es, last)
  {
    if Keeps(es, next) && Keeps(next, last) {
      forall i | 0 <= i < |es|
        ensures last[|last| - |es| + i].key == es[i].key && es[i].names <= last[|last| - |es| + i].names
      {
        var k := |next| - |es| + i;
        assert next[k].key == es[i].key && last[|last| - |next| + k].key == next[k].key;
      }
    }
  }

  /** A call adds an entry, or one name to one entry, or nothing. */
  lemma CallAddsOne(es: seq<Known>, c: Call)
    ensures var next := After(es, c);
            || next == es
            || (exists k :: next == [k] + es)
            || exists i :: 0 <= i < |es| && next == es[i := es[i].(names := es[i].names + [NameOf(c)])]
  {
    hide HasName;
    var next := After(es, c);
    if next != es && |next| == |es| {
      var i := if c.Define? then FindKey(es, c.key) else c.index;
      assert next == es[i := es[i].(names := es[i].names + [NameOf(c)])];
    }
  }

  lemma CallKeepsEntries(es: seq<Known>, c: Call)
    ensures Keeps(es, After(es, c))
  {
    hide After, NameOf;
    CallAddsOne(es, c);
    var next := After(es, c);
    if k :| next == [k] + es {
      assert forall i {:trigger es[i]} :: 0 <= i < |es| ==> next[1 + i] == es[i];
    }
  }

  lemma {:induction false} RunKeepsEntries(es: seq<Known>, calls: seq<Call>)
    ensures Keeps(es, Run(es, calls))
    decreases |calls|
  {
    hide Keeps, After;
    if calls == [] {
      KeepsAll(es, es, es);
    } else {
      CallKeepsEntries(es, calls[0]);
      RunKeepsEntries(After(es, calls[0]), calls[1..]);
      KeepsAll(es, After(es, calls[0]), Run(es, calls));
    }
  }

  // ----- runs

  lemma {:induction false} RunKeepsKeysUnique(es: seq<Known>, calls: seq<Call>)
    requires UniqueKeys(es) && forall i :: 0 <= i < |calls| ==> Regular(calls[i])
    ensures UniqueKeys(Run(es, calls))
    decreases |calls|
  {
    hide UniqueKeys, After;
    if calls != [] {
      CallKeepsKeysUnique(es, calls[0]);
      RunKeepsKeysUnique(After(es, calls[0]), calls[1..]);
    }
  }

  lemma {:induction false} RunKeepsResolving(es: seq<Known>, calls: seq<Call>, name: Name)
    requires Resolves(es, name)
    ensures Resolves(Run(es, calls), name)
    decreases |calls|
  {
    hide Resolves, After;
    if calls != [] {
      CallKeepsResolving(es, calls[0], name);
      RunKeepsResolving(After(es, calls[0]), calls[1..], name);
    }
  }

  /** A name resolves from its definition on, to the end of the run. */
  lemma {:induction false} DefinedResolves(es: seq<Known>, calls: seq<Call>, i: nat)
    requires i < |calls| && calls[i].Define?
    ensures Resolves(Run(es, calls), calls[i].name)
    decreases |calls|
  {
    hide Resolves, After;
    var next := After(es, calls[0]);
    if i == 0 {
      CallKeepsResolving(es, calls[0], calls[0].name);
      RunKeepsResolving(next, calls[1..], calls[0].name);
    } else {
      DefinedResolves(next, calls[1..], i - 1);
    }
  }

  lemma {:induction false} RunKeepsNames(es: seq<Known>, calls: seq<Call>)
    requires DistinctNames(es) && AllWellEnded(es)
    requires forall i :: 0 <= i < |calls| ==> WellEnded(NameOf(calls[i]))
    ensures DistinctNames(Run(es, calls)) && AllWellEnded(Run(es, calls))
    decreases |calls|
  {
    hide DistinctNames, AllWellEnded, After, WellEnded, NameOf;
    if calls != [] {
      CallKeepsNamesDistinct(es, calls[0]);
      CallKeepsWellEnded(es, calls[0]);
      RunKeepsNames(After(es, calls[0]), calls[1..]);
    }
  }

  /** Over any run from the empty registry, with charsets NULL when they are empty and names that end well: no two
      entries have one key, no entry has two names that compare equal either way, and every name that was ever defined
      resolves. */
  lemma RunFromNothing(calls: seq<Call>)
    requires forall i :: 0 <= i < |calls| ==> Regular(calls[i]) && WellEnded(NameOf(calls[i]))
    ensures var es := Run([], calls);
            && UniqueKeys(es)
            && (forall e :: e in es ==> forall i, j :: 0 <= i < |e.names| && 0 <= j < |e.names| && i != j
                                                       ==> !Same(e.names[i], e.names[j]))
            && (forall i :: 0 <= i < |calls| && calls[i].Define? ==> Resolves(es, calls[i].name))
  {
    hide Run, Resolves, WellEnded, Regular, NameOf, Same;
    var es := Run([], calls);
    RunKeepsKeysUnique([], calls);
    RunKeepsNames([], calls);
    forall i | 0 <= i < |calls| && calls[i].Define? ensures Resolves(es, calls[i].name) {
      DefinedResolves([], calls, i);
    }
    forall e, i, j | e in es && 0 <= i < |e.names| && 0 <= j < |e.names| && i != j
      ensures !Same(e.names[i], e.names[j])
    {
      SameIsAnEquivalence(e.names[i], e.names[j], e.names[i]);
      SameIsAnEquivalence(e.names[j], e.names[i], e.names[j]);
    }
  }

  /** The entry that a definition returns has the name, and looking the name up finds that entry or one before it. */
  lemma ReturnedHasName(es: seq<Known>, c: Call)
    requires c.Define?
    ensures var next, i := After(es, c), Returned(es, c);
            HasName(next[i].names, c.name) && Lookup(next, c.name) <= i
    ensures FindKey(es, c.key) < |es| ==> After(es, c)[Returned(es, c)].key == c.key
  {
    hide Same, HasName, WithAlias;
    var i := Returned(es, c);
    if FindKey(es, c.key) < |es| {
      AliasKeepsNames(es[i].names, c.name);
    } else if Lookup(es, c.name) == |es| {
      OneName(c.name);
    }
  }

  /** The entry that a definition returns has the properties asked for, if the charset is not empty, unless only the
      name was known. */
  lemma ReturnedHasKey(es: seq<Known>, c: Call)
    requires c.Define? && !c.empty
    ensures FindKey(es, c.key) < |es| || !Resolves(es, c.name) ==> After(es, c)[Returned(es, c)].key == c.key
  {
    hide Same, HasName, WithAlias;
  }
}
