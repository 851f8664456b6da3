/** The registry itself: the linked list of encodings, which u8_define_encoding extends and whose entries it aliases. */
module Registry {
  import opened Charset
  import opened CharsetLaws
  import opened SortingLaws
  import opened EncodingNames
  import opened RegistryModel

  ghost predicate CStrings(names: seq<Name>) {
    forall k :: 0 <= k < |names| ==> 0 !in names[k]
  }

  /** U8_TEXT_ENCODING. */
  class TextEncoding {
    var names: seq<Name>
    var flags: int
    var charset: array?<Entry>
    var charsetInv: array?<Entry>
    var uc2mb: nat
    var mb2uc: nat
    var next: TextEncoding?

    constructor (name: Name, charset: array?<Entry>, charsetInv: array?<Entry>, uc2mb: nat, mb2uc: nat, flags: int,
                 next: TextEncoding?)
      ensures Value() == Known([name], Key(charset, flags, uc2mb, mb2uc))
      ensures this.charsetInv == charsetInv && this.next == next
    {
      names := [name];
      this.charset, this.charsetInv, this.uc2mb, this.mb2uc := charset, charsetInv, uc2mb, mb2uc;
      this.flags, this.next := flags, next;
    }

    ghost function Value(): Known
      reads this
    {
      Known(names, Key(charset, flags, uc2mb, mb2uc))
    }

    /** The body of add_alias. */
    method AddName(name: Name)
      requires CStrings(names) && 0 !in name
      modifies `names
      ensures names == WithAlias(old(names), name) && CStrings(names)
    {
      hide HasName, Same;
      var has := FindName(names, name);
      if !has {
        names := names + [name];
      }
    }

    ghost function Arrays(): set<array<Entry>>
      reads `charset, `charsetInv
    {
      (if charset == null then {} else {charset}) + (if charsetInv == null then {} else {charsetInv})
    }

    /** The charset is sorted and comes with its inverse. */
    ghost predicate TableSorted()
      reads `charset, `charsetInv, Arrays()
    {
      if charset == null then charsetInv == null
      else charsetInv != null && Sorted(charset[..]) && Inverse(charsetInv[..], charset[..])
    }
  }

  lemma {:induction false} FlipCounts(s: seq<Entry>, e: Entry)
    ensures multiset(Flip(s))[Entry(e.to, e.from)] == multiset(s)[e]
  {
    if s != [] {
      assert s == [s[0]] + s[1..];
      FlipCounts(s[1..], e);
    }
  }

  /** What is an inverse of a table is, rearranged but sorted, an inverse of every rearrangement of the table. */
  lemma InverseOfRearranged(inv: seq<Entry>, inv': seq<Entry>, s: seq<Entry>, s': seq<Entry>)
    requires Inverse(inv, s) && multiset(s) == multiset(s')
    requires multiset(inv) == multiset(inv') && Sorted(inv')
    ensures Inverse(inv', s')
  {
    forall e: Entry ensures multiset(Flip(s))[e] == multiset(Flip(s'))[e] {
      FlipCounts(s, Entry(e.to, e.from));
      FlipCounts(s', Entry(e.to, e.from));
    }
    assert multiset(Flip(s)) == multiset(Flip(s'));
  }

  lemma InverseIsSorted(inv: seq<Entry>, s: seq<Entry>)
    requires Inverse(inv, s)
    ensures Sorted(inv)
  {
  }

  ghost function ValuesOf(chain: seq<TextEncoding>): (v: seq<Known>)
    reads chain
    ensures |v| == |chain| && forall i :: 0 <= i < |v| ==> v[i] == chain[i].Value()
  {
    if chain == [] then [] else [chain[0].Value()] + ValuesOf(chain[1..])
  }

  lemma ValuesOfPush(r: TextEncoding, chain: seq<TextEncoding>)
    ensures ValuesOf([r] + chain) == [r.Value()] + ValuesOf(chain)
  {
    assert ([r] + chain)[1..] == chain;
  }

  ghost function EntryAt(chain: seq<TextEncoding>, i: nat): TextEncoding? {
    if i < |chain| then chain[i] else null
  }

  /** The entries are linked in order, and each is there once. */
  ghost predicate Linked(chain: seq<TextEncoding>)
    reads chain`next
  {
    && (forall i :: 0 <= i < |chain| ==> chain[i].next == EntryAt(chain, i + 1))
    && (forall i, j :: 0 <= i < j < |chain| ==> chain[i] != chain[j])
  }

  lemma OnceEach(chain: seq<TextEncoding>, i: nat)
    requires Linked(chain) && i < |chain|
    ensures forall j :: 0 <= j < |chain| && j != i ==> chain[j] != chain[i]
  {
  }

  ghost predicate Named(chain: seq<TextEncoding>)
    reads chain`names
  {
    forall i :: 0 <= i < |chain| ==> CStrings(chain[i].names)
  }

  ghost predicate Tabled(chain: seq<TextEncoding>, tables: set<array<Entry>>)
    reads chain`charset, chain`charsetInv, tables
  {
    forall i :: 0 <= i < |chain| ==> chain[i].Arrays() <= tables && chain[i].TableSorted()
  }

  lemma LinkedPush(r: TextEncoding, chain: seq<TextEncoding>)
    requires Linked(chain) && r !in chain && r.next == EntryAt(chain, 0)
    ensures Linked([r] + chain)
  {
    var longer := [r] + chain;
    assert forall i :: 0 < i < |longer| ==> longer[i] == chain[i - 1];
    assert forall i :: 0 < i <= |longer| ==> EntryAt(longer, i) == EntryAt(chain, i - 1);
  }

  /** As TableSorted, of what the tables held `before`. */
  ghost predicate SortedAs(e: TextEncoding, before: map<array<Entry>, seq<Entry>>)
    reads e`charset, e`charsetInv
  {
    if e.charset == null then e.charsetInv == null
    else e.charsetInv != null && e.charset in before && e.charsetInv in before
         && Sorted(before[e.charset]) && Inverse(before[e.charsetInv], before[e.charset])
  }

  lemma TabledNow(chain: seq<TextEncoding>, tables: set<array<Entry>>, before: map<array<Entry>, seq<Entry>>)
    requires Tabled(chain, tables)
    requires forall a :: a in tables ==> a in before && before[a] == a[..]
    ensures forall i :: 0 <= i < |chain| ==> chain[i].Arrays() <= tables && SortedAs(chain[i], before)
  {
    hide Sorted, Inverse;
    forall i | 0 <= i < |chain| ensures SortedAs(chain[i], before) {
      var e := chain[i];
      assert e.charset != null ==> e.charset in e.Arrays() && e.charsetInv in e.Arrays();
    }
  }

  /** Tables that have been sorted, or not touched, serve the entries as before. */
  lemma TabledAgain(chain: seq<TextEncoding>, tables: set<array<Entry>>, before: map<array<Entry>, seq<Entry>>)
    requires forall i :: 0 <= i < |chain| ==> chain[i].Arrays() <= tables && SortedAs(chain[i], before)
    requires forall a :: a in tables ==>
               a in before && multiset(a[..]) == multiset(before[a]) && (a[..] == before[a] || Sorted(a[..]))
    ensures Tabled(chain, tables)
  {
    hide Sorted, Inverse;
    forall i | 0 <= i < |chain| ensures chain[i].TableSorted() {
      var e := chain[i];
      if e.charset != null {
        assert e.charset in e.Arrays() && e.charsetInv in e.Arrays();
        InverseIsSorted(before[e.charsetInv], before[e.charset]);
        InverseOfRearranged(before[e.charsetInv], e.charsetInv[..], before[e.charset], e.charset[..]);
      }
    }
  }

  lemma TabledPush(r: TextEncoding, chain: seq<TextEncoding>, tables: set<array<Entry>>)
    requires Tabled(chain, tables) && r.TableSorted()
    ensures Tabled([r] + chain, tables + r.Arrays())
  {
    hide TextEncoding.TableSorted;
  }

  lemma NamedPush(r: TextEncoding, chain: seq<TextEncoding>)
    requires Named(chain) && CStrings(r.names)
    ensures Named([r] + chain)
  {
    hide CStrings;
  }

  class Encodings {
    /** The head of the list, and the whole list. */
    var encodings: TextEncoding?
    ghost var chain: seq<TextEncoding>
    /** The tables of the entries. */
    ghost var tables: set<array<Entry>>

    ghost function Node(i: nat): TextEncoding?
      reads `chain
    {
      EntryAt(chain, i)
    }

    ghost predicate Links()
      reads `encodings, `chain, chain`next
    {
      encodings == Node(0) && Linked(chain)
    }

    /** All names are C strings. */
    ghost predicate NamesValid()
      reads `chain, chain`names
    {
      Named(chain)
    }

    ghost predicate TablesSorted()
      reads `chain, `tables, chain`charset, chain`charsetInv, tables
    {
      Tabled(chain, tables)
    }

    ghost function Values(): (v: seq<Known>)
      reads `chain, chain
      ensures |v| == |chain| && forall i :: 0 <= i < |v| ==> v[i] == chain[i].Value()
    {
      ValuesOf(chain)
    }

    ghost predicate Valid()
      reads `encodings, `chain, `tables, chain, tables
    {
      Links() && NamesValid() && TablesSorted()
    }

    constructor ()
      ensures Valid() && Values() == []
    {
      encodings := null;
      chain := [];
      tables := {};
    }

    /** lookup_encoding_name. */
    method LookupEncodingName(name: Name) returns (found: TextEncoding?)
      requires Links() && NamesValid() && 0 !in name
      ensures found == Node(RegistryModel.Lookup(Values(), name))
    {
      hide HasName, Same, RegistryModel.Lookup, ValuesOf;
      var scan := encodings;
      ghost var i := 0;
      while scan != null
        invariant 0 <= i <= |chain| && scan == Node(i)
        invariant forall j :: 0 <= j < i ==> !HasName(Values()[j].names, name)
        decreases |chain| - i
      {
        var has := FindName(scan.names, name);
        if has {
          LookupIs(Values(), name, i);
          return scan;
        }
        scan := scan.next;
        i := i + 1;
      }
      LookupIs(Values(), name, i);
      return null;
    }

    /** The loop of u8_define_encoding that looks for an entry with the same properties. */
    method FindProperties(charset: array?<Entry>, uc2mb: nat, mb2uc: nat, flags: int) returns (found: TextEncoding?)
      requires Links()
      ensures found == Node(FindKey(Values(), Key(charset, flags, uc2mb, mb2uc)))
    {
      hide FindKey, ValuesOf;
      var scan := encodings;
      ghost var i, key := 0, Key(charset, flags, uc2mb, mb2uc);
      while scan != null
        invariant 0 <= i <= |chain| && scan == Node(i)
        invariant forall j :: 0 <= j < i ==> Values()[j].key != key
        decreases |chain| - i
      {
        if scan.charset == charset && scan.flags == flags && scan.uc2mb == uc2mb && scan.mb2uc == mb2uc {
          FindKeyIs(Values(), key, i);
          return scan;
        }
        scan := scan.next;
        i := i + 1;
      }
      FindKeyIs(Values(), key, i);
      return null;
    }

    /** add_alias. */
    method AddAlias(e: TextEncoding, name: Name, ghost i: nat)
      requires Valid() && i < |chain| && e == chain[i] && 0 !in name
      modifies e`names
      ensures Valid()
      ensures Values() == After(old(Values()), Alias(i, name)) && chain == old(chain)
    {
      hide HasName, FindKey, Same, After, Linked, Tabled, ValuesOf, CStrings, WithAlias;
      ghost var before := Values();
      AfterAlias(before, i, name);
      assert forall j :: 0 <= j < |chain| && j != i ==> chain[j] != e by { OnceEach(chain, i); }
      e.AddName(name);
      assert Values() == before[i := before[i].(names := WithAlias(before[i].names, name))];
    }

    /** sort_charset on a table; sorting it in place spoils no entry, even one that shares it. */
    method SortShared(charset: array<Entry>)
      requires Valid() && this as object != charset
      modifies charset
      ensures Valid() && Sorted(charset[..]) && multiset(charset[..]) == old(multiset(charset[..]))
    {
      hide Sorted, Inverse, TextEncoding.TableSorted, Linked, Named, Tabled;
      ghost var before := map a | a in tables :: a[..];
      TabledNow(chain, tables, before);
      SortCharset(charset);
      TabledAgain(chain, tables, before);
    }

    /** compute_flags on a table that entries may share. */
    method FlagsOf(charset: array<Entry>) returns (flags: nat)
      requires Valid() && this as object != charset
      modifies charset
      ensures Valid() && Sorted(charset[..]) && multiset(charset[..]) == old(multiset(charset[..]))
      ensures HasAscii(flags) <==> AsciiChecked(charset[..])
      ensures HasLinear(flags) <==> LinearChecked(charset[..])
    {
      hide Sorted, Inverse, TextEncoding.TableSorted, Linked, Named, Tabled, AsciiChecked, LinearChecked;
      ghost var before := map a | a in tables :: a[..];
      TabledNow(chain, tables, before);
      flags := ComputeFlags(charset);
      TabledAgain(chain, tables, before);
    }

    /** sort_charset and invert_charset on the charset of a new entry. */
    method SortAndInvert(charset: array<Entry>) returns (inv: array<Entry>)
      requires Valid() && this as object != charset
      modifies charset
      ensures Valid() && fresh(inv)
      ensures Sorted(charset[..]) && multiset(charset[..]) == old(multiset(charset[..]))
      ensures Inverse(inv[..], charset[..])
    {
      hide Sorted, Inverse, Links, NamesValid, TablesSorted;
      SortShared(charset);
      inv := InvertCharset(charset);
    }

    /** Puts an entry at the head of the list. */
    method Push(r: TextEncoding)
      requires Valid() && r !in chain && r.next == encodings && CStrings(r.names) && r.TableSorted()
      modifies `encodings, `chain, `tables
      ensures Valid() && chain == [r] + old(chain) && Values() == [r.Value()] + old(Values())
    {
      hide Sorted, Inverse, TextEncoding.TableSorted, ValuesOf, CStrings, Linked, Named, Tabled;
      ValuesOfPush(r, chain);
      LinkedPush(r, chain);
      NamedPush(r, chain);
      TabledPush(r, chain, tables);
      encodings := r;
      chain := [r] + chain;
      tables := tables + r.Arrays();
    }

    /** The part of u8_define_encoding that makes a new entry; a charset of no entries is not kept. */
    method NewEntry(name: Name, charset: array?<Entry>, uc2mb: nat, mb2uc: nat, flags: int) returns (r: TextEncoding)
      requires Valid() && 0 !in name
      modifies this, charset
      ensures Valid() && chain == [r] + old(chain) && fresh(r)
      ensures var kept := if charset == null || charset.Length == 0 then null else charset;
              Values() == [Known([name], Key(kept, flags, uc2mb, mb2uc))] + old(Values())
      ensures charset != null ==> multiset(charset[..]) == old(multiset(charset[..]))
      ensures charset != null ==> Sorted(charset[..]) || charset[..] == old(charset[..])
    {
      hide Links, NamesValid, TablesSorted, Sorted, Inverse;
      var kept: array?<Entry>, inv: array?<Entry> := null, null;
      if charset != null && charset.Length > 0 {
        kept := charset;
        inv := SortAndInvert(charset);
      }
      r := new TextEncoding(name, kept, inv, uc2mb, mb2uc, flags, encodings);
      Push(r);
    }

    /** u8_define_encoding. */
    method DefineEncoding(name: Name, charset: array?<Entry>, uc2mb: nat, mb2uc: nat, flags: int)
      returns (r: TextEncoding)
      requires Valid() && 0 !in name
      modifies this, chain, charset
      ensures Valid()
      ensures var c := Define(name, Key(charset, flags, uc2mb, mb2uc), charset == null || charset.Length == 0);
              Values() == After(old(Values()), c) && r == chain[Returned(old(Values()), c)]
      ensures chain == old(chain) || (fresh(r) && chain == [r] + old(chain))
      ensures charset != null ==> multiset(charset[..]) == old(multiset(charset[..]))
      ensures charset != null ==> Sorted(charset[..]) || charset[..] == old(charset[..])
    {
      hide FindKey, RegistryModel.Lookup, After, Returned, HasName, Same, Links, NamesValid, TablesSorted, ValuesOf;
      AfterDefine(Values(), Define(name, Key(charset, flags, uc2mb, mb2uc), charset == null || charset.Length == 0));
      var scan := FindProperties(charset, uc2mb, mb2uc, flags);
      if scan != null {
        AddAlias(scan, name, FindKey(Values(), Key(charset, flags, uc2mb, mb2uc)));
        return scan;
      }
      scan := LookupEncodingName(name);
      if scan != null {
        return scan;
      }
      r := NewEntry(name, charset, uc2mb, mb2uc, flags);
    }

    /** declare_charset, on the entries of a table that come after the one that says how many there are: sort them,
        compute the flags, and define the encoding. */
    method DeclareCharset(name: Name, charset: array<Entry>) returns (r: TextEncoding, flags: nat)
      requires Valid() && 0 !in name && this as object != charset
      modifies this, chain, charset
      ensures Valid() && r in chain && multiset(charset[..]) == old(multiset(charset[..]))
      ensures CodesDiffer(old(charset[..])) ==>
                && DistinctCodes(charset[..])
                && (HasAscii(flags) <==> AsciiChecked(charset[..]))
                && (HasLinear(flags) <==> LinearChecked(charset[..]))
      ensures var c := Define(name, Key(charset, flags, 0, 0), charset.Length == 0);
              Values() == After(old(Values()), c) && r == chain[Returned(old(Values()), c)]
      ensures charset.Length > 0
              && (FindKey(old(Values()), Key(charset, flags, 0, 0)) < |old(chain)|
                  || !Resolves(old(Values()), name)) ==>
                r.charset == charset && r.flags == flags && r.TableSorted()
    {
      hide Links, NamesValid, TablesSorted, Sorted, AsciiChecked, LinearChecked, DistinctCodes, CodesDiffer, After,
           Returned, ValuesOf, FindKey, Resolves, Inverse;
      ghost var raw := charset[..];
      SortShared(charset);
      flags := FlagsOf(charset);
      ghost var flagged := charset[..];
      r := DefineEncoding(name, charset, 0, 0, flags);
      if CodesDiffer(raw) {
        SortedAscends(raw, flagged);
        SortedAscends(raw, charset[..]);
        SortedIsUnique(flagged, charset[..]);
      }
      if charset.Length > 0 {
        ReturnedHasKey(old(Values()), Define(name, Key(charset, flags, 0, 0), false));
      }
      SortedInChain(r);
    }

    lemma SortedInChain(r: TextEncoding)
      requires TablesSorted() && r in chain
      ensures r.TableSorted()
    {
    }
  }

  /** The loop over the names of one entry. */
  method FindName(names: seq<Name>, name: Name) returns (found: bool)
    requires 0 !in name && CStrings(names)
    ensures found <==> HasName(names, name)
  {
    var i := 0;
    while i < |names|
      invariant 0 <= i <= |names|
      invariant forall j :: 0 <= j < i ==> !Same(names[j], name)
    {
      var same := CompareEncodingNames(names[i], name);
      if same {
        return true;
      }
      i := i + 1;
    }
    return false;
  }
}
