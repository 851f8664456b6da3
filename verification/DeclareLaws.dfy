/** From the entries of a table, in any order, to the texts that the encoding declared for them reads back. */
module DeclareLaws {
  import opened Wrappers
  import opened Patches
  import opened Charset
  import opened CharsetLaws
  import opened SortingLaws
  import opened Utf8
  import opened Convert
  import opened TextLaws
  import opened CharacterLaws
  import opened TableLaws
  import opened RegistryModel
  import opened Registry

  /** The encoding that an entry of the registry is for u8_convert and u8_localize. */
  ghost function EncodingOf(e: TextEncoding): Encoding
    requires e.charset != null && e.charsetInv != null && e.flags >= 0
    reads e, e.charset, e.charsetInv
  {
    Coded(Some(TableOf(e)), HasAscii(e.flags), HasLinear(e.flags))
  }

  ghost function TableOf(e: TextEncoding): Table
    requires e.charset != null && e.charsetInv != null
    reads e, e.charset, e.charsetInv
  {
    Table(e.charset[..], e.charsetInv[..])
  }

  /** Sorting, inverting and flagging give a table that is sound and truthful. */
  lemma SoundAndTruthful(raw: seq<Entry>, t: Table)
    requires CodesDiffer(raw) && Injective(raw) && |raw| >= 256
    requires Sorted(t.charset) && multiset(t.charset) == multiset(raw) && Inverse(t.inv, t.charset)
    ensures Sound(t) && Truthful(t, AsciiChecked(t.charset), LinearChecked(t.charset))
    ensures Unmapped(t.charset) == Unmapped(raw) && |t.charset| == |raw|
  {
    hide Sorted, CodesDiffer, Injective, Inverse, DistinctCodes, Truthful, AsciiChecked, LinearChecked, Unmapped;
    SameMultisetSameLength(t.charset, raw);
    SortedAscends(raw, t.charset);
    StillInjective(raw, t.charset);
    UnmappedOfMultiset(t.charset, raw);
    ComputedFlagsAreTruthful(t);
  }

  /** A table of at least 256 distinct codes below 2^31, one-to-one, with a number of unmapped codes that its size
      allows: whatever the order of its entries, the encoding declared for it reads back every text that it has
      exactly if its codes can be read back. */
  lemma DeclaredRoundTrips(raw: seq<Entry>, r: TextEncoding, other: Char -> Patch)
    requires CodesDiffer(raw) && Injective(raw) && |raw| >= 256 && LeftSpineReaches(Unmapped(raw), |raw| - 1)
    requires r.charset != null && r.TableSorted() && multiset(r.charset[..]) == multiset(raw) && r.flags >= 0
    requires HasAscii(r.flags) <==> AsciiChecked(r.charset[..])
    requires HasLinear(r.flags) <==> LinearChecked(r.charset[..])
    ensures Usable(EncodingOf(r))
    ensures (forall chars :: HasAll(TableOf(r), HasAscii(r.flags), chars) ==> RoundTrips(EncodingOf(r), other, chars))
            <==> Decodable(r.charset[..], HasAscii(r.flags), HasLinear(r.flags))
  {
    hide Sorted, CodesDiffer, Injective, Inverse, Sound, Truthful, AsciiChecked, LinearChecked, Unmapped,
         LeftSpineReaches, Usable, HasAll, RoundTrips, Decodable, HasAscii, HasLinear;
    SoundAndTruthful(raw, TableOf(r));
    TableRoundTrip(TableOf(r), HasAscii(r.flags), HasLinear(r.flags), other);
  }

  /** Declaring a charset under a new name: the registry has an entry for it, and the encoding of that entry reads
      back every text that it has exactly if its codes can be read back. */
  method Declare(registry: Encodings, name: Name, charset: array<Entry>, ghost other: Char -> Patch)
    returns (r: TextEncoding)
    requires registry.Valid() && 0 !in name && registry as object != charset && !Resolves(registry.Values(), name)
    requires CodesDiffer(charset[..]) && Injective(charset[..]) && charset.Length >= 256
    requires LeftSpineReaches(Unmapped(charset[..]), charset.Length - 1)
    modifies registry, registry.chain, charset
    ensures registry.Valid() && r in registry.chain && r.charset == charset && r.charsetInv != null && r.flags >= 0
    ensures multiset(charset[..]) == old(multiset(charset[..])) && Usable(EncodingOf(r))
    ensures (forall chars :: HasAll(TableOf(r), HasAscii(r.flags), chars) ==> RoundTrips(EncodingOf(r), other, chars))
            <==> Decodable(charset[..], HasAscii(r.flags), HasLinear(r.flags))
  {
    hide CodesDiffer, Injective, AsciiChecked, LinearChecked, Unmapped, LeftSpineReaches, Usable, HasAll, RoundTrips,
         Decodable, HasAscii, HasLinear, Encodings.Valid, Encodings.Values, After, Returned, FindKey, DistinctCodes,
         Resolves, Sorted, Inverse;
    ghost var raw := charset[..];
    var flags;
    r, flags := registry.DeclareCharset(name, charset);
    DeclaredRoundTrips(raw, r, other);
  }
}
