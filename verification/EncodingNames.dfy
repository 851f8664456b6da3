/** How encoding names are compared (convert.c). */
module EncodingNames {
  import opened Bytes

  predicate IsSeparator(c: Byte) {
    c == '-' as int || c == '_' as int || c == '/' as int || c == ' ' as int
  }

  /** isspace in the C locale. */
  predicate IsSpace(c: Byte) {
    c == ' ' as int || 9 <= c <= 13
  }

  /** tolower in the C locale. */
  function Lower(c: Byte): Byte {
    if 'A' as int <= c <= 'Z' as int then c + 32 else c
  }

  /** The name with separators deleted and letters in lower case. */
  function Normal(name: seq<Byte>): seq<Byte> {
    if name == [] then []
    else (if IsSeparator(name[0]) then [] else [Lower(name[0])]) + Normal(name[1..])
  }

  function SkipSpace(name: seq<Byte>): seq<Byte> {
    if name != [] && IsSpace(name[0]) then SkipSpace(name[1..]) else name
  }

  /** What the two-pointer loop decides about the rests of two names. */
  predicate Same(name1: seq<Byte>, name2: seq<Byte>)
    decreases |name1| + |name2|
  {
    if name1 == [] || name2 == [] then SkipSpace(name1) == [] && SkipSpace(name2) == []
    else if Lower(name1[0]) == Lower(name2[0]) then Same(name1[1..], name2[1..])
    else if IsSeparator(name1[0]) then Same(name1[1..], name2)
    else if IsSeparator(name2[0]) then Same(name1, name2[1..])
    else false
  }

  // ----- the end of a name

  /** The characters that may be ignored at the end of a name. */
  predicate IsFiller(c: Byte) {
    IsSeparator(c) || IsSpace(c)
  }

  /** The name up to its last character that is neither a separator nor white space. */
  function Core(name: seq<Byte>): (core: seq<Byte>)
    ensures core <= name
  {
    if name == [] then []
    else if Core(name[1..]) == [] && IsFiller(name[0]) then []
    else [name[0]] + Core(name[1..])
  }

  function Trail(name: seq<Byte>): seq<Byte> {
    name[|Core(name)|..]
  }

  predicate WellEnded(name: seq<Byte>) {
    name == [] || !IsFiller(name[|name| - 1])
  }

  /** One step of the comparison inside the core stays inside it. */
  lemma CoreStep(name: seq<Byte>)
    requires name != []
    ensures Core(name) != [] ==> Core(name[1..]) == Core(name)[1..] && Trail(name[1..]) == Trail(name)
    ensures Core(name) == [] ==> Core(name[1..]) == [] && IsFiller(name[0])
    ensures Core(name) != [] && IsFiller(name[0]) ==> Core(name[1..]) != []
    ensures Core(name) != [] ==> Core(name)[0] == name[0]
  {
    if Core(name) != [] {
      assert name[1..][|Core(name)| - 1..] == name[|Core(name)|..];
    }
  }

  lemma {:induction false} CoreIsPrefix(name: seq<Byte>)
    ensures Core(name) <= name && name == Core(name) + Trail(name)
    ensures forall c :: c in Trail(name) ==> IsFiller(c)
    ensures Core(name) == [] ==> Trail(name) == name
    ensures WellEnded(Core(name))
    ensures WellEnded(name) <==> Trail(name) == []
  {
    if name != [] {
      hide IsSeparator, IsSpace, IsFiller;
      var rest := name[1..];
      CoreIsPrefix(rest);
      CoreStep(name);
      if |name| > 1 {
        assert name[|name| - 1] == rest[|rest| - 1];
      }
      if Core(name) == [] {
        assert Trail(rest) == rest;
        assert forall c :: c in name ==> c == name[0] || c in rest;
      }
    }
  }

  lemma {:induction false} NormalOfParts(a: seq<Byte>, b: seq<Byte>)
    ensures Normal(a + b) == Normal(a) + Normal(b)
  {
    if a == [] {
      assert a + b == b;
    } else {
      assert (a + b)[1..] == a[1..] + b;
      NormalOfParts(a[1..], b);
    }
  }

  /** A name that ends well and is not empty is still not empty, and ends well, after normalising. */
  lemma {:induction false} NormalEndsWell(name: seq<Byte>)
    requires WellEnded(name)
    ensures name == [] <==> Normal(name) == []
    ensures WellEnded(Normal(name))
  {
    if name != [] {
      var n := |name| - 1;
      assert name == name[..n] + [name[n]];
      NormalOfParts(name[..n], [name[n]]);
    }
  }

  lemma {:induction false} FillersSkip(t: seq<Byte>)
    ensures SkipSpace(t) == [] <==> forall c :: c in t ==> IsSpace(c)
    ensures Normal(t) == [] <==> forall c :: c in t ==> IsSeparator(c)
  {
    if t != [] {
      FillersSkip(t[1..]);
      assert forall c :: c in t <==> c == t[0] || c in t[1..];
    }
  }

  lemma NormalSameHead(a: seq<Byte>, b: seq<Byte>)
    requires a != [] && b != [] && Lower(a[0]) == Lower(b[0])
    ensures Normal(a) == Normal(b) <==> Normal(a[1..]) == Normal(b[1..])
  {
    var head: seq<Byte> := if IsSeparator(a[0]) then [] else [Lower(a[0])];
    assert Normal(a) == head + Normal(a[1..]) && Normal(b) == head + Normal(b[1..]);
    assert Normal(a)[|head|..] == Normal(a[1..]) && Normal(b)[|head|..] == Normal(b[1..]);
  }

  // ----- what the comparison means

  /** Fillers never match a name that still has its core to go. */
  lemma {:induction false} FillersDiffer(t: seq<Byte>, name: seq<Byte>)
    requires Core(t) == [] && Core(name) != []
    ensures !Same(t, name) && !Same(name, t)
    decreases |t| + |name|
  {
    CoreIsPrefix(name);
    if t == [] {
      FillersSkip(name);
      var n := |Core(name)| - 1;
      assert name[n] == Core(name)[n] && name[n] in name && !IsFiller(name[n]);
    } else {
      CoreStep(t);
      CoreStep(name);
      FillersDiffer(t[1..], name);
      if IsFiller(name[0]) {
        FillersDiffer(t, name[1..]);
        FillersDiffer(t[1..], name[1..]);
      }
    }
  }

  /** For all names: they compare equal exactly when their cores normalise to the same string and the comparison
      accepts what follows the cores. */
  lemma {:induction false} SameSplits(name1: seq<Byte>, name2: seq<Byte>)
    ensures Same(name1, name2)
            <==> Normal(Core(name1)) == Normal(Core(name2)) && Same(Trail(name1), Trail(name2))
    decreases |name1| + |name2|
  {
    var c1, c2 := Core(name1), Core(name2);
    CoreIsPrefix(name1);
    CoreIsPrefix(name2);
    NormalEndsWell(c1);
    NormalEndsWell(c2);
    if c1 == [] && c2 != [] {
      FillersDiffer(name1, name2);
    } else if c1 != [] && c2 == [] {
      FillersDiffer(name2, name1);
    } else if c1 != [] {
      CoreStep(name1);
      CoreStep(name2);
      if Lower(name1[0]) == Lower(name2[0]) {
        SameSplits(name1[1..], name2[1..]);
        NormalSameHead(c1, c2);
      } else if IsSeparator(name1[0]) {
        SameSplits(name1[1..], name2);
      } else if IsSeparator(name2[0]) {
        SameSplits(name1, name2[1..]);
      } else {
        assert Normal(c1)[0] == Lower(name1[0]) && Normal(c2)[0] == Lower(name2[0]);
      }
    }
  }

  /** The intended meaning, for names that do not end in a separator or white space. */
  lemma SameMeansNormalEqual(name1: seq<Byte>, name2: seq<Byte>)
    requires WellEnded(name1) && WellEnded(name2)
    ensures Same(name1, name2) <==> Normal(name1) == Normal(name2)
  {
    SameSplits(name1, name2);
    WellEndedIsCore(name1);
    WellEndedIsCore(name2);
  }

  lemma WellEndedIsCore(name: seq<Byte>)
    requires WellEnded(name)
    ensures Core(name) == name && Trail(name) == []
  {
    CoreIsPrefix(name);
  }

  /** For any name against one that ends well, the intended meaning holds unless the cores agree and what follows the
      core is all separators but not all white space, or the reverse: "a-" is not matched with "a", "a\t" is. */
  lemma SameMeansNormalEqualExactly(name: seq<Byte>, other: seq<Byte>)
    requires WellEnded(other)
    ensures (Same(name, other) <==> Normal(name) == Normal(other))
            <==> (Normal(Core(name)) != Normal(other)
                  || ((forall c :: c in Trail(name) ==> IsSeparator(c))
                      <==> (forall c :: c in Trail(name) ==> IsSpace(c))))
  {
    var t := Trail(name);
    SameSplits(name, other);
    WellEndedIsCore(other);
    CoreIsPrefix(name);
    NormalOfParts(Core(name), t);
    FillersSkip(t);
    assert Same(t, []) <==> SkipSpace(t) == [];
    if Normal(t) == [] {
      assert Normal(name) == Normal(Core(name));
    } else {
      NormalOfFillers(t);
      NormalEndsWell(other);
      assert Normal(name)[|Normal(name)| - 1] == Normal(t)[|Normal(t)| - 1];
      assert !WellEnded(Normal(name));
    }
  }

  lemma {:induction false} NormalOfFillers(t: seq<Byte>)
    requires forall c :: c in t ==> IsFiller(c)
    ensures forall c :: c in Normal(t) ==> IsFiller(c)
  {
    if t != [] {
      NormalOfFillers(t[1..]);
      assert IsFiller(t[0]);
      forall c | c in Normal(t) ensures IsFiller(c) {
        assert c == t[0] || c in Normal(t[1..]);
      }
    }
  }

  /** "a-" and "a" agree after deleting separators and do not compare equal; "a" with a tab at its end and "a" do not
      agree and compare equal. */
  lemma EndsMatter()
    ensures Normal([97, 45]) == Normal([97]) && !Same([97, 45], [97])
    ensures Normal([97, 9]) != Normal([97]) && Same([97, 9], [97])
  {
    assert [97, 45][1..] == [45] && [97, 9][1..] == [9] && [97][1..] == [];
  }

  lemma SameIsAnEquivalence(a: seq<Byte>, b: seq<Byte>, c: seq<Byte>)
    requires WellEnded(a) && WellEnded(b) && WellEnded(c)
    ensures Same(a, a)
    ensures Same(a, b) ==> Same(b, a)
    ensures Same(a, b) && Same(b, c) ==> Same(a, c)
  {
    SameMeansNormalEqual(a, a);
    SameMeansNormalEqual(a, b);
    SameMeansNormalEqual(b, a);
    SameMeansNormalEqual(b, c);
    SameMeansNormalEqual(a, c);
  }

  // ----- which characters matter

  lemma NormalAround(a: seq<Byte>, c: Byte, b: seq<Byte>)
    ensures Normal(a + [c] + b) == Normal(a) + Normal([c]) + Normal(b)
  {
    NormalOfParts(a + [c], b);
    NormalOfParts(a, [c]);
  }

  /** The ignored characters are these four: with any other inside it a name is another, although the comment in the
      source says that all but letters are ignored. */
  lemma IgnoredInside(a: seq<Byte>, c: Byte, b: seq<Byte>)
    requires b != [] && WellEnded(b)
    ensures Same(a + [c] + b, a + b) <==> c as char in "-_/ "
  {
    SameMeansNormalEqual(a + [c] + b, a + b);
    NormalAround(a, c, b);
    NormalOfParts(a, b);
    assert IsSeparator(c) <==> c as char in "-_/ ";
    assert |Normal([c])| == if IsSeparator(c) then 0 else 1;
  }

  /** The two cases of an ASCII letter. */
  predicate OtherCase(c: Byte, d: Byte) {
    ('A' as int <= c <= 'Z' as int && d - c == 'a' as int - 'A' as int)
    || ('A' as int <= d <= 'Z' as int && c - d == 'a' as int - 'A' as int)
  }

  /** One character inside a name may be exchanged for another exactly if both are ignored or they are one letter. */
  lemma ExchangedInside(a: seq<Byte>, c: Byte, d: Byte, b: seq<Byte>)
    requires b != [] && WellEnded(b)
    ensures Same(a + [c] + b, a + [d] + b)
            <==> c == d || OtherCase(c, d) || (c as char in "-_/ " && d as char in "-_/ ")
  {
    SameMeansNormalEqual(a + [c] + b, a + [d] + b);
    NormalAround(a, c, b);
    NormalAround(a, d, b);
    MiddleTold(Normal(a), Normal([c]), Normal([d]), Normal(b));
    hide Same, Normal;
    NormalOfTwo(c, d);
  }

  lemma NormalOfTwo(c: Byte, d: Byte)
    ensures Normal([c]) == Normal([d])
            <==> c == d || OtherCase(c, d) || (c as char in "-_/ " && d as char in "-_/ ")
  {
    NormalOfOne(c);
    NormalOfOne(d);
    hide Normal;
    assert IsSeparator(c) <==> c as char in "-_/ ";
    assert IsSeparator(d) <==> d as char in "-_/ ";
  }

  lemma NormalOfOne(c: Byte)
    ensures Normal([c]) == if IsSeparator(c) then [] else [Lower(c)]
  {
  }

  lemma MiddleTold(a: seq<Byte>, m: seq<Byte>, n: seq<Byte>, b: seq<Byte>)
    ensures a + m + b == a + n + b <==> m == n
  {
    if |m| == |n| {
      assert (a + m + b)[|a|..|a| + |m|] == m && (a + n + b)[|a|..|a| + |n|] == n;
    } else {
      assert |a + m + b| != |a + n + b|;
    }
  }

  /** After a name only white space may follow. */
  lemma IgnoredAfter(name: seq<Byte>, c: Byte)
    requires WellEnded(name)
    ensures Same(name + [c], name) <==> c in {32, 9, 10, 11, 12, 13}
  {
    var more := name + [c];
    WellEndedIsCore(name);
    NormalOfParts(name, [c]);
    NormalOfOne(c);
    FillersSkip([c]);
    SameMeansNormalEqualExactly(more, name);
    CoreIsPrefix(more);
    if IsFiller(c) {
      CoreOfMore(name, [c]);
      assert Trail(more) == [c];
    } else {
      WellEndedIsCore(more);
    }
  }

  lemma {:induction false} CoreOfMore(name: seq<Byte>, t: seq<Byte>)
    requires WellEnded(name) && forall c :: c in t ==> IsFiller(c)
    ensures Core(name + t) == name
  {
    if name == [] {
      assert name + t == t;
      CoreOfFillers(t);
    } else {
      assert (name + t)[1..] == name[1..] + t;
      CoreOfMore(name[1..], t);
    }
  }

  lemma {:induction false} CoreOfFillers(t: seq<Byte>)
    requires forall c :: c in t ==> IsFiller(c)
    ensures Core(t) == []
  {
    if t != [] {
      CoreOfFillers(t[1..]);
      assert t[0] in t;
    }
  }

  /** compare_encoding_names. */
  method CompareEncodingNames(name1: seq<Byte>, name2: seq<Byte>) returns (r: bool)
    requires 0 !in name1 && 0 !in name2
    ensures r <==> Same(name1, name2)
  {
    var scan1, scan2 := 0, 0;
    while scan1 < |name1| && scan2 < |name2|
      invariant 0 <= scan1 <= |name1| && 0 <= scan2 <= |name2|
      invariant Same(name1, name2) <==> Same(name1[scan1..], name2[scan2..])
      decreases |name1| - scan1 + |name2| - scan2
    {
      if name1[scan1] == name2[scan2] {
        scan1, scan2 := scan1 + 1, scan2 + 1;
      } else if Lower(name1[scan1]) == Lower(name2[scan2]) {
        scan1, scan2 := scan1 + 1, scan2 + 1;
      } else if IsSeparator(name1[scan1]) {
        scan1 := scan1 + 1;
      } else if IsSeparator(name2[scan2]) {
        scan2 := scan2 + 1;
      } else {
        return false;
      }
    }
    scan1 := SkipSpaces(name1, scan1);
    scan2 := SkipSpaces(name2, scan2);
    r := At(name1, scan1) == At(name2, scan2);
  }

  method SkipSpaces(name: seq<Byte>, start: nat) returns (scan: nat)
    requires start <= |name|
    ensures start <= scan <= |name| && name[scan..] == SkipSpace(name[start..])
  {
    scan := start;
    while scan < |name| && IsSpace(name[scan])
      invariant start <= scan <= |name| && SkipSpace(name[scan..]) == SkipSpace(name[start..])
    {
      scan := scan + 1;
    }
  }
}
