/** Version directories, newest first. */
module VersionDirs {

  import opened Decimals
  import opened Strings
  import opened VersionOrders

  const PAD := Number(0)

  datatype Entry = Entry(name: string, isDir: bool)

  datatype VersionInfo = VersionInfo(original: string, dirPath: string)

  datatype Error = ReadFailed | NoEntries | NoValidEntries

  datatype Result = Ok(dirPaths: seq<string>) | Err(error: Error)

  datatype Listing = ReadError | Entries(entries: seq<Entry>)

  /** The pieces between dots and dashes. */
  function SplitVersion(version: string): seq<string> {
    Split(ReplaceAll(version, "-", "."), ".")
  }

  /** An empty piece counts as numeric, with value zero. */
  function PartOf(piece: string): Part {
    if AllDigits(piece) then Number(Atoi(piece).value) else Word(piece)
  }

  function Key(version: string): (key: seq<Part>)
    ensures |key| == |SplitVersion(version)|
    ensures forall k :: 0 <= k < |key| ==> key[k] == PartOf(SplitVersion(version)[k])
  {
    var pieces := SplitVersion(version);
    seq(|pieces|, k requires 0 <= k < |pieces| => PartOf(pieces[k]))
  }

  function CompareKeys(v1: string, v2: string): int {
    Compare(PAD, Key(v1), Key(v2))
  }

  predicate Newer(x: VersionInfo, y: VersionInfo) {
    CompareKeys(x.original, y.original) > 0
  }

  method IsNumeric(s: string) returns (numeric: bool)
    ensures numeric <==> AllDigits(s)
  {
    for i := 0 to |s|
      invariant forall k :: 0 <= k < i ==> IsDigit(s[k])
    {
      if !IsDigit(s[i]) {
        return false;
      }
    }
    return true;
  }

  /** One turn of the comparison loop: the difference of two pieces. */
  method ComparePieces(part1: string, part2: string) returns (r: int)
    ensures var c := CompareParts(PartOf(part1), PartOf(part2)); (r < 0 <==> c < 0) && (r > 0 <==> c > 0)
  {
    var numeric1 := IsNumeric(part1);
    var numeric2 := IsNumeric(part2);
    if numeric1 && numeric2 {
      r := Atoi(part1).value - Atoi(part2).value;
    } else if numeric1 && !numeric2 {
      r := -1;
    } else if !numeric1 && numeric2 {
      r := 1;
    } else {
      StringsZero(part1, part2);
      r := if part1 != part2 then CompareStrings(part1, part2) else 0;
    }
  }

  /** `compareVersions`: the sign is that of the comparison of the padded keys. */
  method CompareVersions(v1: string, v2: string) returns (r: int)
    ensures (r < 0 <==> CompareKeys(v1, v2) < 0) && (r > 0 <==> CompareKeys(v1, v2) > 0)
  {
    var v1Components, v2Components := SplitVersion(v1), SplitVersion(v2);
    var maxLen := |v1Components|;
    if |v2Components| > maxLen {
      maxLen := |v2Components|;
    }
    for i := 0 to maxLen
      invariant CompareKeys(v1, v2) == Lex(PAD, Key(v1), Key(v2), i)
    {
      var part1, part2 := "", "";
      if i < |v1Components| {
        part1 := v1Components[i];
      }
      if i < |v2Components| {
        part2 := v2Components[i];
      }
      PieceIsPart(v1, i, part1);
      PieceIsPart(v2, i, part2);
      r := ComparePieces(part1, part2);
      if r != 0 {
        return;
      }
    }
    return 0;
  }

  lemma PieceIsPart(v: string, i: nat, piece: string)
    requires piece == if i < |SplitVersion(v)| then SplitVersion(v)[i] else ""
    ensures PartOf(piece) == At(PAD, Key(v), i)
  {
  }

  /** The comparison is antisymmetric and transitive, and its ties are an equivalence. */
  lemma CompareIsOrder(v1: string, v2: string, v3: string)
    ensures CompareKeys(v2, v1) == -CompareKeys(v1, v2)
    ensures CompareKeys(v1, v2) <= 0 && CompareKeys(v2, v3) <= 0 ==> CompareKeys(v1, v3) <= 0
    ensures CompareKeys(v1, v2) < 0 && CompareKeys(v2, v3) <= 0 ==> CompareKeys(v1, v3) < 0
    ensures CompareKeys(v1, v2) <= 0 && CompareKeys(v2, v3) < 0 ==> CompareKeys(v1, v3) < 0
    ensures CompareKeys(v1, v2) == 0 && CompareKeys(v2, v3) == 0 ==> CompareKeys(v1, v3) == 0
    ensures CompareKeys(v1, v1) == 0
  {
    var a, b, c := Key(v1), Key(v2), Key(v3);
    Antisymmetric(PAD, a, b, 0);
    Antisymmetric(PAD, b, c, 0);
    Antisymmetric(PAD, a, c, 0);
    Antisymmetric(PAD, a, a, 0);
    if CompareKeys(v1, v2) <= 0 && CompareKeys(v2, v3) <= 0 {
      Transitive(PAD, a, b, c, 0);
    }
    if CompareKeys(v1, v2) >= 0 && CompareKeys(v2, v3) >= 0 {
      Transitive(PAD, c, b, a, 0);
    }
  }

  /** Two versions tie exactly when their parts, padded with zeros, are the same. */
  lemma TiedIffSameParts(v1: string, v2: string)
    ensures CompareKeys(v1, v2) == 0 <==> SameStream(PAD, Key(v1), Key(v2))
    ensures CompareKeys(v1, v2) < 0 <==> Precedes(PAD, Key(v1), Key(v2))
  {
    CompareIsLexicographic(PAD, Key(v1), Key(v2));
  }

  lemma NewerIsStrictWeak()
    ensures StrictWeak(Newer)
  {
    forall x, y | Newer(x, y)
      ensures !Newer(y, x)
    {
      CompareIsOrder(x.original, y.original, y.original);
    }
    forall x, y, z | Newer(x, z)
      ensures Newer(x, y) || Newer(y, z)
    {
      CompareIsOrder(x.original, y.original, z.original);
    }
  }

  // ---------- the directory list ----------

  predicate Valid(e: Entry) {
    e.isDir && TrimPrefix(e.name, "v") != ""
  }

  /** The names of the version directories, in the order of the listing. */
  function ValidNames(entries: seq<Entry>): seq<string> {
    if entries == [] then []
    else (if Valid(entries[0]) then [entries[0].name] else []) + ValidNames(entries[1..])
  }

  lemma {:induction false} ValidNamesSnoc(entries: seq<Entry>, e: Entry)
    ensures ValidNames(entries + [e]) == ValidNames(entries) + if Valid(e) then [e.name] else []
  {
    if entries == [] {
      assert (entries + [e])[1..] == [];
    } else {
      ValidNamesSnoc(entries[1..], e);
      assert (entries + [e])[1..] == entries[1..] + [e];
    }
  }

  function Paths(infos: seq<VersionInfo>): (paths: seq<string>)
    ensures |paths| == |infos| && forall i :: 0 <= i < |paths| ==> paths[i] == infos[i].dirPath
  {
    seq(|infos|, i requires 0 <= i < |infos| => infos[i].dirPath)
  }

  lemma {:induction false} PathsPermuted(s: seq<VersionInfo>, t: seq<VersionInfo>)
    requires multiset(s) == multiset(t)
    ensures multiset(Paths(s)) == multiset(Paths(t))
    decreases |s|
  {
    assert |multiset(s)| == |s| && |multiset(t)| == |t|;
    if s != [] {
      assert s[0] in multiset(s);
      var i := IndexIn(t, s[0]);
      WithoutBoth(s, 0, t, i);
      PathsWithout(s, 0);
      PathsWithout(t, i);
      PathsPermuted(Without(s, 0), Without(t, i));
    }
  }

  lemma PathsWithout(t: seq<VersionInfo>, i: nat)
    requires i < |t|
    ensures multiset(Paths(t)) == multiset(Paths(Without(t, i))) + multiset{t[i].dirPath}
  {
    MultisetWithout(Paths(t), i);
    assert Paths(Without(t, i)) == Without(Paths(t), i);
  }

  /** The version directories of a listing. */
  method Collect(entries: seq<Entry>) returns (versions: seq<VersionInfo>)
    ensures Paths(versions) == ValidNames(entries)
    ensures forall v :: v in versions ==> v.original == TrimPrefix(v.dirPath, "v")
  {
    versions := [];
    for i := 0 to |entries|
      invariant Paths(versions) == ValidNames(entries[..i])
      invariant forall v :: v in versions ==> v.original == TrimPrefix(v.dirPath, "v")
    {
      ValidNamesSnoc(entries[..i], entries[i]);
      assert entries[..i + 1] == entries[..i] + [entries[i]];
      if entries[i].isDir {
        var versionStr := TrimPrefix(entries[i].name, "v");
        if versionStr != "" {
          assert Paths(versions + [VersionInfo(versionStr, entries[i].name)]) == Paths(versions) + [entries[i].name];
          versions := versions + [VersionInfo(versionStr, entries[i].name)];
        }
      }
    }
    assert entries[..|entries|] == entries;
  }

  /** A list sorted from the newest version to the oldest, on the names without a leading `v`. */
  ghost predicate Descending(paths: seq<string>) {
    forall i, j :: 0 <= i < j < |paths| ==> CompareKeys(TrimPrefix(paths[i], "v"), TrimPrefix(paths[j], "v")) >= 0
  }

  lemma SortedIsDescending(infos: seq<VersionInfo>)
    requires Sorted(infos, Newer) && forall v :: v in infos ==> v.original == TrimPrefix(v.dirPath, "v")
    ensures Descending(Paths(infos))
  {
    forall i, j | 0 <= i < j < |infos|
      ensures CompareKeys(infos[i].original, infos[j].original) >= 0
    {
      assert !Newer(infos[j], infos[i]);
      CompareIsOrder(infos[i].original, infos[j].original, infos[j].original);
    }
    forall i | 0 <= i < |infos|
      ensures infos[i].original == TrimPrefix(Paths(infos)[i], "v")
    {
      assert infos[i] in infos;
    }
  }

  /** `GetAllVersionDirsSortedDesc`: every version directory once, newest first, or the reason there is none. */
  method GetAllVersionDirsSortedDesc(listing: Listing) returns (r: Result)
    ensures r.Ok? <==> listing.Entries? && ValidNames(listing.entries) != []
    ensures r.Ok? ==> multiset(r.dirPaths) == multiset(ValidNames(listing.entries)) && Descending(r.dirPaths)
    ensures r.Err? ==> r.error == if listing.ReadError? then ReadFailed
                                  else if listing.entries == [] then NoEntries else NoValidEntries
  {
    if listing.ReadError? {
      return Err(ReadFailed);
    }
    if |listing.entries| == 0 {
      return Err(NoEntries);
    }
    var versions := Collect(listing.entries);
    if |versions| == 0 {
      return Err(NoValidEntries);
    }
    var paths := SortedPaths(versions);
    r := Ok(paths);
  }

  lemma OriginalsKept(versions: seq<VersionInfo>, arranged: seq<VersionInfo>)
    requires multiset(arranged) == multiset(versions)
    requires forall v :: v in versions ==> v.original == TrimPrefix(v.dirPath, "v")
    ensures forall v :: v in arranged ==> v.original == TrimPrefix(v.dirPath, "v")
  {
    forall v | v in arranged
      ensures v.original == TrimPrefix(v.dirPath, "v")
    {
      assert v in multiset(arranged);
      assert v in versions;
    }
  }

  method SortedPaths(versions: seq<VersionInfo>) returns (sortedDirPaths: seq<string>)
    requires forall v :: v in versions ==> v.original == TrimPrefix(v.dirPath, "v")
    ensures multiset(sortedDirPaths) == multiset(Paths(versions)) && Descending(sortedDirPaths)
  {
    var a := new VersionInfo[|versions|](i requires 0 <= i < |versions| => versions[i]);
    assert a[..] == versions;
    NewerIsStrictWeak();
    Sort(a, Newer);
    ghost var arranged := a[..];
    PathsPermuted(arranged, versions);
    OriginalsKept(versions, arranged);
    SortedIsDescending(arranged);
    sortedDirPaths := PathsOf(a);
  }

  method PathsOf(a: array<VersionInfo>) returns (sortedDirPaths: seq<string>)
    ensures sortedDirPaths == Paths(a[..])
  {
    sortedDirPaths := [];
    for i := 0 to a.Length
      invariant |sortedDirPaths| == i && forall k :: 0 <= k < i ==> sortedDirPaths[k] == a[k].dirPath
    {
      sortedDirPaths := sortedDirPaths + [a[i].dirPath];
    }
  }

  // ---------- the order, piece by piece ----------

  /** The pieces are cut at every dot and dash, and nowhere else. */
  lemma {:induction false} SplitVersionIs(v: string)
    ensures var pieces := SplitVersion(v);
            var text := Join(pieces, ".");
            && |text| == |v| && (forall i :: 0 <= i < |v| ==> text[i] == if v[i] == '-' then '.' else v[i])
            && forall p :: p in pieces ==> '.' !in p && '-' !in p
  {
    var text := ReplaceAll(v, "-", ".");
    DashesReplaced(v, '-', '.');
    JoinSplit(text, ".");
    SplitPiecesFree(text, '.');
    NoDashes(text);
  }

  lemma {:induction false} DashesReplaced(v: string, dash: char, dot: char)
    ensures var text := ReplaceAll(v, [dash], [dot]);
            |text| == |v| && forall i :: 0 <= i < |v| ==> text[i] == if v[i] == dash then dot else v[i]
  {
    if v != "" {
      DashesReplaced(v[1..], dash, dot);
      assert [dash] <= v <==> v[0] == dash;
    }
  }

  lemma {:induction false} NoDashes(text: string)
    requires '-' !in text
    ensures forall p :: p in Split(text, ".") ==> '-' !in p
    decreases |text|
  {
    var i := IndexOf(text, ".");
    if i >= 0 {
      var rest := text[i + 1..];
      assert forall c :: c in rest ==> c in text;
      assert forall c :: c in text[..i] ==> c in text;
      NoDashes(rest);
    }
  }

  /** The number of a piece of digits, at most the largest integer, and zero for an empty one. */
  function NumberOf(piece: string): nat
    requires forall c :: c in piece ==> '0' <= c <= '9'
  {
    if Decimal(piece) > MAX_INT then MAX_INT else Decimal(piece)
  }

  predicate Numeric(piece: string) {
    forall c :: c in piece ==> '0' <= c <= '9'
  }

  /** Numbers by their size, before words, and words as in a dictionary. */
  predicate PieceBelow(p: string, q: string) {
    if Numeric(p) && Numeric(q) then NumberOf(p) < NumberOf(q)
    else if Numeric(p) || Numeric(q) then Numeric(p)
    else TextBelow(p, q)
  }

  lemma {:induction false} PieceBelowIs(p: string, q: string)
    ensures CompareParts(PartOf(p), PartOf(q)) < 0 <==> PieceBelow(p, q)
  {
    if Numeric(p) {
      AtoiOfDigits(p);
    }
    if Numeric(q) {
      AtoiOfDigits(q);
    }
    StringsInOrder(p, q);
  }

  function PieceAt(v: string, k: nat): string {
    if k < |SplitVersion(v)| then SplitVersion(v)[k] else ""
  }

  /** The piece of `v` is below that of `w` at the first place where one is below the other. */
  ghost predicate VersionBelow(v: string, w: string) {
    exists k: nat :: PieceBelow(PieceAt(v, k), PieceAt(w, k))
                     && forall i: nat :: i < k ==> !PieceBelow(PieceAt(w, i), PieceAt(v, i))
  }

  lemma {:induction false} SamePart(v: string, w: string, i: nat)
    ensures At(PAD, Key(v), i) == At(PAD, Key(w), i)
       <==> !PieceBelow(PieceAt(v, i), PieceAt(w, i)) && !PieceBelow(PieceAt(w, i), PieceAt(v, i))
  {
    PieceIsPart(v, i, PieceAt(v, i));
    PieceIsPart(w, i, PieceAt(w, i));
    PieceBelowIs(PieceAt(v, i), PieceAt(w, i));
    PieceBelowIs(PieceAt(w, i), PieceAt(v, i));
    PartsZero(PartOf(PieceAt(v, i)), PartOf(PieceAt(w, i)));
  }

  lemma {:induction false} FirstBelow(v: string, w: string)
    requires Precedes(PAD, Key(v), Key(w))
    ensures VersionBelow(v, w)
  {
    var k: nat :| CompareParts(At(PAD, Key(v), k), At(PAD, Key(w), k)) < 0
                  && forall i: nat :: i < k ==> At(PAD, Key(v), i) == At(PAD, Key(w), i);
    PieceIsPart(v, k, PieceAt(v, k));
    PieceIsPart(w, k, PieceAt(w, k));
    PieceBelowIs(PieceAt(v, k), PieceAt(w, k));
    forall i: nat | i < k
      ensures !PieceBelow(PieceAt(w, i), PieceAt(v, i))
    {
      SamePart(v, w, i);
    }
  }

  lemma {:induction false} NotBothBelow(v: string, w: string)
    requires VersionBelow(v, w)
    ensures !VersionBelow(w, v) && !SameStream(PAD, Key(v), Key(w))
  {
    var k: nat :| PieceBelow(PieceAt(v, k), PieceAt(w, k))
                  && forall i: nat :: i < k ==> !PieceBelow(PieceAt(w, i), PieceAt(v, i));
    SamePart(v, w, k);
    assert !PieceBelow(PieceAt(w, k), PieceAt(v, k)) by {
      PieceBelowIs(PieceAt(v, k), PieceAt(w, k));
      PieceBelowIs(PieceAt(w, k), PieceAt(v, k));
      PartsZero(PartOf(PieceAt(v, k)), PartOf(PieceAt(w, k)));
    }
  }

  /** The comparison in terms of the pieces. */
  lemma {:induction false} CompareIsVersionOrder(v: string, w: string)
    ensures CompareKeys(v, w) < 0 <==> VersionBelow(v, w)
    ensures CompareKeys(v, w) > 0 <==> VersionBelow(w, v)
  {
    CompareIsLexicographic(PAD, Key(v), Key(w));
    if Precedes(PAD, Key(v), Key(w)) {
      FirstBelow(v, w);
    }
    if Precedes(PAD, Key(w), Key(v)) {
      FirstBelow(w, v);
    }
    if VersionBelow(v, w) {
      NotBothBelow(v, w);
    }
    if VersionBelow(w, v) {
      NotBothBelow(w, v);
    }
  }

  /** A version directory is one whose name is more than a `v`. */
  lemma {:induction false} ValidIs(e: Entry, v: string)
    requires v == "v"
    ensures Valid(e) <==> e.isDir && e.name != "" && e.name != v
  {
    if v <= e.name {
      assert e.name == v + e.name[|v|..];
    }
  }
}
