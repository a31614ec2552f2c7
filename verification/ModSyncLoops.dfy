/** The loops of the synchroniser, each proved to compute the function that specifies it. */
module ModSyncLoops {
  import opened Sequences
  import opened Strings
  import opened GoModText
  import opened GoModBlocks
  import opened ModSync

  lemma {:induction false} DropOne(c: char)
    ensures DropSpaces([c]) == if c == ' ' then "" else [c]
  {
    assert [c][1..] == "";
  }

  lemma {:induction false} DropSnoc(a: string, c: char)
    ensures DropSpaces(a + [c]) == if c == ' ' then DropSpaces(a) else DropSpaces(a) + [c]
  {
    DropSpacesConcat(a, [c]);
    DropOne(c);
    assert DropSpaces(a) + "" == DropSpaces(a);
  }

  /** The text read so far: the name, or the name, a blank and the rest. */
  ghost predicate ReadSoFar(done: string, i: int, pkg: string, rest: string, version: string) {
    || (i == 0 && pkg == done && ' ' !in pkg && rest == "" && version == "")
    || (i == 1 && done == pkg + [' '] + rest && ' ' !in pkg && version == DropSpaces(rest))
  }

  lemma {:induction false} ReadOne(done: string, i: int, pkg: string, rest: string, version: string, s: char)
    requires ReadSoFar(done, i, pkg, rest, version)
    ensures i == 0 && s == ' ' ==> ReadSoFar(done + [s], 1, pkg, rest, version)
    ensures i == 0 && s != ' ' ==> ReadSoFar(done + [s], 0, pkg + [s], rest, version)
    ensures i == 1 ==> ReadSoFar(done + [s], 1, pkg, rest + [s], if s == ' ' then version else version + [s])
  {
    if i == 0 {
      assert pkg + [' '] + "" == pkg + [' '];
    } else {
      DropSnoc(rest, s);
      assert pkg + [' '] + (rest + [s]) == pkg + [' '] + rest + [s];
    }
  }

  lemma {:induction false} ReadAll(text: string, i: int, pkg: string, rest: string, version: string)
    requires ReadSoFar(text, i, pkg, rest, version)
    ensures SplitAtBlank(text) == (pkg, version)
  {
    ContainsChar(text, ' ');
    if i == 1 {
      IndexOfChar(pkg, ' ', rest);
      assert text[..|pkg|] == pkg && text[|pkg| + 1..] == rest;
    }
  }

  /** One turn of the loop over the characters. */
  method ReadNext(s: char, i: int, pkg: string, version: string, ghost done: string, ghost rest: string)
    returns (i': int, pkg': string, version': string, ghost rest': string)
    requires ReadSoFar(done, i, pkg, rest, version)
    ensures ReadSoFar(done + [s], i', pkg', rest', version')
  {
    ReadOne(done, i, pkg, rest, version, s);
    i', pkg', version', rest' := i, pkg, version, rest;
    if s == ' ' && i == 0 {
      i' := 1;
    } else if s != ' ' && i == 0 {
      pkg' := pkg + [s];
    } else {
      rest' := rest + [s];
      if s != ' ' && i == 1 {
        version' := version + [s];
      }
    }
  }

  method ReadText(text: string) returns (pkg: string, version: string)
    ensures SplitAtBlank(text) == (pkg, version)
  {
    pkg, version := "", "";
    var i := 0;
    ghost var rest := "";
    for k := 0 to |text|
      invariant ReadSoFar(text[..k], i, pkg, rest, version)
    {
      assert text[..k + 1] == text[..k] + [text[k]];
      i, pkg, version, rest := ReadNext(text[k], i, pkg, version, text[..k], rest);
    }
    assert text[..|text|] == text;
    ReadAll(text, i, pkg, rest, version);
  }

  method GetPackageAndVersionFromPackageVersion(pkgversion: string) returns (pkg: string, version: string)
    ensures (pkg, version) == PackageAndVersion(pkgversion)
  {
    var text := TrimPrefix(pkgversion, " ");
    pkg, version := ReadText(text);
  }

  method GetStringWithinCharacters(s: string) returns (s2: string)
    ensures s2 == Within(s, 0)
  {
    s2 := "";
    var i := 0;
    var k := 0;
    assert s[0..] == s;
    while k < |s|
      invariant 0 <= k <= |s| && 0 <= i <= 2
      invariant s2 + Within(s[k..], i) == Within(s, 0)
    {
      var ch := s[k];
      assert s[k..][0] == ch && s[k..][1..] == s[k + 1..];
      if ch == '(' {
        i := 1;
      } else if ch == ')' {
        i := 2;
      } else if i == 1 {
        assert s2 + ([ch] + Within(s[k + 1..], 1)) == s2 + [ch] + Within(s[k + 1..], 1);
        s2 := s2 + [ch];
      } else if i == 2 {
        break;
      }
      k := k + 1;
    }
  }

  method StripAllReplaces(data: seq<string>) returns (out: seq<string>)
    ensures out == Stripped(data, false)
  {
    out := [];
    var inReplaceBlock := false;
    assert data[0..] == data;
    for k := 0 to |data|
      invariant out + Stripped(data[k..], inReplaceBlock) == Stripped(data, false)
    {
      var line := data[k];
      assert data[k..][0] == line && data[k..][1..] == data[k + 1..];
      var trim := TrimSpace(line);
      if !inReplaceBlock && (trim == "replace (" || trim == "replace(") {
        inReplaceBlock := true;
        continue;
      }
      if inReplaceBlock {
        if trim == ")" {
          inReplaceBlock := false;
        }
        continue;
      }
      if Contains(trim, "=>") {
        var fields := Fields(trim);
        if |fields| > 0 && fields[0] == "replace" {
          continue;
        }
      }
      assert Stripped(data[k..], false) == [line] + Stripped(data[k + 1..], false);
      out := out + [line];
    }
  }

  /** The lines of one block; `Fatal` is the process exit. */
  method BlockReplaces(block: string) returns (p: Parsed<seq<Directive>>)
    ensures p == ParseLines(BlockLines(block))
  {
    var data := GetStringWithinCharacters(block);
    data := TrimSuffix(TrimPrefix(data, "\n"), "\n");
    var packages := Split(data, "\n");
    var found: seq<Directive> := [];
    assert packages[0..] == packages;
    BothEmpty(ParseLines(packages));
    for k := 0 to |packages|
      invariant Both(Parsed(found), ParseLines(packages[k..])) == ParseLines(packages)
    {
      assert packages[k..][0] == packages[k] && packages[k..][1..] == packages[k + 1..];
      var pkg := TrimSpace(packages[k]);
      if pkg == "" {
        continue;
      }
      var p0 := ParseDirective(pkg);
      BothAssociative(Parsed(found), ParseOne(pkg), ParseLines(packages[k + 1..]));
      if p0.Fatal? {
        return Fatal;
      }
      if |p0.value| != 0 {
        found := found + [p0.value];
      } else {
        assert found + [] == found;
      }
    }
    BothEmpty(Parsed(found));
    return Parsed(found);
  }

  method GetReplacedVersionsFromString(s: string) returns (p: Parsed<seq<Directive>>)
    ensures p == ReplacedVersions(s)
  {
    var found: seq<Directive> := [];
    var reps := Blocks(s, "replace");
    assert reps[0..] == reps;
    BothEmpty(BlocksDirectives(reps));
    for k := 0 to |reps|
      invariant Both(Parsed(found), BlocksDirectives(reps[k..])) == BlocksDirectives(reps)
    {
      assert reps[k..][0] == reps[k] && reps[k..][1..] == reps[k + 1..];
      var inOne := BlockReplaces(reps[k]);
      BothAssociative(Parsed(found), inOne, BlocksDirectives(reps[k + 1..]));
      if inOne.Fatal? {
        return Fatal;
      }
      found := found + inOne.value;
    }
    BothEmpty(Parsed(found));
    p := SingleReplaces(s, found);
  }

  method SingleReplaces(s: string, inBlocks: seq<Directive>) returns (p: Parsed<seq<Directive>>)
    ensures p == Both(Parsed(inBlocks), SingleDirectives(Lines(s), false))
  {
    var found := inBlocks;
    var inBlock := false;
    var lines := Split(s, "\n");
    assert lines[0..] == lines;
    for k := 0 to |lines|
      invariant Both(Parsed(found), SingleDirectives(lines[k..], inBlock))
             == Both(Parsed(inBlocks), SingleDirectives(lines, false))
    {
      assert lines[k..][0] == lines[k] && lines[k..][1..] == lines[k + 1..];
      var trim := TrimSpace(lines[k]);
      if !inBlock && (trim == "replace (" || trim == "replace(") {
        inBlock := true;
        continue;
      }
      if inBlock {
        if trim == ")" {
          inBlock := false;
        }
        continue;
      }
      if !Contains(trim, "=>") {
        continue;
      }
      var fields := Fields(trim);
      if |fields| == 0 || fields[0] != "replace" {
        continue;
      }
      var rest := TrimSpace(TrimPrefix(trim, fields[0]));
      var p0 := ParseDirective(rest);
      BothAssociative(Parsed(found), ParseOne(rest), SingleDirectives(lines[k + 1..], false));
      if p0.Fatal? {
        return Fatal;
      }
      if |p0.value| != 0 {
        found := found + [p0.value];
      } else {
        assert found + [] == found;
      }
    }
    BothEmpty(Parsed(found));
    return Parsed(found);
  }

  // ---------- SyncRequire ----------

  lemma {:induction false} RewrittenSnoc(required: seq<Package>, r: Package, line: string)
    ensures Rewritten(required + [r], line) == RewriteStep(r, Rewritten(required, line))
    decreases |required|
  {
    if required == [] {
      assert [r][1..] == [];
      assert required + [r] == [r];
    } else {
      assert (required + [r])[0] == required[0] && (required + [r])[1..] == required[1..] + [r];
      RewrittenSnoc(required[1..], r, RewriteStep(required[0], line));
    }
  }

  lemma FirstFiringAt(r: Package, lines: seq<string>, i: nat)
    requires i < |lines| && Fires(r, lines[i]) && forall j :: 0 <= j < i ==> !Fires(r, lines[j])
    ensures FirstFiring(r, lines) == i
  {
  }

  /** The line that pins a package, with the comment of the line it replaces. */
  method UpdatedLine(r: Package, d: string) returns (updateVersion: string)
    ensures updateVersion == PinText(r, Contains(d, "//indirect"))
  {
    updateVersion := "\t" + r.name + " " + r.version;
    if Contains(d, "//indirect") {
      updateVersion := updateVersion + " //indirect";
    }
  }

  /** The pass over the lines for one required package; `at` is the line that stopped it. */
  method RewriteOne(r: Package, data: array<string>, throwerr: bool) returns (at: int)
    modifies data
    ensures throwerr ==> data[..] == old(data[..])
    ensures throwerr ==> at == if FirstFiring(r, data[..]) < data.Length then FirstFiring(r, data[..]) else -1
    ensures !throwerr ==> at == -1
                          && forall j :: 0 <= j < data.Length ==> data[j] == RewriteStep(r, old(data[j]))
  {
    ghost var before := data[..];
    for i := 0 to data.Length
      invariant forall j :: 0 <= j < i ==> data[j] == (if throwerr then before[j] else RewriteStep(r, before[j]))
      invariant forall j :: i <= j < data.Length ==> data[j] == before[j]
      invariant throwerr ==> forall j :: 0 <= j < i ==> !Fires(r, before[j])
    {
      var d := data[i];
      if !Contains(d, "=>") && Contains(d, r.name + " ") && !Contains(d, r.version) {
        if throwerr {
          FirstFiringAt(r, before, i);
          assert data[..] == before;
          return i;
        }
        var updateVersion := UpdatedLine(r, d);
        data[i] := updateVersion;
      }
    }
    if throwerr {
      assert data[..] == before;
      assert FirstFiring(r, before) == |before|;
    }
    return -1;
  }

  /** Rewrites the require lines in place, or stops at the first mismatch when `throwerr` is set. */
  method RewriteRequires(required: seq<Package>, data: array<string>, throwerr: bool)
    returns (mismatch: seq<(Package, string)>)
    modifies data
    ensures mismatch == if throwerr then FirstMismatch(required, old(data[..])) else []
    ensures mismatch == [] ==> data[..] == if throwerr then old(data[..]) else RewrittenAll(required, old(data[..]))
  {
    ghost var lines := data[..];
    assert required[..0] == [] && required[0..] == required;
    for k := 0 to |required|
      invariant data[..] == if throwerr then lines else RewrittenAll(required[..k], lines)
      invariant throwerr ==> FirstMismatch(required, lines) == FirstMismatch(required[k..], lines)
    {
      assert required[k..][0] == required[k] && required[k..][1..] == required[k + 1..];
      assert required[..k + 1] == required[..k] + [required[k]];
      ghost var before := data[..];
      var at := RewriteOne(required[k], data, throwerr);
      if at >= 0 {
        return [(required[k], data[at])];
      }
      if !throwerr {
        forall j | 0 <= j < data.Length ensures data[j] == Rewritten(required[..k + 1], lines[j]) {
          assert data[j] == RewriteStep(required[k], before[j]);
          RewrittenSnoc(required[..k], required[k], lines[j]);
        }
      }
    }
    assert required[..|required|] == required && required[|required|..] == [];
    return [];
  }

  /** The map and the order of insertion hold the merged entries. */
  ghost predicate Holds(final: map<string, string>, order: seq<string>, entries: seq<Entry>) {
    && |order| == |entries|
    && (forall k :: 0 <= k < |order| ==>
          order[k] == entries[k].name && order[k] in final && final[order[k]] == entries[k].line)
    && (forall name :: name in final <==> Names(entries, name))
  }

  method AddOne(final: map<string, string>, order: seq<string>, name: string, line: string, ghost entries: seq<Entry>)
    returns (final': map<string, string>, order': seq<string>)
    requires Holds(final, order, entries)
    ensures Holds(final', order', AddReplace(entries, Entry(name, line)))
  {
    final', order' := final, order;
    if name == "" || line == "" || name in final {
      return;
    }
    final' := final[name := line];
    order' := order + [name];
    ghost var entries' := entries + [Entry(name, line)];
    forall n ensures n in final' <==> Names(entries', n) {
      assert n != name ==> (Names(entries, n) <==> Names(entries', n));
      assert entries'[|entries|] in entries';
    }
    forall k | 0 <= k < |order| ensures order[k] != name {
      assert entries[k] in entries;
    }
  }

  lemma MergeOne(entries: seq<Entry>, more: seq<Entry>, e: Entry)
    ensures Merge(entries, more + [e]) == AddReplace(Merge(entries, more), e)
  {
    MergeConcat(entries, more, [e]);
    assert [e][1..] == [];
  }

  method AddDirectives(final: map<string, string>, order: seq<string>, ds: seq<Directive>, ghost entries: seq<Entry>)
    returns (final': map<string, string>, order': seq<string>)
    requires Holds(final, order, entries)
    ensures Holds(final', order', Merge(entries, DirectiveEntries(ds)))
  {
    final', order' := final, order;
    for k := 0 to |ds|
      invariant Holds(final', order', Merge(entries, DirectiveEntries(ds[..k])))
    {
      var replaced := ds[k];
      assert ds[..k + 1] == ds[..k] + [replaced];
      DirectiveEntriesConcat(ds[..k], [replaced]);
      assert [replaced][1..] == [];
      if |replaced| >= 1 {
        assert DirectiveEntries([replaced]) == [EntryOf(replaced)];
        MergeOne(entries, DirectiveEntries(ds[..k]), EntryOf(replaced));
        final', order' := AddOne(final', order', replaced[0].name, FormatReplaceLine(replaced),
                                 Merge(entries, DirectiveEntries(ds[..k])));
      } else {
        assert DirectiveEntries(ds[..k]) + [] == DirectiveEntries(ds[..k]);
      }
    }
    assert ds[..|ds|] == ds;
  }

  lemma {:induction false} PinEntriesConcat(a: seq<Package>, b: seq<Package>)
    ensures PinEntries(a + b) == PinEntries(a) + PinEntries(b)
  {
    if a == [] {
      assert a + b == b;
    } else {
      assert (a + b)[0] == a[0] && (a + b)[1..] == a[1..] + b;
      PinEntriesConcat(a[1..], b);
    }
  }

  method AddPins(final: map<string, string>, order: seq<string>, required: seq<Package>, ghost entries: seq<Entry>)
    returns (final': map<string, string>, order': seq<string>)
    requires Holds(final, order, entries)
    ensures Holds(final', order', Merge(entries, PinEntries(required)))
  {
    final', order' := final, order;
    for k := 0 to |required|
      invariant Holds(final', order', Merge(entries, PinEntries(required[..k])))
    {
      var r := required[k];
      assert required[..k + 1] == required[..k] + [r];
      PinEntriesConcat(required[..k], [r]);
      assert [r][1..] == [];
      var line := "\t" + r.name + " => " + r.name + " " + r.version;
      assert PinEntries([r]) == [Entry(r.name, line)];
      MergeOne(entries, PinEntries(required[..k]), Entry(r.name, line));
      final', order' := AddOne(final', order', r.name, line, Merge(entries, PinEntries(required[..k])));
    }
    assert required[..|required|] == required;
  }

  /** The whole run computes `Synchronized`. */
  method SyncRequire(g: GoMod, text: string, throwerr: bool) returns (res: SyncResult)
    ensures res == Synchronized(g, text, throwerr)
  {
    var lines := Split(text, "\n");
    var data := new string[|lines|](i requires 0 <= i < |lines| => lines[i]);
    assert data[..] == lines;
    var mismatch := RewriteRequires(g.required, data, throwerr);
    if |mismatch| != 0 {
      return Mismatch(mismatch[0].0, mismatch[0].1);
    }
    MismatchRewritesNothing(g.required, lines);
    var final, order := map[], [];
    final, order := AddDirectives(final, order, g.replaced, []);
    final, order := AddPins(final, order, g.required, Merge([], DirectiveEntries(g.replaced)));
    var dest := GetReplacedVersionsFromString(text);
    if dest.Fatal? {
      return InvalidGoMod;
    }
    ghost var source := DirectiveEntries(g.replaced) + PinEntries(g.required);
    MergeConcat([], DirectiveEntries(g.replaced), PinEntries(g.required));
    final, order := AddDirectives(final, order, dest.value, Merge([], source));
    MergeConcat([], source, DirectiveEntries(dest.value));
    var out := StripAllReplaces(data[..]);
    out := AppendBlock(out, final, order, Merged(g, text));
    return Synced(Join(out, "\n"));
  }

  method AppendBlock(data: seq<string>, final: map<string, string>, order: seq<string>, ghost entries: seq<Entry>)
    returns (out: seq<string>)
    requires Holds(final, order, entries)
    ensures out == data + BlockOf(entries)
  {
    out := data;
    if |order| > 0 {
      var opener := ["replace ("];
      out := out + opener;
      ghost var lines := EntryLines(entries);
      out := AppendLines(out, final, order, lines);
      out := out + [")"];
      Regroup(data, opener, lines);
      Regroup(data, opener + lines, [")"]);
    } else {
      assert data + [] == data;
    }
  }

  method AppendLines(data: seq<string>, final: map<string, string>, order: seq<string>, ghost lines: seq<string>)
    returns (out: seq<string>)
    requires |lines| == |order| && forall k :: 0 <= k < |order| ==> order[k] in final && final[order[k]] == lines[k]
    ensures out == data + lines
  {
    out := data;
    for k := 0 to |order|
      invariant out == data + lines[..k]
    {
      out := out + [final[order[k]]];
      assert lines[..k + 1] == lines[..k] + [lines[k]];
    }
    assert lines[..|order|] == lines;
  }

  /** In the `--err` mode a run that finds no mismatch has nothing to rewrite. */
  lemma {:induction false} MismatchRewritesNothing(required: seq<Package>, lines: seq<string>)
    ensures FirstMismatch(required, lines) == [] ==> RewrittenAll(required, lines) == lines
  {
    if required != [] && FirstMismatch(required, lines) == [] {
      MismatchRewritesNothing(required[1..], lines);
      assert FirstFiring(required[0], lines) == |lines|;
      forall i | 0 <= i < |lines| ensures Rewritten(required, lines[i]) == lines[i] {
        assert RewrittenAll(required[1..], lines)[i] == lines[i];
      }
    }
  }
}
