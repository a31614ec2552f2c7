/** When a second run of `SyncRequire` on its own output changes nothing. */
module ModSyncFixpoint {
  import opened Strings
  import opened GoModText
  import opened GoModBlocks
  import opened ModSync

  /** Every required module is listed once, and no module is named like the end of a version. */
  predicate ProperSource(required: seq<Package>) {
    && (forall r :: r in required ==> CleanPackage(r))
    && (forall r, s :: r in required && s in required && r.name == s.name ==> r == s)
    && (forall r, s :: r in required && s in required ==> !HasSuffix(s.version, r.name))
  }

  lemma OwnPinQuiet(r: Package, indirect: bool)
    ensures !Fires(r, PinText(r, indirect))
  {
    var line := PinText(r, indirect);
    assert line[2 + |r.name|..2 + |r.name| + |r.version|] == r.version;
    ContainsAt(line, r.version, 2 + |r.name|);
  }

  /** The characters of the line a pin writes. */
  ghost predicate PinShape(line: string, name: string, version: string) {
    var n, v := |name|, |version|;
    && |line| >= n + v + 2 && line[0] == '\t' && line[n + 1] == ' '
    && (forall k :: 0 <= k < n ==> line[k + 1] == name[k])
    && (forall k :: 0 <= k < v ==> line[k + n + 2] == version[k])
    && (forall k :: n + v + 2 < k < |line| ==> line[k] != ' ')
  }

  lemma PinTextShape(s: Package, indirect: bool)
    ensures PinShape(PinText(s, indirect), s.name, s.version)
  {
    var line := PinText(s, indirect);
    var m := |s.name| + |s.version| + 2;
    assert indirect ==> line[m..] == " //indirect";
    forall k | m < k < |line| ensures line[k] != ' ' {
      assert line[k] == line[m..][k - m];
    }
  }

  predicate InkOnly(s: string) {
    forall c :: c in s ==> !IsSpace(c)
  }

  /** A word followed by a blank in such a line ends where the name or the version ends. */
  lemma WordEnds(line: string, name: string, version: string, i: nat, e: nat)
    requires PinShape(line, name, version) && InkOnly(name) && InkOnly(version)
    requires i < e < |line| && line[e] == ' ' && forall k :: i <= k < e ==> !IsSpace(line[k])
    ensures (i >= 1 && e == |name| + 1) || (i >= |name| + 2 && e == |name| + |version| + 2)
  {
    var n := |name|;
    forall k | 1 <= k <= n ensures !IsSpace(line[k]) {
      assert line[k - 1 + 1] == name[k - 1] && name[k - 1] in name;
    }
    forall k | n + 2 <= k < n + |version| + 2 ensures !IsSpace(line[k]) {
      assert line[k - n - 2 + n + 2] == version[k - n - 2] && version[k - n - 2] in version;
    }
    assert IsSpace(line[n + 1]);
  }

  lemma SuffixAt(s: string, word: string, line: string, from: nat, i: nat)
    requires i + |word| <= |line| && line[i..i + |word|] == word
    requires from + |s| <= |line| && forall k :: 0 <= k < |s| ==> line[k + from] == s[k]
    ensures from <= i && i + |word| == from + |s| ==> HasSuffix(s, word)
  {
    if from <= i && i + |word| == from + |s| {
      var end := s[|s| - |word|..];
      forall k | 0 <= k < |word| ensures end[k] == word[k] {
        assert word[k] == line[i..i + |word|][k] == line[i + k];
      }
    }
  }

  /** A word and a blank are in a pin's line exactly when the word ends the module name, or ends the version
      and the line is marked indirect. */
  lemma {:induction false} PinNames(s: Package, indirect: bool, word: string)
    requires CleanPackage(s) && CleanWord(word)
    ensures Contains(PinText(s, indirect), word + " ")
       <==> HasSuffix(s.name, word) || (indirect && HasSuffix(s.version, word))
  {
    PinTextShape(s, indirect);
    if Contains(PinText(s, indirect), word + " ") {
      NamedInPin(word, s.name, s.version, PinText(s, indirect));
    }
    if HasSuffix(s.name, word) {
      PinNamesItsSuffix(s, word, indirect);
    }
    if indirect && HasSuffix(s.version, word) {
      VersionNamed(s, word);
    }
  }

  lemma VersionNamed(s: Package, word: string)
    requires HasSuffix(s.version, word)
    ensures Contains(PinText(s, true), word + " ")
  {
    var line := PinText(s, true);
    var from := 2 + |s.name| + |s.version| - |word|;
    assert line[from..from + |word| + 1] == word + " ";
    ContainsAt(line, word + " ", from);
  }

  /** A pin fires on another pin's line only if its module name ends that line's module name. */
  lemma {:induction false} FiresOnPin(r: Package, s: Package, indirect: bool)
    requires CleanPackage(r) && CleanPackage(s) && !HasSuffix(s.version, r.name)
    requires Fires(r, PinText(s, indirect))
    ensures HasSuffix(s.name, r.name)
  {
    PinNames(s, indirect, r.name);
  }

  lemma {:induction false} NamedInPin(word: string, name: string, version: string, line: string)
    requires PinShape(line, name, version) && CleanWord(word) && CleanWord(name) && CleanWord(version)
    requires Contains(line, word + " ")
    ensures HasSuffix(name, word) || (|line| > |name| + |version| + 2 && HasSuffix(version, word))
  {
    var i := WordOccurs(word, line);
    FoundInPin(word, name, version, line, i);
  }

  lemma InkAt(line: string, word: string, i: nat)
    requires i + |word| <= |line| && line[i..i + |word|] == word && InkOnly(word)
    ensures forall k :: i <= k < i + |word| ==> !IsSpace(line[k])
  {
    forall k | i <= k < i + |word| ensures !IsSpace(line[k]) {
      assert line[i..i + |word|][k - i] in word;
    }
  }

  lemma {:induction false} FoundInPin(word: string, name: string, version: string, line: string, i: nat)
    requires PinShape(line, name, version) && word != "" && InkOnly(word) && InkOnly(name) && InkOnly(version)
    requires i + |word| < |line| && line[i..i + |word|] == word && line[i + |word|] == ' '
    ensures HasSuffix(name, word) || (|line| > |name| + |version| + 2 && HasSuffix(version, word))
  {
    InkAt(line, word, i);
    SuffixAt(name, word, line, 1, i);
    SuffixAt(version, word, line, |name| + 2, i);
    WordEnds(line, name, version, i, i + |word|);
  }

  lemma SuffixEqual(s: string, word: string)
    ensures HasSuffix(s, word) && |s| <= |word| ==> s == word
  {
  }

  /** Rewriting a pin's line yields a pin's line whose module name is no longer. */
  lemma {:induction false} RewriteShrinks(all: seq<Package>, required: seq<Package>, s: Package, indirect: bool)
    returns (t: Package, indirect': bool)
    requires ProperSource(all) && s in all && forall r :: r in required ==> r in all
    ensures t in all && Rewritten(required, PinText(s, indirect)) == PinText(t, indirect')
    ensures |t.name| <= |s.name|
    decreases |required|
  {
    if required == [] {
      t, indirect' := s, indirect;
    } else {
      var r := required[0];
      assert r in required;
      if Fires(r, PinText(s, indirect)) {
        FiresOnPin(r, s, indirect);
        t, indirect' := RewriteShrinks(all, required[1..], r, Contains(PinText(s, indirect), "//indirect"));
      } else {
        t, indirect' := RewriteShrinks(all, required[1..], s, indirect);
      }
    }
  }

  /** A pass over the pins leaves a line alone exactly when no pin fires on it. */
  lemma {:induction false} FixedIffQuiet(all: seq<Package>, required: seq<Package>, line: string)
    requires ProperSource(all) && forall r :: r in required ==> r in all
    ensures Rewritten(required, line) == line <==> Quiet(required, line)
    decreases |required|
  {
    if required != [] {
      var r := required[0];
      assert r in required;
      if !Fires(r, line) {
        FixedIffQuiet(all, required[1..], line);
      } else {
        var indirect := Contains(line, "//indirect");
        var t, indirect' := RewriteShrinks(all, required[1..], r, indirect);
        OwnPinQuiet(r, indirect');
        if line == PinText(t, indirect') {
          SuffixEqual(t.name, r.name);
          FiresOnPin(r, t, indirect');
        }
      }
    }
  }

  /** The second run rewrites the kept lines and emits the same block. */
  lemma SecondRun(g: GoMod, text: string)
    requires WellFormed(g, text)
    ensures var kept := Kept(g, text);
            var again := if kept + BlockOf(Merged(g, text)) == [] then [""] else RewrittenAll(g.required, kept);
            Synchronized(g, Output(g, text), false) == Synced(Join(again + BlockOf(Merged(g, text)), "\n"))
  {
    var output := Output(g, text);
    var ds := OutputRead(g, text);
    OutputWellFormed(g, text);
    KeptLines(g, output);
    EmptyUnfired(g.required);
    MergeTwice(DirectiveEntries(g.replaced) + PinEntries(g.required), DirectiveEntries(ReplacedVersions(text).value));
  }

  lemma {:induction false} EmptyUnfired(required: seq<Package>)
    requires forall r :: r in required ==> CleanPackage(r)
    ensures RewrittenAll(required, [""]) == [""] && Quiet(required, "")
  {
    if required != [] {
      forall r | r in required ensures !Fires(r, "") {
        assert !Contains("", r.name + " ");
      }
      EmptyUnfired(required[1..]);
      assert required[0] in required;
    }
  }

  lemma JoinInjective(a: seq<string>, b: seq<string>)
    requires a != [] && b != [] && forall l :: l in a || l in b ==> '\n' !in l
    ensures Join(a, "\n") == Join(b, "\n") <==> a == b
  {
    SplitJoin(a, '\n');
    SplitJoin(b, '\n');
  }

  lemma BlockNoNewlines(g: GoMod, text: string)
    requires WellFormed(g, text)
    ensures forall l :: l in BlockOf(Merged(g, text)) ==> '\n' !in l
  {
    MergedGood(g, text);
    var m := Merged(g, text);
    EntriesInside(m);
    forall l | l in BlockOf(m)
      ensures '\n' !in l
    {
      assert m != [] && (l in EntryLines(m) || l == "replace (" || l == ")");
    }
  }

  lemma AppendSame<T>(a: seq<T>, b: seq<T>, c: seq<T>)
    requires |a| == |b|
    ensures a + c == b + c <==> a == b
  {
    assert (a + c)[..|a|] == a && (b + c)[..|b|] == b;
  }

  lemma RewrittenAllSame(required: seq<Package>, lines: seq<string>)
    ensures RewrittenAll(required, lines) == lines <==> forall l :: l in lines ==> Rewritten(required, l) == l
  {
    var again := RewrittenAll(required, lines);
    if forall l :: l in lines ==> Rewritten(required, l) == l {
      forall i | 0 <= i < |lines| ensures again[i] == lines[i] {
        assert lines[i] in lines;
      }
    }
    if again == lines {
      forall l | l in lines ensures Rewritten(required, l) == l {
        var i :| 0 <= i < |lines| && lines[i] == l;
        assert again[i] == lines[i];
      }
    }
  }

  lemma RewrittenAllLines(required: seq<Package>, lines: seq<string>)
    requires forall r :: r in required ==> CleanPackage(r)
    requires forall l :: l in lines ==> '\n' !in l
    ensures forall l :: l in RewrittenAll(required, lines) ==> '\n' !in l
  {
    var again := RewrittenAll(required, lines);
    forall l | l in again ensures '\n' !in l {
      var i :| 0 <= i < |again| && again[i] == l;
      assert lines[i] in lines;
      RewrittenOrdinary(required, lines[i]);
    }
  }

  lemma SameOutput(kept: seq<string>, again: seq<string>, block: seq<string>)
    requires |kept| == |again| && kept + block != []
    requires forall l :: l in kept || l in again || l in block ==> '\n' !in l
    ensures Join(kept + block, "\n") == Join(again + block, "\n") <==> kept == again
  {
    JoinInjective(kept + block, again + block);
    AppendSame(kept, again, block);
  }

  /** Running the synchroniser on its own output changes nothing exactly when a pass over the pins leaves every
      line alone that the first run kept. */
  lemma IdempotentIffFixed(g: GoMod, text: string)
    requires WellFormed(g, text)
    ensures Synchronized(g, Output(g, text), false) == Synced(Output(g, text))
       <==> forall l :: l in Kept(g, text) ==> Rewritten(g.required, l) == l
  {
    var kept, block := Kept(g, text), BlockOf(Merged(g, text));
    SecondRun(g, text);
    RewrittenAllSame(g.required, kept);
    if kept + block != [] {
      var again := RewrittenAll(g.required, kept);
      assert Join(kept + block, "\n") == Join(again + block, "\n") <==> kept == again by {
        KeptLines(g, text);
        BlockNoNewlines(g, text);
        RewrittenAllLines(g.required, kept);
        SameOutput(kept, again, block);
      }
    } else {
      assert kept == [] && [""] + block == [""];
    }
  }

  /** For a source that lists every module once, this is to say that no require pin fires on a kept line. */
  lemma Idempotence(g: GoMod, text: string)
    requires WellFormed(g, text) && ProperSource(g.required)
    ensures Synchronized(g, Output(g, text), false) == Synced(Output(g, text))
       <==> forall l :: l in Kept(g, text) ==> Quiet(g.required, l)
  {
    IdempotentIffFixed(g, text);
    forall l | l in Kept(g, text)
      ensures Rewritten(g.required, l) == l <==> Quiet(g.required, l)
    {
      FixedIffQuiet(g.required, g.required, l);
    }
  }

  // ---------- a condition on the source alone ----------

  /** No required module's name ends another's. */
  predicate NoOverlap(required: seq<Package>) {
    forall r, s :: r in required && s in required && HasSuffix(s.name, r.name) ==> r.name == s.name
  }

  lemma PinQuiet(required: seq<Package>, r: Package, indirect: bool)
    requires ProperSource(required) && NoOverlap(required) && r in required
    ensures Quiet(required, PinText(r, indirect))
  {
    OwnPinQuiet(r, indirect);
    forall s | s in required && s != r ensures !Fires(s, PinText(r, indirect)) {
      if Fires(s, PinText(r, indirect)) {
        FiresOnPin(s, r, indirect);
      }
    }
  }

  lemma {:induction false} RewrittenQuiet(all: seq<Package>, required: seq<Package>, line: string)
    requires ProperSource(all) && NoOverlap(all) && forall r :: r in required ==> r in all
    requires forall r :: r in all ==> r in required || !Fires(r, line)
    ensures Quiet(all, Rewritten(required, line))
    decreases |required|
  {
    if required != [] {
      var r := required[0];
      assert r in required;
      if Fires(r, line) {
        PinQuiet(all, r, Contains(line, "//indirect"));
      }
      RewrittenQuiet(all, required[1..], RewriteStep(r, line));
    }
  }

  /** When no required module's name ends another's, the second run changes nothing, whatever the destination. */
  lemma IdempotentWithoutOverlap(g: GoMod, text: string)
    requires WellFormed(g, text) && ProperSource(g.required) && NoOverlap(g.required)
    ensures Synchronized(g, Output(g, text), false) == Synced(Output(g, text))
  {
    KeptLines(g, text);
    var kept, lines := Kept(g, text), Stripped(Lines(text), false);
    forall l | l in kept ensures Quiet(g.required, l) {
      var i :| 0 <= i < |lines| && kept[i] == l;
      RewrittenQuiet(g.required, g.required, lines[i]);
    }
    Idempotence(g, text);
  }

  // ---------- the `--err` mode ----------

  lemma {:induction false} MismatchIffFires(required: seq<Package>, lines: seq<string>)
    ensures FirstMismatch(required, lines) == [] <==> forall l :: l in lines ==> Quiet(required, l)
  {
    if required != [] {
      var i := FirstFiring(required[0], lines);
      MismatchIffFires(required[1..], lines);
      if i < |lines| {
        assert lines[i] in lines && required[0] in required;
      } else {
        forall l | l in lines ensures Quiet(required, l) <==> Quiet(required[1..], l) {
          var k :| 0 <= k < |lines| && lines[k] == l;
        }
      }
    }
  }

  lemma DirectiveUnfired(r: Package, line: string)
    requires CleanPackage(r) && '\n' !in line && (IsOpener(TrimSpace(line)) || TrimSpace(line) == ")")
    ensures !Fires(r, line)
  {
    if Fires(r, line) {
      FiredLine(r, line);
    }
  }

  lemma BracketLines()
    ensures IsOpener(TrimSpace("replace (")) && TrimSpace(")") == ")"
  {
    TrimSpaceIs("", "replace (", "");
    TrimSpaceIs("", ")", "");
    assert "" + "replace (" + "" == "replace (" && "" + ")" + "" == ")";
  }

  lemma BlockQuiet(g: GoMod, text: string)
    requires WellFormed(g, text)
    ensures forall l :: l in BlockOf(Merged(g, text)) ==> Quiet(g.required, l)
  {
    var m := Merged(g, text);
    MergedGood(g, text);
    EntriesInside(m);
    BracketLines();
    forall l | l in BlockOf(m) ensures Quiet(g.required, l) {
      if l in EntryLines(m) {
        assert Contains(l, "=>");
      } else {
        assert l == "replace (" || l == ")";
        BracketQuiet(g.required, l);
      }
    }
  }

  lemma BracketQuiet(required: seq<Package>, l: string)
    requires forall r :: r in required ==> CleanPackage(r)
    requires '\n' !in l && (IsOpener(TrimSpace(l)) || TrimSpace(l) == ")")
    ensures Quiet(required, l)
  {
    forall r | r in required ensures !Fires(r, l) {
      DirectiveUnfired(r, l);
    }
  }

  lemma AcceptedIffQuiet(g: GoMod, text: string)
    requires WellFormed(g, text)
    ensures Synchronized(g, Output(g, text), true).Synced? <==> forall l :: l in Kept(g, text) ==> Quiet(g.required, l)
  {
    var ds := OutputRead(g, text);
    BlockQuiet(g, text);
    EmptyUnfired(g.required);
    MismatchIffFires(g.required, Lines(Output(g, text)));
  }

  /** A second run changes nothing exactly when a `--err` run accepts the output of the first. */
  lemma IdempotentIffAccepted(g: GoMod, text: string)
    requires WellFormed(g, text) && ProperSource(g.required)
    ensures Synchronized(g, Output(g, text), false) == Synced(Output(g, text))
       <==> Synchronized(g, Output(g, text), true).Synced?
  {
    Idempotence(g, text);
    AcceptedIffQuiet(g, text);
  }

  // ---------- sources on which a second run changes the output ----------

  lemma OldPinRead(p: Package)
    requires CleanPackage(p)
    ensures var text := PinText(p, false);
            ReplacedVersions(text) == Parsed([]) && Lines(text) == [text]
            && Stripped([text], false) == [text] && PlainLine(text)
  {
    var text := PinText(p, false);
    PinLineOrdinary(p, false);
    var lines := [text];
    UntouchedLines(lines);
    SplitJoin(lines, '\n');
    CanonicalDirectives(lines);
    BothEmpty(Parsed([]));
  }

  lemma PinNamesItself(r: Package, indirect: bool)
    ensures Contains(PinText(r, indirect), r.name + " ")
  {
    var line := PinText(r, indirect);
    assert line[1..1 + |r.name| + 1] == r.name + " ";
    ContainsAt(line, r.name + " ", 1);
  }

  lemma PinNamesItsSuffix(s: Package, name: string, indirect: bool)
    requires HasSuffix(s.name, name)
    ensures Contains(PinText(s, indirect), name + " ")
  {
    var line := PinText(s, indirect);
    var from := 1 + |s.name| - |name|;
    assert line[from..from + |name| + 1] == name + " ";
    ContainsAt(line, name + " ", from);
  }

  lemma RewrittenByTwo(r: Package, s: Package, text: string)
    requires !Fires(r, text) && Fires(s, text)
    ensures Rewritten([r, s], text) == PinText(s, Contains(text, "//indirect"))
  {
    assert [r, s][1..] == [s] && [s][1..] == [];
    assert Rewritten([r, s], text) == Rewritten([s], text);
    assert Rewritten([s], text) == Rewritten([], RewriteStep(s, text));
  }

  lemma SecondFires(r: Package, s: Package, older: Package)
    requires CleanPackage(s) && CleanPackage(older) && older.name == s.name && older.version == r.version
    requires !Contains(PinText(older, false), s.version)
    ensures !Fires(r, PinText(older, false)) && Fires(s, PinText(older, false))
  {
    var text := PinText(older, false);
    assert text[2 + |s.name|..2 + |s.name| + |r.version|] == r.version;
    ContainsAt(text, r.version, 2 + |s.name|);
    PinLineOrdinary(older, false);
    PinNamesItself(older, false);
  }

  /** A source that lists a module before one whose name it ends: the destination that requires the
      longer module at the version of the shorter one gets the right version in the first run and
      loses the requirement in the second. */
  lemma OverlapBreaks(r: Package, s: Package, older: Package)
    requires ProperSource([r, s]) && r.name != s.name && HasSuffix(s.name, r.name)
    requires older == Package(s.name, r.version, false) && !Contains(PinText(older, false), s.version)
    requires forall indirect :: !Contains(PinText(s, indirect), r.version)
    ensures var g, text := GoMod([], [r, s]), PinText(older, false);
            WellFormed(g, text) && Synchronized(g, Output(g, text), false) != Synced(Output(g, text))
  {
    var g, text := GoMod([], [r, s]), PinText(older, false);
    assert r in g.required && s in g.required;
    OldPinRead(older);
    KeptLines(g, text);
    SecondFires(r, s, older);
    RewrittenByTwo(r, s, text);
    var indirect := Contains(text, "//indirect");
    PinLineOrdinary(s, indirect);
    PinNamesItsSuffix(s, r.name, indirect);
    var kept := Kept(g, text);
    assert kept[0] == PinText(s, indirect) && kept[0] in kept;
    Idempotence(g, text);
  }

  lemma PinMissingChar(s: Package, indirect: bool, version: string, c: char)
    requires c in version && c !in s.name && c !in s.version && c !in "\t //indirect"
    ensures !Contains(PinText(s, indirect), version)
  {
    MissingChar(PinText(s, indirect), version, c);
  }

  lemma SuffixEnds(s: string, suffix: string)
    requires suffix != ""
    ensures HasSuffix(s, suffix) ==> s != "" && s[|s| - 1] == suffix[|suffix| - 1]
  {
  }

  lemma {:induction false} SimpleWord(w: string)
    requires w != "" && forall c :: c in w ==> c in "ab/v12"
    ensures CleanWord(w)
  {
    NoEqualsNoArrow(w);
  }

  lemma {:induction false} SimplePackage(p: Package)
    requires forall c :: c in p.name || c in p.version ==> c in "ab/v12"
    requires p.name != "" && p.version != "" && p.name[|p.name| - 1] == 'b' && p.name[0] != '/'
    ensures CleanPackage(p)
  {
    SimpleWord(p.name);
    SimpleWord(p.version);
    var word := "replace";
    SuffixEnds(word, p.name);
    assert word[6] == 'e';
  }

  lemma NotItsSuffix(version: string, name: string, c: char)
    requires |version| == 2 && (|name| == 3 || (|name| == 1 && name[0] == c)) && version[1] != c
    ensures !HasSuffix(version, name)
  {
    SuffixEnds(version, name);
  }

  lemma ProperPair(r: Package, s: Package)
    requires CleanPackage(r) && CleanPackage(s) && |r.name| == 1 && |s.name| == 3 && |r.version| == 2
             && |s.version| == 2
    requires r.version[1] != r.name[0] && s.version[1] != r.name[0]
    ensures ProperSource([r, s])
  {
    var c := r.name[0];
    NotItsSuffix(r.version, r.name, c);
    NotItsSuffix(r.version, s.name, c);
    NotItsSuffix(s.version, r.name, c);
    NotItsSuffix(s.version, s.name, c);
    assert forall p :: p in [r, s] ==> p == r || p == s;
  }

  lemma OverlappingPair(r: Package, s: Package)
    requires r.name == "b" && r.version == "v1" && s.name == "a/b" && s.version == "v2"
    ensures ProperSource([r, s]) && HasSuffix(s.name, r.name)
  {
    SimplePackage(r);
    SimplePackage(s);
    assert s.name[2..] == "b";
    ProperPair(r, s);
  }

  /** Idempotence fails for a source that requires `b v1` and then `a/b v2`, on a destination that requires `a/b v1`. */
  lemma {:induction false} IdempotenceFails(r: Package, s: Package, older: Package)
    requires r.name == "b" && r.version == "v1"
    requires s.name == "a/b" && s.version == "v2"
    requires older == Package(s.name, r.version, false)
    ensures var g, text := GoMod([], [r, s]), PinText(older, false);
            && WellFormed(g, text) && ProperSource(g.required)
            && Synchronized(g, Output(g, text), false) != Synced(Output(g, text))
  {
    OverlappingPair(r, s);
    PinMissingChar(s, false, r.version, '1');
    PinMissingChar(s, true, r.version, '1');
    PinMissingChar(older, false, s.version, '2');
    OverlapBreaks(r, s, older);
  }
}
