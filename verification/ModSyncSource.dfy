/** For which sources a second run of `SyncRequire` changes nothing, whatever the destination. */
module ModSyncSource {
  import opened Strings
  import opened GoModText
  import opened GoModBlocks
  import opened ModSync
  import opened ModSyncFixpoint

  const INDIRECT := "//indirect"

  /** Pin `r` rewrites the line that pin `s` wrote: its name ends that of `s`, or the version of `s` when a mark
      follows, and its version is nowhere in the line. */
  predicate Overrides(r: Package, s: Package, indirect: bool) {
    (HasSuffix(s.name, r.name) || (indirect && HasSuffix(s.version, r.name))) && !Mentions(s, indirect, r.version)
  }

  predicate Mentions(s: Package, indirect: bool, word: string) {
    Contains(s.name, word) || Contains(s.version, word) || (indirect && Contains(INDIRECT, word))
  }

  /** The pins whose line is left when `required` are applied to the line of `s`, and whether it is marked indirect. */
  function Final(required: seq<Package>, s: Package, indirect: bool): (Package, bool) {
    if required == [] then (s, indirect)
    else if Overrides(required[0], s, indirect) then Final(required[1..], required[0], Mentions(s, indirect, INDIRECT))
    else Final(required[1..], s, indirect)
  }

  /** The versions a line for module `name` has to mention so that none of these pins fires on it. */
  function Shields(required: seq<Package>, name: string): seq<string> {
    if required == [] then []
    else (if HasSuffix(name, required[0].name) then [required[0].version] else []) + Shields(required[1..], name)
  }

  /** What a line on which pin `h` is the first to fire has to mention besides its name. */
  function Others(required: seq<Package>, h: nat, indirect: bool): seq<string>
    requires h < |required|
  {
    Shields(required[..h], required[h].name) + if indirect then [INDIRECT] else []
  }

  function Words(required: seq<Package>, h: nat, indirect: bool): seq<string>
    requires h < |required|
  {
    [required[h].name] + Others(required, h, indirect)
  }

  /** Some line of a destination, marked indirect or not, is rewritten by pin `h` first: the words it must have
      mention neither the version of the pin nor, unless it is to be marked, the mark. */
  predicate FiresFirst(required: seq<Package>, h: nat, indirect: bool) {
    && h < |required|
    && forall w :: w in Words(required, h, indirect) ==>
         !Contains(w, required[h].version) && (indirect || !Contains(w, INDIRECT))
  }

  /** The line of a pin, as it is written. */
  function LineOf(line: (Package, bool)): string {
    PinText(line.0, line.1)
  }

  /** The line that is left after a pin has fired first is left alone by another pass over all pins. */
  predicate Settled(required: seq<Package>) {
    forall h, indirect :: 0 <= h < |required| && FiresFirst(required, h, indirect) ==>
      Stable(required, Final(required[h + 1..], required[h], indirect))
  }

  predicate Stable(required: seq<Package>, line: (Package, bool)) {
    LineOf(Final(required, line.0, line.1)) == LineOf(line)
  }

  predicate Unchallenged(required: seq<Package>, line: (Package, bool)) {
    forall r :: r in required ==> !Overrides(r, line.0, line.1)
  }

  // ---------- words between white space ----------

  predicate Word(v: string) {
    v != "" && forall c :: c in v ==> !IsSpace(c)
  }

  lemma OccursNested(s: string, x: string, y: string, i: nat, j: nat)
    requires OccursAt(s, x, i) && OccursAt(x, y, j)
    ensures OccursAt(s, y, i + j)
  {
    SliceOfSlice(s, i, i + |x|, j, j + |y|);
  }

  lemma ContainsTransitive(s: string, x: string, y: string)
    requires Contains(s, x) && Contains(x, y)
    ensures Contains(s, y)
  {
    var i, j := IndexOf(s, x), IndexOf(x, y);
    assert OccursAt(s, x, i) && OccursAt(x, y, j) by {
      IndexOfFirst(s, x);
      IndexOfFirst(x, y);
    }
    OccursNested(s, x, y, i, j);
    ContainsAt(s, y, i + j);
  }

  lemma PartContained(a: string, x: string, b: string)
    ensures Contains(a + x + b, x)
  {
    assert (a + x + b)[|a|..|a| + |x|] == x;
    ContainsAt(a + x + b, x, |a|);
  }

  lemma InOnePart(a: string, c: char, b: string, v: string, i: nat)
    requires IsSpace(c) && Word(v) && OccursAt(a + [c] + b, v, i)
    ensures OccursAt(a, v, i) || (i > |a| && OccursAt(b, v, i - |a| - 1))
  {
    var s := a + [c] + b;
    assert s[|a|] == c;
    forall m | i <= m < i + |v| ensures s[m] != c {
      assert s[m] == s[i..i + |v|][m - i] && v[m - i] in v;
    }
    if i + |v| <= |a| {
      assert s[i..i + |v|] == a[i..i + |v|];
    } else if i > |a| {
      assert s[i..i + |v|] == b[i - |a| - 1..i - |a| - 1 + |v|];
    }
  }

  /** A word occurs on one side of white space or on the other. */
  lemma GapContains(a: string, c: char, b: string, v: string)
    requires IsSpace(c) && Word(v)
    ensures Contains(a + [c] + b, v) <==> Contains(a, v) || Contains(b, v)
  {
    var s := a + [c] + b;
    if Contains(s, v) {
      IndexOfFirst(s, v);
      var i := IndexOf(s, v);
      InOnePart(a, c, b, v, i);
      if OccursAt(a, v, i) {
        ContainsAt(a, v, i);
      } else {
        ContainsAt(b, v, i - |a| - 1);
      }
    }
    assert s == "" + a + ([c] + b) && s == (a + [c]) + b + "";
    PartContained("", a, [c] + b);
    PartContained(a + [c], b, "");
    if Contains(a, v) {
      ContainsTransitive(s, a, v);
    }
    if Contains(b, v) {
      ContainsTransitive(s, b, v);
    }
  }

  function Spaced(words: seq<string>): string {
    if words == [] then "" else words[0] + "\t" + Spaced(words[1..])
  }

  lemma {:induction false} SpacedContains(words: seq<string>, v: string)
    requires Word(v)
    ensures Contains(Spaced(words), v) <==> exists w :: w in words && Contains(w, v)
  {
    if words == [] {
      IndexOfFirst("", v);
    } else {
      GapContains(words[0], '\t', Spaced(words[1..]), v);
      SpacedContains(words[1..], v);
      assert words == [words[0]] + words[1..];
    }
  }

  lemma EmptyContains(v: string)
    requires v != ""
    ensures !Contains("", v)
  {
    IndexOfFirst("", v);
  }

  /** A word is in the line of a pin exactly when the pin mentions it. */
  lemma PinContains(s: Package, indirect: bool, v: string)
    requires Word(v)
    ensures Contains(PinText(s, indirect), v) <==> Mentions(s, indirect, v)
  {
    var tail := if indirect then s.version + [' '] + INDIRECT else s.version;
    assert PinText(s, indirect) == "" + ['\t'] + (s.name + [' '] + tail);
    GapContains("", '\t', s.name + [' '] + tail, v);
    GapContains(s.name, ' ', tail, v);
    GapContains(s.version, ' ', INDIRECT, v);
    EmptyContains(v);
  }

  lemma IndirectIsWord()
    ensures Word(INDIRECT)
  {
  }

  // ---------- rewriting the line of a pin ----------

  /** On the line of a pin, firing is overriding. */
  lemma FiresIffOverrides(r: Package, s: Package, indirect: bool)
    requires CleanPackage(r) && CleanPackage(s)
    ensures Fires(r, PinText(s, indirect)) <==> Overrides(r, s, indirect)
  {
    WordNoArrow(s, indirect);
    PinContains(s, indirect, r.version);
    PinNames(s, indirect, r.name);
  }

  predicate AllClean(required: seq<Package>) {
    forall r :: r in required ==> CleanPackage(r)
  }

  lemma {:induction false} RewrittenFinal(required: seq<Package>, s: Package, indirect: bool)
    requires AllClean(required) && CleanPackage(s)
    ensures var final := Final(required, s, indirect);
            CleanPackage(final.0) && Rewritten(required, PinText(s, indirect)) == LineOf(final)
    decreases |required|
  {
    if required != [] {
      var r := required[0];
      assert r in required;
      FiresIffOverrides(r, s, indirect);
      IndirectIsWord();
      PinContains(s, indirect, INDIRECT);
      if Overrides(r, s, indirect) {
        RewrittenFinal(required[1..], r, Mentions(s, indirect, INDIRECT));
      } else {
        RewrittenFinal(required[1..], s, indirect);
      }
    }
  }

  lemma StableIffFixed(required: seq<Package>, line: (Package, bool))
    requires AllClean(required) && CleanPackage(line.0)
    ensures Stable(required, line) <==> Rewritten(required, LineOf(line)) == LineOf(line)
  {
    RewrittenFinal(required, line.0, line.1);
  }

  // ---------- the first pin to fire ----------

  ghost predicate FirstFires(required: seq<Package>, h: nat, line: string) {
    && h < |required| && Fires(required[h], line)
    && forall i :: 0 <= i < h ==> !Fires(required[i], line)
  }

  lemma {:induction false} SomeFires(required: seq<Package>, line: string) returns (h: nat)
    requires !Quiet(required, line)
    ensures FirstFires(required, h, line)
  {
    if Fires(required[0], line) {
      h := 0;
    } else {
      assert !Quiet(required[1..], line) by {
        var r :| r in required && Fires(r, line);
        assert r in required[1..];
      }
      h := SomeFires(required[1..], line);
      h := h + 1;
    }
  }

  lemma {:induction false} RewrittenFrom(required: seq<Package>, h: nat, line: string)
    requires FirstFires(required, h, line)
    ensures Rewritten(required, line) == Rewritten(required[h + 1..], PinText(required[h], Contains(line, INDIRECT)))
  {
    if h > 0 {
      assert !Fires(required[0], line);
      forall i | 0 <= i < h - 1
        ensures !Fires(required[1..][i], line)
      {
        assert required[1..][i] == required[i + 1];
      }
      RewrittenFrom(required[1..], h - 1, line);
      assert required[1..][h..] == required[h + 1..];
    }
  }

  lemma QuietKept(required: seq<Package>, line: string)
    requires Quiet(required, line)
    ensures Rewritten(required, line) == line
  {
    if required != [] {
      assert required[0] in required;
      QuietKept(required[1..], line);
    }
  }

  lemma SuffixNamed(line: string, name: string, suffix: string)
    requires Contains(line, name + " ") && HasSuffix(name, suffix)
    ensures Contains(line, suffix + " ")
  {
    var front := name[..|name| - |suffix|];
    assert name + " " == front + (suffix + " ") + "";
    PartContained(front, suffix + " ", "");
    ContainsTransitive(line, name + " ", suffix + " ");
  }

  lemma {:induction false} ShieldsMentioned(required: seq<Package>, name: string, line: string)
    requires Contains(line, name + " ") && !Contains(line, "=>")
    requires forall r :: r in required ==> !Fires(r, line)
    ensures forall w :: w in Shields(required, name) ==> Contains(line, w)
  {
    if required != [] {
      var r := required[0];
      assert r in required;
      if HasSuffix(name, r.name) {
        SuffixNamed(line, name, r.name);
      }
      ShieldsMentioned(required[1..], name, line);
    }
  }

  /** The words of the line on which pin `h` fires first are as they must be. */
  lemma FirstFiresFirst(required: seq<Package>, h: nat, line: string)
    requires FirstFires(required, h, line)
    ensures FiresFirst(required, h, Contains(line, INDIRECT))
  {
    var r, indirect := required[h], Contains(line, INDIRECT);
    ShieldsMentioned(required[..h], r.name, line);
    forall w | w in Words(required, h, indirect)
      ensures !Contains(w, r.version) && (indirect || !Contains(w, INDIRECT))
    {
      if w == r.name {
        PartContained("", r.name, " ");
        assert "" + r.name + " " == r.name + " ";
        ContainsTransitive(line, r.name + " ", r.name);
      }
      assert Contains(line, w);
      if Contains(w, r.version) {
        ContainsTransitive(line, w, r.version);
      }
      if Contains(w, INDIRECT) {
        ContainsTransitive(line, w, INDIRECT);
      }
    }
  }

  /** What is left of a line that pin `h` rewrites first. */
  lemma RewrittenLine(required: seq<Package>, h: nat, line: string)
    requires AllClean(required) && FirstFires(required, h, line)
    ensures var left := Final(required[h + 1..], required[h], Contains(line, INDIRECT));
            CleanPackage(left.0) && Rewritten(required, line) == LineOf(left)
  {
    assert required[h] in required;
    assert AllClean(required[h + 1..]);
    RewrittenFrom(required, h, line);
    RewrittenFinal(required[h + 1..], required[h], Contains(line, INDIRECT));
  }

  lemma RewrittenSettled(required: seq<Package>, line: string)
    requires AllClean(required) && Settled(required)
    ensures Rewritten(required, Rewritten(required, line)) == Rewritten(required, line)
  {
    if Quiet(required, line) {
      QuietKept(required, line);
    } else {
      var h := SomeFires(required, line);
      FirstFiresFirst(required, h, line);
      RewrittenLine(required, h, line);
      StableIffFixed(required, Final(required[h + 1..], required[h], Contains(line, INDIRECT)));
    }
  }

  // ---------- a line on which a pin fires first ----------

  function Line(name: string, words: seq<string>): string {
    "\t" + name + " " + Spaced(words)
  }

  lemma LineContains(name: string, words: seq<string>, v: string)
    requires Word(v)
    ensures Contains(Line(name, words), v) <==> exists w :: w in [name] + words && Contains(w, v)
  {
    var rest := name + [' '] + Spaced(words);
    assert Line(name, words) == "" + ['\t'] + rest;
    GapContains("", '\t', rest, v);
    GapContains(name, ' ', Spaced(words), v);
    SpacedContains(words, v);
    EmptyContains(v);
  }

  lemma LineNames(name: string, words: seq<string>)
    ensures Contains(Line(name, words), name + " ")
  {
    var tab := "\t";
    assert Line(name, words) == tab + (name + " ") + Spaced(words);
    PartContained(tab, name + " ", Spaced(words));
  }

  predicate WordChar(c: char) {
    !IsSpace(c) && c != '(' && c != ')'
  }

  predicate LineWords(words: seq<string>) {
    forall w :: w in words ==> forall c :: c in w ==> WordChar(c)
  }

  lemma {:induction false} SpacedChars(words: seq<string>)
    requires LineWords(words)
    ensures forall c :: c in Spaced(words) ==> c == '\t' || WordChar(c)
  {
    if words != [] {
      assert words[0] in words;
      assert LineWords(words[1..]) by {
        forall w | w in words[1..] ensures forall c :: c in w ==> WordChar(c) {
          assert w in words;
        }
      }
      SpacedChars(words[1..]);
    }
  }

  /** The only blank of the line is the one after the name, so only a suffix of the name is named there. */
  lemma OnlySuffixNamed(name: string, words: seq<string>, other: string)
    requires Word(name) && Word(other) && LineWords(words)
    requires Contains(Line(name, words), other + " ")
    ensures HasSuffix(name, other)
  {
    var line := Line(name, words);
    var i := WordOccurs(other, line);
    OneBlank(name, words);
    assert line[0] == '\t';
    forall m | i <= m < i + |other| ensures !IsSpace(line[m]) {
      assert line[m] == line[i..i + |other|][m - i] && other[m - i] in other;
    }
    assert other == line[i..|name| + 1] == name[i - 1..];
  }

  lemma OneBlank(name: string, words: seq<string>)
    requires Word(name) && LineWords(words)
    ensures var line := Line(name, words);
            forall m :: 0 <= m < |line| && line[m] == ' ' ==> m == |name| + 1
  {
    var line := Line(name, words);
    SpacedChars(words);
    forall m | 0 <= m < |line| && m != |name| + 1
      ensures line[m] != ' '
    {
      if 0 < m <= |name| {
        assert line[m] == name[m - 1] && name[m - 1] in name;
      } else if m > 0 {
        assert line[m] == Spaced(words)[m - |name| - 2] && line[m] in Spaced(words);
      }
    }
  }

  predicate PlainWords(words: seq<string>) {
    LineWords(words) && forall w :: w in words ==> !Contains(w, "=>")
  }

  lemma LineOrdinary(name: string, words: seq<string>)
    requires CleanWord(name) && PlainWords(words)
    ensures var line := Line(name, words);
            Untouched(line) && PlainLine(line) && !Contains(line, "=>")
  {
    var line := Line(name, words);
    LineContains(name, words, "=>");
    assert NoParens(line) && '\n' !in line by {
      SpacedChars(words);
      assert forall c :: c in name ==> !IsSpace(c);
    }
    NoParensPlain(line);
    NoParensCore(line);
  }

  lemma {:induction false} ShieldsPlain(required: seq<Package>, name: string)
    requires forall r :: r in required ==> CleanPackage(r)
    ensures PlainWords(Shields(required, name))
  {
    if required != [] {
      assert required[0] in required;
      ShieldsPlain(required[1..], name);
    }
  }

  lemma {:induction false} ShieldsHold(required: seq<Package>, name: string, i: nat)
    requires i < |required| && HasSuffix(name, required[i].name)
    ensures required[i].version in Shields(required, name)
  {
    if i > 0 {
      ShieldsHold(required[1..], name, i - 1);
    }
  }

  function Witness(required: seq<Package>, h: nat, indirect: bool): string
    requires h < |required|
  {
    Line(required[h].name, Others(required, h, indirect))
  }

  lemma OneWordPlain(word: string)
    requires '=' !in word && forall c :: c in word ==> WordChar(c)
    ensures PlainWords([word])
  {
    NoEqualsNoArrow(word);
  }

  lemma IndirectPlain()
    ensures PlainWords([INDIRECT])
  {
    OneWordPlain(INDIRECT);
  }

  lemma OthersPlain(required: seq<Package>, h: nat, indirect: bool)
    requires h < |required| && forall r :: r in required ==> CleanPackage(r)
    ensures PlainWords(Others(required, h, indirect))
  {
    ShieldsPlain(required[..h], required[h].name);
    IndirectPlain();
  }

  lemma WitnessOrdinary(required: seq<Package>, h: nat, indirect: bool)
    requires h < |required| && forall r :: r in required ==> CleanPackage(r)
    ensures var line := Witness(required, h, indirect);
            Untouched(line) && PlainLine(line) && !Contains(line, "=>")
  {
    assert required[h] in required;
    OthersPlain(required, h, indirect);
    LineOrdinary(required[h].name, Others(required, h, indirect));
  }

  lemma WitnessContains(required: seq<Package>, h: nat, indirect: bool, v: string)
    requires h < |required| && Word(v)
    ensures Contains(Witness(required, h, indirect), v)
            <==> exists w :: w in Words(required, h, indirect) && Contains(w, v)
  {
    LineContains(required[h].name, Others(required, h, indirect), v);
  }

  lemma WitnessMarked(required: seq<Package>, h: nat, indirect: bool)
    requires FiresFirst(required, h, indirect)
    ensures Contains(Witness(required, h, indirect), INDIRECT) <==> indirect
  {
    IndirectIsWord();
    WitnessContains(required, h, indirect, INDIRECT);
    if indirect {
      assert INDIRECT in Words(required, h, indirect);
      PartContained("", INDIRECT, "");
      assert "" + INDIRECT + "" == INDIRECT;
    }
  }

  lemma WitnessFires(required: seq<Package>, h: nat, indirect: bool)
    requires AllClean(required) && FiresFirst(required, h, indirect)
    ensures FirstFires(required, h, Witness(required, h, indirect))
  {
    var r, line, words := required[h], Witness(required, h, indirect), Others(required, h, indirect);
    assert r in required;
    WitnessOrdinary(required, h, indirect);
    OthersPlain(required, h, indirect);
    LineNames(r.name, words);
    WitnessContains(required, h, indirect, r.version);
    forall i | 0 <= i < h
      ensures !Fires(required[i], line)
    {
      var p := required[i];
      assert p in required;
      if Contains(line, p.name + " ") {
        OnlySuffixNamed(r.name, words, p.name);
        ShieldsHold(required[..h], r.name, i);
        assert p.version in Words(required, h, indirect);
        PartContained("", p.version, "");
        assert "" + p.version + "" == p.version;
        WitnessContains(required, h, indirect, p.version);
      }
    }
  }

  // ---------- the exact condition ----------

  /** A destination of one ordinary line. */
  lemma OneLine(g: GoMod, line: string)
    requires forall r :: r in g.required ==> CleanPackage(r)
    requires forall d :: d in g.replaced ==> CleanDirective(d)
    requires Untouched(line) && PlainLine(line)
    ensures WellFormed(g, line) && Kept(g, line) == [Rewritten(g.required, line)]
  {
    var lines := [line];
    UntouchedLines(lines);
    SplitJoin(lines, '\n');
    CanonicalDirectives(lines);
    BothEmpty(Parsed([]));
    KeptLines(g, line);
  }

  /** Whatever the destination, running the synchroniser on its own output changes nothing. */
  ghost predicate Repeatable(g: GoMod) {
    forall text :: WellFormed(g, text) ==> Synchronized(g, Output(g, text), false) == Synced(Output(g, text))
  }

  lemma SettledRepeats(g: GoMod, text: string)
    requires WellFormed(g, text) && Settled(g.required)
    ensures Synchronized(g, Output(g, text), false) == Synced(Output(g, text))
  {
    KeptLines(g, text);
    var kept, lines := Kept(g, text), Stripped(Lines(text), false);
    forall l | l in kept ensures Rewritten(g.required, l) == l {
      var i :| 0 <= i < |lines| && kept[i] == l;
      RewrittenSettled(g.required, lines[i]);
    }
    IdempotentIffFixed(g, text);
  }

  lemma UnsettledChanges(g: GoMod, h: nat, indirect: bool)
    requires AllClean(g.required) && forall d :: d in g.replaced ==> CleanDirective(d)
    requires FiresFirst(g.required, h, indirect)
    requires !Stable(g.required, Final(g.required[h + 1..], g.required[h], indirect))
    ensures var text := Witness(g.required, h, indirect);
            WellFormed(g, text) && Synchronized(g, Output(g, text), false) != Synced(Output(g, text))
  {
    var required, text := g.required, Witness(g.required, h, indirect);
    WitnessOrdinary(required, h, indirect);
    OneLine(g, text);
    WitnessFires(required, h, indirect);
    WitnessMarked(required, h, indirect);
    RewrittenLine(required, h, text);
    var left := Final(required[h + 1..], required[h], indirect);
    StableIffFixed(required, left);
    assert LineOf(left) in Kept(g, text);
    IdempotentIffFixed(g, text);
  }

  /** The synchroniser is idempotent on all destinations exactly when its source is settled. */
  lemma RepeatableIffSettled(g: GoMod)
    requires AllClean(g.required) && forall d :: d in g.replaced ==> CleanDirective(d)
    ensures Repeatable(g) <==> Settled(g.required)
  {
    if Settled(g.required) {
      forall text | WellFormed(g, text)
        ensures Synchronized(g, Output(g, text), false) == Synced(Output(g, text))
      {
        SettledRepeats(g, text);
      }
    } else {
      var h, indirect :| 0 <= h < |g.required| && FiresFirst(g.required, h, indirect)
                         && !Stable(g.required, Final(g.required[h + 1..], g.required[h], indirect));
      UnsettledChanges(g, h, indirect);
      assert WellFormed(g, Witness(g.required, h, indirect));
    }
  }

  // ---------- sources that list every module once ----------

  lemma {:induction false} FinalAmong(all: seq<Package>, required: seq<Package>, s: Package, indirect: bool)
    requires s in all && forall r :: r in required ==> r in all
    ensures Final(required, s, indirect).0 in all
    decreases |required|
  {
    if required != [] {
      assert required[0] in required;
      if Overrides(required[0], s, indirect) {
        FinalAmong(all, required[1..], required[0], Mentions(s, indirect, INDIRECT));
      } else {
        FinalAmong(all, required[1..], s, indirect);
      }
    }
  }

  lemma StableIffUnchallenged(required: seq<Package>, line: (Package, bool))
    requires ProperSource(required) && line.0 in required
    ensures Stable(required, line) <==> Unchallenged(required, line)
  {
    StableIffFixed(required, line);
    FixedIffQuiet(required, required, LineOf(line));
    forall r | r in required
      ensures Fires(r, LineOf(line)) <==> Overrides(r, line.0, line.1)
    {
      FiresIffOverrides(r, line.0, line.1);
    }
  }

  /** Such a source is settled exactly when no pin overrides the line that is left after a pin has fired first. */
  lemma SettledIffUnchallenged(required: seq<Package>)
    requires ProperSource(required)
    ensures Settled(required) <==>
              forall h, indirect :: 0 <= h < |required| && FiresFirst(required, h, indirect) ==>
                Unchallenged(required, Final(required[h + 1..], required[h], indirect))
  {
    forall h, indirect | 0 <= h < |required| && FiresFirst(required, h, indirect)
      ensures var left := Final(required[h + 1..], required[h], indirect);
              Stable(required, left) <==> Unchallenged(required, left)
    {
      FinalAmong(required, required[h + 1..], required[h], indirect);
      StableIffUnchallenged(required, Final(required[h + 1..], required[h], indirect));
    }
  }
}
