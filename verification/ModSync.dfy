/** `SyncRequire`: rewriting the require lines of a destination go.mod, merging three sources of
    replace directives by precedence and emitting them as one block. */
module ModSync {
  import opened Strings
  import opened GoModText
  import opened GoModBlocks

  datatype GoMod = GoMod(replaced: seq<Directive>, required: seq<Package>)

  /** `Mismatch` is the error of the `--err` mode, `InvalidGoMod` the process exit on an invalid directive. */
  datatype SyncResult = Synced(text: string) | Mismatch(required: Package, line: string) | InvalidGoMod

  /** One line of the emitted block and the module it is for. */
  datatype Entry = Entry(name: string, line: string)

  // ---------- require lines ----------

  predicate Fires(r: Package, line: string) {
    !Contains(line, "=>") && Contains(line, r.name + " ") && !Contains(line, r.version)
  }

  function PinText(r: Package, indirect: bool): string {
    "\t" + r.name + " " + r.version + (if indirect then " //indirect" else "")
  }

  function RewriteStep(r: Package, line: string): string {
    if Fires(r, line) then PinText(r, Contains(line, "//indirect")) else line
  }

  function Rewritten(required: seq<Package>, line: string): string {
    if required == [] then line else Rewritten(required[1..], RewriteStep(required[0], line))
  }

  function RewrittenAll(required: seq<Package>, lines: seq<string>): (r: seq<string>)
    ensures |r| == |lines|
    ensures forall i :: 0 <= i < |lines| ==> r[i] == Rewritten(required, lines[i])
  {
    seq(|lines|, i requires 0 <= i < |lines| => Rewritten(required, lines[i]))
  }

  /** No pin fires on the line. */
  predicate Quiet(required: seq<Package>, line: string) {
    forall r :: r in required ==> !Fires(r, line)
  }

  function FirstFiring(r: Package, lines: seq<string>): (i: nat)
    ensures i <= |lines|
    ensures i < |lines| ==> Fires(r, lines[i])
    ensures forall j :: 0 <= j < i ==> !Fires(r, lines[j])
  {
    if lines == [] || Fires(r, lines[0]) then 0 else 1 + FirstFiring(r, lines[1..])
  }

  /** What the `--err` mode reports: the first required package, in order, that fires on some line. */
  function FirstMismatch(required: seq<Package>, lines: seq<string>): seq<(Package, string)> {
    if required == [] then []
    else
      var i := FirstFiring(required[0], lines);
      if i < |lines| then [(required[0], lines[i])] else FirstMismatch(required[1..], lines)
  }

  // ---------- the merged block ----------

  /** The module a directive is for. */
  function NameOf(d: Directive): string {
    if |d| >= 1 then d[0].name else ""
  }

  function EntryOf(d: Directive): Entry {
    Entry(NameOf(d), FormatReplaceLine(d))
  }

  function DirectiveEntries(ds: seq<Directive>): seq<Entry> {
    if ds == [] then []
    else (if |ds[0]| >= 1 then [EntryOf(ds[0])] else []) + DirectiveEntries(ds[1..])
  }

  function PinEntries(required: seq<Package>): seq<Entry> {
    if required == [] then []
    else [Entry(required[0].name, "\t" + required[0].name + " => " + required[0].name + " " + required[0].version)]
         + PinEntries(required[1..])
  }

  predicate Names(entries: seq<Entry>, name: string) {
    exists e :: e in entries && e.name == name
  }

  function AddReplace(entries: seq<Entry>, e: Entry): seq<Entry> {
    if e.name == "" || e.line == "" || Names(entries, e.name) then entries else entries + [e]
  }

  function Merge(entries: seq<Entry>, more: seq<Entry>): seq<Entry>
    decreases |more|
  {
    if more == [] then entries else Merge(AddReplace(entries, more[0]), more[1..])
  }

  function EntryLines(entries: seq<Entry>): (lines: seq<string>)
    ensures |lines| == |entries|
    ensures forall i :: 0 <= i < |entries| ==> lines[i] == entries[i].line
  {
    seq(|entries|, i requires 0 <= i < |entries| => entries[i].line)
  }

  function BlockOf(entries: seq<Entry>): seq<string> {
    if entries == [] then [] else ["replace ("] + EntryLines(entries) + [")"]
  }

  /** The candidates of the block, highest precedence first. */
  function Candidates(g: GoMod, dest: seq<Directive>): seq<Entry> {
    DirectiveEntries(g.replaced) + PinEntries(g.required) + DirectiveEntries(dest)
  }

  function Kept(g: GoMod, text: string): seq<string> {
    Stripped(RewrittenAll(g.required, Lines(text)), false)
  }

  function Merged(g: GoMod, text: string): seq<Entry>
    requires ReplacedVersions(text).Parsed?
  {
    Merge([], Candidates(g, ReplacedVersions(text).value))
  }

  /** The text of the result. */
  function Output(g: GoMod, text: string): string
    requires ReplacedVersions(text).Parsed?
  {
    Join(Kept(g, text) + BlockOf(Merged(g, text)), "\n")
  }

  function Synchronized(g: GoMod, text: string, throwerr: bool): SyncResult {
    var mismatch := FirstMismatch(g.required, Lines(text));
    if throwerr && mismatch != [] then Mismatch(mismatch[0].0, mismatch[0].1)
    else if ReplacedVersions(text).Fatal? then InvalidGoMod else Synced(Output(g, text))
  }

  // ==================== clean inputs ====================

  predicate CleanWord(s: string) {
    s != "" && NoParens(s) && !Contains(s, "=>") && forall c :: c in s ==> !IsSpace(c)
  }

  /** A required package whose name is a word other than a suffix of `replace` and not a comment. */
  predicate CleanPackage(r: Package) {
    CleanWord(r.name) && CleanWord(r.version) && !HasSuffix("replace", r.name) && !("//" <= r.name)
  }

  predicate CleanToken(s: string) {
    NoParens(s) && '\n' !in s
  }

  /** A directive that survives printing and fits on one line of a block. */
  predicate CleanDirective(d: Directive) {
    && Printable(d) && d[0].name != ""
    && CleanToken(d[0].name) && CleanToken(d[0].version) && CleanToken(d[1].name) && CleanToken(d[1].version)
  }

  ghost predicate WellFormed(g: GoMod, text: string) {
    && (forall r :: r in g.required ==> CleanPackage(r))
    && (forall d :: d in g.replaced ==> CleanDirective(d))
    && ReplacedVersions(text).Parsed?
    && (forall d :: d in ReplacedVersions(text).value ==> CleanDirective(d))
    && (forall l :: l in Stripped(Lines(text), false) ==> PlainLine(l))
  }

  // ==================== rewriting commutes with stripping ====================

  /** An occurrence of a word and a blank: a maximal run without white space ends in the word. */
  lemma WordOccurs(word: string, line: string) returns (i: nat)
    requires Contains(line, word + " ")
    ensures i + |word| < |line| && line[i..i + |word|] == word && line[i + |word|] == ' '
  {
    IndexOfFirst(line, word + " ");
    i := IndexOf(line, word + " ");
    var found := line[i..i + |word| + 1];
    assert found == word + " ";
    assert line[i + |word|] == found[|word|];
    assert line[i..i + |word|] == found[..|word|];
  }

  lemma OccursInside(word: string, core: string, before: string, after: string, i: nat)
    requires word != "" && forall c :: c in word ==> !IsSpace(c)
    requires forall c :: c in before || c in after ==> IsSpace(c)
    requires var line := before + core + after; i + |word| <= |line| && line[i..i + |word|] == word
    ensures |before| <= i && i + |word| <= |before| + |core|
    ensures core[i - |before|..i - |before| + |word|] == word
  {
    var line := before + core + after;
    var last := i + |word| - 1;
    assert forall k :: 0 <= k < |before| ==> line[k] in before;
    assert forall k :: |before| + |core| <= k < |line| ==> line[k] in after;
    assert line[i] == word[0] && word[0] in word;
    assert line[last] == word[|word| - 1] && word[|word| - 1] in word;
    SliceOfSlice(line, |before|, |before| + |core|, i - |before|, i - |before| + |word|);
    assert line[|before|..|before| + |core|] == core;
  }

  lemma OpenerShape(core: string)
    requires IsOpener(core)
    ensures |core| >= 8 && core[..7] == "replace" && core[|core| - 1] == '('
    ensures |core| == 8 || (|core| == 9 && core[7] == ' ')
    ensures forall k :: 0 <= k < 7 ==> core[k] != ' '
  {
  }

  /** A word of an opener that ends before a space is a suffix of its first seven characters. */
  lemma WordInOpener(core: string, word: string, j: nat, first: string)
    requires |core| == 8 || (|core| == 9 && core[7] == ' ')
    requires core[..7] == first && core[|core| - 1] == '(' && forall k :: 0 <= k < 7 ==> core[k] != ' '
    requires j + |word| < |core| && core[j..j + |word|] == word && core[j + |word|] == ' ' && ' ' !in word
    ensures HasSuffix(first, word)
  {
    var e := j + |word|;
    assert e == 7;
    assert first[j..] == core[j..7];
  }

  lemma NoBracketLast(core: string, word: string, j: nat)
    requires word != "" && NoParens(word) && j + |word| <= |core| && core[j..j + |word|] == word
    ensures core[j + |word| - 1] != '(' && core[j + |word| - 1] != ')'
  {
    assert core[j + |word| - 1] == word[|word| - 1];
    assert word[|word| - 1] in word;
  }

  lemma WordNotDirective(core: string, word: string, j: nat)
    requires CleanWord(word) && !HasSuffix("replace", word)
    requires j + |word| <= |core| && core[j..j + |word|] == word
    requires j + |word| < |core| ==> core[j + |word|] == ' '
    ensures !IsOpener(core) && core != ")"
  {
    NoBracketLast(core, word, j);
    var first := "replace";
    if IsOpener(core) {
      OpenerShape(core);
      assert j + |word| < |core|;
      WordInOpener(core, word, j, first);
    }
  }

  lemma NotContainsCore(before: string, core: string, after: string)
    requires !Contains(before + core + after, "=>")
    ensures !Contains(core, "=>")
  {
    var line := before + core + after;
    NotContainsSlice(line, "=>", |before|, |before| + |core|);
    assert line[|before|..|before| + |core|] == core;
  }

  /** A line on which a clean pin fires is neither an opener, nor a closer, nor a single-line replace. */
  lemma FiredLine(r: Package, line: string)
    requires CleanPackage(r) && Fires(r, line) && '\n' !in line
    ensures Untouched(line) && TrimSpace(line) != ")"
  {
    var core := TrimSpace(line);
    var before, after := CutAround(line, core);
    NotContainsCore(before, core, after);
    FiredCore(r, before, core, after);
  }

  lemma FiredCore(r: Package, before: string, core: string, after: string)
    requires CleanPackage(r) && Contains(before + core + after, r.name + " ")
    requires Blank(before) && Blank(after)
    ensures !IsOpener(core) && core != ")"
  {
    var line := before + core + after;
    var i := WordOccurs(r.name, line);
    OccursInside(r.name, core, before, after, i);
    assert forall k :: |before| <= k < |before| + |core| ==> line[k] == core[k - |before|];
    WordNotDirective(core, r.name, i - |before|);
  }

  // ---------- the line a pin writes ----------

  lemma NoArrowConcat(a: string, b: string)
    requires !Contains(a, "=>") && !Contains(b, "=>")
    requires a != "" ==> a[|a| - 1] != '='
    ensures !Contains(a + b, "=>")
  {
    FirstArrow(a);
    FirstArrow(b);
    forall i: nat ensures !ArrowAt(a + b, i) {
      assert !ArrowAt(a, i);
      if i >= |a| {
        assert !ArrowAt(b, i - |a|);
      }
    }
    NoArrow(a + b);
  }

  lemma NoEqualsNoArrow(s: string)
    requires '=' !in s
    ensures !Contains(s, "=>")
  {
    NoArrow(s);
  }

  lemma PartsNoArrow(tab: string, name: string, version: string, end: string)
    requires '=' !in tab && '=' !in end && !Contains(name, "=>") && !Contains(version, "=>")
    ensures !Contains(tab + name + " " + version, "=>")
    ensures !Contains(tab + name + " " + version + " " + end, "=>")
  {
    NoEqualsNoArrow(tab);
    NoEqualsNoArrow(end);
    NoArrowConcat(tab, name);
    NoArrowJoined(tab + name, version);
    NoArrowJoined(tab + name + " " + version, end);
  }

  lemma WordNoArrow(r: Package, indirect: bool)
    requires CleanPackage(r)
    ensures !Contains(PinText(r, indirect), "=>")
  {
    var tab, end := "\t", "//indirect";
    PartsNoArrow(tab, r.name, r.version, end);
    assert PinText(r, false) == tab + r.name + " " + r.version;
    assert PinText(r, true) == tab + r.name + " " + r.version + " " + end;
  }

  lemma NoParensPlain(line: string)
    requires NoParens(line) && '\n' !in line
    ensures PlainLine(line)
  {
    forall i: nat | i <= |line| ensures OpenerLength(line[i..], "replace") == 0 {
      OpenerChars(line, i);
      assert forall k :: 0 <= k < |line| ==> line[k] in line;
    }
    assert line != "" ==> line[0] in line;
  }

  lemma PinChars(r: Package, indirect: bool)
    requires CleanPackage(r)
    ensures NoParens(PinText(r, indirect)) && '\n' !in PinText(r, indirect)
  {
  }

  lemma NoParensCore(line: string)
    requires NoParens(line) && '\n' !in line && !Contains(line, "=>")
    ensures Untouched(line) && TrimSpace(line) != ")"
  {
    var core := TrimSpace(line);
    var before, after := CutAround(line, core);
    NotContainsCore(before, core, after);
    assert core != "" ==> core[|core| - 1] in core && core[|core| - 1] in line;
  }

  /** The line a clean pin writes is an ordinary line for both recognisers. */
  lemma PinLineOrdinary(r: Package, indirect: bool)
    requires CleanPackage(r)
    ensures var line := PinText(r, indirect);
            Untouched(line) && TrimSpace(line) != ")" && !Contains(line, "=>") && PlainLine(line)
  {
    WordNoArrow(r, indirect);
    PinChars(r, indirect);
    NoParensPlain(PinText(r, indirect));
    NoParensCore(PinText(r, indirect));
  }

  // ---------- rewriting ----------

  /** Rewriting leaves a line alone or replaces it by the text of a pin; in the second case the line was ordinary. */
  lemma {:induction false} RewrittenShape(required: seq<Package>, line: string)
    requires forall r :: r in required ==> CleanPackage(r)
    requires '\n' !in line
    ensures Rewritten(required, line) == line
         || (exists r, indirect :: r in required && Rewritten(required, line) == PinText(r, indirect)
                                   && Untouched(line) && TrimSpace(line) != ")")
    decreases |required|
  {
    if required != [] {
      var r := required[0];
      var next := RewriteStep(r, line);
      if Fires(r, line) {
        FiredLine(r, line);
        PinChars(r, Contains(line, "//indirect"));
      }
      RewrittenShape(required[1..], next);
      if Rewritten(required, line) != next {
        var r', indirect :| r' in required[1..] && Rewritten(required, line) == PinText(r', indirect)
                            && Untouched(next) && TrimSpace(next) != ")";
        assert r' in required;
      }
    }
  }

  lemma RewrittenOrdinary(required: seq<Package>, line: string)
    requires forall r :: r in required ==> CleanPackage(r)
    requires '\n' !in line
    ensures var line' := Rewritten(required, line);
            && (Untouched(line') <==> Untouched(line))
            && (IsOpener(TrimSpace(line')) <==> IsOpener(TrimSpace(line)))
            && (TrimSpace(line') == ")" <==> TrimSpace(line) == ")")
            && (PlainLine(line) ==> PlainLine(line'))
            && '\n' !in line'
  {
    RewrittenShape(required, line);
    if Rewritten(required, line) != line {
      var r, indirect :| r in required && Rewritten(required, line) == PinText(r, indirect);
      PinLineOrdinary(r, indirect);
    }
  }

  predicate Drops(line: string, inBlock: bool) {
    inBlock || !Untouched(line)
  }

  lemma StrippedCons(line: string, rest: seq<string>, inBlock: bool)
    ensures Stripped([line] + rest, inBlock)
         == (if Drops(line, inBlock) then [] else [line]) + Stripped(rest, InBlockAfter(line, inBlock))
  {
    assert ([line] + rest)[1..] == rest;
  }

  lemma RewrittenAllCons(required: seq<Package>, line: string, rest: seq<string>)
    ensures RewrittenAll(required, [line] + rest) == [Rewritten(required, line)] + RewrittenAll(required, rest)
  {
  }

  /** Stripping after rewriting is rewriting after stripping. */
  lemma {:induction false} StrippedRewritten(required: seq<Package>, lines: seq<string>, inBlock: bool)
    requires forall r :: r in required ==> CleanPackage(r)
    requires forall l :: l in lines ==> '\n' !in l
    ensures Stripped(RewrittenAll(required, lines), inBlock) == RewrittenAll(required, Stripped(lines, inBlock))
  {
    if lines != [] {
      var line, rest := lines[0], lines[1..];
      var line', next := Rewritten(required, line), InBlockAfter(line, inBlock);
      RewrittenOrdinary(required, line);
      StrippedRewritten(required, rest, next);
      assert lines == [line] + rest;
      StrippedCons(line, rest, inBlock);
      RewrittenAllCons(required, line, rest);
      StrippedCons(line', RewrittenAll(required, rest), inBlock);
      if !Drops(line, inBlock) {
        RewrittenAllCons(required, line, Stripped(rest, next));
      }
    }
  }

  // ==================== merging ====================

  predicate Valid(e: Entry) {
    e.name != "" && e.line != ""
  }

  predicate Distinct(entries: seq<Entry>) {
    && (forall e :: e in entries ==> Valid(e))
    && forall i, j :: 0 <= i < j < |entries| ==> entries[i].name != entries[j].name
  }

  /** The first valid candidate for a module. */
  function FirstNamed(entries: seq<Entry>, name: string): (i: nat)
    ensures i <= |entries|
    ensures i < |entries| ==> Valid(entries[i]) && entries[i].name == name
    ensures forall j :: 0 <= j < i ==> !(Valid(entries[j]) && entries[j].name == name)
  {
    if entries == [] || (Valid(entries[0]) && entries[0].name == name) then 0 else 1 + FirstNamed(entries[1..], name)
  }

  lemma {:induction false} MergeConcat(entries: seq<Entry>, a: seq<Entry>, b: seq<Entry>)
    ensures Merge(entries, a + b) == Merge(Merge(entries, a), b)
    decreases |a|
  {
    if a == [] {
      assert a + b == b;
    } else {
      assert (a + b)[0] == a[0] && (a + b)[1..] == a[1..] + b;
      MergeConcat(AddReplace(entries, a[0]), a[1..], b);
    }
  }

  lemma NamesPrefix(a: seq<Entry>, b: seq<Entry>, name: string)
    requires a <= b && Names(a, name)
    ensures Names(b, name)
  {
    var e :| e in a && e.name == name;
    assert e in b[..|a|];
  }

  /** `m` keeps the entries, adds one per new module, namely the first candidate for it, adds them in the order of
      those candidates, and drops no module. */
  ghost predicate AddsFirsts(entries: seq<Entry>, more: seq<Entry>, m: seq<Entry>) {
    && entries <= m && Distinct(m)
    && (forall k :: |entries| <= k < |m| ==>
          var f := FirstNamed(more, m[k].name); f < |more| && more[f] == m[k])
    && (forall k, l :: |entries| <= k < l < |m| ==>
          FirstNamed(more, m[k].name) < FirstNamed(more, m[l].name))
    && (forall e :: e in more && Valid(e) ==> Names(m, e.name))
  }

  lemma {:induction false} FirstAdded(entries: seq<Entry>, more: seq<Entry>, next: seq<Entry>, m: seq<Entry>, k: nat)
    requires more != [] && next == AddReplace(entries, more[0]) && AddsFirsts(next, more[1..], m)
    requires |entries| <= k < |m|
    ensures var f := FirstNamed(more, m[k].name);
            && f == (if k < |next| then 0 else 1 + FirstNamed(more[1..], m[k].name))
            && f < |more| && more[f] == m[k]
  {
    assert m[..|next|] == next;
    if k < |next| {
      assert m[k] == next[k] == more[0];
    } else {
      assert forall j :: 0 <= j < |next| ==> next[j] == m[j] && m[j].name != m[k].name;
      assert Valid(more[0]) ==> Names(next, more[0].name);
    }
  }

  lemma {:induction false} NoneDropped(entries: seq<Entry>, more: seq<Entry>, next: seq<Entry>, m: seq<Entry>, e: Entry)
    requires more != [] && next == AddReplace(entries, more[0]) && AddsFirsts(next, more[1..], m)
    requires e in more && Valid(e)
    ensures Names(m, e.name)
  {
    if e == more[0] {
      assert Names(next, e.name);
      NamesPrefix(next, m, e.name);
    } else {
      assert e in more[1..];
    }
  }

  lemma {:induction false} MergeFirst(entries: seq<Entry>, more: seq<Entry>)
    requires Distinct(entries)
    ensures AddsFirsts(entries, more, Merge(entries, more))
    decreases |more|
  {
    if more != [] {
      var next, m := AddReplace(entries, more[0]), Merge(entries, more);
      MergeFirst(next, more[1..]);
      forall k | |entries| <= k < |m|
        ensures var f := FirstNamed(more, m[k].name);
                && f == (if k < |next| then 0 else 1 + FirstNamed(more[1..], m[k].name))
                && f < |more| && more[f] == m[k]
      {
        FirstAdded(entries, more, next, m, k);
      }
      forall e | e in more && Valid(e) ensures Names(m, e.name) {
        NoneDropped(entries, more, next, m, e);
      }
      assert entries <= m by {
        assert entries <= next <= m;
      }
    }
  }

  lemma {:induction false} MergeKnown(entries: seq<Entry>, more: seq<Entry>)
    requires forall e :: e in more ==> Names(entries, e.name)
    ensures Merge(entries, more) == entries
    decreases |more|
  {
    if more != [] {
      assert more[0] in more;
      MergeKnown(entries, more[1..]);
    }
  }

  lemma {:induction false} MergeFresh(entries: seq<Entry>, more: seq<Entry>)
    requires Distinct(entries + more)
    ensures Merge(entries, more) == entries + more
    decreases |more|
  {
    if more != [] {
      var all := entries + more;
      assert all[|entries|] == more[0] && more[0] in all;
      forall i | 0 <= i < |entries| ensures entries[i].name != more[0].name {
        assert all[i] == entries[i];
      }
      assert AddReplace(entries, more[0]) == entries + [more[0]];
      assert all == entries + [more[0]] + more[1..];
      MergeFresh(entries + [more[0]], more[1..]);
    } else {
      assert entries + more == entries;
    }
  }

  /** Merging its own result again behind the same sources changes nothing. */
  lemma {:induction false} MergeTwice(source: seq<Entry>, dest: seq<Entry>)
    ensures Merge([], source + Merge([], source + dest)) == Merge([], source + dest)
  {
    var a := Merge([], source);
    var m := Merge(a, dest);
    MergeConcat([], source, dest);
    MergeConcat([], source, m);
    MergeGrows([], source);
    MergeGrows(a, dest);
    MergeBehind(a, m, m[|a|..]);
  }

  lemma {:induction false} MergeGrows(entries: seq<Entry>, more: seq<Entry>)
    requires Distinct(entries)
    ensures entries <= Merge(entries, more) && Distinct(Merge(entries, more))
  {
    MergeFirst(entries, more);
  }

  lemma {:induction false} MergeBehind(a: seq<Entry>, m: seq<Entry>, added: seq<Entry>)
    requires m == a + added && Distinct(m)
    ensures Merge(a, m) == m
  {
    MergeConcat(a, a, added);
    MergeKnown(a, a);
    MergeFresh(a, added);
  }

  // ==================== reading the result back ====================

  lemma Rejoin(a: seq<string>, b: seq<string>)
    requires a != []
    ensures [a[0]] + (a[1..] + b) == a + b
  {
  }

  lemma {:induction false} UntouchedStripped(kept: seq<string>, tail: seq<string>)
    requires forall l :: l in kept ==> Untouched(l)
    ensures Stripped(kept + tail, false) == kept + Stripped(tail, false)
  {
    if kept == [] {
      assert kept + tail == tail;
    } else {
      assert Untouched(kept[0]);
      assert (kept + tail)[0] == kept[0] && (kept + tail)[1..] == kept[1..] + tail;
      UntouchedStripped(kept[1..], tail);
      Rejoin(kept, Stripped(tail, false));
    }
  }

  lemma {:induction false} UntouchedDirectives(kept: seq<string>, tail: seq<string>)
    requires forall l :: l in kept ==> Untouched(l)
    ensures BlockInterior(kept + tail, false) == BlockInterior(tail, false)
    ensures SingleDirectives(kept + tail, false) == SingleDirectives(tail, false)
  {
    if kept == [] {
      assert kept + tail == tail;
    } else {
      assert Untouched(kept[0]);
      assert (kept + tail)[0] == kept[0] && (kept + tail)[1..] == kept[1..] + tail;
      UntouchedDirectives(kept[1..], tail);
    }
  }

  lemma {:induction false} UntouchedCanonical(kept: seq<string>, tail: seq<string>)
    requires forall l :: l in kept ==> Untouched(l) && PlainLine(l)
    requires Canonical(tail, false)
    ensures Canonical(kept + tail, false)
  {
    if kept == [] {
      assert kept + tail == tail;
    } else {
      assert Untouched(kept[0]) && PlainLine(kept[0]);
      assert (kept + tail)[0] == kept[0] && (kept + tail)[1..] == kept[1..] + tail;
      UntouchedCanonical(kept[1..], tail);
    }
  }

  lemma UntouchedPrefix(kept: seq<string>, tail: seq<string>)
    requires forall l :: l in kept ==> Untouched(l)
    ensures Stripped(kept + tail, false) == kept + Stripped(tail, false)
    ensures BlockInterior(kept + tail, false) == BlockInterior(tail, false)
    ensures SingleDirectives(kept + tail, false) == SingleDirectives(tail, false)
    ensures (forall l :: l in kept ==> PlainLine(l)) && Canonical(tail, false) ==> Canonical(kept + tail, false)
  {
    UntouchedStripped(kept, tail);
    UntouchedDirectives(kept, tail);
    if (forall l :: l in kept ==> PlainLine(l)) && Canonical(tail, false) {
      UntouchedCanonical(kept, tail);
    }
  }

  predicate InsideLine(line: string) {
    NoParens(line) && '\n' !in line && TrimSpace(line) != ")"
  }

  lemma {:induction false} OpenBlock(inside: seq<string>)
    requires forall l :: l in inside ==> InsideLine(l)
    ensures var tail := inside + [")"];
            Stripped(tail, true) == [] && BlockInterior(tail, true) == inside
            && SingleDirectives(tail, true) == Parsed([]) && Canonical(tail, true)
  {
    var tail := inside + [")"];
    if inside == [] {
      TrimSpaceIs("", ")", "");
      assert tail[1..] == [];
      assert "" + ")" + "" == ")";
    } else {
      assert InsideLine(inside[0]);
      assert tail[1..] == inside[1..] + [")"];
      OpenBlock(inside[1..]);
    }
  }

  lemma WholeBlock(inside: seq<string>)
    requires forall l :: l in inside ==> InsideLine(l)
    ensures var tail := ["replace ("] + inside + [")"];
            Stripped(tail, false) == [] && BlockInterior(tail, false) == inside
            && SingleDirectives(tail, false) == Parsed([]) && Canonical(tail, false)
  {
    var tail := ["replace ("] + inside + [")"];
    assert tail[1..] == inside + [")"];
    TrimSpaceIs("", "replace (", "");
    assert "" + "replace (" + "" == "replace (";
    OpenBlock(inside);
  }

  /** An entry whose line prints a clean directive for its module. */
  predicate GoodEntry(e: Entry) {
    var d := ParseDirective(TrimSpace(e.line));
    d.Parsed? && CleanDirective(d.value) && e == EntryOf(d.value)
  }

  lemma CleanEntry(d: Directive)
    requires CleanDirective(d)
    ensures GoodEntry(EntryOf(d))
  {
    PrintedParses(d);
  }

  lemma PrintedContainsArrow(d: Directive)
    requires |d| == 2
    ensures Contains(FormatReplaceLine(d), "=>")
  {
    var line := FormatReplaceLine(d);
    FormatPrinted(d);
    FirstArrow(line);
  }

  lemma PrintedInside(d: Directive)
    requires CleanDirective(d)
    ensures InsideLine(FormatReplaceLine(d)) && TrimSpace(FormatReplaceLine(d)) != ""
  {
    var line := FormatReplaceLine(d);
    FormatPrinted(d);
    SpecClean(d[0]);
    SpecClean(d[1]);
    assert NoParens(line) && '\n' !in line;
    var a := |Spec(d[0])| + 2;
    var lo, hi := TrimSpaceSlice(line);
    assert line[a] == '=';
    assert TrimSpace(line)[a - lo] == '=';
  }

  lemma SpecClean(p: Package)
    requires CleanToken(p.name) && CleanToken(p.version)
    ensures CleanToken(Spec(p))
  {
  }

  lemma {:induction false} DirectiveEntriesConcat(a: seq<Directive>, b: seq<Directive>)
    ensures DirectiveEntries(a + b) == DirectiveEntries(a) + DirectiveEntries(b)
  {
    if a == [] {
      assert a + b == b;
    } else {
      assert (a + b)[0] == a[0] && (a + b)[1..] == a[1..] + b;
      DirectiveEntriesConcat(a[1..], b);
    }
  }

  lemma GoodEntryParses(e: Entry) returns (d: Directive)
    requires GoodEntry(e)
    ensures CleanDirective(d) && e == EntryOf(d) && |d| >= 1
    ensures TrimSpace(e.line) != "" && ParseOne(TrimSpace(e.line)) == Parsed([d])
  {
    d := ParseDirective(TrimSpace(e.line)).value;
    PrintedInside(d);
  }

  lemma EntryLinesCons(e: Entry, rest: seq<Entry>)
    ensures EntryLines([e] + rest) == [e.line] + EntryLines(rest)
  {
  }

  lemma {:induction false} ParseLinesCons(line: string, rest: seq<string>, d: Directive, ds: seq<Directive>)
    requires TrimSpace(line) != "" && ParseOne(TrimSpace(line)) == Parsed([d]) && ParseLines(rest) == Parsed(ds)
    ensures ParseLines([line] + rest) == Parsed([d] + ds)
  {
    assert ([line] + rest)[1..] == rest;
  }

  lemma {:induction false} DirectiveEntriesCons(d: Directive, ds: seq<Directive>)
    requires |d| >= 1
    ensures DirectiveEntries([d] + ds) == [EntryOf(d)] + DirectiveEntries(ds)
  {
    assert ([d] + ds)[1..] == ds;
  }

  /** Parsing the lines of good entries gives their directives, one for each, in order. */
  lemma {:induction false} EntriesParse(entries: seq<Entry>) returns (ds: seq<Directive>)
    requires forall e :: e in entries ==> GoodEntry(e)
    ensures ParseLines(EntryLines(entries)) == Parsed(ds)
    ensures |ds| == |entries| && DirectiveEntries(ds) == entries
    ensures forall k :: 0 <= k < |ds| ==> CleanDirective(ds[k]) && entries[k] == EntryOf(ds[k])
  {
    if entries == [] {
      ds := [];
    } else {
      var e, others := entries[0], entries[1..];
      assert entries == [e] + others;
      var d := GoodEntryParses(e);
      var rest := EntriesParse(others);
      ds := [d] + rest;
      assert ParseLines(EntryLines(entries)) == Parsed(ds) by {
        EntryLinesCons(e, others);
        ParseLinesCons(e.line, EntryLines(others), d, rest);
      }
      assert DirectiveEntries(ds) == entries by {
        DirectiveEntriesCons(d, rest);
      }
      forall k | 0 <= k < |ds|
        ensures CleanDirective(ds[k]) && entries[k] == EntryOf(ds[k])
      {
        assert k > 0 ==> ds[k] == rest[k - 1] && entries[k] == others[k - 1];
      }
    }
  }

  lemma {:induction false} EntriesInside(entries: seq<Entry>)
    requires forall e :: e in entries ==> GoodEntry(e)
    ensures forall l :: l in EntryLines(entries) ==> InsideLine(l) && Contains(l, "=>")
  {
    forall l | l in EntryLines(entries) ensures InsideLine(l) && Contains(l, "=>") {
      var k :| 0 <= k < |entries| && entries[k].line == l;
      assert GoodEntry(entries[k]);
      var d := ParseDirective(TrimSpace(l)).value;
      PrintedInside(d);
      PrintedContainsArrow(d);
    }
  }

  function PinDirective(r: Package): Directive {
    [Package(r.name, "", false), Package(r.name, r.version, false)]
  }

  lemma PinPrintable(r: Package)
    requires CleanPackage(r)
    ensures CleanDirective(PinDirective(r))
    ensures Entry(r.name, "\t" + r.name + " => " + r.name + " " + r.version)
         == EntryOf(PinDirective(r))
  {
    var d := PinDirective(r);
    NoEqualsNoArrow("");
    assert r.name[0] in r.name && r.version[|r.version| - 1] in r.version;
    var right := Spec(d[1]);
    assert right == r.name + " " + r.version;
    assert right[|right| - 1] == r.version[|r.version| - 1];
    assert "\t" + r.name + " => " + r.name + " " + r.version == "\t" + r.name + " => " + right;
  }

  lemma {:induction false} DirectivesGood(ds: seq<Directive>)
    requires forall d :: d in ds ==> CleanDirective(d)
    ensures forall e :: e in DirectiveEntries(ds) ==> GoodEntry(e)
  {
    if ds != [] {
      assert ds[0] in ds;
      CleanEntry(ds[0]);
      DirectivesGood(ds[1..]);
    }
  }

  lemma {:induction false} PinsGood(required: seq<Package>)
    requires forall r :: r in required ==> CleanPackage(r)
    ensures forall e :: e in PinEntries(required) ==> GoodEntry(e)
  {
    if required != [] {
      assert required[0] in required;
      PinPrintable(required[0]);
      CleanEntry(PinDirective(required[0]));
      PinsGood(required[1..]);
    }
  }

  lemma MergedGood(g: GoMod, text: string)
    requires WellFormed(g, text)
    ensures var m := Merge([], Candidates(g, ReplacedVersions(text).value));
            Distinct(m) && forall e :: e in m ==> GoodEntry(e)
  {
    var dest := ReplacedVersions(text).value;
    var candidates := Candidates(g, dest);
    DirectivesGood(g.replaced);
    PinsGood(g.required);
    DirectivesGood(dest);
    MergeFirst([], candidates);
    var m := Merge([], candidates);
    forall e | e in m ensures GoodEntry(e) {
      var k :| 0 <= k < |m| && m[k] == e;
      assert candidates[FirstNamed(candidates, e.name)] in candidates;
    }
  }

  lemma KeptLines(g: GoMod, text: string)
    requires WellFormed(g, text)
    ensures Kept(g, text) == RewrittenAll(g.required, Stripped(Lines(text), false))
    ensures forall l :: l in Kept(g, text) ==> Untouched(l) && PlainLine(l)
  {
    var lines := Lines(text);
    SplitPiecesFree(text, '\n');
    StrippedRewritten(g.required, lines, false);
    var kept := Stripped(lines, false);
    forall i | 0 <= i < |kept| ensures PlainLine(Rewritten(g.required, kept[i])) {
      assert kept[i] in kept;
      RewrittenOrdinary(g.required, kept[i]);
    }
  }

  /** No line that is kept is part of the replace syntax: after the block that is emitted there is no directive
      beside it, whatever the number of its fields. */
  lemma KeptWithoutReplace(g: GoMod, text: string)
    ensures forall l :: l in Kept(g, text) ==>
              var t := TrimSpace(l);
              t != "replace (" && t != "replace(" && !("replace" <= t && |t| > 7 && IsSpace(t[7]) && Contains(t, "=>"))
  {
    forall l | l in Kept(g, text)
      ensures var t := TrimSpace(l); t != "replace (" && t != "replace(" && !ReplacesAlone(t)
    {
      var lo, hi := TrimSpaceSlice(l);
      SingleReplaceIs(TrimSpace(l));
    }
  }

  /** How both recognisers read lines made of kept lines and one block of good entries. */
  lemma BlockRead(kept: seq<string>, m: seq<Entry>) returns (ds: seq<Directive>)
    requires forall l :: l in kept ==> Untouched(l) && PlainLine(l)
    requires forall e :: e in m ==> GoodEntry(e)
    ensures var lines := kept + BlockOf(m);
            && Canonical(lines, false) && Stripped(lines, false) == kept
            && Both(ParseLines(BlockInterior(lines, false)), SingleDirectives(lines, false)) == Parsed(ds)
    ensures |ds| == |m| && DirectiveEntries(ds) == m
    ensures forall k :: 0 <= k < |ds| ==> CleanDirective(ds[k]) && m[k] == EntryOf(ds[k])
  {
    ds := EntriesParse(m);
    UntouchedPrefix(kept, BlockOf(m));
    if m != [] {
      EntriesInside(m);
      WholeBlock(EntryLines(m));
    }
    assert kept + [] == kept;
    BothEmpty(Parsed(ds));
  }

  /** Joining canonical lines and reading them again; no line at all reads as one empty line. */
  lemma JoinedRead(lines: seq<string>, kept: seq<string>, ds: seq<Directive>)
    requires Canonical(lines, false) && Stripped(lines, false) == kept
    requires Both(ParseLines(BlockInterior(lines, false)), SingleDirectives(lines, false)) == Parsed(ds)
    ensures var text := Join(lines, "\n");
            && ReplacedVersions(text) == Parsed(ds)
            && Lines(text) == (if lines == [] then [""] else lines)
            && Stripped(Lines(text), false) == (if lines == [] then [""] else kept)
  {
    if lines == [] {
      EmptyText();
      EmptyLine();
    } else {
      CanonicalNoNewlines(lines, false);
      SplitJoin(lines, '\n');
      CanonicalDirectives(lines);
    }
  }

  lemma EmptyLine()
    ensures Stripped([""], false) == [""] && PlainLine("")
  {
    BlankTrims("");
    NoEqualsNoArrow("");
  }

  /** The result read back: its lines, its directives and what stripping leaves of it. */
  lemma OutputRead(g: GoMod, text: string) returns (ds: seq<Directive>)
    requires WellFormed(g, text)
    ensures var lines, output := Kept(g, text) + BlockOf(Merged(g, text)), Output(g, text);
            && ReplacedVersions(output) == Parsed(ds)
            && Lines(output) == (if lines == [] then [""] else lines)
            && Stripped(Lines(output), false) == (if lines == [] then [""] else Kept(g, text))
    ensures |ds| == |Merged(g, text)| && DirectiveEntries(ds) == Merged(g, text)
    ensures forall k :: 0 <= k < |ds| ==> CleanDirective(ds[k])
    ensures forall k :: 0 <= k < |ds| ==> Merged(g, text)[k] == EntryOf(ds[k])
  {
    MergedGood(g, text);
    KeptLines(g, text);
    ds := BlockRead(Kept(g, text), Merged(g, text));
    JoinedRead(Kept(g, text) + BlockOf(Merged(g, text)), Kept(g, text), ds);
  }

  lemma OutputWellFormed(g: GoMod, text: string)
    requires WellFormed(g, text)
    ensures WellFormed(g, Output(g, text))
  {
    var ds := OutputRead(g, text);
    KeptLines(g, text);
    EmptyLine();
  }

  /** The directives behind the candidates of the block, highest precedence first. */
  function CandidateDirectives(g: GoMod, text: string): seq<Directive>
    requires ReplacedVersions(text).Parsed?
  {
    g.replaced + Pins(g.required) + ReplacedVersions(text).value
  }

  predicate HasFor(ds: seq<Directive>, name: string) {
    exists k :: 0 <= k < |ds| && NameOf(ds[k]) == name
  }

  /** `ds` holds one directive per module: the first candidate for it, in the order of those candidates. */
  ghost predicate FirstPerModule(ds: seq<Directive>, candidates: seq<Directive>) {
    && (forall k :: 0 <= k < |ds| ==>
          var f := FirstFor(candidates, NameOf(ds[k])); f < |candidates| && candidates[f] == ds[k])
    && (forall k, l :: 0 <= k < l < |ds| ==> FirstFor(candidates, NameOf(ds[k])) < FirstFor(candidates, NameOf(ds[l])))
    && (forall i :: 0 <= i < |candidates| ==> HasFor(ds, NameOf(candidates[i])))
  }

  /** The result holds exactly one replace directive per module: for each module the first candidate
      among the source's replaces, the source's require pins and the destination's replaces, in that
      order of emission. */
  lemma OutputDirectives(g: GoMod, text: string) returns (ds: seq<Directive>)
    requires WellFormed(g, text)
    ensures ReplacedVersions(Output(g, text)) == Parsed(ds)
    ensures forall i, j :: 0 <= i < j < |ds| ==> NameOf(ds[i]) != NameOf(ds[j])
    ensures FirstPerModule(ds, CandidateDirectives(g, text))
  {
    ds := OutputRead(g, text);
    MergedGood(g, text);
    CandidatesClean(g, text);
    var entries := Candidates(g, ReplacedVersions(text).value);
    MergeFirst([], entries);
    FirstOfEntries(ds, CandidateDirectives(g, text), Merged(g, text), entries);
  }

  lemma SameEntrySameDirective(d: Directive, d': Directive)
    requires CleanDirective(d) && CleanDirective(d') && EntryOf(d) == EntryOf(d')
    ensures d == d'
  {
    PrintedParses(d);
    PrintedParses(d');
  }

  lemma {:induction false} FirstIs(d: Directive, candidates: seq<Directive>, entries: seq<Entry>)
    requires |entries| == |candidates| && CleanDirective(d)
    requires forall i :: 0 <= i < |candidates| ==> CleanDirective(candidates[i]) && entries[i] == EntryOf(candidates[i])
    requires var f := FirstNamed(entries, NameOf(d)); f < |entries| && entries[f] == EntryOf(d)
    ensures var f := FirstNamed(entries, NameOf(d)); FirstFor(candidates, NameOf(d)) == f && candidates[f] == d
  {
    SameFirst(candidates, entries, NameOf(d));
    SameEntrySameDirective(candidates[FirstNamed(entries, NameOf(d))], d);
  }

  lemma {:induction false} FirstOfEntries(ds: seq<Directive>, candidates: seq<Directive>, m: seq<Entry>,
                                          entries: seq<Entry>)
    requires |m| == |ds| && forall k :: 0 <= k < |ds| ==> CleanDirective(ds[k]) && m[k] == EntryOf(ds[k])
    requires |entries| == |candidates|
    requires forall i :: 0 <= i < |candidates| ==> CleanDirective(candidates[i]) && entries[i] == EntryOf(candidates[i])
    requires forall k :: 0 <= k < |m| ==> var f := FirstNamed(entries, m[k].name); f < |entries| && entries[f] == m[k]
    requires forall k, l :: 0 <= k < l < |m| ==> FirstNamed(entries, m[k].name) < FirstNamed(entries, m[l].name)
    requires forall e :: e in entries && Valid(e) ==> Names(m, e.name)
    ensures FirstPerModule(ds, candidates)
  {
    forall k | 0 <= k < |ds|
      ensures FirstFor(candidates, NameOf(ds[k])) == FirstNamed(entries, m[k].name)
      ensures var f := FirstFor(candidates, NameOf(ds[k])); f < |candidates| && candidates[f] == ds[k]
    {
      assert m[k].name == NameOf(ds[k]);
      FirstIs(ds[k], candidates, entries);
    }
    forall k, l | 0 <= k < l < |ds|
      ensures FirstFor(candidates, NameOf(ds[k])) < FirstFor(candidates, NameOf(ds[l]))
    {
      assert FirstNamed(entries, m[k].name) < FirstNamed(entries, m[l].name);
    }
    forall i | 0 <= i < |candidates| ensures HasFor(ds, NameOf(candidates[i])) {
      assert entries[i] in entries && Valid(entries[i]);
      var k := NamedIn(ds, m, NameOf(candidates[i]));
    }
  }

  lemma NamedIn(ds: seq<Directive>, m: seq<Entry>, name: string) returns (k: nat)
    requires |m| == |ds| && (forall k :: 0 <= k < |ds| ==> m[k] == EntryOf(ds[k])) && Names(m, name)
    ensures k < |ds| && NameOf(ds[k]) == name
  {
    var e :| e in m && e.name == name;
    k :| 0 <= k < |m| && m[k] == e;
  }

  function Pins(required: seq<Package>): (ds: seq<Directive>)
    ensures |ds| == |required|
    ensures forall i :: 0 <= i < |ds| ==> ds[i] == PinDirective(required[i])
  {
    seq(|required|, i requires 0 <= i < |required| => PinDirective(required[i]))
  }

  /** The first directive for a module. */
  function FirstFor(ds: seq<Directive>, name: string): (i: nat)
    ensures i <= |ds|
    ensures i < |ds| ==> NameOf(ds[i]) == name
    ensures forall j :: 0 <= j < i ==> NameOf(ds[j]) != name
  {
    if ds == [] || NameOf(ds[0]) == name then 0 else 1 + FirstFor(ds[1..], name)
  }

  lemma {:induction false} EntriesOf(ds: seq<Directive>)
    requires forall i :: 0 <= i < |ds| ==> CleanDirective(ds[i])
    ensures |DirectiveEntries(ds)| == |ds|
    ensures forall i :: 0 <= i < |ds| ==> DirectiveEntries(ds)[i] == EntryOf(ds[i])
  {
    if ds != [] {
      EntriesOf(ds[1..]);
    }
  }

  lemma {:induction false} PinEntriesOf(required: seq<Package>)
    requires forall r :: r in required ==> CleanPackage(r)
    ensures PinEntries(required) == DirectiveEntries(Pins(required))
    ensures forall i :: 0 <= i < |required| ==> CleanDirective(Pins(required)[i])
  {
    if required != [] {
      assert required[0] in required;
      PinPrintable(required[0]);
      PinEntriesOf(required[1..]);
      assert Pins(required)[1..] == Pins(required[1..]);
    }
  }

  lemma CandidatesClean(g: GoMod, text: string)
    requires WellFormed(g, text)
    ensures var ds := CandidateDirectives(g, text);
            var entries := Candidates(g, ReplacedVersions(text).value);
            && |entries| == |ds|
            && forall i :: 0 <= i < |ds| ==> CleanDirective(ds[i]) && entries[i] == EntryOf(ds[i])
  {
    var dest := ReplacedVersions(text).value;
    PinEntriesOf(g.required);
    DirectiveEntriesConcat(g.replaced + Pins(g.required), dest);
    DirectiveEntriesConcat(g.replaced, Pins(g.required));
    EntriesOf(CandidateDirectives(g, text));
  }

  lemma SameFirst(ds: seq<Directive>, entries: seq<Entry>, name: string)
    requires |entries| == |ds|
    requires forall i :: 0 <= i < |ds| ==> CleanDirective(ds[i]) && entries[i] == EntryOf(ds[i])
    ensures FirstFor(ds, name) == FirstNamed(entries, name)
  {
    assert forall i :: 0 <= i < |ds| ==> Valid(entries[i]);
  }
}
