/** Reading and printing the replace directives of a go.mod text: the regular-expression block
    recogniser, the line scanner, the directive parser and the directive printer. */
module GoModText {
  import opened Sequences
  import opened Strings

  datatype Package = Package(name: string, version: string, indirect: bool)

  /** One replace directive: the package replaced and its replacement. */
  type Directive = seq<Package>

  /** The result of parsing; `Fatal` is the process exit on an invalid directive. */
  datatype Parsed<+T> = Fatal | Parsed(value: T) {
    predicate IsFailure() {
      Fatal?
    }

    function PropagateFailure<U>(): Parsed<U>
      requires Fatal?
    {
      Fatal
    }

    function Extract(): T
      requires Parsed?
    {
      value
    }
  }

  // ---------- "name version" and "from => to" ----------

  function DropSpaces(s: string): (t: string)
    ensures ' ' !in t && |t| <= |s|
  {
    if s == "" then "" else if s[0] == ' ' then DropSpaces(s[1..]) else [s[0]] + DropSpaces(s[1..])
  }

  function SplitAtBlank(t: string): (string, string) {
    var i := IndexOf(t, " ");
    if i < 0 then (t, "") else (t[..i], DropSpaces(t[i + 1..]))
  }

  /** After one optional leading blank: the text up to the first blank, and the rest without blanks. */
  function PackageAndVersion(s: string): (string, string) {
    SplitAtBlank(TrimPrefix(s, " "))
  }

  function ParseDirective(s: string): Parsed<Directive> {
    var parts := Split(s, "=>");
    if |parts| < 2 then Fatal
    else
      var (name1, version1) := PackageAndVersion(parts[0]);
      var (name2, version2) := PackageAndVersion(parts[1]);
      if "//" <= name1 then Parsed([])
      else Parsed([Package(name1, version1, false), Package(name2, version2, false)])
  }

  function Spec(p: Package): string {
    if p.version != "" then p.name + " " + p.version else p.name
  }

  function FormatReplaceLine(r: Directive): string {
    if |r| < 2 then "" else "\t" + Spec(r[0]) + " => " + Spec(r[1])
  }

  // ---------- the regular-expression recogniser of blocks ----------

  /** The class `\s` of the regular expression. */
  predicate IsRegexSpace(c: char) {
    c == ' ' || c == '\t' || c == '\n' || c == '\r' || c == '\U{000C}'
  }

  /** Length of the match of `<keyword>\s?\(` at the start of `s`, 0 when there is none. */
  function OpenerLength(s: string, keyword: string): (n: nat)
    ensures n <= |s| && (n == 0 || n > |keyword|)
  {
    var k := |keyword|;
    if !(keyword <= s) then 0
    else if |s| > k && s[k] == '(' then k + 1
    else if |s| > k + 1 && IsRegexSpace(s[k]) && s[k + 1] == '(' then k + 2
    else 0
  }

  /** The length of a match of `<keyword>\s?\((\n|.)*?\)` at the beginning of `s`, or zero: it ends at the first `)`. */
  function MatchLength(s: string, keyword: string): (m: nat)
    ensures m <= |s|
  {
    var n := OpenerLength(s, keyword);
    var e := IndexOf(s[n..], ")");
    if n > 0 && e >= 0 then n + e + 1 else 0
  }

  /** `FindAllString` of this expression: the leftmost matches. */
  function Blocks(s: string, keyword: string): seq<string>
    decreases |s|
  {
    if s == "" then []
    else
      var m := MatchLength(s, keyword);
      if m > 0 then [s[..m]] + Blocks(s[m..], keyword) else Blocks(s[1..], keyword)
  }

  /** The text between `(` and `)`, as the scan with state 0 (before), 1 (inside), 2 (after) collects it. */
  function Within(s: string, state: nat): string {
    if s == "" then ""
    else if s[0] == '(' then Within(s[1..], 1)
    else if s[0] == ')' then Within(s[1..], 2)
    else if state == 1 then [s[0]] + Within(s[1..], 1)
    else if state == 2 then ""
    else Within(s[1..], state)
  }

  function BlockLines(block: string): seq<string> {
    Split(TrimSuffix(TrimPrefix(Within(block, 0), "\n"), "\n"), "\n")
  }

  /** Concatenates two parsed lists; the first invalid directive is fatal. */
  function Both(x: Parsed<seq<Directive>>, y: Parsed<seq<Directive>>): Parsed<seq<Directive>> {
    var a :- x;
    var b :- y;
    Parsed(a + b)
  }

  /** A directive that is commented out contributes nothing. */
  function ParseOne(s: string): Parsed<seq<Directive>> {
    var d :- ParseDirective(s);
    Parsed(if d == [] then [] else [d])
  }

  function ParseLines(lines: seq<string>): Parsed<seq<Directive>> {
    if lines == [] then Parsed([])
    else
      var trim := TrimSpace(lines[0]);
      if trim == "" then ParseLines(lines[1..]) else Both(ParseOne(trim), ParseLines(lines[1..]))
  }

  function BlocksDirectives(blocks: seq<string>): Parsed<seq<Directive>> {
    if blocks == [] then Parsed([])
    else Both(ParseLines(BlockLines(blocks[0])), BlocksDirectives(blocks[1..]))
  }

  // ---------- the line scanner ----------

  predicate IsOpener(trim: string) {
    trim == "replace (" || trim == "replace("
  }

  predicate IsSingleReplace(trim: string) {
    Contains(trim, "=>") && |Fields(trim)| > 0 && Fields(trim)[0] == "replace"
  }

  /** Whether the scanner is inside a block after `line`. */
  function InBlockAfter(line: string, inBlock: bool): bool {
    if inBlock then TrimSpace(line) != ")" else IsOpener(TrimSpace(line))
  }

  /** Whether the scanner leaves `line` alone. */
  predicate Untouched(line: string) {
    !IsOpener(TrimSpace(line)) && !IsSingleReplace(TrimSpace(line))
  }

  function SingleDirectives(lines: seq<string>, inBlock: bool): Parsed<seq<Directive>> {
    if lines == [] then Parsed([])
    else
      var trim := TrimSpace(lines[0]);
      var inBlock' := InBlockAfter(lines[0], inBlock);
      if inBlock || inBlock' || !IsSingleReplace(trim) then SingleDirectives(lines[1..], inBlock')
      else Both(ParseOne(TrimSpace(TrimPrefix(trim, "replace"))), SingleDirectives(lines[1..], inBlock'))
  }

  /** The lines that are left when every replace directive, block or single, is dropped. */
  function Stripped(lines: seq<string>, inBlock: bool): (kept: seq<string>)
    ensures forall l :: l in kept ==> l in lines && Untouched(l)
  {
    if lines == [] then []
    else
      var inBlock' := InBlockAfter(lines[0], inBlock);
      if inBlock || inBlock' || IsSingleReplace(TrimSpace(lines[0])) then Stripped(lines[1..], inBlock')
      else [lines[0]] + Stripped(lines[1..], inBlock')
  }

  function Lines(text: string): seq<string> {
    Split(text, "\n")
  }

  /** All replace directives of a text: those in blocks first, then the single-line ones. */
  function ReplacedVersions(text: string): Parsed<seq<Directive>> {
    Both(BlocksDirectives(Blocks(text, "replace")), SingleDirectives(Lines(text), false))
  }

  // ==================== printing and parsing one directive ====================

  /** Exactly the directives that survive being printed and read back (see `RoundTrip`). */
  predicate Printable(r: Directive) {
    && |r| == 2 && !r[0].indirect && !r[1].indirect
    && PlainToken(r[0].name) && PlainToken(r[0].version) && PlainToken(r[1].name) && PlainToken(r[1].version)
    && !("//" <= r[0].name)
    && (r[0].name == "" ==> r[0].version == "")
    && (r[0].name != "" ==> !IsSpace(r[0].name[0]))
    && var right := Spec(r[1]); (right != "" ==> !IsSpace(right[|right| - 1]))
  }

  predicate PlainToken(s: string) {
    ' ' !in s && !Contains(s, "=>")
  }

  predicate ArrowAt(s: string, i: nat) {
    i + 1 < |s| && s[i] == '=' && s[i + 1] == '>'
  }

  lemma FirstArrow(s: string)
    ensures var r := IndexOf(s, "=>");
            && (r >= 0 ==> ArrowAt(s, r) && forall j: nat :: j < r ==> !ArrowAt(s, j))
            && (r < 0 ==> forall j: nat :: !ArrowAt(s, j))
  {
    IndexOfFirst(s, "=>");
    forall i: nat ensures OccursAt(s, "=>", i) <==> ArrowAt(s, i) {
      if i + 2 <= |s| {
        assert s[i..i + 2] == [s[i], s[i + 1]];
      }
    }
  }

  lemma ArrowIs(s: string, i: nat)
    requires ArrowAt(s, i) && forall j: nat :: j < i ==> !ArrowAt(s, j)
    ensures IndexOf(s, "=>") == i
  {
    FirstArrow(s);
  }

  lemma NoArrow(s: string)
    requires forall j: nat :: !ArrowAt(s, j)
    ensures !Contains(s, "=>")
  {
    FirstArrow(s);
  }

  lemma NoArrowJoined(a: string, b: string)
    requires !Contains(a, "=>") && !Contains(b, "=>")
    ensures !Contains(a + " " + b, "=>")
  {
    var s := a + " " + b;
    FirstArrow(a);
    FirstArrow(b);
    forall i: nat ensures !ArrowAt(s, i) {
      assert !ArrowAt(a, i);
      if i > |a| {
        assert !ArrowAt(b, i - |a| - 1);
      }
    }
    NoArrow(s);
  }

  lemma SpecNoArrow(p: Package)
    requires PlainToken(p.name) && PlainToken(p.version)
    ensures !Contains(Spec(p), "=>")
    ensures !Contains(Spec(p) + " ", "=>") && !Contains(" " + Spec(p), "=>")
  {
    NoArrowJoined(p.name, p.version);
    NoArrowJoined(Spec(p), "");
    assert Spec(p) + " " + "" == Spec(p) + " ";
    NoArrowJoined("", Spec(p));
    assert "" + " " + Spec(p) == " " + Spec(p);
  }

  lemma IndexOfArrow(head: string, tail: string)
    requires !Contains(head, "=>")
    requires head != "" ==> head[|head| - 1] != '='
    ensures IndexOf(head + "=>" + tail, "=>") == |head|
  {
    var s := head + "=>" + tail;
    FirstArrow(head);
    forall i: nat | i < |head| ensures !ArrowAt(s, i) {
      assert !ArrowAt(head, i);
    }
    ArrowIs(s, |head|);
  }

  lemma SplitAtArrow(head: string, tail: string)
    requires !Contains(head, "=>") && !Contains(tail, "=>")
    requires head != "" ==> head[|head| - 1] != '='
    ensures Split(head + "=>" + tail, "=>") == [head, tail]
  {
    var s := head + "=>" + tail;
    IndexOfArrow(head, tail);
    assert s[..|head|] == head && s[|head| + 2..] == tail;
    assert Split(tail, "=>") == [tail];
  }

  lemma {:induction false} DropSpacesConcat(a: string, b: string)
    ensures DropSpaces(a + b) == DropSpaces(a) + DropSpaces(b)
  {
    if a == "" {
      assert a + b == b;
    } else {
      DropSpacesConcat(a[1..], b);
      assert (a + b)[0] == a[0] && (a + b)[1..] == a[1..] + b;
      Regroup([a[0]], DropSpaces(a[1..]), DropSpaces(b));
    }
  }

  lemma {:induction false} DropSpacesPlain(s: string)
    requires ' ' !in s
    ensures DropSpaces(s) == s
  {
    if s != "" {
      DropSpacesPlain(s[1..]);
    }
  }

  lemma ParseSpec(p: Package, after: string)
    requires ' ' !in p.name && ' ' !in p.version
    requires after == "" || after == " "
    requires p.name == "" && after == " " ==> p.version != ""
    ensures PackageAndVersion(" " + Spec(p) + after) == (p.name, p.version)
  {
    var s := " " + Spec(p) + after;
    var t := TrimPrefix(s, " ");
    assert t == Spec(p) + after;
    if p.version == "" && after == "" {
      assert t == p.name;
      ContainsChar(t, ' ');
      assert IndexOf(t, " ") < 0;
    } else {
      var rest := if p.version == "" then "" else p.version + after;
      assert t == p.name + [' '] + rest by {
        if p.version != "" {
          assert t == p.name + " " + p.version + after;
        } else {
          assert t == p.name + " ";
        }
      }
      IndexOfChar(p.name, ' ', rest);
      assert t[..|p.name|] == p.name && t[|p.name| + 1..] == rest;
      DropSpacesConcat(p.version, after);
      DropSpacesPlain(p.version);
      assert DropSpaces(after) == "";
      assert IndexOf(t, " ") == |p.name|;
      assert DropSpaces(rest) == p.version;
    }
  }

  /** The texts on the two sides of the arrow once the printed line is trimmed. */
  function Head(p: Package): string {
    if Spec(p) == "" then "" else Spec(p) + " "
  }

  function Tail(p: Package): string {
    if Spec(p) == "" then "" else " " + Spec(p)
  }

  lemma ParseUnindented(s: string)
    requires s != "" && s[0] != ' '
    ensures PackageAndVersion(s) == PackageAndVersion(" " + s)
  {
    assert TrimPrefix(s, " ") == s == TrimPrefix(" " + s, " ");
  }

  lemma ParseEmpty()
    ensures PackageAndVersion("") == ("", "")
  {
  }

  lemma {:induction false} ParseHead(p: Package)
    requires ' ' !in p.name && ' ' !in p.version && (p.name == "" ==> p.version == "")
    ensures PackageAndVersion(Head(p)) == (p.name, p.version)
  {
    if Spec(p) != "" {
      assert PackageAndVersion(" " + Head(p)) == (p.name, p.version) by {
        ParseSpec(p, " ");
        assert " " + Spec(p) + " " == " " + Head(p);
      }
      ParseUnindented(Head(p));
    } else {
      ParseEmpty();
    }
  }

  lemma ParseTail(p: Package)
    requires ' ' !in p.name && ' ' !in p.version
    ensures PackageAndVersion(Tail(p)) == (p.name, p.version)
  {
    if Spec(p) != "" {
      ParseSpec(p, "");
      assert " " + Spec(p) + "" == Tail(p);
    } else {
      ParseEmpty();
    }
  }

  lemma {:induction false} ArrowLine(before: string, left: string, right: string, after: string, head: string,
                                     tail: string)
    requires before + head == "\t" + left + " " && tail + after == " " + right
    ensures "\t" + left + " => " + right == before + (head + "=>" + tail) + after
  {
    assert "\t" + left + " => " + right == ("\t" + left + " ") + "=>" + (" " + right);
    assert (before + head) + "=>" + (tail + after) == before + (head + "=>" + tail) + after;
  }

  lemma {:induction false} TrimArrowLine(left: string, right: string)
    requires left != "" ==> !IsSpace(left[0])
    requires right != "" ==> !IsSpace(right[|right| - 1])
    ensures TrimSpace("\t" + left + " => " + right)
         == (if left == "" then "" else left + " ") + "=>" + (if right == "" then "" else " " + right)
  {
    var before := if left == "" then "\t " else "\t";
    var after := if right == "" then " " else "";
    var head := if left == "" then "" else left + " ";
    var tail := if right == "" then "" else " " + right;
    var core := head + "=>" + tail;
    ArrowLine(before, left, right, after, head, tail);
    assert core[0] == if left == "" then '=' else left[0];
    assert core[|core| - 1] == if right == "" then '>' else right[|right| - 1];
    TrimSpaceIs(before, core, after);
  }

  lemma SpecStart(p: Package)
    requires p.name == "" ==> p.version == ""
    requires p.name != "" ==> !IsSpace(p.name[0])
    ensures Spec(p) != "" ==> !IsSpace(Spec(p)[0])
  {
  }

  lemma ParseHeadTail(p: Package, q: Package)
    requires PlainToken(p.name) && PlainToken(p.version) && PlainToken(q.name) && PlainToken(q.version)
    requires p.name == "" ==> p.version == ""
    requires !("//" <= p.name) && !p.indirect && !q.indirect
    ensures ParseDirective(Head(p) + "=>" + Tail(q)) == Parsed([p, q])
  {
    SpecNoArrow(p);
    SpecNoArrow(q);
    assert Head(p) != "" ==> Head(p)[|Head(p)| - 1] == ' ';
    SplitAtArrow(Head(p), Tail(q));
    ParseHead(p);
    ParseTail(q);
  }

  lemma PrintedTrims(p: Package, q: Package)
    requires p.name == "" ==> p.version == ""
    requires p.name != "" ==> !IsSpace(p.name[0])
    requires Spec(q) != "" ==> !IsSpace(Spec(q)[|Spec(q)| - 1])
    ensures TrimSpace(FormatReplaceLine([p, q])) == Head(p) + "=>" + Tail(q)
  {
    SpecStart(p);
    TrimArrowLine(Spec(p), Spec(q));
  }

  lemma PrintedParses(r: Directive)
    requires Printable(r)
    ensures ParseDirective(TrimSpace(FormatReplaceLine(r))) == Parsed(r)
  {
    var p, q := r[0], r[1];
    assert r == [p, q];
    PrintedTrims(p, q);
    ParseHeadTail(p, q);
  }

  lemma DropSpacesNonEmpty(s: string)
    ensures DropSpaces(s) == "" <==> forall i :: 0 <= i < |s| ==> s[i] == ' '
  {
  }

  lemma DropSpacesAt(t: string, i: nat)
    requires i < |t| && t[i] == ' ' && ' ' !in t[..i]
    ensures DropSpaces(t) == t[..i] + DropSpaces(t[i + 1..])
  {
    assert t == t[..i] + t[i..];
    DropSpacesConcat(t[..i], t[i..]);
    DropSpacesPlain(t[..i]);
  }

  lemma DropSpacesPrefix(s: string)
    ensures DropSpaces(TrimPrefix(s, " ")) == DropSpaces(s)
  {
  }

  lemma SplitAtBlankInk(t: string)
    ensures var (name, version) := SplitAtBlank(t);
            && ' ' !in name && ' ' !in version && DropSpaces(t) == name + version
            && (t != "" && t[0] != ' ' ==> name != "")
  {
    ContainsChar(t, ' ');
    var i := IndexOf(t, " ");
    if i < 0 {
      DropSpacesPlain(t);
      assert t + "" == t;
    } else {
      DropSpacesAt(t, i);
    }
  }

  /** The parser loses nothing but blanks. */
  lemma PackageAndVersionInk(s: string)
    ensures var (name, version) := PackageAndVersion(s);
            && ' ' !in name && ' ' !in version && |DropSpaces(s)| == |name| + |version|
            && (s != "" && s[0] != ' ' ==> name != "")
  {
    SplitAtBlankInk(TrimPrefix(s, " "));
    DropSpacesPrefix(s);
  }

  lemma SpecInk(p: Package)
    requires ' ' !in p.name && ' ' !in p.version
    ensures DropSpaces(Spec(p)) == p.name + p.version
  {
    DropSpacesPlain(p.name);
    DropSpacesPlain(p.version);
    DropSpacesConcat(p.name + " ", p.version);
    DropSpacesConcat(p.name, " ");
    assert DropSpaces(" ") == "";
    assert p.name + "" == p.name;
  }

  lemma DropSpacesAround(a: string, b: string, c: string)
    requires |DropSpaces(a + b + c)| == |DropSpaces(b)|
    ensures forall x :: x in a || x in c ==> x == ' '
  {
    DropSpacesConcat(a + b, c);
    DropSpacesConcat(a, b);
    DropSpacesNonEmpty(a);
    DropSpacesNonEmpty(c);
  }

  lemma DropSpacesSlices(s: string, lo: nat, hi: nat)
    requires lo <= hi <= |s|
    requires |DropSpaces(s[lo..hi])| == |DropSpaces(s)|
    ensures forall i :: 0 <= i < lo || hi <= i < |s| ==> s[i] == ' '
  {
    assert s == s[..lo] + s[lo..hi] + s[hi..];
    DropSpacesAround(s[..lo], s[lo..hi], s[hi..]);
    forall i | 0 <= i < lo || hi <= i < |s| ensures s[i] == ' ' {
      assert s[i] in s[..lo] || s[i] in s[hi..];
    }
  }

  lemma SpecPlain(p: Package)
    requires ' ' !in p.name && ' ' !in p.version
    requires forall k: nat :: !ArrowAt(Spec(p), k)
    ensures PlainToken(p.name) && PlainToken(p.version)
  {
    var s := Spec(p);
    forall k: nat ensures !ArrowAt(p.name, k) && !ArrowAt(p.version, k) {
      assert !ArrowAt(s, k) && !ArrowAt(s, |p.name| + 1 + k);
    }
    NoArrow(p.name);
    NoArrow(p.version);
  }

  /** Facts on a printed line; `a` is the place of its arrow. */
  ghost predicate Printed(line: string, left: string, right: string, a: nat) {
    && a == |left| + 2 && |line| == a + 3 + |right|
    && line[0] == '\t' && line[a - 1] == ' ' && ArrowAt(line, a) && line[a + 2] == ' '
    && (forall k :: 0 <= k < |left| ==> line[k + 1] == left[k])
    && (forall k :: 0 <= k < |right| ==> line[k + a + 3] == right[k])
  }

  lemma FormatPrinted(r: Directive)
    requires |r| == 2
    ensures Printed(FormatReplaceLine(r), Spec(r[0]), Spec(r[1]), |Spec(r[0])| + 2)
  {
  }

  lemma ParsedPackages(t: string, r: Directive)
    requires |r| == 2 && ParseDirective(t) == Parsed(r)
    ensures !r[0].indirect && !r[1].indirect && !("//" <= r[0].name)
    ensures var parts := Split(t, "=>");
            && |parts| >= 2
            && PackageAndVersion(parts[0]) == (r[0].name, r[0].version)
            && PackageAndVersion(parts[1]) == (r[1].name, r[1].version)
  {
  }

  lemma {:induction false} ParsedPart(part: string, p: Package)
    requires PackageAndVersion(part) == (p.name, p.version)
    ensures ' ' !in p.name && ' ' !in p.version && |DropSpaces(part)| == |p.name| + |p.version|
    ensures part != "" && part[0] != ' ' ==> p.name != ""
  {
    PackageAndVersionInk(part);
  }

  /** The first part of a text, up to its first arrow, is that of package `p`. */
  predicate LeftCut(t: string, part: string, p: Package) {
    && ' ' !in p.name && ' ' !in p.version
    && part <= t && ArrowAt(t, |part|) && (forall k: nat :: k < |part| ==> !ArrowAt(t, k))
    && |DropSpaces(part)| == |p.name| + |p.version|
    && (part != "" && t[0] != ' ' ==> p.name != "")
  }

  /** The part behind the arrow, up to the next one or the end, is that of package `q`. */
  predicate RightCut(t: string, part: string, from: nat, q: Package) {
    && ' ' !in q.name && ' ' !in q.version
    && from + |part| <= |t| && part == t[from..from + |part|]
    && (from + |part| < |t| ==> t[from + |part|] == '=')
    && (forall k :: from <= k && k + 1 < from + |part| ==> !ArrowAt(t, k))
    && |DropSpaces(part)| == |q.name| + |q.version|
  }

  /** What the parser saw when it returned two packages. */
  predicate CutAt(t: string, first: string, second: string, p: Package, q: Package) {
    LeftCut(t, first, p) && RightCut(t, second, |first| + 2, q)
  }

  ghost predicate Cut(t: string, p: Package, q: Package) {
    exists first, second :: CutAt(t, first, second, p, q)
  }

  lemma {:induction false} ParsedCut(t: string, r: Directive)
    requires |r| == 2 && ParseDirective(t) == Parsed(r)
    ensures !r[0].indirect && !r[1].indirect && !("//" <= r[0].name)
    ensures Cut(t, r[0], r[1])
  {
    ParsedPackages(t, r);
    PartsCut(t, r[0], r[1]);
  }

  lemma {:induction false} PartsCut(t: string, p: Package, q: Package)
    requires var parts := Split(t, "=>");
             && |parts| >= 2
             && PackageAndVersion(parts[0]) == (p.name, p.version)
             && PackageAndVersion(parts[1]) == (q.name, q.version)
    ensures Cut(t, p, q)
  {
    var i, m := FirstTwoParts(t);
    PartsAt(t, t[..i], t[i + 2..i + 2 + m], p, q);
  }

  lemma {:induction false} PartsAt(t: string, first: string, second: string, p: Package, q: Package)
    requires var from := |first| + 2;
             && first <= t && ArrowAt(t, |first|) && (forall k: nat :: k < |first| ==> !ArrowAt(t, k))
             && from + |second| <= |t| && second == t[from..from + |second|]
             && (from + |second| < |t| ==> t[from + |second|] == '=')
             && (forall k :: from <= k && k + 1 < from + |second| ==> !ArrowAt(t, k))
    requires PackageAndVersion(first) == (p.name, p.version) && PackageAndVersion(second) == (q.name, q.version)
    ensures Cut(t, p, q)
  {
    ParsedPart(first, p);
    ParsedPart(second, q);
    assert CutAt(t, first, second, p, q);
  }

  lemma {:induction false} FirstTwoParts(t: string) returns (i: nat, m: nat)
    requires |Split(t, "=>")| >= 2
    ensures ArrowAt(t, i) && forall k: nat :: k < i ==> !ArrowAt(t, k)
    ensures i + 2 + m <= |t| && (i + 2 + m < |t| ==> t[i + 2 + m] == '=')
    ensures forall k :: i + 2 <= k && k + 1 < i + 2 + m ==> !ArrowAt(t, k)
    ensures Split(t, "=>")[0] == t[..i] && Split(t, "=>")[1] == t[i + 2..i + 2 + m]
  {
    i := IndexOf(t, "=>");
    var t2 := t[i + 2..];
    var j := IndexOf(t2, "=>");
    m := if j < 0 then |t2| else j;
    FirstArrow(t);
    FirstArrow(t2);
    SecondPart(t, i, j);
    forall k | i + 2 <= k && k + 1 < i + 2 + m ensures !ArrowAt(t, k) {
      assert !ArrowAt(t2, k - i - 2);
    }
  }

  lemma {:induction false} SplitFirst(t: string, sep: string, i: nat)
    requires sep != "" && i == IndexOf(t, sep)
    ensures Split(t, sep) == [t[..i]] + Split(t[i + |sep|..], sep)
  {
  }

  lemma {:induction false} SplitHead(t: string, sep: string)
    requires sep != ""
    ensures var j := IndexOf(t, sep); Split(t, sep)[0] == if j < 0 then t else t[..j]
  {
  }

  lemma TwoParts(t: string, b: nat, j: int, first: string, more: seq<string>, parts: seq<string>)
    requires b <= |t| && b + j <= |t| && |more| >= 1 && parts == [first] + more
    requires more[0] == if j < 0 then t[b..] else t[b..][..j]
    ensures |parts| >= 2 && parts[0] == first && parts[1] == if j < 0 then t[b..|t|] else t[b..b + j]
  {
    assert t[b..] == t[b..|t|];
    if j >= 0 {
      assert t[b..][..j] == t[b..b + j];
    }
  }

  lemma {:induction false} SecondOf(t: string, sep: string, i: nat, j: int)
    requires sep != "" && i == IndexOf(t, sep) && j == IndexOf(t[i + |sep|..], sep)
    ensures var parts, b := Split(t, sep), i + |sep|;
            && |parts| >= 2 && parts[0] == t[..i]
            && parts[1] == if j < 0 then t[b..|t|] else t[b..b + j]
  {
    var b := i + |sep|;
    var rest := t[b..];
    var parts, more := Split(t, sep), Split(rest, sep);
    assert parts == [t[..i]] + more by {
      SplitFirst(t, sep, i);
    }
    assert more[0] == if j < 0 then rest else rest[..j] by {
      SplitHead(rest, sep);
    }
    TwoParts(t, b, j, t[..i], more, parts);
  }

  lemma {:induction false} SecondPart(t: string, i: nat, j: int)
    requires i == IndexOf(t, "=>") && j == IndexOf(t[i + 2..], "=>")
    ensures var parts := Split(t, "=>");
            && |parts| >= 2 && parts[0] == t[..i]
            && parts[1] == if j < 0 then t[i + 2..|t|] else t[i + 2..i + 2 + j]
  {
    SecondOf(t, "=>", i, j);
  }

  /** The ink of `left` fills the text from `lo` to the first arrow: the arrow is the printed one. */
  lemma {:induction false} LeftFilled(line: string, part: string, left: string, right: string, a: nat, lo: nat, e: nat)
    requires Printed(line, left, right, a) && 1 <= lo <= e <= a && (e < a ==> line[e] == '=')
    requires part == line[lo..e] && |DropSpaces(part)| == |DropSpaces(left)|
    ensures e == a
    ensures forall k :: 0 <= k < lo - 1 && k < |left| ==> left[k] == ' '
  {
    var body := left + " ";
    forall k | 0 <= k < |body| ensures body[k] == line[k + 1] {
    }
    assert part == body[lo - 1..e - 1];
    assert e < a ==> body[e - 1] == '=';
    DropSpacesConcat(left, " ");
    assert DropSpaces(" ") == "";
    DropSpacesSlices(body, lo - 1, e - 1);
    forall k | 0 <= k < lo - 1 && k < |left| ensures left[k] == ' ' {
      assert body[k] == left[k];
    }
  }

  lemma {:induction false} LeftPrintable(line: string, right: string, p: Package, a: nat, lo: nat, hi: nat)
    requires Printed(line, Spec(p), right, a) && 1 <= lo <= a && a + 2 <= hi <= |line|
    requires ' ' !in p.name && ' ' !in p.version
    requires !IsSpace(line[lo]) && (lo < a ==> p.name != "")
    requires forall k :: lo <= k < a ==> !ArrowAt(line, k)
    requires forall k :: 0 <= k < lo - 1 && k < |Spec(p)| ==> Spec(p)[k] == ' '
    ensures PlainToken(p.name) && PlainToken(p.version)
    ensures p.name == "" ==> p.version == ""
    ensures p.name != "" ==> !IsSpace(p.name[0])
  {
    var left := Spec(p);
    forall k: nat ensures !ArrowAt(left, k) {
      assert k + 1 < |left| && lo <= k + 1 ==> !ArrowAt(line, k + 1);
    }
    SpecPlain(p);
    assert p.version != "" ==> left[|p.name| + 1] == p.version[0];
    assert p.name != "" ==> line[1] == left[0] == p.name[0];
  }

  lemma LastOfSpec(q: Package)
    requires ' ' !in q.name && ' ' !in q.version && Spec(q) != ""
    ensures Spec(q)[|Spec(q)| - 1] != ' '
  {
    if q.version != "" {
      assert Spec(q)[|Spec(q)| - 1] == q.version[|q.version| - 1];
    } else {
      assert Spec(q)[|Spec(q)| - 1] == q.name[|q.name| - 1];
    }
  }

  /** The ink of `right` fills the second part, which therefore reaches the end of the line. */
  lemma {:induction false} RightFilled(line: string, part: string, left: string, right: string, a: nat, b: nat, hi: nat)
    requires Printed(line, left, right, a) && b == a + 2 && b + |part| <= hi <= |line|
    requires b + |part| < hi ==> line[b + |part|] == '='
    requires part == line[b..b + |part|] && |DropSpaces(part)| == |DropSpaces(right)|
    ensures b + |part| == hi
    ensures forall k :: hi <= k < |line| ==> line[k] == ' '
  {
    var body, m := " " + right, |part|;
    forall k | 0 <= k < |body| ensures body[k] == line[k + b] {
    }
    assert part == body[0..m];
    assert b + m < hi ==> body[m] == '=';
    DropSpacesConcat(" ", right);
    assert DropSpaces(" ") == "";
    DropSpacesSlices(body, 0, m);
    forall k | b + m <= k < |line| ensures line[k] == ' ' {
      assert line[k] == body[k - b];
    }
  }

  lemma {:induction false} RightPrintable(line: string, left: string, q: Package, a: nat, hi: nat)
    requires Printed(line, left, Spec(q), a) && a + 2 <= hi <= |line| && !IsSpace(line[hi - 1])
    requires ' ' !in q.name && ' ' !in q.version
    requires forall k :: a + 2 <= k && k + 1 < hi ==> !ArrowAt(line, k)
    requires forall k :: hi <= k < |line| ==> line[k] == ' '
    ensures PlainToken(q.name) && PlainToken(q.version)
    ensures Spec(q) != "" ==> !IsSpace(Spec(q)[|Spec(q)| - 1])
  {
    var right := Spec(q);
    if right != "" {
      LastOfSpec(q);
      assert line[|line| - 1] == right[|right| - 1];
    }
    forall k: nat ensures !ArrowAt(right, k) {
      if k + 1 < |right| {
        assert !ArrowAt(line, k + a + 3);
      }
    }
    SpecPlain(q);
  }

  lemma NotBefore(t: string, first: nat, i: nat)
    requires ArrowAt(t, i) && forall k: nat :: k < first ==> !ArrowAt(t, k)
    ensures first <= i
  {
  }

  /** Where a slice has no arrow, the line has none. */
  lemma {:induction false} NoArrowInLine(line: string, t: string, lo: nat, hi: nat, from: nat, end: nat)
    requires lo <= hi <= |line| && t == line[lo..hi] && from <= end <= hi - lo
    requires forall k :: from <= k && k + 1 < end ==> !ArrowAt(t, k)
    ensures forall k :: lo + from <= k && k + 1 < lo + end ==> !ArrowAt(line, k)
  {
    forall k | lo + from <= k && k + 1 < lo + end ensures !ArrowAt(line, k) {
      assert !ArrowAt(t, k - lo);
    }
  }

  lemma {:induction false} NoArrowBefore(line: string, t: string, lo: nat, hi: nat, i: nat)
    requires lo <= hi <= |line| && t == line[lo..hi] && ArrowAt(t, i)
    requires forall k: nat :: k < i ==> !ArrowAt(t, k)
    ensures forall k :: lo <= k < lo + i ==> !ArrowAt(line, k)
  {
    forall k | lo <= k < lo + i ensures !ArrowAt(line, k) {
      assert !ArrowAt(t, k - lo);
    }
  }

  lemma {:induction false} InkOfSpec(part: string, p: Package)
    requires ' ' !in p.name && ' ' !in p.version && |DropSpaces(part)| == |p.name| + |p.version|
    ensures |DropSpaces(part)| == |DropSpaces(Spec(p))|
  {
    SpecInk(p);
  }

  lemma {:induction false} LeftParsed(line: string, part: string, right: string, p: Package, a: nat, lo: nat, e: nat,
                                      hi: nat)
    requires Printed(line, Spec(p), right, a) && 1 <= lo <= e <= a && a + 2 <= hi <= |line|
    requires ' ' !in p.name && ' ' !in p.version && !IsSpace(line[lo]) && (lo < e ==> p.name != "")
    requires e < a ==> line[e] == '='
    requires forall k :: lo <= k < e ==> !ArrowAt(line, k)
    requires part == line[lo..e] && |DropSpaces(part)| == |DropSpaces(Spec(p))|
    ensures e == a
    ensures PlainToken(p.name) && PlainToken(p.version)
    ensures p.name == "" ==> p.version == ""
    ensures p.name != "" ==> !IsSpace(p.name[0])
  {
    LeftFilled(line, part, Spec(p), right, a, lo, e);
    LeftPrintable(line, right, p, a, lo, hi);
  }

  /** What is known of the first part, in terms of the line. */
  lemma {:induction false} LeftInLine(line: string, t: string, part: string, a: nat, lo: nat, hi: nat, p: Package)
    requires LeftCut(t, part, p) && ArrowAt(line, a)
    requires 1 <= lo <= a && a + 2 <= hi <= |line| && t == line[lo..hi] && !IsSpace(line[lo])
    ensures lo + |part| <= a && line[lo + |part|] == '='
    ensures forall k :: lo <= k < lo + |part| ==> !ArrowAt(line, k)
    ensures part == line[lo..lo + |part|] && |DropSpaces(part)| == |DropSpaces(Spec(p))|
    ensures part != "" ==> p.name != ""
  {
    assert t[a - lo] == line[a] && t[a - lo + 1] == line[a + 1];
    NotBefore(t, |part|, a - lo);
    NoArrowBefore(line, t, lo, hi, |part|);
    InkOfSpec(part, p);
    assert t[0] == line[lo] && t[|part|] == line[lo + |part|];
    assert part == line[lo..lo + |part|];
  }

  lemma {:induction false} ParsedLeft(line: string, t: string, part: string, right: string, a: nat, lo: nat, hi: nat,
                                      p: Package)
    requires Printed(line, Spec(p), right, a) && LeftCut(t, part, p)
    requires 1 <= lo <= a && a + 2 <= hi <= |line| && t == line[lo..hi] && !IsSpace(line[lo])
    ensures lo + |part| == a
    ensures PlainToken(p.name) && PlainToken(p.version)
    ensures p.name == "" ==> p.version == ""
    ensures p.name != "" ==> !IsSpace(p.name[0])
  {
    LeftInLine(line, t, part, a, lo, hi, p);
    LeftParsed(line, part, right, p, a, lo, lo + |part|, hi);
  }

  lemma {:induction false} RightParsed(line: string, part: string, left: string, a: nat, b: nat, hi: nat, q: Package)
    requires ' ' !in q.name && ' ' !in q.version
    requires Printed(line, left, Spec(q), a)
    requires b == a + 2 && b + |part| <= hi <= |line| && !IsSpace(line[hi - 1])
    requires b + |part| < hi ==> line[b + |part|] == '='
    requires forall k :: b <= k && k + 1 < b + |part| ==> !ArrowAt(line, k)
    requires part == line[b..b + |part|] && |DropSpaces(part)| == |DropSpaces(Spec(q))|
    ensures PlainToken(q.name) && PlainToken(q.version)
    ensures Spec(q) != "" ==> !IsSpace(Spec(q)[|Spec(q)| - 1])
  {
    RightFilled(line, part, left, Spec(q), a, b, hi);
    RightPrintable(line, left, q, a, hi);
  }

  /** What is known of the second part, in terms of the line. */
  lemma {:induction false} PartInLine(line: string, t: string, part: string, lo: nat, hi: nat, from: nat, b: nat,
                                      q: Package)
    requires lo <= hi <= |line| && t == line[lo..hi] && RightCut(t, part, from, q) && b == lo + from
    ensures b + |part| <= hi && part == line[b..b + |part|]
    ensures b + |part| < hi ==> line[b + |part|] == '='
    ensures forall k :: b <= k && k + 1 < b + |part| ==> !ArrowAt(line, k)
    ensures |DropSpaces(part)| == |DropSpaces(Spec(q))|
  {
    assert |t| == hi - lo;
    assert from + |part| < |t| ==> t[from + |part|] == line[lo + (from + |part|)];
    SliceOfSlice(line, lo, hi, from, from + |part|);
    NoArrowInLine(line, t, lo, hi, from, from + |part|);
    InkOfSpec(part, q);
  }

  lemma {:induction false} ParsedRight(line: string, t: string, part: string, left: string, a: nat, lo: nat, hi: nat,
                                       from: nat, q: Package)
    requires Printed(line, left, Spec(q), a) && RightCut(t, part, from, q)
    requires lo + from == a + 2 && 0 < hi && lo <= hi <= |line| && t == line[lo..hi] && !IsSpace(line[hi - 1])
    ensures PlainToken(q.name) && PlainToken(q.version)
    ensures Spec(q) != "" ==> !IsSpace(Spec(q)[|Spec(q)| - 1])
  {
    PartInLine(line, t, part, lo, hi, from, a + 2, q);
    RightParsed(line, part, left, a, a + 2, hi, q);
  }

  lemma ArrowInside(line: string, left: string, right: string, a: nat, lo: nat, hi: nat)
    requires Printed(line, left, right, a) && lo <= hi <= |line|
    requires forall k :: 0 <= k < lo || hi <= k < |line| ==> IsSpace(line[k])
    requires lo < hi ==> !IsSpace(line[lo])
    ensures 1 <= lo <= a && a + 2 <= hi
  {
    assert line[a] == '=' && line[a + 1] == '>' && line[0] == '\t';
  }

  /** The two sides of a directive that was parsed back from its own print. */
  predicate GoodSides(p: Package, q: Package) {
    && PlainToken(p.name) && PlainToken(p.version) && PlainToken(q.name) && PlainToken(q.version)
    && (p.name == "" ==> p.version == "")
    && (p.name != "" ==> !IsSpace(p.name[0]))
    && (Spec(q) != "" ==> !IsSpace(Spec(q)[|Spec(q)| - 1]))
  }

  lemma {:induction false} ParsedSides(line: string, t: string, first: string, second: string, lo: nat, hi: nat,
                                       p: Package, q: Package)
    requires Printed(line, Spec(p), Spec(q), |Spec(p)| + 2)
    requires lo < hi <= |line| && t == line[lo..hi] && !IsSpace(line[lo]) && !IsSpace(line[hi - 1])
    requires forall k :: 0 <= k < lo || hi <= k < |line| ==> IsSpace(line[k])
    requires CutAt(t, first, second, p, q)
    ensures GoodSides(p, q)
  {
    ArrowInside(line, Spec(p), Spec(q), |Spec(p)| + 2, lo, hi);
    BothSides(line, t, first, second, lo, hi, p, q);
  }

  lemma {:induction false} BothSides(line: string, t: string, first: string, second: string, lo: nat, hi: nat,
                                     p: Package, q: Package)
    requires Printed(line, Spec(p), Spec(q), |Spec(p)| + 2)
    requires 1 <= lo <= |Spec(p)| + 2 && |Spec(p)| + 4 <= hi <= |line| && t == line[lo..hi]
    requires !IsSpace(line[lo]) && !IsSpace(line[hi - 1])
    requires LeftCut(t, first, p) && RightCut(t, second, |first| + 2, q)
    ensures GoodSides(p, q)
  {
    ParsedLeft(line, t, first, Spec(q), |Spec(p)| + 2, lo, hi, p);
    ParsedRight(line, t, second, Spec(p), |Spec(p)| + 2, lo, hi, |first| + 2, q);
  }

  lemma SliceEnds(line: string, t: string, lo: nat, hi: nat)
    requires lo < hi <= |line| && t == line[lo..hi]
    ensures t[0] == line[lo] && t[|t| - 1] == line[hi - 1]
  {
  }

  lemma GoodIsPrintable(r: Directive)
    requires |r| == 2 && GoodSides(r[0], r[1]) && !r[0].indirect && !r[1].indirect && !("//" <= r[0].name)
    ensures Printable(r)
  {
  }

  lemma {:induction false} SlicedSides(line: string, t: string, lo: nat, hi: nat, p: Package, q: Package)
    requires Printed(line, Spec(p), Spec(q), |Spec(p)| + 2)
    requires lo <= hi <= |line| && t == line[lo..hi] && (t != "" ==> !IsSpace(t[0]) && !IsSpace(t[|t| - 1]))
    requires forall k :: 0 <= k < lo || hi <= k < |line| ==> IsSpace(line[k])
    requires Cut(t, p, q)
    ensures GoodSides(p, q)
  {
    var first, second :| CutAt(t, first, second, p, q);
    SliceEnds(line, t, lo, hi);
    ParsedSides(line, t, first, second, lo, hi, p, q);
  }

  lemma {:induction false} TrimmedSides(line: string, t: string, p: Package, q: Package)
    requires Printed(line, Spec(p), Spec(q), |Spec(p)| + 2)
    requires t == TrimSpace(line) && Cut(t, p, q)
    ensures GoodSides(p, q)
  {
    var lo, hi := TrimSpaceSlice(line);
    SlicedSides(line, t, lo, hi, p, q);
  }

  lemma {:induction false} CutIsPrintable(line: string, r: Directive)
    requires |r| == 2 && Printed(line, Spec(r[0]), Spec(r[1]), |Spec(r[0])| + 2)
    requires Cut(TrimSpace(line), r[0], r[1]) && !r[0].indirect && !r[1].indirect && !("//" <= r[0].name)
    ensures Printable(r)
  {
    TrimmedSides(line, TrimSpace(line), r[0], r[1]);
    GoodIsPrintable(r);
  }

  lemma {:induction false} ParsedIsPrintable(line: string, r: Directive)
    requires |r| == 2 && Printed(line, Spec(r[0]), Spec(r[1]), |Spec(r[0])| + 2)
    requires ParseDirective(TrimSpace(line)) == Parsed(r)
    ensures Printable(r)
  {
    ParsedCut(TrimSpace(line), r);
    CutIsPrintable(line, r);
  }

  /** A printed directive parses back to itself exactly when it is `Printable`. */
  lemma RoundTrip(r: Directive)
    requires |r| == 2
    ensures ParseDirective(TrimSpace(FormatReplaceLine(r))) == Parsed(r) <==> Printable(r)
  {
    if Printable(r) {
      PrintedParses(r);
    }
    if ParseDirective(TrimSpace(FormatReplaceLine(r))) == Parsed(r) {
      FormatPrinted(r);
      ParsedIsPrintable(FormatReplaceLine(r), r);
    }
  }
}
