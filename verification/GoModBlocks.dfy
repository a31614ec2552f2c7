/** The two recognisers of `replace ( ... )` blocks, the regular expression over the whole text and
    the scanner over its lines, agree on canonical texts. */
module GoModBlocks {
  import opened Strings
  import opened GoModText

  /** A line outside blocks that the regular expression cannot start or complete an opener in. */
  ghost predicate PlainLine(line: string) {
    && (forall i: nat :: i <= |line| ==> OpenerLength(line[i..], "replace") == 0)
    && (line != "" ==> line[0] != '(') && '\n' !in line
  }

  predicate NoParens(s: string) {
    '(' !in s && ')' !in s
  }

  /** Openers trim to `replace (` or `replace(`, blocks are closed by a lone `)`, no parenthesis
      stands inside a block, and no other text looks like an opener. */
  ghost predicate Canonical(lines: seq<string>, inBlock: bool) {
    if lines == [] then !inBlock
    else
      && '\n' !in lines[0]
      && (if inBlock then TrimSpace(lines[0]) == ")" || NoParens(lines[0])
          else IsOpener(TrimSpace(lines[0])) || PlainLine(lines[0]))
      && Canonical(lines[1..], InBlockAfter(lines[0], inBlock))
  }

  /** The lines strictly inside blocks, by the line scanner. */
  function BlockInterior(lines: seq<string>, inBlock: bool): seq<string> {
    if lines == [] then []
    else
      var inBlock' := InBlockAfter(lines[0], inBlock);
      (if inBlock && inBlock' then [lines[0]] else []) + BlockInterior(lines[1..], inBlock')
  }

  /** Every line preceded by a newline. */
  function TextOf(lines: seq<string>): string {
    if lines == [] then "" else "\n" + lines[0] + TextOf(lines[1..])
  }

  lemma {:induction false} TextOfConcat(a: seq<string>, b: seq<string>)
    ensures TextOf(a + b) == TextOf(a) + TextOf(b)
  {
    if a == [] {
      assert a + b == b;
    } else {
      TextOfConcat(a[1..], b);
      assert (a + b)[1..] == a[1..] + b;
    }
  }

  lemma {:induction false} TextOfJoin(lines: seq<string>)
    requires lines != []
    ensures TextOf(lines) == "\n" + Join(lines, "\n")
  {
    if |lines| > 1 {
      TextOfJoin(lines[1..]);
    } else {
      assert TextOf(lines[1..]) == "";
    }
  }

  // ---------- one step of the regular expression ----------

  lemma {:induction false} BlocksSkip(p: string, rest: string)
    requires forall i :: 0 <= i < |p| ==> OpenerLength((p + rest)[i..], "replace") == 0
    ensures Blocks(p + rest, "replace") == Blocks(rest, "replace")
  {
    var s := p + rest;
    if p == "" {
      assert s == rest;
    } else {
      assert s[0..] == s;
      assert s[1..] == p[1..] + rest;
      forall i | 0 <= i < |p| - 1 ensures OpenerLength((p[1..] + rest)[i..], "replace") == 0 {
        assert s[1..][i..] == s[i + 1..];
      }
      BlocksSkip(p[1..], rest);
    }
  }

  lemma SpacesSkip(p: string, rest: string)
    requires forall c :: c in p ==> IsSpace(c)
    ensures Blocks(p + rest, "replace") == Blocks(rest, "replace")
  {
    var s := p + rest;
    forall i | 0 <= i < |p| ensures OpenerLength(s[i..], "replace") == 0 {
      assert s[i..][0] == p[i] && p[i] in p;
    }
    BlocksSkip(p, rest);
  }

  lemma OpenerChars(s: string, i: nat)
    requires i <= |s|
    ensures OpenerLength(s[i..], "replace") > 0 <==>
              i + 7 < |s| && s[i..i + 7] == "replace"
              && (s[i + 7] == '(' || (i + 8 < |s| && IsRegexSpace(s[i + 7]) && s[i + 8] == '('))
  {
    var t := s[i..];
    if i + 7 <= |s| {
      assert t[..7] == s[i..i + 7];
    }
  }

  lemma PlainLineSkipAt(line: string, rest: string, i: nat)
    requires PlainLine(line) && i <= |line|
    requires rest == "" || (rest[0] == '\n' && (|rest| > 1 ==> rest[1] != '('))
    ensures OpenerLength(("\n" + line + rest)[i..], "replace") == 0
  {
    var p := "\n" + line;
    var s := p + rest;
    OpenerChars(s, i);
    if i == 0 {
      assert i + 7 <= |s| ==> s[i..i + 7][0] == '\n';
    } else if i + 7 <= |p| {
      OpenerChars(line, i - 1);
      assert OpenerLength(line[i - 1..], "replace") == 0;
      var here, there := s[i..i + 7], line[i - 1..i + 6];
      forall k | 0 <= k < 7 ensures here[k] == there[k] {
        assert s[i + k] == line[i + k - 1];
      }
      if i + 7 < |p| {
        assert s[i + 7] == line[i + 6];
        assert i + 8 < |s| ==> s[i + 8] == if i + 8 < |p| then line[i + 7] else rest[0];
      } else if rest != "" {
        assert s[i + 7] == rest[0];
        assert |rest| > 1 ==> s[i + 8] == rest[1];
      }
    } else if |s| > |p| {
      assert s[|p|] == '\n';
      assert i + 7 <= |s| ==> s[i..i + 7][|p| - i] == '\n';
    }
  }

  /** No opener starts in a plain line, whatever line follows unless that one starts with `(`. */
  lemma PlainLineSkip(line: string, rest: string)
    requires PlainLine(line)
    requires rest == "" || (rest[0] == '\n' && (|rest| > 1 ==> rest[1] != '('))
    ensures Blocks("\n" + line + rest, "replace") == Blocks(rest, "replace")
  {
    var p := "\n" + line;
    var s := p + rest;
    forall i: nat | i < |p| ensures OpenerLength(s[i..], "replace") == 0 {
      PlainLineSkipAt(line, rest, i);
    }
    BlocksSkip(p, rest);
  }

  lemma {:induction false} OpenerFound(opener: string, tail: string)
    requires IsOpener(opener)
    ensures OpenerLength(opener + tail, "replace") == |opener|
  {
    var s := opener + tail;
    assert s[..7] == opener[..7] == "replace";
    assert s[7] == opener[7] && (|opener| == 9 ==> s[8] == opener[8]);
  }

  /** A match at the beginning. */
  lemma {:induction false} BlocksAt(s: string, keyword: string, m: nat)
    requires s != "" && MatchLength(s, keyword) == m && m > 0
    ensures Blocks(s, keyword) == [s[..m]] + Blocks(s[m..], keyword)
  {
  }

  lemma {:induction false} MatchFound(opener: string, body: string, rest: string)
    requires IsOpener(opener) && NoParens(body)
    ensures MatchLength(opener + body + ")" + rest, "replace") == |opener| + |body| + 1
  {
    var s, n := opener + body + ")" + rest, |opener|;
    assert OpenerLength(s, "replace") == n by {
      OpenerFound(opener, body + ")" + rest);
      assert s == opener + (body + ")" + rest);
    }
    assert IndexOf(s[n..], ")") == |body| by {
      assert s[n..] == body + [')'] + rest;
      IndexOfChar(body, ')', rest);
    }
  }

  lemma {:induction false} BlocksMatch(opener: string, body: string, rest: string)
    requires IsOpener(opener) && NoParens(body)
    ensures Blocks(opener + body + ")" + rest, "replace") == [opener + body + ")"] + Blocks(rest, "replace")
  {
    var s, m := opener + body + ")" + rest, |opener| + |body| + 1;
    MatchFound(opener, body, rest);
    BlocksAt(s, "replace", m);
    assert s[..m] == opener + body + ")" && s[m..] == rest;
  }

  lemma {:induction false} WithinBody(body: string)
    requires NoParens(body)
    ensures Within(body + ")", 1) == body
  {
    if body == "" {
      assert Within(")", 1) == "" by {
        assert ")"[1..] == "";
      }
    } else {
      assert (body + ")")[1..] == body[1..] + ")";
      WithinBody(body[1..]);
    }
  }

  lemma {:induction false} WithinSkip(p: string, rest: string)
    requires NoParens(p)
    ensures Within(p + "(" + rest, 0) == Within(rest, 1)
  {
    var s := p + "(" + rest;
    if p == "" {
      assert s[1..] == rest;
    } else {
      assert s[1..] == p[1..] + "(" + rest;
      WithinSkip(p[1..], rest);
    }
  }

  lemma WithinBlock(opener: string, body: string)
    requires IsOpener(opener) && NoParens(body)
    ensures Within(opener + body + ")", 0) == body
  {
    var p := opener[..|opener| - 1];
    assert opener == p + "(";
    assert opener + body + ")" == p + "(" + (body + ")");
    WithinSkip(p, body + ")");
    WithinBody(body);
  }

  // ---------- parsing the lines of a block ----------

  lemma BothEmpty(x: Parsed<seq<Directive>>)
    ensures Both(Parsed([]), x) == x == Both(x, Parsed([]))
  {
    if x.Parsed? {
      assert [] + x.value == x.value == x.value + [];
    }
  }

  lemma BothAssociative(x: Parsed<seq<Directive>>, y: Parsed<seq<Directive>>, z: Parsed<seq<Directive>>)
    ensures Both(Both(x, y), z) == Both(x, Both(y, z))
  {
    if x.Parsed? && y.Parsed? && z.Parsed? {
      assert (x.value + y.value) + z.value == x.value + (y.value + z.value);
    }
  }

  lemma {:induction false} ParseLinesConcat(a: seq<string>, b: seq<string>)
    ensures ParseLines(a + b) == Both(ParseLines(a), ParseLines(b))
  {
    if a == [] {
      assert a + b == b;
      BothEmpty(ParseLines(b));
    } else {
      assert (a + b)[0] == a[0] && (a + b)[1..] == a[1..] + b;
      ParseLinesConcat(a[1..], b);
      BothAssociative(ParseOne(TrimSpace(a[0])), ParseLines(a[1..]), ParseLines(b));
    }
  }

  predicate Blank(s: string) {
    '\n' !in s && forall c :: c in s ==> IsSpace(c)
  }

  lemma BlankTrims(s: string)
    requires Blank(s)
    ensures TrimSpace(s) == "" && ParseLines([s]) == Parsed([])
  {
    TrimSpaceIs(s, "", "");
    assert s + "" + "" == s;
    assert [s][1..] == [];
  }

  lemma BlankAround(before: string, inner: seq<string>, after: string)
    requires Blank(before) && Blank(after)
    ensures ParseLines([before] + inner + [after]) == ParseLines([before] + inner)
         == ParseLines(inner + [after]) == ParseLines(inner)
  {
    BlankTrims(before);
    BlankTrims(after);
    ParseLinesConcat([before] + inner, [after]);
    ParseLinesConcat([before], inner);
    ParseLinesConcat(inner, [after]);
    BothEmpty(ParseLines(inner));
    BothEmpty(ParseLines([before] + inner));
  }

  lemma TrimNewlines(before: string, inner: seq<string>, after: string) returns (lines: seq<string>)
    requires Blank(before) && Blank(after) && forall l :: l in inner ==> '\n' !in l
    ensures Split(TrimSuffix(TrimPrefix(Join([before] + inner + [after], "\n"), "\n"), "\n"), "\n") == lines
    ensures lines == [before] + inner + [after] || lines == [before] + inner
         || lines == inner + [after] || (lines == inner && inner != [])
  {
    var all := [before] + inner + [after];
    var tail := inner + [after];
    assert all[1..] == tail;
    var text := Join(all, "\n");
    assert text == before + "\n" + Join(tail, "\n");
    var fromHead := if before == "" then tail else all;
    assert TrimPrefix(text, "\n") == Join(fromHead, "\n") by {
      if before == "" {
        assert text == "\n" + Join(tail, "\n");
      } else {
        assert text[0] == before[0];
      }
    }
    var front := fromHead[..|fromHead| - 1];
    assert fromHead == front + [after];
    assert front == if before == "" then inner else [before] + inner;
    lines := if after == "" && front != [] then front else fromHead;
    TrimLastNewline(front, after);
    SplitJoin(lines, '\n');
  }

  lemma TrimLastNewline(front: seq<string>, after: string)
    requires '\n' !in after
    ensures TrimSuffix(Join(front + [after], "\n"), "\n")
         == Join(if after == "" && front != [] then front else front + [after], "\n")
  {
    var text := Join(front + [after], "\n");
    if front == [] {
      assert front + [after] == [after];
      assert text == after;
    } else {
      JoinConcat(front, [after], "\n");
      assert text == Join(front, "\n") + "\n" + after;
      if after == "" {
        assert text == Join(front, "\n") + "\n";
      }
    }
    assert after != "" ==> text[|text| - 1] == after[|after| - 1];
  }

  lemma BlockParses(before: string, inner: seq<string>, after: string, opener: string)
    requires Blank(before) && Blank(after) && IsOpener(opener)
    requires forall l :: l in inner ==> '\n' !in l && NoParens(l)
    ensures var body := Join([before] + inner + [after], "\n");
            NoParens(body) && ParseLines(BlockLines(opener + body + ")")) == ParseLines(inner)
  {
    var all := [before] + inner + [after];
    JoinNoParens(all);
    WithinBlock(opener, Join(all, "\n"));
    var lines := TrimNewlines(before, inner, after);
    BlankAround(before, inner, after);
  }

  lemma {:induction false} JoinNoParens(lines: seq<string>)
    requires forall l :: l in lines ==> NoParens(l)
    ensures NoParens(Join(lines, "\n"))
  {
    if lines != [] {
      assert lines[0] in lines;
    }
    if |lines| > 1 {
      JoinNoParens(lines[1..]);
    }
  }

  // ---------- the agreement ----------

  /** Where the block that is open ends. */
  lemma {:induction false} FindClose(lines: seq<string>) returns (k: nat)
    requires Canonical(lines, true)
    ensures k < |lines| && TrimSpace(lines[k]) == ")" && '\n' !in lines[k]
    ensures forall l :: l in lines[..k] ==> '\n' !in l && NoParens(l)
    ensures Canonical(lines[k + 1..], false)
    ensures BlockInterior(lines, true) == lines[..k] + BlockInterior(lines[k + 1..], false)
  {
    if TrimSpace(lines[0]) == ")" {
      k := 0;
      assert lines[..0] == [];
    } else {
      var k' := FindClose(lines[1..]);
      k := k' + 1;
      assert lines[..k] == [lines[0]] + lines[1..][..k'];
      assert lines[k + 1..] == lines[1..][k' + 1..];
      assert lines[k] == lines[1..][k'];
    }
  }

  lemma CutAround(line: string, core: string) returns (before: string, after: string)
    requires TrimSpace(line) == core && '\n' !in line
    ensures line == before + core + after && Blank(before) && Blank(after)
  {
    var lo, hi := TrimSpaceSlice(line);
    before, after := line[..lo], line[hi..];
    forall c | c in before || c in after ensures IsSpace(c) {
      if c in before {
        var i :| 0 <= i < lo && before[i] == c;
        assert line[i] == c;
      } else {
        var i :| 0 <= i < |after| && after[i] == c;
        assert line[hi + i] == c;
      }
    }
  }

  /** What follows a line in a canonical text never completes an opener begun on that line. */
  lemma NextLineStart(lines: seq<string>)
    requires Canonical(lines, false)
    ensures TextOf(lines) == "" || (TextOf(lines)[0] == '\n' && (|TextOf(lines)| > 1 ==> TextOf(lines)[1] != '('))
  {
    if lines != [] && lines[0] != "" {
      assert TextOf(lines)[1] == lines[0][0];
      if IsOpener(TrimSpace(lines[0])) {
        var before, after := CutAround(lines[0], TrimSpace(lines[0]));
      }
    } else if |lines| > 1 {
      assert TextOf(lines)[1] == '\n';
    }
  }

  function RegexDirectives(text: string): Parsed<seq<Directive>> {
    BlocksDirectives(Blocks(text, "replace"))
  }

  lemma PlainStep(lines: seq<string>)
    requires Canonical(lines, false) && lines != [] && !IsOpener(TrimSpace(lines[0]))
    ensures RegexDirectives(TextOf(lines)) == RegexDirectives(TextOf(lines[1..]))
    ensures BlockInterior(lines, false) == BlockInterior(lines[1..], false)
  {
    NextLineStart(lines[1..]);
    PlainLineSkip(lines[0], TextOf(lines[1..]));
  }

  lemma OpenerLine(lines: seq<string>)
    requires Canonical(lines, false) && lines != []
    ensures '\n' !in lines[0]
  {
  }

  lemma BlockAt(lines: seq<string>, k: nat)
    requires lines != [] && k < |lines| - 1
    ensures var tail := lines[1..]; lines == [lines[0]] + tail[..k] + [tail[k]] + tail[k + 1..]
  {
  }

  lemma BlockInteriorOpener(lines: seq<string>)
    requires lines != [] && IsOpener(TrimSpace(lines[0]))
    ensures BlockInterior(lines, false) == BlockInterior(lines[1..], true)
  {
  }

  /** On canonical lines the directives that the regular expression finds in blocks are those of the
      lines that the line scanner sees inside blocks. */
  lemma {:induction false} RecognisersAgree(lines: seq<string>)
    requires Canonical(lines, false)
    ensures RegexDirectives(TextOf(lines)) == ParseLines(BlockInterior(lines, false))
    decreases |lines|
  {
    if lines == [] {
    } else if !IsOpener(TrimSpace(lines[0])) {
      PlainStep(lines);
      RecognisersAgree(lines[1..]);
    } else {
      var tail := lines[1..];
      var k := FindClose(tail);
      var inner, rest := tail[..k], tail[k + 1..];
      assert RegexDirectives(TextOf(lines)) == Both(ParseLines(inner), RegexDirectives(TextOf(rest))) by {
        OpenerLine(lines);
        BlockAt(lines, k);
        BlockMatches(lines[0], inner, tail[k], rest);
      }
      assert BlockInterior(lines, false) == inner + BlockInterior(rest, false) by {
        BlockInteriorOpener(lines);
      }
      ParseLinesConcat(inner, BlockInterior(rest, false));
      RecognisersAgree(rest);
    }
  }

  lemma BlockMatches(open: string, inner: seq<string>, close: string, rest: seq<string>)
    requires IsOpener(TrimSpace(open)) && TrimSpace(close) == ")" && '\n' !in open && '\n' !in close
    requires forall l :: l in inner ==> '\n' !in l && NoParens(l)
    ensures RegexDirectives(TextOf([open] + inner + [close] + rest))
         == Both(ParseLines(inner), RegexDirectives(TextOf(rest)))
  {
    var opener := TrimSpace(open);
    var before, mid := CutAround(open, opener);
    var mid', after := CutAround(close, ")");
    var body := Join([mid] + inner + [mid'], "\n");
    BlockParses(mid, inner, mid', opener);
    BlockText(before, opener, mid, inner, mid', after, rest);
    SpacesSkip("\n" + before, opener + body + ")" + (after + TextOf(rest)));
    BlocksMatch(opener, body, after + TextOf(rest));
    SpacesSkip(after, TextOf(rest));
    assert ([opener + body + ")"] + Blocks(TextOf(rest), "replace"))[1..] == Blocks(TextOf(rest), "replace");
  }

  lemma BlockText(before: string, opener: string, mid: string, inner: seq<string>, mid': string, after: string,
                  rest: seq<string>)
    ensures TextOf([before + opener + mid] + inner + [mid' + ")" + after] + rest)
         == ("\n" + before) + (opener + Join([mid] + inner + [mid'], "\n") + ")" + (after + TextOf(rest)))
  {
    var a, b := [before + opener + mid], [mid' + ")" + after];
    TextOfConcat(a + inner + b, rest);
    TextOfConcat(a + inner, b);
    TextOfConcat(a, inner);
    assert TextOf(a) == "\n" + before + opener + mid;
    assert TextOf(b) == "\n" + mid' + ")" + after;
    JoinConcat([mid] + inner, [mid'], "\n");
    if inner == [] {
      assert [mid] + inner == [mid];
    } else {
      JoinConcat([mid], inner, "\n");
      TextOfJoin(inner);
    }
    assert Join([mid] + inner, "\n") == mid + TextOf(inner);
    BlockPieces(before, opener, mid, TextOf(inner), mid', after, TextOf(rest));
  }

  lemma BlockPieces(before: string, opener: string, mid: string, x: string, mid': string, after: string, r: string)
    ensures ("\n" + before + opener + mid) + x + ("\n" + mid' + ")" + after) + r
         == ("\n" + before) + (opener + (mid + x + "\n" + mid') + ")" + (after + r))
  {
    var p := "\n" + before;
    calc {
      (p + opener + mid) + x + ("\n" + mid' + ")" + after) + r;
      p + (opener + mid) + x + ("\n" + mid' + ")" + after) + r;
      p + (opener + mid + x) + ("\n" + mid' + ")" + after) + r;
      p + (opener + mid + x + ("\n" + mid' + ")" + after)) + r;
      p + (opener + mid + x + ("\n" + mid' + ")" + after) + r);
      {
        assert (opener + mid + x) + ("\n" + mid' + ")" + after) + r
            == opener + (mid + x + "\n" + mid') + ")" + (after + r);
      }
      p + (opener + (mid + x + "\n" + mid') + ")" + (after + r));
    }
  }

  /** The replace directives of a canonical text, as the line scanner alone would read them. */
  lemma CanonicalDirectives(lines: seq<string>)
    requires lines != [] && Canonical(lines, false)
    ensures ReplacedVersions(Join(lines, "\n"))
         == Both(ParseLines(BlockInterior(lines, false)), SingleDirectives(lines, false))
  {
    var text := Join(lines, "\n");
    CanonicalNoNewlines(lines, false);
    SplitJoin(lines, '\n');
    TextOfJoin(lines);
    SpacesSkip("\n", text);
    RecognisersAgree(lines);
  }

  lemma {:induction false} CanonicalNoNewlines(lines: seq<string>, inBlock: bool)
    requires Canonical(lines, inBlock)
    ensures forall l :: l in lines ==> '\n' !in l
  {
    if lines != [] {
      CanonicalNoNewlines(lines[1..], InBlockAfter(lines[0], inBlock));
    }
  }

  /** Reading a canonical text with the regular expression and with the line scanner gives the same directives. */
  lemma CanonicalTextDirectives(text: string)
    requires Canonical(Lines(text), false)
    ensures ReplacedVersions(text)
         == Both(ParseLines(BlockInterior(Lines(text), false)), SingleDirectives(Lines(text), false))
  {
    JoinSplit(text, "\n");
    CanonicalDirectives(Lines(text));
  }

  // ---------- what a line of its own is ----------

  lemma {:induction false} WordPrefix(t: string, word: string)
    requires forall c :: c in word ==> !IsSpace(c)
    ensures Word(t) == word <==> word <= t && (|t| == |word| || IsSpace(t[|word|]))
  {
    var w := Word(t);
    forall k | 0 <= k < |word| ensures !IsSpace(word[k]) {
      assert word[k] in word;
    }
    forall k | 0 <= k < |w| ensures !IsSpace(t[k]) {
      assert t[k] == w[k] && w[k] in w;
    }
    assert |w| == |word| && word <= t ==> w == word;
  }

  /** The first field of a text that does not begin with white space. */
  lemma {:induction false} FirstField(t: string, word: string)
    requires word != "" && (forall c :: c in word ==> !IsSpace(c)) && (t != "" ==> !IsSpace(t[0]))
    ensures |Fields(t)| > 0 && Fields(t)[0] == word
       <==> word <= t && (|t| == |word| || IsSpace(t[|word|]))
  {
    WordPrefix(t, word);
    assert TrimLeft(t) == t;
  }

  /** A trimmed line is a replace directive of its own when white space follows the keyword and an arrow comes
      later, whatever the number of its fields. */
  predicate ReplacesAlone(t: string) {
    "replace" <= t && |t| > 7 && IsSpace(t[7]) && Contains(t, "=>")
  }

  lemma {:induction false} ArrowAfterWord(t: string, word: string, arrow: string)
    requires word != "" && (forall c :: c in word ==> !IsSpace(c)) && (t != "" ==> !IsSpace(t[0]))
    requires !Contains(word, arrow)
    ensures Contains(t, arrow) && |Fields(t)| > 0 && Fields(t)[0] == word
       <==> word <= t && |t| > |word| && IsSpace(t[|word|]) && Contains(t, arrow)
  {
    FirstField(t, word);
    assert word <= t && |t| == |word| ==> t == word;
  }

  lemma {:induction false} KeywordPlain()
    ensures !Contains("replace", "=>") && forall c :: c in "replace" ==> !IsSpace(c)
  {
    var word := "replace";
    MissingChar(word, "=>", '=');
  }

  lemma {:induction false} SingleReplaceIs(t: string)
    requires t != "" ==> !IsSpace(t[0])
    ensures IsSingleReplace(t) <==> ReplacesAlone(t)
  {
    KeywordPlain();
    ArrowAfterWord(t, "replace", "=>");
  }

  /** What a line of its own does to the scanner: blanks around it do not matter, an opener or a directive is
      dropped, everything else is kept, and the directive is what follows the keyword. */
  lemma {:induction false} LineAlone(line: string, before: string, t: string, after: string)
    requires line == before + t + after && forall c :: c in before || c in after ==> IsSpace(c)
    requires t != "" ==> !IsSpace(t[0]) && !IsSpace(t[|t| - 1])
    ensures Stripped([line], false)
         == (if t == "replace (" || t == "replace(" || ReplacesAlone(t) then [] else [line])
    ensures SingleDirectives([line], false)
         == (if ReplacesAlone(t) then ParseOne(TrimSpace(t[7..])) else Parsed([]))
  {
    TrimSpaceIs(before, t, after);
    SingleReplaceIs(t);
    assert [line][1..] == [];
    if ReplacesAlone(t) {
      assert t != "replace (" && t != "replace(" by {
        OpenersPlain();
      }
      assert TrimPrefix(t, "replace") == t[7..];
      BothEmpty(ParseOne(TrimSpace(t[7..])));
    }
  }

  lemma {:induction false} OpenersPlain()
    ensures !Contains("replace (", "=>") && !Contains("replace(", "=>")
  {
    var a, b := "replace (", "replace(";
    MissingChar(a, "=>", '=');
    MissingChar(b, "=>", '=');
  }

  /** A line that opens no block does not change how the lines after it are read. */
  lemma {:induction false} LineFirst(line: string, rest: seq<string>)
    requires TrimSpace(line) != "replace (" && TrimSpace(line) != "replace("
    ensures Stripped([line] + rest, false) == Stripped([line], false) + Stripped(rest, false)
    ensures SingleDirectives([line] + rest, false)
            == Both(SingleDirectives([line], false), SingleDirectives(rest, false))
  {
    var lines := [line] + rest;
    assert lines[0] == line && lines[1..] == rest && [line][1..] == [];
    BothEmpty(SingleDirectives(rest, false));
    BothEmpty(SingleDirectives([line], false));
    assert !IsOpener(TrimSpace(line));
    if IsSingleReplace(TrimSpace(line)) {
      BothEmpty(ParseOne(TrimSpace(TrimPrefix(TrimSpace(line), "replace"))));
    }
  }

  lemma {:induction false} BlockRest(inside: seq<string>, closer: string, rest: seq<string>)
    requires TrimSpace(closer) == ")" && forall l :: l in inside ==> TrimSpace(l) != ")"
    ensures Stripped(inside + [closer] + rest, true) == Stripped(rest, false)
    ensures SingleDirectives(inside + [closer] + rest, true) == SingleDirectives(rest, false)
    decreases |inside|
  {
    var lines := inside + [closer] + rest;
    if inside == [] {
      assert lines[0] == closer && lines[1..] == rest;
    } else {
      assert lines[0] == inside[0] && lines[1..] == inside[1..] + [closer] + rest;
      BlockRest(inside[1..], closer, rest);
    }
  }

  /** A block goes from its opener to the first closer, and the lines after it are read as if it were not there. */
  lemma {:induction false} BlockFirst(opener: string, inside: seq<string>, closer: string, rest: seq<string>)
    requires TrimSpace(opener) == "replace (" || TrimSpace(opener) == "replace("
    requires TrimSpace(closer) == ")" && forall l :: l in inside ==> TrimSpace(l) != ")"
    ensures Stripped([opener] + inside + [closer] + rest, false) == Stripped(rest, false)
    ensures SingleDirectives([opener] + inside + [closer] + rest, false) == SingleDirectives(rest, false)
  {
    var lines := [opener] + inside + [closer] + rest;
    assert lines[0] == opener && lines[1..] == inside + [closer] + rest;
    BlockRest(inside, closer, rest);
  }

  lemma {:induction false} StillContains(before: string, core: string, sub: string)
    requires Contains(core, sub)
    ensures Contains(before + core, sub)
  {
    IndexOfFirst(core, sub);
    var j := IndexOf(core, sub);
    assert (before + core)[|before| + j..|before| + j + |sub|] == core[j..j + |sub|];
    ContainsAt(before + core, sub, |before| + j);
  }

  lemma {:induction false} KeywordText(keyword: string, before: string, core: string)
    requires before != "" && core != "" && keyword != ""
    ensures var t, n := keyword + before + core, |keyword|;
            && keyword <= t && |t| > n && t[n] == before[0] && t[0] == keyword[0] && t[|t| - 1] == core[|core| - 1]
            && t[n..] == before + core
  {
  }

  lemma {:induction false} AloneText(t: string, before: string, core: string)
    requires t == "replace" + before + core
    requires before != "" && forall c :: c in before ==> IsSpace(c)
    requires core != "" && !IsSpace(core[|core| - 1]) && Contains(core, "=>")
    ensures ReplacesAlone(t) && t[7..] == before + core && !IsSpace(t[0]) && !IsSpace(t[|t| - 1])
  {
    var keyword := "replace";
    KeywordText(keyword, before, core);
    StillContains(keyword + before, core, "=>");
    assert before[0] in before && !IsSpace(keyword[0]);
  }

  /** A directive on a line of its own, with white space behind the keyword, is stripped and parsed. */
  lemma {:induction false} DirectiveAlone(line: string, t: string, before: string, core: string, after: string)
    requires line == t + after && t == "replace" + before + core
    requires before != "" && forall c :: c in before || c in after ==> IsSpace(c)
    requires core != "" && !IsSpace(core[0]) && !IsSpace(core[|core| - 1]) && Contains(core, "=>")
    ensures Stripped([line], false) == [] && SingleDirectives([line], false) == ParseOne(core)
  {
    AloneText(t, before, core);
    assert TrimSpace(t[7..]) == core by {
      TrimSpaceIs(before, core, "");
      assert before + core + "" == before + core;
    }
    assert line == "" + t + after;
    LineAlone(line, "", t, after);
  }

  lemma {:induction false} SliceBlank(printed: string, lo: nat, hi: nat)
    requires lo <= hi <= |printed| && forall i :: 0 <= i < lo || hi <= i < |printed| ==> IsSpace(printed[i])
    ensures forall c :: c in printed[..lo] || c in printed[hi..] ==> IsSpace(c)
    ensures printed == printed[..lo] + printed[lo..hi] + printed[hi..]
  {
  }

  lemma {:induction false} TrimmedAlone(line: string, printed: string, core: string)
    requires line == "replace" + printed && printed != "" && IsSpace(printed[0]) && core == TrimSpace(printed)
    requires core != "" && Contains(core, "=>")
    ensures Stripped([line], false) == [] && SingleDirectives([line], false) == ParseOne(core)
  {
    var lo, hi := TrimSpaceSlice(printed);
    var before, after := printed[..lo], printed[hi..];
    SliceBlank(printed, lo, hi);
    assert core[0] == printed[lo];
    KeywordLine("replace", printed, before, core, after);
    DirectiveAlone(line, "replace" + before + core, before, core, after);
  }

  lemma {:induction false} KeywordLine(keyword: string, printed: string, before: string, core: string, after: string)
    requires printed == before + core + after
    ensures keyword + before + core + after == keyword + printed
  {
  }

  /** A printed directive is read back and stripped when it stands behind the keyword on a line of its own. */
  lemma {:induction false} SingleLineRead(d: Directive)
    requires Printable(d)
    ensures var line := "replace" + FormatReplaceLine(d);
            Stripped([line], false) == [] && SingleDirectives([line], false) == Parsed([d])
  {
    var core := TrimSpace(FormatReplaceLine(d));
    assert Contains(core, "=>") by {
      assert d == [d[0], d[1]];
      PrintedTrims(d[0], d[1]);
      ArrowContained(Head(d[0]), Tail(d[1]));
    }
    assert ParseOne(core) == Parsed([d]) by {
      PrintedParses(d);
    }
    assert core != "" by {
      EmptyHasNo("=>");
    }
    TrimmedAlone("replace" + FormatReplaceLine(d), FormatReplaceLine(d), core);
  }

  lemma {:induction false} EmptyHasNo(sub: string)
    requires sub != ""
    ensures !Contains("", sub)
  {
    IndexOfFirst("", sub);
  }

  lemma {:induction false} ArrowContained(head: string, tail: string)
    ensures Contains(head + "=>" + tail, "=>")
  {
    var s := head + "=>" + tail;
    assert s[|head|..|head| + 2] == "=>";
    ContainsAt(s, "=>", |head|);
  }

  // ---------- stripping ----------

  lemma {:induction false} UntouchedLines(lines: seq<string>)
    requires forall l :: l in lines ==> Untouched(l)
    ensures Stripped(lines, false) == lines
    ensures BlockInterior(lines, false) == [] && SingleDirectives(lines, false) == Parsed([])
    ensures (forall l :: l in lines ==> PlainLine(l)) ==> Canonical(lines, false)
  {
    if lines != [] {
      assert Untouched(lines[0]);
      UntouchedLines(lines[1..]);
    }
  }

  lemma {:induction false} KeptPlain(lines: seq<string>, inBlock: bool)
    requires Canonical(lines, inBlock)
    ensures forall l :: l in Stripped(lines, inBlock) ==> PlainLine(l)
  {
    if lines != [] {
      KeptPlain(lines[1..], InBlockAfter(lines[0], inBlock));
    }
  }

  /** Stripping is idempotent. */
  lemma StrippingIdempotent(lines: seq<string>)
    ensures Stripped(Stripped(lines, false), false) == Stripped(lines, false)
  {
    UntouchedLines(Stripped(lines, false));
  }

  /** From a canonical text stripping leaves no directive that the parser could read. */
  lemma StrippingIsComplete(lines: seq<string>)
    requires Canonical(lines, false)
    ensures ReplacedVersions(Join(Stripped(lines, false), "\n")) == Parsed([])
  {
    var kept := Stripped(lines, false);
    KeptPlain(lines, false);
    UntouchedLines(kept);
    if kept != [] {
      CanonicalDirectives(kept);
    } else {
      EmptyText();
    }
  }

  lemma EmptyText()
    ensures ReplacedVersions("") == Parsed([]) && Lines("") == [""]
  {
    var lines := [""];
    BlankTrims("");
    assert !Contains("", "=>");
    UntouchedLines(lines);
    CanonicalDirectives(lines);
    SplitJoin(lines, '\n');
    BothEmpty(Parsed([]));
  }
}
