/** What the directive parser makes of any text around an arrow. */
module GoModDirectives {
  import opened GoModBlocks
  import opened GoModText
  import opened Strings

  predicate Blankless(words: seq<string>) {
    forall w :: w in words ==> ' ' !in w
  }

  lemma {:induction false} BlanksDropped(words: seq<string>, blank: string)
    requires Blankless(words) && blank == " "
    ensures DropSpaces(Join(words, blank)) == Join(words, "")
    decreases |words|
  {
    if |words| > 1 {
      var first, rest := words[0], words[1..];
      assert first in words && forall w :: w in rest ==> w in words;
      BlanksDropped(rest, blank);
      DropSpacesPlain(first);
      DropSpacesConcat(first + blank, Join(rest, blank));
      DropSpacesConcat(first, blank);
      OneBlankDropped(blank);
    } else if |words| == 1 {
      assert words[0] in words;
      DropSpacesPlain(words[0]);
    }
  }

  lemma {:induction false} OneBlankDropped(blank: string)
    requires blank == " "
    ensures DropSpaces(blank) == ""
  {
    assert blank[1..] == "";
  }

  /** A name and words behind it, with blanks between them and perhaps one in front. */
  predicate Spaced(s: string, lead: string, name: string, words: seq<string>) {
    && (lead == " " || (lead == "" && name != "")) && ' ' !in name && Blankless(words)
    && s == lead + name + if words == [] then "" else " " + Join(words, " ")
  }

  /** The package is the first word, and its version all words behind it run together. */
  lemma {:induction false} PackageAndVersionIs(s: string, lead: string, name: string, words: seq<string>)
    requires Spaced(s, lead, name, words)
    ensures PackageAndVersion(s) == (name, Join(words, ""))
  {
    var rest := if words == [] then "" else " " + Join(words, " ");
    assert TrimPrefix(s, " ") == name + rest by {
      LeadTrimmed(s, lead, name, rest, " ");
    }
    CutAtBlank(name, rest, words);
  }

  lemma {:induction false} LeadTrimmed(s: string, lead: string, name: string, rest: string, blank: string)
    requires blank == " " && (lead == blank || (lead == "" && name != "")) && ' ' !in name && s == lead + name + rest
    ensures TrimPrefix(s, blank) == name + rest
  {
    if lead == blank {
      assert blank <= s && s[|blank|..] == name + rest;
    } else {
      assert s[0] == name[0] && name[0] in name;
      assert s == name + rest;
    }
  }

  lemma {:induction false} CutAtBlank(name: string, rest: string, words: seq<string>)
    requires ' ' !in name && Blankless(words) && rest == if words == [] then "" else " " + Join(words, " ")
    ensures SplitAtBlank(name + rest) == (name, Join(words, ""))
  {
    var t, blank := name + rest, " ";
    if words == [] {
      assert t == name;
      MissingChar(t, blank, ' ');
    } else {
      var behind := Join(words, blank);
      IndexOfChar(name, ' ', behind);
      assert t == name + [' '] + behind;
      assert t[..|name|] == name && t[|name| + 1..] == behind;
      BlanksDropped(words, blank);
    }
  }

  lemma {:induction false} ArrowFound(left: string, arrow: string, more: string)
    requires arrow == "=>" && !Contains(left, arrow)
    ensures IndexOf(left + arrow + more, arrow) == |left|
  {
    var s := left + arrow + more;
    FirstArrow(left);
    forall i: nat | i < |left|
      ensures !ArrowAt(s, i)
    {
      assert !ArrowAt(left, i);
    }
    ArrowIs(s, |left|);
  }

  /** The first piece of a text, and the text behind the separator. */
  lemma {:induction false} CutOnce(s: string, left: string, behind: string, arrow: string)
    requires arrow == "=>" && !Contains(left, arrow) && s == left + arrow + behind
    ensures Split(s, arrow) == [left] + Split(behind, arrow)
  {
    ArrowFound(left, arrow, behind);
    SplitFirst(s, arrow, |left|);
    assert s[..|left|] == left && s[|left| + |arrow|..] == behind;
  }

  lemma {:induction false} FirstPiece(behind: string, right: string, more: string, arrow: string)
    requires arrow == "=>" && !Contains(right, arrow) && (behind == right || behind == right + arrow + more)
    ensures Split(behind, arrow)[0] == right
  {
    if behind == right {
      assert Split(behind, arrow) == [behind];
    } else {
      CutOnce(behind, right, more, arrow);
    }
  }

  lemma {:induction false} PartsAround(s: string, left: string, right: string, more: string, arrow: string)
    requires arrow == "=>" && !Contains(left, arrow) && !Contains(right, arrow)
    requires s == left + arrow + right || s == left + arrow + (right + arrow + more)
    ensures |Split(s, arrow)| >= 2 && Split(s, arrow)[0] == left && Split(s, arrow)[1] == right
  {
    var behind := if s == left + arrow + right then right else right + arrow + more;
    CutOnce(s, left, behind, arrow);
    FirstPiece(behind, right, more, arrow);
  }

  /** The text before the first arrow and the text between it and the next, whatever is behind that one, are the
      two packages; a name that is a comment yields nothing. */
  lemma {:induction false} DirectiveRead(s: string, left: string, right: string, more: string, lead1: string,
                                         name1: string, words1: seq<string>, lead2: string, name2: string,
                                         words2: seq<string>)
    requires !Contains(left, "=>") && !Contains(right, "=>")
    requires s == left + "=>" + right || s == left + "=>" + (right + "=>" + more)
    requires Spaced(left, lead1, name1, words1) && Spaced(right, lead2, name2, words2)
    ensures ParseOne(s)
         == Parsed(if "//" <= name1 then []
                   else [[Package(name1, Join(words1, ""), false), Package(name2, Join(words2, ""), false)]])
  {
    PartsAround(s, left, right, more, "=>");
    PackageAndVersionIs(left, lead1, name1, words1);
    PackageAndVersionIs(right, lead2, name2, words2);
  }

  /** A directive is invalid exactly when it has no arrow. */
  lemma {:induction false} InvalidIff(s: string)
    ensures ParseOne(s).Fatal? <==> !Contains(s, "=>")
  {
    var i := IndexOf(s, "=>");
    if i >= 0 {
      SplitFirst(s, "=>", i);
    }
  }

  // ---------- blocks ----------

  /** What may stand between the keyword and the bracket: nothing, or one character of white space. */
  predicate BlockGap(gap: string) {
    || gap == ""
    || (|gap| == 1
        && (gap[0] == ' ' || gap[0] == '\t' || gap[0] == '\n' || gap[0] == '\r' || gap[0] == '\U{000C}'))
  }

  /** A block: the keyword, the gap, and brackets around text without a closing one. */
  predicate BlockText(s: string, keyword: string, gap: string, inside: string) {
    BlockGap(gap) && ')' !in inside && s == keyword + gap + "(" + inside + ")"
  }

  lemma {:induction false} BlockOpened(s: string, keyword: string, gap: string, behind: string)
    requires keyword != "" && BlockGap(gap) && s == keyword + gap + ['('] + behind
    ensures OpenerLength(s, keyword) == |keyword| + |gap| + 1
  {
    var k := |keyword|;
    assert s[..k] == keyword && s[k + |gap|] == '(';
    assert gap != "" ==> s[k] == gap[0];
  }

  lemma {:induction false} BlockClosed(s: string, keyword: string, front: string, inside: string, rest: string)
    requires keyword != "" && s == front + (inside + [')'] + rest) && ')' !in inside
    requires OpenerLength(s, keyword) == |front| > 0
    ensures MatchLength(s, keyword) == |front| + |inside| + 1
  {
    assert s[|front|..] == inside + [')'] + rest;
    IndexOfChar(inside, ')', rest);
  }

  /** A block at the beginning of a text is matched as a whole, whatever follows. */
  lemma {:induction false} BlockMatched(block: string, keyword: string, gap: string, inside: string, rest: string)
    requires keyword != "" && BlockText(block, keyword, gap, inside)
    ensures MatchLength(block + rest, keyword) == |block|
  {
    var s, front := block + rest, keyword + gap + "(";
    assert s == front + (inside + [')'] + rest);
    assert s == keyword + gap + ['('] + (inside + [')'] + rest);
    BlockOpened(s, keyword, gap, inside + [')'] + rest);
    BlockClosed(s, keyword, front, inside, rest);
  }

  /** And nothing else is. */
  lemma {:induction false} MatchedIsBlock(s: string, keyword: string) returns (gap: string, inside: string)
    requires keyword != "" && MatchLength(s, keyword) > 0
    ensures BlockText(s[..MatchLength(s, keyword)], keyword, gap, inside)
  {
    var k, n, m := |keyword|, OpenerLength(s, keyword), MatchLength(s, keyword);
    gap, inside := s[k..n - 1], s[n..m - 1];
    ContainsChar(s[n..], ')');
    assert inside == s[n..][..m - 1 - n];
    assert s[..k] == keyword && s[n - 1] == '(' && s[m - 1] == ')';
    assert s[..m] == s[..k] + s[k..n - 1] + [s[n - 1]] + s[n..m - 1] + [s[m - 1]];
  }

  // ---------- the text within brackets ----------

  lemma {:induction false} WithinBefore(before: string, bracket: char, rest: string)
    requires NoParens(before) && (bracket == '(' || bracket == ')')
    ensures Within(before + ([bracket] + rest), 0) == Within(rest, if bracket == '(' then 1 else 2)
    decreases |before|
  {
    var s := before + ([bracket] + rest);
    if before == "" {
      assert s[0] == bracket && s[1..] == rest;
    } else {
      assert before[0] in before && forall c :: c in before[1..] ==> c in before;
      assert s[0] == before[0] && s[1..] == before[1..] + ([bracket] + rest);
      WithinBefore(before[1..], bracket, rest);
    }
  }

  lemma {:induction false} WithinInside(inside: string, rest: string)
    requires NoParens(inside)
    ensures Within(inside + ([')'] + rest), 1) == inside + Within(rest, 2)
    decreases |inside|
  {
    var s := inside + ([')'] + rest);
    if inside == "" {
      assert s[0] == ')' && s[1..] == rest;
    } else {
      var tail := inside[1..];
      assert inside[0] in inside && forall c :: c in tail ==> c in inside;
      assert s[0] == inside[0] && s[1..] == tail + ([')'] + rest) && inside == [inside[0]] + tail;
      WithinInside(tail, rest);
    }
  }

  /** The text between the first brackets; text behind them ends the scan, brackets right behind them resume it. */
  lemma {:induction false} WithinIs(before: string, inside: string, rest: string, more: string)
    requires NoParens(before) && NoParens(inside) && NoParens(more)
    ensures rest == "" || (rest[0] != '(' && rest[0] != ')') ==>
              Within(before + (['('] + (inside + ([')'] + rest))), 0) == inside
    ensures rest == ['('] + (more + [')']) ==>
              Within(before + (['('] + (inside + ([')'] + rest))), 0) == inside + more
    ensures rest != "" && rest[0] != '(' && rest[0] != ')' ==> Within(before + ([')'] + rest), 0) == ""
  {
    var s := inside + ([')'] + rest);
    WithinBefore(before, '(', s);
    WithinInside(inside, rest);
    WithinBefore(before, ')', rest);
    assert inside + "" == inside;
    if rest == ['('] + (more + [')']) {
      assert rest[0] == '(' && rest[1..] == more + [')'];
      WithinInside(more, "");
      assert more + ([')'] + "") == more + [')'] && more + "" == more;
    }
  }
}
