/** Camel case to readable text and back. */
module ReadableStrings {

  import opened Options
  import opened Sequences
  import opened Strings

  datatype Action = DontAddSpace | AddTrailingSpace | AddLeadingSpace

  predicate IsBig(c: char) {
    'A' <= c <= 'Z'
  }

  predicate IsSmall(c: char) {
    'a' <= c <= 'z'
  }

  // ---------- the dictionary ----------

  function Lookup(input: string): Option<string> {
    if input == "MeshSync" then Some("MeshSync")
    else if input == "additionalProperties" then Some("additionalProperties")
    else if input == "caBundle" then Some("CA Bundle")
    else if input == "mtls" || input == "mTLS" then Some("mTLS")
    else None
  }

  /** The inverse; two keys have the value "mTLS", and which of them is found depends on the order in
      which the map is walked. */
  function LookupInverse(input: string, smallFirst: bool): Option<string> {
    if input == "MeshSync" then Some("MeshSync")
    else if input == "additionalProperties" then Some("additionalProperties")
    else if input == "CA Bundle" then Some("caBundle")
    else if input == "mTLS" then Some(if smallFirst then "mtls" else "mTLS")
    else None
  }

  // ---------- the loop ----------

  predicate IsException(prev: nat, curr: nat, next: nat, input: string)
    requires prev < curr < next < |input|
  {
    || (next != |input| - 1 && IsBig(input[curr]) && IsBig(input[prev]) && IsSmall(input[next])
        && IsBig(input[next + 1]))
    || (next == |input| - 1 && IsSmall(input[next]))
    || (IsBig(input[curr]) && IsSmall(input[next]) && next != |input| - 1 && IsBig(input[next + 1]))
  }

  function ActionToPerform(prev: nat, curr: nat, next: nat, input: string): Action
    requires prev < curr < next < |input|
  {
    if IsException(prev, curr, next, input) then DontAddSpace
    else if IsSmall(input[curr]) && IsBig(input[next]) then AddLeadingSpace
    else if IsBig(input[curr]) && IsBig(input[prev]) && IsSmall(input[next]) then AddTrailingSpace
    else DontAddSpace
  }

  /** What the loop appends for the character at `i`. */
  function Piece(input: string, i: nat): string
    requires 0 < i < |input| - 1
  {
    match ActionToPerform(i - 1, i, i + 1, input)
    case DontAddSpace => [input[i]]
    case AddLeadingSpace => [input[i]] + " "
    case AddTrailingSpace => " " + [input[i]]
  }

  /** The word after the loop's turns before `n`. */
  function Built(input: string, n: nat): string
    requires 1 <= n <= |input| && (n == 1 || n <= |input| - 1)
  {
    if n == 1 then [input[0]] else Built(input, n - 1) + Piece(input, n - 1)
  }

  /** The word before its white space is put in order. */
  function Raw(input: string): string
    requires input != ""
  {
    Built(input, if |input| == 1 then 1 else |input| - 1) + [input[|input| - 1]]
  }

  function Normalized(w: string): string {
    Join(Fields(TrimSpace(w)), " ")
  }

  function Formatted(input: string): string {
    if input == "" then ""
    else
      match Lookup(input)
      case Some(value) => value
      case None => Normalized(Raw(input))
  }

  function DeFormatted(input: string, smallFirst: bool): string {
    match LookupInverse(input, smallFirst)
    case Some(value) => value
    case None => ReplaceAll(input, " ", "")
  }

  method FormatToReadableString(input: string) returns (r: string)
    ensures r == Formatted(input)
  {
    if |input| == 0 {
      return "";
    }
    var found := Lookup(input);
    if found.Some? {
      return found.value;
    }
    var finalWord := [input[0]];
    for i := 0 to |input|
      invariant i > 1 ==> i <= |input| - 1
      invariant finalWord == Built(input, if i <= 1 then 1 else i)
    {
      if i == 0 {
        continue;
      }
      if i == |input| - 1 {
        break;
      }
      match ActionToPerform(i - 1, i, i + 1, input) {
        case DontAddSpace => finalWord := finalWord + [input[i]];
        case AddLeadingSpace => finalWord := finalWord + ([input[i]] + " ");
        case AddTrailingSpace => finalWord := finalWord + (" " + [input[i]]);
      }
    }
    r := Normalized(finalWord + [input[|input| - 1]]);
  }

  // ---------- text and its white space ----------

  /** The characters that are no white space. */
  function Solid(s: string): string {
    if s == "" then "" else (if IsSpace(s[0]) then "" else [s[0]]) + Solid(s[1..])
  }

  predicate NoSpace(s: string) {
    forall c :: c in s ==> !IsSpace(c)
  }

  lemma {:induction false} SolidConcat(a: string, b: string)
    ensures Solid(a + b) == Solid(a) + Solid(b)
  {
    if a == "" {
      assert a + b == b;
    } else {
      SolidConcat(a[1..], b);
      assert (a + b)[0] == a[0] && (a + b)[1..] == a[1..] + b;
      Regroup(if IsSpace(a[0]) then "" else [a[0]], Solid(a[1..]), Solid(b));
    }
  }

  lemma {:induction false} SolidOfSpaces(s: string)
    requires forall c :: c in s ==> IsSpace(c)
    ensures Solid(s) == ""
  {
    if s != "" {
      SolidOfSpaces(s[1..]);
    }
  }

  lemma {:induction false} SolidIsWhole(s: string)
    ensures Solid(s) == s <==> NoSpace(s)
    ensures |Solid(s)| <= |s|
  {
    if s != "" {
      SolidIsWhole(s[1..]);
      assert s == [s[0]] + s[1..];
    }
  }

  /** White space is single spaces between other characters. */
  ghost predicate WellSpaced(w: string) {
    && (w != "" ==> !IsSpace(w[0]) && !IsSpace(w[|w| - 1]))
    && (forall c :: c in w && IsSpace(c) ==> c == ' ')
    && (forall i, j :: 0 <= i < j < |w| && j == i + 1 ==> !IsSpace(w[i]) || !IsSpace(w[j]))
  }

  lemma WellSpacedJoined(a: string, w: string)
    requires a != "" && WellSpaced(a) && w != "" && WellSpaced(w)
    ensures WellSpaced(a + w) && WellSpaced(a + " " + w)
  {
    var x, y := a + " " + w, a + w;
    assert x[0] == a[0] && x[|x| - 1] == w[|w| - 1] && x[|a|] == ' ';
    assert y[0] == a[0] && y[|y| - 1] == w[|w| - 1];
    assert forall i, j :: 0 <= i < j < |x| && j == i + 1 ==> !IsSpace(x[i]) || !IsSpace(x[j]);
    assert forall i, j :: 0 <= i < j < |y| && j == i + 1 ==> !IsSpace(y[i]) || !IsSpace(y[j]);
  }

  lemma WellSpacedSolid(a: string)
    requires NoSpace(a)
    ensures WellSpaced(a)
  {
    assert forall i :: 0 <= i < |a| ==> a[i] in a;
  }

  lemma {:induction false} FieldsAreWords(t: string)
    ensures forall f :: f in Fields(t) ==> f != "" && NoSpace(f)
    decreases |t|
  {
    var l := TrimLeft(t);
    TrimLeftSlice(t);
    if l != "" {
      FieldsAreWords(l[|Word(l)|..]);
    }
  }

  lemma SolidOfTrimmed(t: string)
    ensures Solid(TrimLeft(t)) == Solid(t)
  {
    var l := TrimLeft(t);
    TrimLeftSlice(t);
    assert t == t[..|t| - |l|] + l;
    SolidConcat(t[..|t| - |l|], l);
    SolidOfSpaces(t[..|t| - |l|]);
  }

  lemma {:induction false} FieldsKeepSolid(t: string, sep: string)
    requires forall c :: c in sep ==> IsSpace(c)
    ensures Solid(Join(Fields(t), sep)) == Solid(t)
    decreases |t|
  {
    var l := TrimLeft(t);
    SolidOfTrimmed(t);
    if l == "" {
      assert Fields(t) == [];
    } else {
      var word := Word(l);
      var rest := l[|word|..];
      assert l == word + rest;
      assert Fields(t) == [word] + Fields(rest);
      assert |rest| < |t| by { TrimLeftSlice(t); }
      FieldsKeepSolid(rest, sep);
      SolidConcat(word, rest);
      SolidOfJoin(word, Fields(rest), sep);
    }
  }

  lemma SolidOfJoin(word: string, rest: seq<string>, sep: string)
    requires forall c :: c in sep ==> IsSpace(c)
    ensures Solid(Join([word] + rest, sep)) == Solid(word) + Solid(Join(rest, sep))
  {
    if rest != [] {
      JoinCons(word, rest, sep);
      SolidConcat(word + sep, Join(rest, sep));
      SolidConcat(word, sep);
      SolidOfSpaces(sep);
    }
  }

  lemma {:induction false} JoinWellSpaced(words: seq<string>)
    requires forall f :: f in words ==> f != "" && NoSpace(f)
    ensures WellSpaced(Join(words, " "))
    ensures words != [] ==> Join(words, " ") != ""
  {
    if words != [] {
      assert words[0] in words;
      WellSpacedSolid(words[0]);
      if |words| > 1 {
        assert forall f :: f in words[1..] ==> f in words;
        JoinWellSpaced(words[1..]);
        WellSpacedJoined(words[0], Join(words[1..], " "));
      }
    }
  }

  lemma SolidOfTrimSpace(w: string)
    ensures Solid(TrimSpace(w)) == Solid(w)
  {
    var lo, hi := TrimSpaceSlice(w);
    assert w == w[..lo] + w[lo..hi] + w[hi..];
    SolidConcat(w[..lo] + w[lo..hi], w[hi..]);
    SolidConcat(w[..lo], w[lo..hi]);
    SolidOfSpaces(w[..lo]);
    SolidOfSpaces(w[hi..]);
  }

  /** Putting the white space in order keeps all other characters and leaves single spaces between them. */
  lemma NormalizedIs(w: string)
    ensures WellSpaced(Normalized(w)) && Solid(Normalized(w)) == Solid(w)
  {
    SolidOfTrimSpace(w);
    FieldsAreWords(TrimSpace(w));
    FieldsKeepSolid(TrimSpace(w), " ");
    JoinWellSpaced(Fields(TrimSpace(w)));
  }

  lemma {:induction false} SpacesRemoved(w: string)
    requires forall c :: c in w && IsSpace(c) ==> c == ' '
    ensures ReplaceAll(w, " ", "") == Solid(w)
  {
    if w != "" {
      SpacesRemoved(w[1..]);
      assert " " <= w <==> w[0] == ' ';
    }
  }

  lemma WellSpacedTail(w: string, k: nat)
    requires WellSpaced(w) && k < |w| && !IsSpace(w[k])
    ensures WellSpaced(w[k..])
  {
    var t := w[k..];
    assert t[0] == w[k] && t[|t| - 1] == w[|w| - 1];
    assert forall i, j :: 0 <= i < j < |t| && j == i + 1 ==> t[i] == w[k + i] && t[j] == w[k + j];
  }

  lemma {:induction false} FieldsOfWellSpaced(w: string)
    requires WellSpaced(w)
    ensures Join(Fields(w), " ") == w
    decreases |w|
  {
    if w != "" {
      var word := Word(w);
      var k := |word|;
      assert TrimLeft(w) == w;
      assert Fields(w) == [word] + Fields(w[k..]);
      if k == |w| {
        assert Fields(w[k..]) == [];
      } else {
        assert w[k] == ' ' && k + 1 < |w| && !IsSpace(w[k + 1]) by {
          assert k + 1 < |w| ==> !IsSpace(w[k]) || !IsSpace(w[k + 1]);
        }
        var rest := w[k + 1..];
        WellSpacedTail(w, k + 1);
        FieldsOfWellSpaced(rest);
        assert w[k..][1..] == rest;
        FieldsPastSpace(w[k..]);
        JoinCons(word, Fields(rest), " ");
        CutAtSpace(w, word, rest);
      }
    }
  }

  lemma CutAtSpace(w: string, word: string, rest: string)
    requires word <= w && |word| < |w| && w[|word|] == ' ' && rest == w[|word| + 1..]
    ensures w == word + " " + rest
  {
  }

  lemma FieldsPastSpace(t: string)
    requires |t| > 1 && IsSpace(t[0]) && !IsSpace(t[1])
    ensures Fields(t) == Fields(t[1..]) && Fields(t) != []
  {
    assert TrimLeft(t) == TrimLeft(t[1..]) == t[1..];
  }

  /** Text whose white space is in order already stays as it is. */
  lemma NormalizedFixed(w: string)
    requires WellSpaced(w)
    ensures Normalized(w) == w
  {
    TrimSpaceIs("", w, "");
    assert "" + w + "" == w;
    FieldsOfWellSpaced(w);
  }

  // ---------- where the spaces go ----------

  /** A space goes before a capital that follows a small letter, except at the second character, and
      before the last of several capitals that begins a word of at least three characters. */
  predicate SpaceBefore(s: string, i: nat)
    requires 0 < i < |s|
  {
    || (i >= 2 && IsSmall(s[i - 1]) && IsBig(s[i]))
    || (i + 2 < |s| && IsBig(s[i - 1]) && IsBig(s[i]) && IsSmall(s[i + 1]) && !IsBig(s[i + 2]))
  }

  function Gap(s: string, i: nat): string
    requires i < |s|
  {
    if i > 0 && SpaceBefore(s, i) then " " else ""
  }

  /** The first `n` characters with these spaces. */
  function Spaced(s: string, n: nat): string
    requires n <= |s|
  {
    if n == 0 then ""
    else Spaced(s, n - 1) + Gap(s, n - 1) + [s[n - 1]]
  }

  /** The four neighbours decide, by the letters of ASCII alone. */
  lemma ActionRules(s: string, i: nat)
    requires 0 < i < |s| - 1
    ensures var action := ActionToPerform(i - 1, i, i + 1, s);
            && (action == AddLeadingSpace <==> 'a' <= s[i] <= 'z' && 'A' <= s[i + 1] <= 'Z')
            && (action == AddTrailingSpace <==>
                  && i + 2 < |s| && 'A' <= s[i - 1] <= 'Z' && 'A' <= s[i] <= 'Z' && 'a' <= s[i + 1] <= 'z'
                  && !('A' <= s[i + 2] <= 'Z'))
  {
  }

  function LeadingGap(s: string, n: nat): string
    requires 1 <= n < |s|
  {
    if n > 1 && IsSmall(s[n - 1]) && IsBig(s[n]) then " " else ""
  }

  lemma PieceGaps(s: string, i: nat)
    requires 0 < i < |s| - 1
    ensures LeadingGap(s, i) + Piece(s, i) == Gap(s, i) + [s[i]] + LeadingGap(s, i + 1)
  {
    ActionRules(s, i);
  }

  lemma Glue(built: string, spaced: string, lead: string, piece: string, gap: string, c: string, next: string)
    requires built == spaced + lead && lead + piece == gap + c + next
    ensures built + piece == spaced + gap + c + next
  {
    assert spaced + lead + piece == spaced + (lead + piece);
  }

  lemma {:induction false} BuiltStep(s: string, n: nat)
    requires 1 < n < |s|
    ensures Built(s, n) == Built(s, n - 1) + Piece(s, n - 1)
    ensures Spaced(s, n) == Spaced(s, n - 1) + Gap(s, n - 1) + [s[n - 1]]
  {
  }

  lemma {:induction false} BuiltNext(s: string, n: nat)
    requires 1 < n < |s| && Built(s, n - 1) == Spaced(s, n - 1) + LeadingGap(s, n - 1)
    ensures Built(s, n) == Spaced(s, n) + LeadingGap(s, n)
  {
    BuiltStep(s, n);
    PieceGaps(s, n - 1);
    Glue(Built(s, n - 1), Spaced(s, n - 1), LeadingGap(s, n - 1), Piece(s, n - 1), Gap(s, n - 1), [s[n - 1]],
         LeadingGap(s, n));
  }

  lemma {:induction false} BuiltFirst(s: string)
    requires |s| >= 2
    ensures Built(s, 1) == Spaced(s, 1) + LeadingGap(s, 1)
  {
    assert Spaced(s, 0) == "";
  }

  /** The loop has placed the spaces up to `n`, and perhaps the one that belongs before the next character. */
  lemma {:induction false} BuiltSpaced(s: string, n: nat)
    requires 1 <= n < |s|
    ensures Built(s, n) == Spaced(s, n) + LeadingGap(s, n)
  {
    if n == 1 {
      BuiltFirst(s);
    } else {
      BuiltSpaced(s, n - 1);
      BuiltNext(s, n);
    }
  }

  lemma {:induction false} SpacedLast(s: string, n: nat)
    requires n >= 1 && |s| == n + 1
    ensures Spaced(s, |s|) == Spaced(s, n) + LeadingGap(s, n) + [s[n]]
  {
  }

  lemma {:induction false} RawLast(s: string, n: nat)
    requires n >= 1 && |s| == n + 1
    ensures Raw(s) == Built(s, n) + [s[n]]
  {
  }

  lemma Chain(raw: string, built: string, spaced: string, gap: string, c: string, whole: string)
    requires raw == built + c && built == spaced + gap && whole == spaced + gap + c
    ensures raw == whole
  {
  }

  lemma {:induction false} RawIsSpaced(s: string)
    requires |s| >= 2
    ensures Raw(s) == Spaced(s, |s|)
  {
    var n := |s| - 1;
    BuiltSpaced(s, n);
    SpacedLast(s, n);
    RawLast(s, n);
    Chain(Raw(s), Built(s, n), Spaced(s, n), LeadingGap(s, n), [s[n]], Spaced(s, |s|));
  }

  lemma {:induction false} SpacedSolid(s: string, n: nat)
    requires n <= |s|
    ensures Solid(Spaced(s, n)) == Solid(s[..n])
  {
    if n > 0 {
      SpacedSolid(s, n - 1);
      assert s[..n] == s[..n - 1] + [s[n - 1]];
      SolidGlued(Spaced(s, n - 1), Gap(s, n - 1), [s[n - 1]], s[..n - 1]);
    }
  }

  lemma {:induction false} SolidGlued(before: string, gap: string, last: string, front: string)
    requires Solid(before) == Solid(front) && (gap == "" || gap == " ")
    ensures Solid(before + gap + last) == Solid(front + last)
  {
    SolidConcat(before + gap, last);
    SolidConcat(before, gap);
    SolidOfSpaces(gap);
    assert Solid(before) + "" == Solid(before);
    SolidConcat(front, last);
  }

  lemma {:induction false} SpacedWellSpaced(s: string, n: nat)
    requires 0 < n <= |s| && NoSpace(s)
    ensures Spaced(s, n) != "" && WellSpaced(Spaced(s, n))
  {
    var last := [s[n - 1]];
    assert s[n - 1] in s;
    WellSpacedSolid(last);
    if n == 1 {
      assert Spaced(s, 0) == "" && Spaced(s, 1) == last;
    } else {
      SpacedWellSpaced(s, n - 1);
      var before := Spaced(s, n - 1);
      WellSpacedJoined(before, last);
      assert before + "" + last == before + last;
    }
  }

  /** Outside the dictionary, the formatted word is the word with its spaces, and nothing else. */
  lemma FormattedIsSpaced(s: string)
    requires |s| >= 2 && Lookup(s).None?
    ensures Formatted(s) == Normalized(Spaced(s, |s|))
    ensures NoSpace(s) ==> Formatted(s) == Spaced(s, |s|)
  {
    RawIsSpaced(s);
    if NoSpace(s) {
      SpacedWellSpaced(s, |s|);
      NormalizedFixed(Spaced(s, |s|));
    }
  }

  lemma TwoWords(a: string, b: string, text: string)
    requires a != "" && b != "" && NoSpace(a) && NoSpace(b) && text == a + " " + b
    ensures WellSpaced(text) && Solid(text) == a + b
  {
    WellSpacedSolid(a);
    WellSpacedSolid(b);
    WellSpacedJoined(a, b);
    SolidIsWhole(a);
    SolidIsWhole(b);
    var space := " ";
    SolidConcat(a, space);
    SolidOfSpaces(space);
    SolidConcat(a + space, b);
    assert Solid(a) + "" == a;
  }

  lemma ValueWellSpaced(value: string)
    requires value == "MeshSync" || value == "additionalProperties" || value == "CA Bundle" || value == "mTLS"
    ensures WellSpaced(value)
  {
    if value == "CA Bundle" {
      var a, b := "CA", "Bundle";
      TwoWords(a, b, value);
    } else {
      assert NoSpace(value);
      WellSpacedSolid(value);
    }
  }

  /** Formatted text has no leading, trailing or doubled spaces. */
  lemma FormattedWellSpaced(s: string)
    ensures WellSpaced(Formatted(s))
  {
    if s != "" {
      match Lookup(s) {
        case None => NormalizedIs(Raw(s));
        case Some(value) => ValueWellSpaced(value);
      }
    }
  }

  // ---------- the round trip ----------

  lemma SpacesGone(s: string)
    requires |s| >= 2 && Lookup(s).None?
    ensures Solid(Formatted(s)) == Solid(s)
  {
    RawIsSpaced(s);
    NormalizedIs(Raw(s));
    SpacedSolid(s, |s|);
    assert s[..|s|] == s;
  }

  lemma SingleDoubled(s: string)
    requires |s| == 1
    ensures Solid(Formatted(s)) == Solid(s + s)
  {
    NormalizedIs(Raw(s));
    assert [s[0]] == s;
    assert Raw(s) == s + s;
  }

  lemma RemovedAll(w: string, smallFirst: bool)
    requires LookupInverse(w, smallFirst).None? && WellSpaced(w)
    ensures DeFormatted(w, smallFirst) == Solid(w)
  {
    SpacesRemoved(w);
  }

  /** What the inverse dictionary yields is a key of the dictionary. */
  lemma InverseInDictionary(w: string, smallFirst: bool)
    ensures LookupInverse(w, smallFirst).Some? ==> Lookup(LookupInverse(w, smallFirst).value).Some?
  {
  }

  lemma MeshSyncIsSolid(w: string)
    requires w == "MeshSync"
    ensures NoSpace(w) && Lookup(w).Some?
  {
    assert w[0] == 'M';
  }

  lemma PropertiesAreSolid(w: string)
    requires w == "additionalProperties"
    ensures NoSpace(w) && Lookup(w).Some?
  {
    assert w[0] == 'a';
  }

  lemma MtlsIsSolid(w: string)
    requires w == "mTLS"
    ensures NoSpace(w) && Lookup(w).Some?
  {
    assert w[0] == 'm';
  }

  lemma LookupOfSolid(w: string)
    requires NoSpace(w) && Lookup(w).Some?
    ensures Lookup(Solid(w)).Some?
  {
    SolidIsWhole(w);
  }

  lemma SolidOfCABundle(w: string)
    requires w == "CA Bundle"
    ensures Solid(w) == "CABundle"
  {
    var a, b := "CA", "Bundle";
    TwoWords(a, b, w);
  }

  /** The values of the dictionary, without their spaces, are keys too, but for one. */
  lemma ValueWithoutSpaces(w: string, smallFirst: bool)
    requires LookupInverse(w, smallFirst).Some?
    ensures Lookup(Solid(w)).Some? || Solid(w) == "CABundle"
  {
    var key := Lookup(Solid(w)).Some?;
    var other := Solid(w) == "CABundle";
    if w == "CA Bundle" {
      assert other by { SolidOfCABundle(w); }
    } else {
      assert key by { LookupOfValue(w); }
    }
  }

  lemma LookupOfValue(w: string)
    requires w == "MeshSync" || w == "additionalProperties" || w == "mTLS"
    ensures Lookup(Solid(w)).Some?
  {
    assert NoSpace(w) && Lookup(w).Some? by {
      if w == "MeshSync" {
        MeshSyncIsSolid(w);
      } else if w == "mTLS" {
        MtlsIsSolid(w);
      } else {
        PropertiesAreSolid(w);
      }
    }
    LookupOfSolid(w);
  }

  lemma SpacedStep(s: string, n: nat)
    requires 0 < n < |s|
    ensures Spaced(s, n + 1) == Spaced(s, n) + (if SpaceBefore(s, n) then [' ', s[n]] else [s[n]])
  {
  }

  /** Two capitals before a capitalised word of six letters: one space. */
  lemma CABundleSpaced(s: string)
    requires |s| == 8 && IsBig(s[0]) && IsBig(s[1]) && IsBig(s[2])
    requires forall i :: 3 <= i < 8 ==> IsSmall(s[i])
    ensures Spaced(s, 8) == s[..2] + [' '] + s[2..]
  {
    assert Spaced(s, 0) == [] && Spaced(s, 1) == s[..1];
    SpacedStep(s, 1);
    assert Spaced(s, 2) == s[..2];
    SpacedStep(s, 2);
    var word := s[..2] + [' '] + s[2..];
    assert Spaced(s, 3) == word[..4];
    SpacedSmalls(s, word, 3);
  }

  /** The rest is small letters: no more spaces. */
  lemma {:induction false} SpacedSmalls(s: string, word: string, n: nat)
    requires 2 < n <= |s| && |word| == |s| + 1 && Spaced(s, n) == word[..n + 1]
    requires forall i :: n <= i < |s| ==> IsSmall(s[i]) && word[i + 1] == s[i]
    ensures Spaced(s, |s|) == word
    decreases |s| - n
  {
    if n < |s| {
      SpacedSmall(s, word, n);
      SpacedSmalls(s, word, n + 1);
    } else {
      assert word[..n + 1] == word;
    }
  }

  lemma SpacedSmall(s: string, word: string, n: nat)
    requires 2 < n < |s| && IsSmall(s[n]) && |word| == |s| + 1 && word[n + 1] == s[n] && Spaced(s, n) == word[..n + 1]
    ensures Spaced(s, n + 1) == word[..n + 2]
  {
    SpacedStep(s, n);
    assert word[..n + 2] == word[..n + 1] + [word[n + 1]];
  }

  lemma CABundleIsSolid(s: string)
    requires s == "CABundle"
    ensures NoSpace(s) && Lookup(s).None?
  {
    assert s[0] == 'C';
  }

  lemma CABundleSplit(s: string)
    requires s == "CABundle"
    ensures s[..2] + [' '] + s[2..] == "CA Bundle"
  {
  }

  lemma CABundleFormatted(s: string)
    requires s == "CABundle"
    ensures Formatted(s) == "CA Bundle"
  {
    CABundleIsSolid(s);
    FormattedIsSpaced(s);
    CABundleSpaced(s);
    CABundleSplit(s);
  }

  /** The words that come back: without white space, not of one character, not the word the dictionary's
      value looks like, and not the one of two keys with one value that the walk of the map finds second. */
  predicate Survives(s: string, smallFirst: bool) {
    && NoSpace(s)
    && |s| != 1
    && s != "CABundle"
    && s != if smallFirst then "mTLS" else "mtls"
  }

  lemma FormattedKey(s: string)
    requires Lookup(s).Some? && s != ""
    ensures Formatted(s) == Lookup(s).value
  {
  }

  lemma DeFormattedValue(w: string, smallFirst: bool)
    requires LookupInverse(w, smallFirst).Some?
    ensures DeFormatted(w, smallFirst) == LookupInverse(w, smallFirst).value
  {
  }

  /** What the round trip through the dictionary yields. */
  predicate ComesBack(s: string, smallFirst: bool) {
    && s != "" && Lookup(s).Some? && LookupInverse(Lookup(s).value, smallFirst).Some?
    && (LookupInverse(Lookup(s).value, smallFirst).value == s <==> Survives(s, smallFirst))
  }

  lemma MeshSyncComesBack(s: string, smallFirst: bool)
    requires s == "MeshSync"
    ensures ComesBack(s, smallFirst)
  {
    assert s[0] == 'M' && NoSpace(s);
  }

  lemma PropertiesComeBack(s: string, smallFirst: bool)
    requires s == "additionalProperties"
    ensures ComesBack(s, smallFirst)
  {
    assert s[0] == 'a' && NoSpace(s);
  }

  lemma CaBundleComesBack(s: string, smallFirst: bool)
    requires s == "caBundle"
    ensures ComesBack(s, smallFirst)
  {
    assert s[0] == 'c' && NoSpace(s);
    var value := "CA Bundle";
    assert value[0] == 'C';
  }

  lemma TlsComesBack(s: string, smallFirst: bool)
    requires s == "mtls" || s == "mTLS"
    ensures ComesBack(s, smallFirst)
  {
    assert s[0] == 'm' && NoSpace(s);
    var value := "mTLS";
    assert value[0] == 'm' && value[1] == 'T';
  }

  lemma DictionaryPairs(s: string, smallFirst: bool)
    requires Lookup(s).Some?
    ensures ComesBack(s, smallFirst)
  {
    if s == "MeshSync" {
      MeshSyncComesBack(s, smallFirst);
    } else if s == "additionalProperties" {
      PropertiesComeBack(s, smallFirst);
    } else if s == "caBundle" {
      CaBundleComesBack(s, smallFirst);
    } else {
      TlsComesBack(s, smallFirst);
    }
  }

  lemma DictionaryRoundTrip(s: string, smallFirst: bool)
    requires Lookup(s).Some?
    ensures DeFormatted(Formatted(s), smallFirst) == s <==> Survives(s, smallFirst)
  {
    DictionaryPairs(s, smallFirst);
    FormattedKey(s);
    DeFormattedValue(Lookup(s).value, smallFirst);
  }

  lemma SingleRoundTrip(s: string, smallFirst: bool)
    requires |s| == 1 && Lookup(s).None?
    ensures DeFormatted(Formatted(s), smallFirst) != s
  {
    var w := Formatted(s);
    SingleDoubled(s);
    FormattedWellSpaced(s);
    SolidConcat(s, s);
    InverseInDictionary(w, smallFirst);
    if LookupInverse(w, smallFirst).None? {
      RemovedAll(w, smallFirst);
    }
  }

  lemma LoopRoundTrip(s: string, smallFirst: bool)
    requires |s| >= 2 && Lookup(s).None?
    ensures DeFormatted(Formatted(s), smallFirst) == s <==> NoSpace(s) && s != "CABundle"
  {
    var w := Formatted(s);
    SpacesGone(s);
    FormattedWellSpaced(s);
    SolidIsWhole(s);
    if LookupInverse(w, smallFirst).None? {
      RemovedAll(w, smallFirst);
      if s == "CABundle" {
        CABundleFormatted(s);
      }
    } else {
      InverseInDictionary(w, smallFirst);
      ValueWithoutSpaces(w, smallFirst);
    }
  }

  /** Exactly these words come back from a round trip. */
  lemma RoundTrip(s: string, smallFirst: bool)
    ensures DeFormatted(Formatted(s), smallFirst) == s <==> Survives(s, smallFirst)
  {
    if s == "" {
    } else if Lookup(s).Some? {
      DictionaryRoundTrip(s, smallFirst);
    } else if |s| == 1 {
      SingleRoundTrip(s, smallFirst);
    } else {
      LoopRoundTrip(s, smallFirst);
    }
  }
}
