/** The few functions of Go's `strings` package that the modelled code calls, on sequences of
    characters, with the laws the other modules need. */
module Strings {

  /** `unicode.IsSpace` on ASCII and Latin-1 characters. */
  predicate IsSpace(c: char) {
    || c == ' ' || c == '\t' || c == '\n' || c == '\r'
    || c == '\U{000B}' || c == '\U{000C}' || c == '\U{0085}' || c == '\U{00A0}'
  }

  predicate HasSuffix(s: string, suffix: string) {
    |suffix| <= |s| && s[|s| - |suffix|..] == suffix
  }

  function TrimPrefix(s: string, prefix: string): string {
    if prefix <= s then s[|prefix|..] else s
  }

  function TrimSuffix(s: string, suffix: string): string {
    if HasSuffix(s, suffix) then s[..|s| - |suffix|] else s
  }

  // ---------- substring search ----------

  predicate OccursAt(s: string, sub: string, i: nat) {
    i + |sub| <= |s| && s[i..i + |sub|] == sub
  }

  /** `strings.Index`: the first occurrence, or -1 (see `IndexOfFirst`). */
  function IndexOf(s: string, sub: string): (r: int)
    ensures -1 <= r && r + |sub| <= |s| + |sub| && (r >= 0 ==> r + |sub| <= |s|)
  {
    if sub <= s then 0
    else if s == "" then -1
    else
      var r := IndexOf(s[1..], sub);
      if r < 0 then -1 else r + 1
  }

  lemma OccursInTail(s: string, sub: string, j: nat)
    requires j > 0 && s != ""
    ensures OccursAt(s, sub, j) <==> OccursAt(s[1..], sub, j - 1)
  {
    if j + |sub| <= |s| {
      assert s[1..][j - 1..j - 1 + |sub|] == s[j..j + |sub|];
    }
  }

  lemma {:induction false} IndexOfFirst(s: string, sub: string)
    ensures var r := IndexOf(s, sub);
            && (r >= 0 ==> OccursAt(s, sub, r) && forall j: nat :: j < r ==> !OccursAt(s, sub, j))
            && (r < 0 ==> forall j: nat :: !OccursAt(s, sub, j))
  {
    if sub <= s {
      assert s[0..|sub|] == sub;
    } else if s != "" {
      IndexOfFirst(s[1..], sub);
      assert !OccursAt(s, sub, 0);
      forall j: nat | j > 0 ensures OccursAt(s, sub, j) <==> OccursAt(s[1..], sub, j - 1) {
        OccursInTail(s, sub, j);
      }
    }
  }

  predicate Contains(s: string, sub: string) {
    IndexOf(s, sub) >= 0
  }

  lemma ContainsAt(s: string, sub: string, i: nat)
    requires OccursAt(s, sub, i)
    ensures Contains(s, sub)
  {
    IndexOfFirst(s, sub);
  }

  lemma NotContains(s: string, sub: string)
    requires forall j: nat :: !OccursAt(s, sub, j)
    ensures !Contains(s, sub)
  {
    IndexOfFirst(s, sub);
  }

  /** The first occurrence determines `IndexOf`. */
  lemma IndexOfIs(s: string, sub: string, i: nat)
    requires OccursAt(s, sub, i)
    requires forall j: nat :: j < i ==> !OccursAt(s, sub, j)
    ensures IndexOf(s, sub) == i
  {
    IndexOfFirst(s, sub);
  }

  lemma CharOccursAt(s: string, c: char)
    ensures forall i: nat :: OccursAt(s, [c], i) <==> i < |s| && s[i] == c
  {
    forall i: nat ensures OccursAt(s, [c], i) <==> i < |s| && s[i] == c {
      if i < |s| {
        assert s[i..i + 1] == [s[i]];
      }
    }
  }

  lemma ContainsChar(s: string, c: char)
    ensures Contains(s, [c]) <==> c in s
    ensures IndexOf(s, [c]) >= 0 ==>
              IndexOf(s, [c]) < |s| && s[IndexOf(s, [c])] == c && c !in s[..IndexOf(s, [c])]
  {
    CharOccursAt(s, c);
    IndexOfFirst(s, [c]);
  }

  /** A character is found exactly where the text before it ends. */
  lemma IndexOfChar(a: string, c: char, b: string)
    requires c !in a
    ensures IndexOf(a + [c] + b, [c]) == |a|
  {
    var s := a + [c] + b;
    CharOccursAt(s, c);
    assert forall i :: 0 <= i < |a| ==> s[i] == a[i];
    IndexOfIs(s, [c], |a|);
  }

  lemma MissingChar(s: string, sub: string, c: char)
    requires c in sub && c !in s
    ensures !Contains(s, sub)
  {
    forall j: nat ensures !OccursAt(s, sub, j) {
      if j + |sub| <= |s| {
        assert c !in s[j..j + |sub|];
      }
    }
    NotContains(s, sub);
  }

  lemma SliceOfSlice(s: string, lo: nat, hi: nat, i: nat, j: nat)
    requires lo <= hi <= |s| && i <= j <= hi - lo
    ensures s[lo..hi][i..j] == s[lo + i..lo + j]
  {
    var a, b := s[lo..hi][i..j], s[lo + i..lo + j];
    forall k | 0 <= k < j - i ensures a[k] == b[k] {
      assert s[lo..hi][i + k] == s[lo + (i + k)];
    }
  }

  lemma NotContainsSlice(s: string, sub: string, lo: nat, hi: nat)
    requires lo <= hi <= |s| && !Contains(s, sub)
    ensures !Contains(s[lo..hi], sub)
  {
    IndexOfFirst(s, sub);
    forall i: nat ensures !OccursAt(s[lo..hi], sub, i) {
      if lo + i + |sub| <= hi {
        assert !OccursAt(s, sub, lo + i);
        SliceOfSlice(s, lo, hi, i, i + |sub|);
      }
    }
    NotContains(s[lo..hi], sub);
  }

  // ---------- splitting and joining ----------

  /** `strings.Split` with a non-empty separator. */
  function Split(s: string, sep: string): (parts: seq<string>)
    requires sep != ""
    ensures |parts| >= 1
    decreases |s|
  {
    var i := IndexOf(s, sep);
    if i < 0 then [s] else [s[..i]] + Split(s[i + |sep|..], sep)
  }

  /** `strings.Join`. */
  function Join(parts: seq<string>, sep: string): string {
    if parts == [] then ""
    else if |parts| == 1 then parts[0]
    else parts[0] + sep + Join(parts[1..], sep)
  }

  lemma {:induction false} SplitPiecesFree(s: string, c: char)
    ensures forall p :: p in Split(s, [c]) ==> c !in p
    decreases |s|
  {
    ContainsChar(s, c);
    var i := IndexOf(s, [c]);
    if i >= 0 {
      SplitPiecesFree(s[i + 1..], c);
      assert s[..i][..] == s[..i];
    }
  }

  lemma CutAtIndex(s: string, sep: string)
    requires Contains(s, sep)
    ensures s == s[..IndexOf(s, sep)] + sep + s[IndexOf(s, sep) + |sep|..]
  {
    IndexOfFirst(s, sep);
    var i := IndexOf(s, sep);
    assert s[i..i + |sep|] == sep;
  }

  lemma JoinCons(first: string, rest: seq<string>, sep: string)
    requires rest != []
    ensures Join([first] + rest, sep) == first + sep + Join(rest, sep)
  {
    assert ([first] + rest)[1..] == rest;
  }

  lemma {:induction false} JoinSplit(s: string, sep: string)
    requires sep != ""
    ensures Join(Split(s, sep), sep) == s
    decreases |s|
  {
    var i := IndexOf(s, sep);
    if i >= 0 {
      CutAtIndex(s, sep);
      JoinSplit(s[i + |sep|..], sep);
      JoinCons(s[..i], Split(s[i + |sep|..], sep), sep);
    }
  }

  lemma {:induction false} SplitJoin(parts: seq<string>, c: char)
    requires parts != [] && forall p :: p in parts ==> c !in p
    ensures Split(Join(parts, [c]), [c]) == parts
  {
    if |parts| == 1 {
      ContainsChar(parts[0], c);
    } else {
      var rest := Join(parts[1..], [c]);
      var s := Join(parts, [c]);
      IndexOfChar(parts[0], c, rest);
      assert s[..|parts[0]|] == parts[0];
      assert s[|parts[0]| + 1..] == rest;
      SplitJoin(parts[1..], c);
    }
  }

  lemma {:induction false} JoinConcat(a: seq<string>, b: seq<string>, sep: string)
    requires a != [] && b != []
    ensures Join(a + b, sep) == Join(a, sep) + sep + Join(b, sep)
  {
    assert (a + b)[1..] == a[1..] + b;
    if |a| > 1 {
      JoinConcat(a[1..], b, sep);
    } else {
      assert a[1..] + b == b;
    }
  }

  // ---------- replacing ----------

  /** `strings.ReplaceAll` with a non-empty old text. */
  function ReplaceAll(s: string, sub: string, replacement: string): string
    requires sub != ""
    decreases |s|
  {
    if s == "" then ""
    else if sub <= s then replacement + ReplaceAll(s[|sub|..], sub, replacement)
    else [s[0]] + ReplaceAll(s[1..], sub, replacement)
  }

  lemma {:induction false} ReplaceKeepsHead(head: char, tail: string, sub: string, replacement: string)
    requires sub != "" && sub[0] != head
    ensures ReplaceAll([head] + tail, sub, replacement) == [head] + ReplaceAll(tail, sub, replacement)
  {
    assert ([head] + tail)[0] == head && ([head] + tail)[1..] == tail;
  }

  /** Text without the first character of the old text is passed over. */
  lemma {:induction false} ReplaceSkips(a: string, s: string, sub: string, replacement: string)
    requires sub != "" && sub[0] !in a
    ensures ReplaceAll(a + s, sub, replacement) == a + ReplaceAll(s, sub, replacement)
  {
    if a == "" {
      assert a + s == s;
    } else {
      var head, tail := a[0], a[1..];
      assert ReplaceAll(a + s, sub, replacement) == [head] + ReplaceAll(tail + s, sub, replacement) by {
        ReplaceKeepsHead(head, tail + s, sub, replacement);
        assert a + s == [head] + (tail + s);
      }
      ReplaceSkips(tail, s, sub, replacement);
      assert [head] + (tail + ReplaceAll(s, sub, replacement)) == a + ReplaceAll(s, sub, replacement);
    }
  }

  lemma PrefixChars(prefix: string, s: string)
    ensures prefix <= s ==> |prefix| <= |s| && forall i :: 0 <= i < |prefix| ==> s[i] == prefix[i]
    ensures |prefix| >= 2 && prefix <= s ==> |s| >= 2 && s[0] == prefix[0] && s[1] == prefix[1]
  {
  }

  /** Nothing is replaced where the first two characters of the old text never follow each other. */
  lemma {:induction false} ReplacesNothing(s: string, sub: string, replacement: string)
    requires |sub| >= 2 && forall i, j :: 0 <= i < j < |s| && j == i + 1 ==> s[i] != sub[0] || s[j] != sub[1]
    ensures ReplaceAll(s, sub, replacement) == s
  {
    if s != "" {
      PrefixChars(sub, s);
      if !(sub <= s) {
        ReplacesNothing(s[1..], sub, replacement);
      }
    }
  }

  lemma ReplacesWhole(sub: string, replacement: string)
    requires sub != ""
    ensures ReplaceAll(sub, sub, replacement) == replacement
  {
    assert sub[|sub|..] == "";
    assert replacement + "" == replacement;
  }

  // ---------- white space ----------

  function TrimLeft(s: string): (t: string)
    ensures |t| <= |s|
  {
    if s == "" || !IsSpace(s[0]) then s else TrimLeft(s[1..])
  }

  function TrimRight(s: string): (t: string)
    ensures |t| <= |s|
  {
    if s == "" || !IsSpace(s[|s| - 1]) then s else TrimRight(s[..|s| - 1])
  }

  /** `strings.TrimSpace`. */
  function TrimSpace(s: string): (t: string)
    ensures |t| <= |s|
  {
    TrimRight(TrimLeft(s))
  }

  lemma {:induction false} TrimLeftSlice(s: string)
    ensures var t := TrimLeft(s);
            && t == s[|s| - |t|..] && (t != "" ==> !IsSpace(t[0]))
            && forall i :: 0 <= i < |s| - |t| ==> IsSpace(s[i])
  {
    if s != "" && IsSpace(s[0]) {
      TrimLeftSlice(s[1..]);
      var n := |s| - |TrimLeft(s)|;
      assert forall i :: 1 <= i < n ==> s[i] == s[1..][i - 1];
    }
  }

  lemma {:induction false} TrimRightSlice(s: string)
    ensures var t := TrimRight(s);
            && t == s[..|t|] && (t != "" ==> !IsSpace(t[|t| - 1]))
            && forall i :: |t| <= i < |s| ==> IsSpace(s[i])
  {
    if s != "" && IsSpace(s[|s| - 1]) {
      TrimRightSlice(s[..|s| - 1]);
      assert forall i :: 0 <= i < |s| - 1 ==> s[..|s| - 1][i] == s[i];
    }
  }

  /** `strings.TrimSpace` removes exactly the white space around a core that neither starts nor ends with any. */
  lemma TrimSpaceIs(before: string, core: string, after: string)
    requires forall c :: c in before ==> IsSpace(c)
    requires forall c :: c in after ==> IsSpace(c)
    requires core != "" ==> !IsSpace(core[0]) && !IsSpace(core[|core| - 1])
    ensures TrimSpace(before + core + after) == core
  {
    var s := before + core + after;
    var l := TrimLeft(s);
    var n := |s| - |l|;
    TrimLeftSlice(s);
    TrimRightSlice(l);
    assert forall i :: 0 <= i < |before| ==> s[i] == before[i];
    assert forall i :: |before| + |core| <= i < |s| ==> s[i] == after[i - |before| - |core|];
    if core != "" {
      assert s[|before|] == core[0];
      assert n <= |before|;
      assert l[0] == s[n];
      assert l == core + after;
      var t := TrimRight(l);
      assert l[|core| - 1] == core[|core| - 1];
      assert |t| >= |core|;
      assert t[|t| - 1] == l[|t| - 1];
      assert t == core;
    } else {
      assert forall i :: 0 <= i < |s| ==> IsSpace(s[i]);
    }
  }

  lemma TrimmedTwice(s: string, l: string, t: string)
    requires |t| <= |l| <= |s| && l == s[|s| - |l|..] && t == l[..|t|]
    requires forall i :: 0 <= i < |s| - |l| ==> IsSpace(s[i])
    requires forall i :: |t| <= i < |l| ==> IsSpace(l[i])
    requires (l != "" ==> !IsSpace(l[0])) && (t != "" ==> !IsSpace(t[|t| - 1]))
    ensures var lo, hi := |s| - |l|, |s| - |l| + |t|;
            t == s[lo..hi] && forall i :: 0 <= i < lo || hi <= i < |s| ==> IsSpace(s[i])
    ensures t != "" ==> !IsSpace(t[0])
  {
    var lo, hi := |s| - |l|, |s| - |l| + |t|;
    assert s[lo..hi] == l[..|t|];
    forall i | hi <= i < |s| ensures IsSpace(s[i]) {
      assert s[i] == l[i - lo];
    }
  }

  /** The trimmed text is a slice of the original, surrounded by white space only. */
  lemma TrimSpaceSlice(s: string) returns (lo: nat, hi: nat)
    ensures lo <= hi <= |s| && TrimSpace(s) == s[lo..hi]
    ensures forall i :: 0 <= i < lo || hi <= i < |s| ==> IsSpace(s[i])
    ensures var t := TrimSpace(s); t != "" ==> !IsSpace(t[0]) && !IsSpace(t[|t| - 1])
  {
    var l := TrimLeft(s);
    var t := TrimRight(l);
    TrimLeftSlice(s);
    TrimRightSlice(l);
    lo := |s| - |l|;
    hi := lo + |t|;
    TrimmedTwice(s, l, t);
  }

  /** The longest prefix without white space. */
  function Word(s: string): (w: string)
    ensures w <= s
    ensures forall c :: c in w ==> !IsSpace(c)
    ensures |w| < |s| ==> IsSpace(s[|w|])
  {
    if s == "" || IsSpace(s[0]) then "" else [s[0]] + Word(s[1..])
  }

  /** `strings.Fields`. */
  function Fields(s: string): (words: seq<string>)
    decreases |s|
  {
    var t := TrimLeft(s);
    if t == "" then [] else [Word(t)] + Fields(t[|Word(t)|..])
  }
}
