/** Sorting of version-like strings by their digits, with the words alpha, beta, rc and stable read as digits. */
module DottedStrings {

  import opened Decimals
  import opened Sequences
  import opened Strings
  import opened VersionOrders

  const PAD := Number(3)

  predicate Kept(c: char) {
    IsDigit(c) || c == '.'
  }

  function Filter(s: string): (r: string)
    ensures forall c :: c in r ==> Kept(c)
  {
    if s == "" then "" else (if Kept(s[0]) then [s[0]] else "") + Filter(s[1..])
  }

  function ReplaceWords(s: string): string {
    ReplaceAll(ReplaceAll(ReplaceAll(ReplaceAll(s, "alpha", ".0"), "beta", ".1"), "rc", ".2"), "stable", ".4")
  }

  /** A leading `stable` counts like a trailing one. */
  function StableLast(s: string): string {
    if "stable" <= s then TrimPrefix(s, "stable") + "stable" else s
  }

  function CleanedUp(s: string): (r: string)
    ensures forall c :: c in r ==> Kept(c)
  {
    Filter(ReplaceWords(StableLast(s)))
  }

  function Numbers(parts: seq<string>): (key: seq<Part>)
    ensures |key| == |parts| && forall k :: 0 <= k < |key| ==> key[k] == Number(Atoi(parts[k]).value)
  {
    seq(|parts|, k requires 0 <= k < |parts| => Number(Atoi(parts[k]).value))
  }

  /** The numbers between the dots. */
  function Key(s: string): seq<Part> {
    Numbers(Split(CleanedUp(s), "."))
  }

  predicate Below(x: string, y: string) {
    Compare(PAD, Key(x), Key(y)) < 0
  }

  // ---------- the methods ----------

  lemma {:induction false} FilterConcat(a: string, b: string)
    ensures Filter(a + b) == Filter(a) + Filter(b)
  {
    if a == "" {
      assert a + b == b;
    } else {
      assert Filter(a + b) == (if Kept(a[0]) then [a[0]] else "") + Filter(a[1..] + b) by {
        assert (a + b)[0] == a[0] && (a + b)[1..] == a[1..] + b;
      }
      FilterConcat(a[1..], b);
      Regroup(if Kept(a[0]) then [a[0]] else "", Filter(a[1..]), Filter(b));
    }
  }

  lemma FilterOne(c: char)
    ensures Filter([c]) == if Kept(c) then [c] else ""
  {
    assert [c][1..] == "";
  }

  method Cleanup(s: string) returns (s1: string)
    ensures s1 == CleanedUp(s)
  {
    var t := s;
    if "stable" <= t {
      t := TrimPrefix(t, "stable");
      t := t + "stable";
    }
    t := ReplaceAll(t, "alpha", ".0");
    t := ReplaceAll(t, "beta", ".1");
    t := ReplaceAll(t, "rc", ".2");
    t := ReplaceAll(t, "stable", ".4");
    s1 := Digits(t);
  }

  method Digits(t: string) returns (s1: string)
    ensures s1 == Filter(t)
  {
    s1 := "";
    for i := 0 to |t|
      invariant s1 == Filter(t[..i])
    {
      FilterConcat(t[..i], [t[i]]);
      FilterOne(t[i]);
      assert t[..i + 1] == t[..i] + [t[i]];
      if ('0' <= t[i] <= '9') || t[i] == '.' {
        s1 := s1 + [t[i]];
      }
    }
    assert t[..|t|] == t;
  }

  /** Pads `parts` with the text "3" up to the length `n`. */
  method Padded(parts: seq<string>, n: nat) returns (padded: seq<string>)
    requires |parts| <= n
    ensures |padded| == n && parts <= padded && forall k :: |parts| <= k < n ==> padded[k] == "3"
  {
    padded := parts;
    var diff := n - |parts|;
    while diff != 0
      invariant diff >= 0 && |padded| + diff == n
      invariant parts <= padded && forall k :: |parts| <= k < |padded| ==> padded[k] == "3"
    {
      padded := padded + ["3"];
      diff := diff - 1;
    }
  }

  lemma AtoiOfThree()
    ensures Atoi("3").value == 3
  {
    AtoiOfDigits("3");
    assert "3"[..0] == "";
  }

  lemma PaddedAt(parts: seq<string>, padded: seq<string>, k: nat)
    requires parts <= padded && k < |padded| && forall i :: |parts| <= i < |padded| ==> padded[i] == "3"
    ensures Number(Atoi(padded[k]).value) == At(PAD, Numbers(parts), k)
  {
    AtoiOfThree();
  }

  /** The comparison loop on two lists of one length. */
  method LessNumbers(siarr: seq<string>, sjarr: seq<string>, ghost a: seq<Part>, ghost b: seq<Part>)
    returns (less: bool)
    requires |siarr| == |sjarr| == Longer(a, b)
    requires forall k: nat :: k < |siarr| ==> Number(Atoi(siarr[k]).value) == At(PAD, a, k)
                                              && Number(Atoi(sjarr[k]).value) == At(PAD, b, k)
    ensures less <==> Compare(PAD, a, b) < 0
  {
    for k := 0 to |siarr|
      invariant Compare(PAD, a, b) == Lex(PAD, a, b, k)
    {
      var p, q := Atoi(siarr[k]).value, Atoi(sjarr[k]).value;
      assert Number(p) == At(PAD, a, k) && Number(q) == At(PAD, b, k);
      if p < q {
        return true;
      }
      if q < p {
        return false;
      }
    }
    return false;
  }

  /** `dottedStrings.Less`. */
  method Less(d: array<string>, i: nat, j: nat) returns (less: bool)
    requires i < d.Length && j < d.Length
    ensures less <==> Below(d[i], d[j])
  {
    var si := Cleanup(d[i]);
    var sj := Cleanup(d[j]);
    var siarr, sjarr := Split(si, "."), Split(sj, ".");
    var a, b := siarr, sjarr;
    var diff := |siarr| - |sjarr|;
    if diff > 0 {
      sjarr := Padded(sjarr, |siarr|);
    } else {
      siarr := Padded(siarr, |sjarr|);
    }
    forall k: nat | k < |siarr|
      ensures Number(Atoi(siarr[k]).value) == At(PAD, Numbers(a), k)
              && Number(Atoi(sjarr[k]).value) == At(PAD, Numbers(b), k)
    {
      PaddedAt(a, siarr, k);
      PaddedAt(b, sjarr, k);
    }
    less := LessNumbers(siarr, sjarr, Numbers(a), Numbers(b));
  }

  /** The comparator is a strict weak order on all strings. */
  lemma BelowIsStrictWeak()
    ensures StrictWeak(Below)
  {
    forall x, y | Below(x, y)
      ensures !Below(y, x)
    {
      Antisymmetric(PAD, Key(x), Key(y), 0);
    }
    forall x, y, z | Below(x, z)
      ensures Below(x, y) || Below(y, z)
    {
      Antisymmetric(PAD, Key(x), Key(y), 0);
      Antisymmetric(PAD, Key(y), Key(z), 0);
      Antisymmetric(PAD, Key(x), Key(z), 0);
      if !Below(x, y) && !Below(y, z) {
        Transitive(PAD, Key(z), Key(y), Key(x), 0);
      }
    }
  }

  /** Two strings are tied exactly when their numbers, padded with threes, are the same. */
  lemma TiedIffSameNumbers(x: string, y: string)
    ensures !Below(x, y) && !Below(y, x) <==> SameStream(PAD, Key(x), Key(y))
    ensures Below(x, y) <==> Precedes(PAD, Key(x), Key(y))
  {
    CompareIsLexicographic(PAD, Key(x), Key(y));
    CompareIsLexicographic(PAD, Key(y), Key(x));
    Antisymmetric(PAD, Key(x), Key(y), 0);
  }

  method SortDottedStringsByDigits(d: array<string>)
    modifies d
    ensures multiset(d[..]) == multiset(old(d[..]))
    ensures forall i, j :: 0 <= i < j < d.Length ==> !Below(d[j], d[i])
  {
    BelowIsStrictWeak();
    Sort(d, Below);
    assert forall i :: 0 <= i < d.Length ==> d[..][i] == d[i];
  }

  // ---------- what the four words do ----------

  /** No character that begins one of the four words. */
  predicate Plain(b: string) {
    'a' !in b && 'b' !in b && 'r' !in b && 's' !in b
  }

  /** The word at the end is replaced by its digit. */
  lemma WordReplaced(a: string, word: string, digit: string)
    requires word != "" && word[0] !in a
    ensures ReplaceAll(a + word, word, digit) == a + digit
  {
    ReplaceSkips(a, word, word, digit);
    ReplacesWhole(word, digit);
  }

  /** Another word at the end stays. */
  lemma OtherKept(a: string, word: string, digit: string, other: string)
    requires |word| >= 2 && word[0] !in a
    requires forall i, j :: 0 <= i < j < |other| && j == i + 1 ==> other[i] != word[0] || other[j] != word[1]
    ensures ReplaceAll(a + other, word, digit) == a + other
  {
    ReplaceSkips(a, other, word, digit);
    ReplacesNothing(other, word, digit);
  }

  function Dot(d: nat): string
    requires d < 10
  {
    ['.', DigitChar(d)]
  }

  lemma AlphaReplaced(a: string)
    requires Plain(a)
    ensures ReplaceWords(a + "alpha") == a + Dot(0)
  {
    assert ".0" == Dot(0);
    WordReplaced(a, "alpha", ".0");
    OtherKept(a, "beta", ".1", ".0");
    OtherKept(a, "rc", ".2", ".0");
    OtherKept(a, "stable", ".4", ".0");
  }

  lemma BetaReplaced(a: string)
    requires Plain(a)
    ensures ReplaceWords(a + "beta") == a + Dot(1)
  {
    assert ".1" == Dot(1);
    OtherKept(a, "alpha", ".0", "beta");
    WordReplaced(a, "beta", ".1");
    OtherKept(a, "rc", ".2", ".1");
    OtherKept(a, "stable", ".4", ".1");
  }

  lemma RcReplaced(a: string)
    requires Plain(a)
    ensures ReplaceWords(a + "rc") == a + Dot(2)
  {
    assert ".2" == Dot(2);
    OtherKept(a, "alpha", ".0", "rc");
    OtherKept(a, "beta", ".1", "rc");
    WordReplaced(a, "rc", ".2");
    OtherKept(a, "stable", ".4", ".2");
  }

  lemma StableReplaced(a: string)
    requires Plain(a)
    ensures ReplaceWords(a + "stable") == a + Dot(4)
  {
    assert ".4" == Dot(4);
    OtherKept(a, "alpha", ".0", "stable");
    OtherKept(a, "beta", ".1", "stable");
    OtherKept(a, "rc", ".2", "stable");
    WordReplaced(a, "stable", ".4");
  }

  lemma PlainReplaced(a: string)
    requires Plain(a)
    ensures ReplaceWords(a) == a
  {
    assert a + "" == a;
    OtherKept(a, "alpha", ".0", "");
    OtherKept(a, "beta", ".1", "");
    OtherKept(a, "rc", ".2", "");
    OtherKept(a, "stable", ".4", "");
  }

  lemma FilterDash(b: string)
    ensures Filter(b + "-") == Filter(b) && Filter("-" + b) == Filter(b)
  {
    FilterOne('-');
    FilterConcat(b, ['-']);
    FilterConcat(['-'], b);
  }

  lemma FilterDot(d: nat)
    requires d < 10
    ensures Filter(Dot(d)) == Dot(d)
  {
    FilterOne('.');
    FilterOne(DigitChar(d));
    FilterConcat(['.'], [DigitChar(d)]);
    assert Dot(d) == ['.'] + [DigitChar(d)];
  }

  lemma DashDropped(a: string, b: string, d: nat)
    requires d < 10 && (a == b + "-" || a == "-" + b)
    ensures Filter(a + Dot(d)) == Filter(b) + Dot(d)
  {
    FilterConcat(a, Dot(d));
    FilterDash(b);
    FilterDot(d);
  }

  lemma NotStable(b: string, end: string)
    requires Plain(b) && (end == "" || end[0] == '-')
    ensures StableLast(b + end) == b + end
  {
    var stable, s := "stable", b + end;
    assert stable[0] == 's';
    PrefixChars(stable, s);
  }

  /** What is left of a version with a word behind a dash. */
  lemma CleanedWord(b: string, word: string, d: nat)
    requires Plain(b) && d < 10 && ReplaceWords(b + "-" + word) == b + "-" + Dot(d)
    ensures CleanedUp(b + "-" + word) == Filter(b) + Dot(d)
  {
    NotStable(b, "-" + word);
    assert b + "-" + word == b + ("-" + word);
    DashDropped(b + "-", b, d);
  }

  lemma CleanedPlain(b: string)
    requires Plain(b)
    ensures CleanedUp(b) == Filter(b)
  {
    NotStable(b, "");
    assert b + "" == b;
    PlainReplaced(b);
  }

  /** What is left of the five forms of a version, and of the one with `stable` in front. */
  lemma CleanedForms(b: string, alpha: string, beta: string, rc: string, stable: string, first: string)
    requires Plain(b) && alpha == b + "-" + "alpha" && beta == b + "-" + "beta" && rc == b + "-" + "rc"
    requires stable == b + "-" + "stable" && first == "stable" + ("-" + b)
    ensures CleanedUp(alpha) == Filter(b) + Dot(0) && CleanedUp(beta) == Filter(b) + Dot(1)
    ensures CleanedUp(rc) == Filter(b) + Dot(2) && CleanedUp(stable) == Filter(b) + Dot(4)
    ensures CleanedUp(first) == Filter(b) + Dot(4) && CleanedUp(b) == Filter(b)
  {
    AlphaReplaced(b + "-");
    CleanedWord(b, "alpha", 0);
    BetaReplaced(b + "-");
    CleanedWord(b, "beta", 1);
    RcReplaced(b + "-");
    CleanedWord(b, "rc", 2);
    StableReplaced(b + "-");
    CleanedWord(b, "stable", 4);
    CleanedPlain(b);
    CleanedFirst(b, "stable", first);
  }

  lemma CleanedFirst(b: string, word: string, first: string)
    requires Plain(b) && word == "stable" && first == word + ("-" + b)
    ensures CleanedUp(first) == Filter(b) + Dot(4)
  {
    assert word <= first && first[|word|..] == "-" + b;
    StableReplaced("-" + b);
    DashDropped("-" + b, b, 4);
  }

  /** One more number behind a dot. */
  lemma {:induction false} KeyAppended(f: string, n: string)
    requires '.' !in n
    ensures Numbers(Split(f + "." + n, ".")) == Numbers(Split(f, ".")) + [Number(Atoi(n).value)]
  {
    var parts := Split(f, ".");
    SplitPiecesFree(f, '.');
    JoinSplit(f, ".");
    JoinConcat(parts, [n], ".");
    SplitJoin(parts + [n], '.');
  }

  lemma Appended(key: seq<Part>, m: int, n: int)
    ensures m < n ==> Compare(PAD, key + [Number(m)], key + [Number(n)]) < 0
    ensures m < 3 ==> Compare(PAD, key + [Number(m)], key) < 0
    ensures 3 < n ==> Compare(PAD, key, key + [Number(n)]) < 0
  {
    var a, b := key + [Number(m)], key + [Number(n)];
    forall i: nat | i < |key|
      ensures At(PAD, a, i) == At(PAD, b, i) == At(PAD, key, i)
    {
    }
    assert At(PAD, a, |key|) == Number(m) && At(PAD, b, |key|) == Number(n) && At(PAD, key, |key|) == PAD;
    CompareIsLexicographic(PAD, a, b);
    CompareIsLexicographic(PAD, a, key);
    CompareIsLexicographic(PAD, key, b);
  }

  lemma WordKey(x: string, f: string, d: nat)
    requires d < 10 && CleanedUp(x) == f + Dot(d)
    ensures Key(x) == Numbers(Split(f, ".")) + [Number(d)]
  {
    var n := [DigitChar(d)];
    assert CleanedUp(x) == f + "." + n by {
      assert f + "." + n == f + Dot(d);
    }
    assert Atoi(n).value == d by {
      OneDigit(d);
    }
    KeyAppended(f, n);
  }

  lemma OneDigit(d: nat)
    requires d < 10
    ensures Atoi([DigitChar(d)]).value == d && '.' !in [DigitChar(d)]
  {
    AtoiOfDigits([DigitChar(d)]);
    assert [DigitChar(d)][..0] == "";
  }

  lemma BelowByNumber(x: string, y: string, key: seq<Part>, m: int, n: int)
    requires Key(x) == key + [Number(m)]
    requires (Key(y) == key + [Number(n)] && m < n) || (Key(y) == key && m < 3)
    ensures Below(x, y)
  {
    Appended(key, m, n);
  }

  lemma AboveByNumber(x: string, y: string, key: seq<Part>, n: int)
    requires Key(x) == key && Key(y) == key + [Number(n)] && 3 < n
    ensures Below(x, y)
  {
    Appended(key, n, n);
  }

  /** The five forms of one version, given the numbers of each. */
  lemma FormsOrdered(key: seq<Part>, alpha: string, beta: string, rc: string, b: string, stable: string)
    requires Key(alpha) == key + [Number(0)] && Key(beta) == key + [Number(1)] && Key(rc) == key + [Number(2)]
    requires Key(b) == key && Key(stable) == key + [Number(4)]
    ensures Below(alpha, beta) && Below(beta, rc) && Below(rc, b) && Below(b, stable)
  {
    BelowByNumber(alpha, beta, key, 0, 1);
    BelowByNumber(beta, rc, key, 1, 2);
    BelowByNumber(rc, b, key, 2, 0);
    AboveByNumber(b, stable, key, 4);
  }

  /** Within one version: alpha, beta, rc, the version itself, and stable, behind or in front. */
  lemma WordOrder(b: string, alpha: string, beta: string, rc: string, stable: string, first: string)
    requires Plain(b) && alpha == b + "-" + "alpha" && beta == b + "-" + "beta" && rc == b + "-" + "rc"
    requires stable == b + "-" + "stable" && first == "stable" + ("-" + b)
    ensures Below(alpha, beta) && Below(beta, rc) && Below(rc, b) && Below(b, stable)
    ensures Key(first) == Key(stable)
  {
    CleanedForms(b, alpha, beta, rc, stable, first);
    WordKey(alpha, Filter(b), 0);
    WordKey(beta, Filter(b), 1);
    WordKey(rc, Filter(b), 2);
    WordKey(stable, Filter(b), 4);
    FormsOrdered(Key(b), alpha, beta, rc, b, stable);
  }

  // ---------- the order of strings without the words ----------

  /** The characters `0` to `9`. */
  function OnlyDigits(s: string): (r: string)
    ensures forall c :: c in r ==> '0' <= c <= '9'
  {
    if s == "" then "" else (if '0' <= s[0] <= '9' then [s[0]] else "") + OnlyDigits(s[1..])
  }

  /** What the digits of a piece make up, at most the largest integer, and zero without any. */
  function NumberOf(piece: string): nat {
    var n := Decimal(OnlyDigits(piece)); if n > MAX_INT then MAX_INT else n
  }

  lemma {:induction false} FilterOfPiece(piece: string)
    requires '.' !in piece
    ensures Filter(piece) == OnlyDigits(piece)
  {
    if piece != "" {
      assert piece[0] in piece;
      FilterOfPiece(piece[1..]);
    }
  }

  function Filters(pieces: seq<string>): (filtered: seq<string>)
    ensures |filtered| == |pieces| && forall k :: 0 <= k < |pieces| ==> filtered[k] == OnlyDigits(pieces[k])
  {
    seq(|pieces|, k requires 0 <= k < |pieces| => OnlyDigits(pieces[k]))
  }

  lemma {:induction false} FilterOfJoin(pieces: seq<string>, dot: string)
    requires pieces != [] && dot == "." && forall p :: p in pieces ==> '.' !in p
    ensures Filter(Join(pieces, dot)) == Join(Filters(pieces), dot)
    decreases |pieces|
  {
    var first, rest := pieces[0], pieces[1..];
    assert first in pieces && forall p :: p in rest ==> p in pieces;
    FilterOfPiece(first);
    assert Filters(pieces) == [OnlyDigits(first)] + Filters(rest);
    if rest != [] {
      FilterOfJoin(rest, dot);
      FilterOne('.');
      FilterConcat(first + dot, Join(rest, dot));
      FilterConcat(first, dot);
      JoinCons(OnlyDigits(first), Filters(rest), dot);
    }
  }

  /** Without the letters that begin the four words, the numbers are those of the pieces between the dots. */
  lemma {:induction false} PlainKey(s: string)
    requires Plain(s)
    ensures var pieces := Split(s, ".");
            |Key(s)| == |pieces| && forall k :: 0 <= k < |pieces| ==> Key(s)[k] == Number(NumberOf(pieces[k]))
  {
    var pieces, dot := Split(s, "."), ".";
    CleanedPlain(s);
    JoinSplit(s, dot);
    SplitPiecesFree(s, '.');
    FilterOfJoin(pieces, dot);
    forall p | p in Filters(pieces)
      ensures '.' !in p
    {
    }
    SplitJoin(Filters(pieces), '.');
    forall k | 0 <= k < |pieces|
      ensures Atoi(Filters(pieces)[k]).value == NumberOf(pieces[k])
    {
      AtoiOfDigits(OnlyDigits(pieces[k]));
    }
  }

  /** The number of `s` at a place; behind the last one, threes without end. */
  function NumberAt(s: string, k: nat): nat {
    if k < |Split(s, ".")| then NumberOf(Split(s, ".")[k]) else 3
  }

  lemma {:induction false} PlainAt(s: string, k: nat)
    requires Plain(s)
    ensures At(PAD, Key(s), k) == Number(NumberAt(s, k))
  {
    PlainKey(s);
  }

  /** At the first place where the numbers differ, that of `x` is smaller. */
  ghost predicate NumbersBelow(x: string, y: string) {
    exists k: nat :: NumberAt(x, k) < NumberAt(y, k) && forall i: nat :: i < k ==> NumberAt(x, i) == NumberAt(y, i)
  }

  lemma {:induction false} PlainCompared(x: string, y: string, k: nat)
    requires Plain(x) && Plain(y)
    ensures At(PAD, Key(x), k) == At(PAD, Key(y), k) <==> NumberAt(x, k) == NumberAt(y, k)
    ensures CompareParts(At(PAD, Key(x), k), At(PAD, Key(y), k)) < 0 <==> NumberAt(x, k) < NumberAt(y, k)
  {
    PlainAt(x, k);
    PlainAt(y, k);
  }

  lemma {:induction false} PrecedesByNumbers(x: string, y: string)
    requires Plain(x) && Plain(y)
    ensures Precedes(PAD, Key(x), Key(y)) <==> NumbersBelow(x, y)
  {
    forall k: nat
      ensures At(PAD, Key(x), k) == At(PAD, Key(y), k) <==> NumberAt(x, k) == NumberAt(y, k)
      ensures CompareParts(At(PAD, Key(x), k), At(PAD, Key(y), k)) < 0 <==> NumberAt(x, k) < NumberAt(y, k)
    {
      PlainCompared(x, y, k);
    }
  }

  /** Such strings are ordered by the first of their numbers that differ. */
  lemma {:induction false} PlainOrder(x: string, y: string)
    requires Plain(x) && Plain(y)
    ensures Below(x, y) <==> NumbersBelow(x, y)
  {
    TiedIffSameNumbers(x, y);
    PrecedesByNumbers(x, y);
  }
}
