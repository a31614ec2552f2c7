/** The summary of a pass: the entries grouped by their codes, the smallest and largest code, and the
    codes that occur more than once. */
module ErrorSummary {

  import opened Decimals
  import opened ErrorCodes
  import opened Sequences

  const MIN_INT := -MAX_INT - 1

  type Groups = map<string, seq<Info>>

  datatype Summary = Summary(minCode: int, maxCode: int, nextCode: int,
                             duplicateCodes: map<string, seq<string>>, intCodes: seq<int>)

  function KeyOf(e: Info): string {
    if e.oldCode == "" then "no_code" else e.oldCode
  }

  function AddLiteral(groups: Groups, e: Info): Groups {
    if !e.codeIsLiteral then groups
    else groups[KeyOf(e) := (if KeyOf(e) in groups then groups[KeyOf(e)] else []) + [e]]
  }

  /** The literal entries by key, in order of arrival. */
  function Group(infos: seq<Info>): Groups {
    if infos == [] then map[] else AddLiteral(Group(infos[..|infos| - 1]), infos[|infos| - 1])
  }

  function IfKey(e: Info, k: string): seq<Info> {
    if e.codeIsLiteral && KeyOf(e) == k then [e] else []
  }

  function WithKey(infos: seq<Info>, k: string): seq<Info> {
    if infos == [] then [] else WithKey(infos[..|infos| - 1], k) + IfKey(infos[|infos| - 1], k)
  }

  /** A key is in the map exactly when some literal has it, with all entries that have it. */
  lemma {:induction false} GroupIs(infos: seq<Info>, k: string)
    ensures k in Group(infos) <==> WithKey(infos, k) != []
    ensures k in Group(infos) ==> Group(infos)[k] == WithKey(infos, k)
    decreases |infos|
  {
    if infos != [] {
      GroupIs(infos[..|infos| - 1], k);
    }
  }

  lemma {:induction false} WithKeySnoc(infos: seq<Info>, e: Info, k: string)
    ensures WithKey(infos + [e], k) == WithKey(infos, k) + IfKey(e, k)
  {
    assert (infos + [e])[..|infos|] == infos;
  }

  lemma {:induction false} WithKeyNext(a: seq<Info>, init: seq<Info>, e: Info, k: string)
    requires WithKey(a + init, k) == WithKey(a, k) + WithKey(init, k)
    ensures WithKey(a + (init + [e]), k) == WithKey(a, k) + WithKey(init + [e], k)
  {
    assert a + (init + [e]) == (a + init) + [e];
    WithKeySnoc(a + init, e, k);
    WithKeySnoc(init, e, k);
    Regroup(WithKey(a, k), WithKey(init, k), IfKey(e, k));
  }

  lemma {:induction false} WithKeyConcat(a: seq<Info>, b: seq<Info>, k: string)
    ensures WithKey(a + b, k) == WithKey(a, k) + WithKey(b, k)
    decreases |b|
  {
    if b == [] {
      assert a + b == a;
      assert WithKey(a, k) + [] == WithKey(a, k);
    } else {
      var init, e := b[..|b| - 1], b[|b| - 1];
      assert b == init + [e];
      WithKeyConcat(a, init, k);
      WithKeyNext(a, init, e, k);
    }
  }

  lemma {:induction false} WithKeyMembers(infos: seq<Info>, k: string, e: Info)
    ensures e in WithKey(infos, k) <==> e in infos && e.codeIsLiteral && KeyOf(e) == k
    decreases |infos|
  {
    if infos != [] {
      var n := |infos| - 1;
      WithKeyMembers(infos[..n], k, e);
      assert infos == infos[..n] + [infos[n]];
    }
  }

  // ---------- what a summary says ----------

  function CodeValue(e: Info): int {
    Atoi(e.code).value
  }

  function NamesOf(infos: seq<Info>): (names: seq<string>)
    ensures |names| == |infos| && forall i :: 0 <= i < |names| ==> names[i] == infos[i].name
  {
    seq(|infos|, i requires 0 <= i < |infos| => infos[i].name)
  }

  function IntsOf(infos: seq<Info>): set<int> {
    set e | e in infos && e.codeIsInt :: CodeValue(e)
  }

  /** The integers of the entries under some of the keys. */
  ghost function Ints(groups: Groups, keys: set<string>): set<int>
    requires keys <= groups.Keys
  {
    set k, e | k in keys && e in groups[k] && e.codeIsInt :: CodeValue(e)
  }

  /** The list has these integers, each once; they are between the bounds, and the bounds are among them. */
  ghost predicate Covers(minCode: int, maxCode: int, intCodes: seq<int>, ints: set<int>) {
    && (forall i :: i in intCodes <==> i in ints)
    && (forall i, j :: 0 <= i < j < |intCodes| ==> intCodes[i] != intCodes[j])
    && (forall i :: i in ints ==> minCode <= i <= maxCode)
    && (if ints == {} then minCode == MAX_INT && maxCode == MIN_INT else minCode in ints && maxCode in ints)
  }

  /** The keys with more than one entry, each with the names of its entries. */
  ghost predicate ListsDuplicates(duplicates: map<string, seq<string>>, groups: Groups, keys: set<string>)
    requires keys <= groups.Keys
  {
    && (forall k :: k in duplicates <==> k in keys && |groups[k]| > 1)
    && (forall k :: k in duplicates ==> duplicates[k] == NamesOf(groups[k]))
  }

  ghost predicate SummarizesKeys(groups: Groups, keys: set<string>, next: int, s: Summary)
    requires keys <= groups.Keys
  {
    && s.nextCode == next
    && Covers(s.minCode, s.maxCode, s.intCodes, Ints(groups, keys))
    && ListsDuplicates(s.duplicateCodes, groups, keys)
  }

  ghost predicate Summarizes(groups: Groups, next: int, s: Summary) {
    SummarizesKeys(groups, groups.Keys, next, s)
  }

  // ---------- the method ----------

  method Contains(s: seq<int>, x: int) returns (found: bool)
    ensures found <==> x in s
  {
    for i := 0 to |s|
      invariant x !in s[..i]
    {
      if s[i] == x {
        return true;
      }
      assert s[..i + 1] == s[..i] + [s[i]];
    }
    assert s[..|s|] == s;
    return false;
  }

  /** One integer more. */
  method AddInt(minCode: int, maxCode: int, intCodes: seq<int>, i: int, ghost ints: set<int>)
    returns (minCode': int, maxCode': int, intCodes': seq<int>)
    requires Covers(minCode, maxCode, intCodes, ints) && MIN_INT <= i <= MAX_INT
    ensures Covers(minCode', maxCode', intCodes', ints + {i})
  {
    minCode', maxCode', intCodes' := minCode, maxCode, intCodes;
    if i < minCode' {
      minCode' := i;
    }
    if i > maxCode' {
      maxCode' := i;
    }
    var found := Contains(intCodes', i);
    if !found {
      intCodes' := intCodes' + [i];
    }
  }

  lemma AtoiInRange(s: string)
    ensures MIN_INT <= Atoi(s).value <= MAX_INT
  {
  }

  lemma IntsSnoc(v: seq<Info>, e: Info, ints: set<int>)
    ensures ints + IntsOf(v + [e]) == if e.codeIsInt then ints + IntsOf(v) + {CodeValue(e)} else ints + IntsOf(v)
  {
    assert e in v + [e];
    assert forall x :: x in v + [e] <==> x in v || x == e;
  }

  /** What one entry adds to the integers. */
  method SummarizeEntry(e: Info, s: Summary, ghost ints: set<int>) returns (s': Summary)
    requires Covers(s.minCode, s.maxCode, s.intCodes, ints)
    ensures Covers(s'.minCode, s'.maxCode, s'.intCodes, if e.codeIsInt then ints + {CodeValue(e)} else ints)
    ensures s'.nextCode == s.nextCode && s'.duplicateCodes == s.duplicateCodes
  {
    s' := s;
    if e.codeIsInt {
      AtoiInRange(e.code);
      var minCode, maxCode, intCodes := AddInt(s.minCode, s.maxCode, s.intCodes, Atoi(e.code).value, ints);
      s' := s'.(minCode := minCode, maxCode := maxCode, intCodes := intCodes);
    }
  }

  /** The names listed under a key with more than one entry, after the first `i` entries. */
  function Listed(duplicates: map<string, seq<string>>, k: string, v: seq<Info>, i: nat): map<string, seq<string>>
    requires i <= |v|
  {
    if |v| > 1 then duplicates[k := NamesOf(v[..i])] else duplicates
  }

  lemma ListedNext(duplicates: map<string, seq<string>>, k: string, v: seq<Info>, i: nat)
    requires i < |v| && k !in duplicates
    ensures var listed := Listed(duplicates, k, v, i);
            Listed(duplicates, k, v, i + 1) == if k in listed then listed[k := listed[k] + [v[i].name]] else listed
  {
    assert NamesOf(v[..i + 1]) == NamesOf(v[..i]) + [v[i].name];
  }

  /** The entries of a key before `i` are in the summary, after those of `ints` and `duplicates`. */
  ghost predicate Entered(v: seq<Info>, i: nat, k: string, duplicates: map<string, seq<string>>, ints: set<int>,
                          s: Summary)
    requires i <= |v|
  {
    && Covers(s.minCode, s.maxCode, s.intCodes, ints + IntsOf(v[..i]))
    && s.duplicateCodes == Listed(duplicates, k, v, i)
  }

  /** One turn of the inner loop. */
  method EnterOne(v: seq<Info>, i: nat, k: string, s: Summary, ghost duplicates: map<string, seq<string>>,
                  ghost ints: set<int>)
    returns (s': Summary)
    requires i < |v| && k !in duplicates && Entered(v, i, k, duplicates, ints, s)
    ensures Entered(v, i + 1, k, duplicates, ints, s') && s'.nextCode == s.nextCode
  {
    assert v[..i + 1] == v[..i] + [v[i]];
    IntsSnoc(v[..i], v[i], ints);
    ListedNext(duplicates, k, v, i);
    s' := SummarizeEntry(v[i], s, ints + IntsOf(v[..i]));
    if k in s'.duplicateCodes {
      s' := s'.(duplicateCodes := s'.duplicateCodes[k := s'.duplicateCodes[k] + [v[i].name]]);
    }
  }

  lemma NothingEntered(v: seq<Info>, k: string, s: Summary, ints: set<int>)
    requires Covers(s.minCode, s.maxCode, s.intCodes, ints)
    ensures Entered(v, 0, k, s.duplicateCodes, ints,
                    s.(duplicateCodes := if |v| > 1 then s.duplicateCodes[k := []] else s.duplicateCodes))
  {
    assert NamesOf(v[..0]) == [];
    assert ints + IntsOf(v[..0]) == ints;
  }

  lemma AllEntered(v: seq<Info>, k: string, duplicates: map<string, seq<string>>, ints: set<int>, s: Summary)
    requires Entered(v, |v|, k, duplicates, ints, s)
    ensures Covers(s.minCode, s.maxCode, s.intCodes, ints + IntsOf(v))
            && s.duplicateCodes == Listed(duplicates, k, v, |v|)
  {
    assert v[..|v|] == v;
  }

  /** The integers and names of the entries under one key. */
  method SummarizeKey(v: seq<Info>, k: string, s: Summary, ghost ints: set<int>) returns (s': Summary)
    requires Covers(s.minCode, s.maxCode, s.intCodes, ints) && k !in s.duplicateCodes
    ensures Covers(s'.minCode, s'.maxCode, s'.intCodes, ints + IntsOf(v)) && s'.nextCode == s.nextCode
    ensures s'.duplicateCodes == Listed(s.duplicateCodes, k, v, |v|)
  {
    s' := s;
    NothingEntered(v, k, s, ints);
    if |v| > 1 {
      s' := s'.(duplicateCodes := s'.duplicateCodes[k := []]);
    }
    for i := 0 to |v|
      invariant Entered(v, i, k, s.duplicateCodes, ints, s') && s'.nextCode == s.nextCode
    {
      s' := EnterOne(v, i, k, s', s.duplicateCodes, ints);
    }
    AllEntered(v, k, s.duplicateCodes, ints, s');
  }

  lemma DuplicatesKey(duplicates: map<string, seq<string>>, groups: Groups, keys: set<string>, k: string)
    requires keys <= groups.Keys && k in groups && k !in keys && ListsDuplicates(duplicates, groups, keys)
    ensures k !in duplicates
    ensures ListsDuplicates(Listed(duplicates, k, groups[k], |groups[k]|), groups, keys + {k})
  {
    assert groups[k][..|groups[k]|] == groups[k];
  }

  lemma IntsKey(groups: Groups, keys: set<string>, k: string)
    requires keys <= groups.Keys && k in groups
    ensures Ints(groups, keys) + IntsOf(groups[k]) == Ints(groups, keys + {k})
  {
  }

  /** One turn of the outer loop. */
  method SummarizeGroup(literalCodes: Groups, k: string, s: Summary, ghost seen: set<string>) returns (s': Summary)
    requires seen <= literalCodes.Keys && k in literalCodes && k !in seen
    requires SummarizesKeys(literalCodes, seen, s.nextCode, s)
    ensures SummarizesKeys(literalCodes, seen + {k}, s.nextCode, s')
  {
    IntsKey(literalCodes, seen, k);
    DuplicatesKey(s.duplicateCodes, literalCodes, seen, k);
    s' := SummarizeKey(literalCodes[k], k, s, Ints(literalCodes, seen));
  }

  lemma NothingSeen(groups: Groups, next: int)
    ensures SummarizesKeys(groups, {}, next, Summary(MAX_INT, MIN_INT, next, map[], []))
  {
    assert Ints(groups, {}) == {};
  }

  /** `SummarizeAnalysis`, with the keys of the map in any order. */
  method SummarizeAnalysis(literalCodes: Groups, nextErrorCode: int) returns (summary: Summary)
    ensures Summarizes(literalCodes, nextErrorCode, summary)
  {
    summary := Summary(MAX_INT, MIN_INT, nextErrorCode, map[], []);
    var keys := literalCodes.Keys;
    ghost var seen: set<string> := {};
    NothingSeen(literalCodes, nextErrorCode);
    while keys != {}
      invariant keys <= literalCodes.Keys && seen == literalCodes.Keys - keys
      invariant SummarizesKeys(literalCodes, seen, nextErrorCode, summary)
      decreases keys
    {
      var k :| k in keys;
      summary := SummarizeGroup(literalCodes, k, summary, seen);
      keys := keys - {k};
      seen := seen + {k};
    }
    assert seen == literalCodes.Keys;
  }

  // ---------- the summary of a second pass ----------

  lemma {:induction false} EntryOfInt(comp: string, mode: Mode, v: Var, next: int)
    requires HasInt(comp, v) && !Forced(mode)
    ensures HandleName(comp, mode, v.name, v.value, next).infos
         == [Info(v.name, OldCode(comp, v.value.text), OldCode(comp, v.value.text), true, true)]
  {
  }

  lemma {:induction false} EntryOfOther(comp: string, mode: Mode, v: Var, next: int, k: string)
    requires !HasLiteral(v)
    ensures WithKey(HandleName(comp, mode, v.name, v.value, next).infos, k) == []
  {
  }

  lemma {:induction false} OneEntry(e: Info, k: string)
    ensures WithKey([e], k) == IfKey(e, k)
  {
    assert [e][..0] == [];
  }

  lemma {:induction false} OneKeyBounded(comp: string, mode: Mode, v: Var, next: int, k: string)
    requires (HasLiteral(v) ==> HasInt(comp, v)) && !Forced(mode)
    ensures |WithKey(HandleName(comp, mode, v.name, v.value, next).infos, k)|
         <= multiset(CodeOf(comp, v))[Atoi(k).value]
  {
    if HasInt(comp, v) {
      EntryOfInt(comp, mode, v, next);
      OneEntry(HandleName(comp, mode, v.name, v.value, next).infos[0], k);
    } else {
      EntryOfOther(comp, mode, v, next, k);
    }
  }

  /** As many entries have a key as variables have its code, at most. */
  lemma {:induction false} KeysBounded(comp: string, mode: Mode, vars: seq<Var>, next: int, k: string)
    requires AllInt(comp, vars) && !Forced(mode)
    ensures |WithKey(Pass(comp, mode, vars, next).infos, k)| <= multiset(Codes(comp, vars))[Atoi(k).value]
    decreases |vars|
  {
    if vars != [] {
      var v, rest := vars[0], vars[1..];
      var head, tail := HandleName(comp, mode, v.name, v.value, next).infos, Pass(comp, mode, rest, next).infos;
      assert v in vars;
      assert Pass(comp, mode, vars, next).infos == head + tail by {
        assert !Rewritten(comp, mode, v);
        PassCons(comp, mode, vars, next);
      }
      assert Codes(comp, vars) == CodeOf(comp, v) + Codes(comp, rest) by {
        assert vars == [v] + rest;
        CodesUnfold(comp, vars, v, rest);
      }
      KeysBounded(comp, mode, rest, next, k);
      WithKeyConcat(head, tail, k);
      OneKeyBounded(comp, mode, v, next, k);
    }
  }

  /** The entries of a pass that rewrites nothing have the codes of the variables. */
  lemma {:induction false} EntriesAreCodes(comp: string, mode: Mode, vars: seq<Var>, next: int, e: Info)
    requires AllInt(comp, vars) && !Forced(mode)
    requires e in Pass(comp, mode, vars, next).infos && e.codeIsInt
    ensures CodeValue(e) in Codes(comp, vars)
    decreases |vars|
  {
    if vars != [] {
      var v, rest := vars[0], vars[1..];
      assert v in vars;
      assert !Rewritten(comp, mode, v);
      PassCons(comp, mode, vars, next);
      assert vars == [v] + rest;
      CodesUnfold(comp, vars, v, rest);
      if e in Pass(comp, mode, rest, next).infos {
        EntriesAreCodes(comp, mode, rest, next, e);
      } else if HasInt(comp, v) {
        EntryOfInt(comp, mode, v, next);
      }
    }
  }

  /** And each code of a variable is in an entry. */
  lemma {:induction false} CodesAreEntries(comp: string, mode: Mode, vars: seq<Var>, next: int, c: int)
    returns (e: Info)
    requires AllInt(comp, vars) && !Forced(mode) && c in Codes(comp, vars)
    ensures e in Pass(comp, mode, vars, next).infos && e.codeIsLiteral && e.codeIsInt && CodeValue(e) == c
    decreases |vars|
  {
    var v, rest := vars[0], vars[1..];
    assert v in vars;
    assert !Rewritten(comp, mode, v);
    PassCons(comp, mode, vars, next);
    assert vars == [v] + rest;
    CodesUnfold(comp, vars, v, rest);
    if c in Codes(comp, rest) {
      e := CodesAreEntries(comp, mode, rest, next, c);
    } else {
      EntryOfInt(comp, mode, v, next);
      e := HandleName(comp, mode, v.name, v.value, next).infos[0];
    }
  }

  lemma {:induction false} EntryIsCounted(infos: seq<Info>, e: Info)
    requires e in infos && e.codeIsLiteral && e.codeIsInt
    ensures CodeValue(e) in Ints(Group(infos), Group(infos).Keys)
  {
    WithKeyMembers(infos, KeyOf(e), e);
    GroupIs(infos, KeyOf(e));
  }

  lemma {:induction false} IntsAreCodes(comp: string, mode: Mode, vars: seq<Var>, next: int, c: int)
    requires AllInt(comp, vars) && !Forced(mode)
    ensures var groups := Group(Pass(comp, mode, vars, next).infos);
            c in Ints(groups, groups.Keys) <==> c in Codes(comp, vars)
  {
    var infos := Pass(comp, mode, vars, next).infos;
    var groups := Group(infos);
    if c in Ints(groups, groups.Keys) {
      var k: string, e: Info :| k in groups && e in groups[k] && e.codeIsInt && CodeValue(e) == c;
      GroupIs(infos, k);
      WithKeyMembers(infos, k, e);
      EntriesAreCodes(comp, mode, vars, next, e);
    }
    if c in Codes(comp, vars) {
      var e := CodesAreEntries(comp, mode, vars, next, c);
      EntryIsCounted(infos, e);
    }
  }

  /** Where all codes are integers, distinct and below the next one, a summary finds no duplicates, the
      codes themselves, and a next code above all of them. */
  lemma {:induction false} SecondPass(comp: string, mode: Mode, vars: seq<Var>, next: int, s: Summary)
    requires AllInt(comp, vars) && !Forced(mode) && 0 <= next
    requires Distinct(Codes(comp, vars)) && forall c :: c in Codes(comp, vars) ==> c < next
    requires Summarizes(Group(Pass(comp, mode, vars, next).infos), next, s)
    ensures s.duplicateCodes == map[] && s.nextCode > s.maxCode
    ensures forall c :: c in s.intCodes <==> c in Codes(comp, vars)
  {
    var infos := Pass(comp, mode, vars, next).infos;
    var groups := Group(infos);
    forall k | k in groups
      ensures |groups[k]| <= 1
    {
      GroupIs(infos, k);
      KeysBounded(comp, mode, vars, next, k);
      assert multiset(Codes(comp, vars))[Atoi(k).value] <= 1;
    }
    forall c
      ensures c in Ints(groups, groups.Keys) <==> c in Codes(comp, vars)
    {
      IntsAreCodes(comp, mode, vars, next, c);
    }
  }

  /** An update of code whose integer codes were distinct and below the start value: an analysis after it
      finds no duplicates and a next code above all codes, and another update changes nothing. */
  lemma {:induction false} UpdateSettles(comp: string, vars: seq<Var>, next: int, mode: Mode, s: Summary)
    requires Digitless(comp) && 0 <= next && next + Rewrites(comp, UPDATE, vars) <= MAX_INT + 1 && !Forced(mode)
    requires Distinct(Codes(comp, vars)) && forall c :: c in Codes(comp, vars) ==> c < next
    requires var r := Pass(comp, UPDATE, vars, next);
             Summarizes(Group(Pass(comp, mode, r.vars, r.next).infos), r.next, s)
    ensures var r := Pass(comp, UPDATE, vars, next);
            && Pass(comp, mode, r.vars, r.next).vars == r.vars && Pass(comp, mode, r.vars, r.next).next == r.next
            && s.duplicateCodes == map[] && s.nextCode > s.maxCode
            && forall c :: c in s.intCodes <==> c in Codes(comp, vars) || next <= c < r.next
  {
    var r := Pass(comp, UPDATE, vars, next);
    FreshCodes(comp, vars, next);
    PassShape(comp, UPDATE, vars, next);
    NothingLeft(comp, mode, r.vars, r.next);
    SecondPass(comp, mode, r.vars, r.next, s);
    UpdatedCodes(comp, vars, next);
    forall c
      ensures c in Codes(comp, r.vars) <==> c in Codes(comp, vars) || next <= c < r.next
    {
      RangeMultiset(next, r.next, c);
      MemberOfSum(Codes(comp, r.vars), Codes(comp, vars), Range(next, r.next), c);
    }
  }

  lemma MemberOfSum(all: seq<int>, a: seq<int>, b: seq<int>, c: int)
    requires multiset(all) == multiset(a) + multiset(b)
    ensures c in all <==> c in a || multiset(b)[c] > 0
  {
    assert c in all <==> multiset(all)[c] > 0;
    assert c in a <==> multiset(a)[c] > 0;
  }

  // ---------- what is found, entry by entry ----------

  /** The entry is a literal of this code; those without a code go together. */
  predicate HasKey(e: Info, k: string) {
    e.codeIsLiteral && (e.oldCode == k || (e.oldCode == "" && k == "no_code")) && k != ""
  }

  lemma {:induction false} HasKeyIs(e: Info, k: string)
    ensures HasKey(e, k) <==> e.codeIsLiteral && KeyOf(e) == k
  {
    var none := "no_code";
    assert |none| == 7;
  }

  function CountKey(infos: seq<Info>, k: string): nat {
    if infos == [] then 0
    else CountKey(infos[..|infos| - 1], k) + if HasKey(infos[|infos| - 1], k) then 1 else 0
  }

  lemma {:induction false} CountIsLength(infos: seq<Info>, k: string)
    ensures |WithKey(infos, k)| == CountKey(infos, k)
    decreases |infos|
  {
    if infos != [] {
      CountIsLength(infos[..|infos| - 1], k);
      HasKeyIs(infos[|infos| - 1], k);
    }
  }

  /** Among the entries, two are literals of this code. */
  ghost predicate Twice(infos: seq<Info>, k: string) {
    exists i, j :: 0 <= i < j < |infos| && HasKey(infos[i], k) && HasKey(infos[j], k)
  }

  lemma {:induction false} CountOnce(infos: seq<Info>, k: string)
    ensures CountKey(infos, k) > 0 <==> exists i :: 0 <= i < |infos| && HasKey(infos[i], k)
    decreases |infos|
  {
    if infos != [] {
      var n := |infos| - 1;
      CountOnce(infos[..n], k);
      if i :| 0 <= i < |infos| && HasKey(infos[i], k) {
        assert i < n ==> infos[..n][i] == infos[i];
      }
      if i :| 0 <= i < n && HasKey(infos[..n][i], k) {
        assert HasKey(infos[i], k);
      }
    }
  }

  lemma {:induction false} CountTwice(infos: seq<Info>, k: string)
    ensures CountKey(infos, k) > 1 <==> Twice(infos, k)
    decreases |infos|
  {
    if infos != [] {
      var n := |infos| - 1;
      var init := infos[..n];
      CountTwice(init, k);
      CountOnce(init, k);
      if Twice(init, k) {
        var i, j :| 0 <= i < j < |init| && HasKey(init[i], k) && HasKey(init[j], k);
        assert HasKey(infos[i], k) && HasKey(infos[j], k);
      }
      if i :| 0 <= i < n && HasKey(init[i], k) && HasKey(infos[n], k) {
        assert HasKey(infos[i], k);
      }
      if Twice(infos, k) {
        var i, j :| 0 <= i < j < |infos| && HasKey(infos[i], k) && HasKey(infos[j], k);
        assert HasKey(init[i], k);
        assert j < n ==> HasKey(init[j], k);
      }
    }
  }

  /** The duplicates of a summary are the codes that two entries have. */
  lemma {:induction false} DuplicatesAre(infos: seq<Info>, next: int, s: Summary, k: string)
    requires Summarizes(Group(infos), next, s)
    ensures k in s.duplicateCodes <==> Twice(infos, k)
  {
    GroupIs(infos, k);
    CountIsLength(infos, k);
    CountTwice(infos, k);
  }

  /** The integers of a summary are those of the texts its literals were given. */
  lemma {:induction false} IntegersAre(infos: seq<Info>, next: int, s: Summary, c: int)
    requires Summarizes(Group(infos), next, s)
    ensures c in s.intCodes <==> exists e :: e in infos && e.codeIsLiteral && e.codeIsInt && Atoi(e.code).value == c
  {
    var groups := Group(infos);
    if c in s.intCodes {
      var k: string, e: Info :| k in groups && e in groups[k] && e.codeIsInt && CodeValue(e) == c;
      GroupIs(infos, k);
      WithKeyMembers(infos, k, e);
    }
    if e :| e in infos && e.codeIsLiteral && e.codeIsInt && Atoi(e.code).value == c {
      EntryIsCounted(infos, e);
    }
  }
}
