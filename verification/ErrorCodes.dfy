/** Allocation of error codes: the codes a pass over the sources reads and writes, and the summary of it. */
module ErrorCodes {

  import opened Decimals
  import opened Sequences

  /** The value of a variable: a literal with its source text, a call, or something else. */
  datatype Expr = Literal(text: string) | Call | Other

  datatype Var = Var(name: string, value: Expr)

  datatype Mode = Mode(update: bool, updateAll: bool)

  datatype Info = Info(name: string, oldCode: string, code: string, codeIsLiteral: bool, codeIsInt: bool)

  /** The names matched by `^Err[A-Z].+Code$`. */
  predicate IsErrorCodeVarName(name: string) {
    && |name| >= 9
    && "Err" <= name
    && 'A' <= name[3] <= 'Z'
    && name[|name| - 4..] == "Code"
    && '\n' !in name[4..|name| - 4]
  }

  // ---------- trimming ----------

  function TrimLeft(s: string, cutset: string): (t: string)
    ensures |t| <= |s|
  {
    if s == "" || s[0] !in cutset then s else TrimLeft(s[1..], cutset)
  }

  function TrimRight(s: string, cutset: string): (t: string)
    ensures |t| <= |s|
  {
    if s == "" || s[|s| - 1] !in cutset then s else TrimRight(s[..|s| - 1], cutset)
  }

  /** `strings.Trim`: the second argument is a set of characters. */
  function Trim(s: string, cutset: string): (t: string)
    ensures |t| <= |s|
  {
    TrimRight(TrimLeft(s, cutset), cutset)
  }

  lemma {:induction false} TrimLeftOf(before: string, rest: string, cutset: string)
    requires forall c :: c in before ==> c in cutset
    ensures TrimLeft(before + rest, cutset) == TrimLeft(rest, cutset)
  {
    if before == "" {
      assert before + rest == rest;
    } else {
      TrimLeftOf(before[1..], rest, cutset);
      assert (before + rest)[0] == before[0] && (before + rest)[1..] == before[1..] + rest;
    }
  }

  lemma {:induction false} TrimRightOf(rest: string, after: string, cutset: string)
    requires forall c :: c in after ==> c in cutset
    ensures TrimRight(rest + after, cutset) == TrimRight(rest, cutset)
  {
    if after == "" {
      assert rest + after == rest;
    } else {
      var n := |after| - 1;
      TrimRightOf(rest, after[..n], cutset);
      assert (rest + after)[|rest| + n] == after[n] && (rest + after)[..|rest| + n] == rest + after[..n];
    }
  }

  /** A core with ends outside the set is what remains. */
  lemma {:induction false} TrimIs(before: string, core: string, after: string, cutset: string)
    requires forall c :: c in before ==> c in cutset
    requires forall c :: c in after ==> c in cutset
    requires core != "" && core[0] !in cutset && core[|core| - 1] !in cutset
    ensures Trim(before + core + after, cutset) == core
  {
    assert before + core + after == before + (core + after);
    TrimLeftOf(before, core + after, cutset);
    assert (core + after)[0] == core[0];
    TrimRightOf(core, after, cutset);
  }

  /** The quoted code of a component, as it is written. */
  function CodeText(comp: string, n: int): string {
    "\"" + (comp + "-" + Itoa(n)) + "\""
  }

  /** The code a literal stands for. */
  function OldCode(comp: string, text: string): string {
    Trim(Trim(text, "\""), comp + "-")
  }

  predicate Digitless(comp: string) {
    forall c :: c in comp ==> !IsDigit(c)
  }

  lemma {:induction false} QuotesTrimmed(comp: string, digits: string) returns (from: nat)
    requires digits != "" && AllDigits(digits)
    ensures from <= |comp| && Trim("\"" + (comp + "-" + digits) + "\"", "\"") == comp[from..] + "-" + digits
    ensures from > 0 ==> comp[0] == '"'
  {
    var quote := "\"";
    from := LeadingQuotes(comp, "-" + digits + quote, quote);
    var text, rest := comp + "-" + digits, comp[from..] + "-" + digits;
    assert TrimLeft(quote + text + quote, quote) == rest + quote by {
      Regroup4(comp, "-", digits, quote);
      Regroup4(comp[from..], "-", digits, quote);
      LeftQuoteTrimmed(text, quote);
    }
    assert TrimRight(rest + quote, quote) == rest by {
      assert rest[|rest| - 1] == digits[|digits| - 1] && IsDigit(digits[|digits| - 1]);
      RightQuoteTrimmed(rest, quote);
    }
  }

  lemma {:induction false} LeftQuoteTrimmed(text: string, quote: string)
    ensures TrimLeft(quote + text + quote, quote) == TrimLeft(text + quote, quote)
  {
    Regroup(quote, text, quote);
    TrimLeftOf(quote, text + quote, quote);
  }

  lemma {:induction false} RightQuoteTrimmed(rest: string, quote: string)
    requires rest != "" && rest[|rest| - 1] !in quote
    ensures TrimRight(rest + quote, quote) == rest
  {
    TrimRightOf(rest, quote, quote);
  }

  lemma {:induction false} LeadingQuotes(comp: string, rest: string, quote: string) returns (from: nat)
    requires rest != "" && rest[0] !in quote
    ensures from <= |comp| && TrimLeft(comp + rest, quote) == comp[from..] + rest
    ensures from > 0 ==> comp[0] in quote
  {
    if comp == "" || comp[0] !in quote {
      from := 0;
      assert comp[0..] == comp;
      assert (comp + rest)[0] == if comp == "" then rest[0] else comp[0];
    } else {
      from := LeadingQuotes(comp[1..], rest, quote);
      from := from + 1;
      assert (comp + rest)[1..] == comp[1..] + rest && comp[1..][from - 1..] == comp[from..];
    }
  }

  lemma {:induction false} TrimShorter(before: string, core: string, cutset: string)
    requires forall c :: c in before ==> c in cutset
    requires core != "" && (core[0] in cutset || core[|core| - 1] in cutset)
    ensures |Trim(before + core, cutset)| < |core|
  {
    TrimLeftOf(before, core, cutset);
  }

  /** A printed code is read back exactly when it is not negative and neither its first nor its last digit
      occurs in the name of the component. */
  lemma {:induction false} PrintedCodeReadBack(comp: string, n: int)
    ensures OldCode(comp, CodeText(comp, n)) == Itoa(n)
       <==> n >= 0 && Itoa(n)[0] !in comp && Itoa(n)[|Itoa(n)| - 1] !in comp
  {
    var digits := if n < 0 then Print(-n) else Print(n);
    var full := if n < 0 then comp + "-" else comp;
    var cutset := comp + "-";
    assert CodeText(comp, n) == "\"" + (full + "-" + digits) + "\"";
    var from := QuotesTrimmed(full, digits);
    var before := full[from..] + "-";
    assert full[from..] + "-" + digits == before + digits;
    assert forall c :: c in before ==> c in cutset;
    DigitsEnds(digits);
    if digits[0] !in comp && digits[|digits| - 1] !in comp {
      TrimIs(before, digits, "", cutset);
      assert before + digits + "" == before + digits;
    } else {
      TrimShorter(before, digits, cutset);
    }
  }

  lemma DigitsEnds(digits: string)
    requires digits != "" && AllDigits(digits)
    ensures digits[0] != '-' && digits[|digits| - 1] != '-'
  {
    assert IsDigit(digits[0]) && IsDigit(digits[|digits| - 1]);
  }

  /** A component name without digits is enough for every code. */
  lemma {:induction false} DigitlessReadBack(comp: string, n: nat)
    requires Digitless(comp)
    ensures OldCode(comp, CodeText(comp, n)) == Itoa(n)
  {
    PrintedCodeReadBack(comp, n);
    var digits := Print(n);
    assert IsDigit(digits[0]) && IsDigit(digits[|digits| - 1]);
  }

  // ---------- one variable ----------

  datatype Effect = Effect(value: Expr, next: int, infos: seq<Info>)

  predicate RewritesCode(mode: Mode, isInteger: bool) {
    (mode.update && !isInteger) || (mode.update && mode.updateAll)
  }

  /** What happens to a variable of one name, and what is recorded about it. */
  function HandleName(comp: string, mode: Mode, name: string, value: Expr, next: int): Effect {
    if !IsErrorCodeVarName(name) then Effect(value, next, [])
    else if !value.Literal? then Effect(value, next, [Info(name, "", "", false, false)])
    else
      var oldValue := OldCode(comp, value.text);
      var isInteger := Atoi(oldValue).ok;
      if RewritesCode(mode, isInteger) then
        Effect(Literal(CodeText(comp, next)), next + 1,
               [Info(name, oldValue, Trim(CodeText(comp, next), "\""), true, isInteger)])
      else
        Effect(value, next, [Info(name, oldValue, oldValue, true, isInteger)])
  }

  /** A specification with several names: all of them look at the same value, one after the other. */
  function HandleNames(comp: string, mode: Mode, names: seq<string>, value: Expr, next: int): Effect
    decreases |names|
  {
    if names == [] then Effect(value, next, [])
    else
      var init := HandleNames(comp, mode, names[..|names| - 1], value, next);
      var last := HandleName(comp, mode, names[|names| - 1], init.value, init.next);
      Effect(last.value, last.next, init.infos + last.infos)
  }

  // ---------- a pass over all variables ----------

  datatype PassResult = PassResult(vars: seq<Var>, next: int, infos: seq<Info>)

  /** A pass over specifications of one name each. */
  function Pass(comp: string, mode: Mode, vars: seq<Var>, next: int): (r: PassResult)
    decreases |vars|
  {
    if vars == [] then PassResult([], next, [])
    else
      var e := HandleName(comp, mode, vars[0].name, vars[0].value, next);
      var r := Pass(comp, mode, vars[1..], e.next);
      PassResult([Var(vars[0].name, e.value)] + r.vars, r.next, e.infos + r.infos)
  }

  predicate HasLiteral(v: Var) {
    IsErrorCodeVarName(v.name) && v.value.Literal?
  }

  predicate HasInt(comp: string, v: Var) {
    HasLiteral(v) && Atoi(OldCode(comp, v.value.text)).ok
  }

  function IntOf(comp: string, v: Var): int
    requires HasInt(comp, v)
  {
    Atoi(OldCode(comp, v.value.text)).value
  }

  /** The integer codes of the variables, in order. */
  function Codes(comp: string, vars: seq<Var>): seq<int> {
    if vars == [] then []
    else (if HasInt(comp, vars[0]) then [IntOf(comp, vars[0])] else []) + Codes(comp, vars[1..])
  }

  predicate Rewritten(comp: string, mode: Mode, v: Var) {
    HasLiteral(v) && RewritesCode(mode, Atoi(OldCode(comp, v.value.text)).ok)
  }

  /** The codes, after a pass, of the variables the pass has rewritten. */
  function NewCodes(comp: string, mode: Mode, before: seq<Var>, after: seq<Var>): seq<int>
    requires |before| == |after|
  {
    if before == [] then []
    else (if Rewritten(comp, mode, before[0]) && HasInt(comp, after[0]) then [IntOf(comp, after[0])] else [])
         + NewCodes(comp, mode, before[1..], after[1..])
  }

  function Range(from: int, upto: int): (r: seq<int>)
    requires from <= upto
    ensures |r| == upto - from && forall i :: 0 <= i < |r| ==> r[i] == from + i
  {
    seq(upto - from, i requires 0 <= i < upto - from => from + i)
  }

  /** The number of variables a pass rewrites. */
  function Rewrites(comp: string, mode: Mode, vars: seq<Var>): nat {
    if vars == [] then 0 else Rewrites(comp, mode, vars[1..]) + if Rewritten(comp, mode, vars[0]) then 1 else 0
  }

  lemma {:induction false} PassShape(comp: string, mode: Mode, vars: seq<Var>, next: int)
    ensures |Pass(comp, mode, vars, next).vars| == |vars|
    ensures Pass(comp, mode, vars, next).next == next + Rewrites(comp, mode, vars)
    decreases |vars|
  {
    if vars != [] {
      var e := HandleName(comp, mode, vars[0].name, vars[0].value, next);
      PassShape(comp, mode, vars[1..], e.next);
    }
  }

  /** A rewritten variable has the next integer as its code. */
  lemma {:induction false} RewrittenHasNext(comp: string, name: string, next: int)
    requires Digitless(comp) && IsErrorCodeVarName(name) && 0 <= next <= MAX_INT
    ensures HasInt(comp, Var(name, Literal(CodeText(comp, next))))
    ensures IntOf(comp, Var(name, Literal(CodeText(comp, next)))) == next
  {
    DigitlessReadBack(comp, next);
    AtoiOfItoa(next);
  }

  /** The pass on one variable: its name stays, and its value too unless it is to be rewritten. */
  predicate Handled(comp: string, mode: Mode, before: Var, after: Var) {
    && after.name == before.name
    && (!Rewritten(comp, mode, before) ==> after == before)
    && (Rewritten(comp, mode, before) ==> HasInt(comp, after))
  }

  function AfterOne(comp: string, mode: Mode, v: Var, next: int): Var {
    Var(v.name, HandleName(comp, mode, v.name, v.value, next).value)
  }

  function NextAfter(comp: string, mode: Mode, v: Var, next: int): int {
    next + if Rewritten(comp, mode, v) then 1 else 0
  }

  lemma {:induction false} OneHandled(comp: string, mode: Mode, v: Var, next: int)
    requires Digitless(comp) && 0 <= next && (Rewritten(comp, mode, v) ==> next <= MAX_INT)
    ensures Handled(comp, mode, v, AfterOne(comp, mode, v, next))
    ensures Rewritten(comp, mode, v) ==> IntOf(comp, AfterOne(comp, mode, v, next)) == next
  {
    if Rewritten(comp, mode, v) {
      RewrittenHasNext(comp, v.name, next);
    }
  }

  lemma {:induction false} PassCons(comp: string, mode: Mode, vars: seq<Var>, next: int)
    requires vars != []
    ensures var r := Pass(comp, mode, vars[1..], NextAfter(comp, mode, vars[0], next));
            && Pass(comp, mode, vars, next).vars == [AfterOne(comp, mode, vars[0], next)] + r.vars
            && Pass(comp, mode, vars, next).next == r.next
            && Pass(comp, mode, vars, next).infos == HandleName(comp, mode, vars[0].name, vars[0].value, next).infos
               + r.infos
  {
  }

  predicate AllHandled(comp: string, mode: Mode, before: seq<Var>, after: seq<Var>) {
    && |before| == |after|
    && forall i :: 0 <= i < |before| ==> Handled(comp, mode, before[i], after[i])
  }

  lemma {:induction false} AllHandledCons(comp: string, mode: Mode, before: seq<Var>, first: Var, rest: seq<Var>)
    requires before != [] && Handled(comp, mode, before[0], first) && AllHandled(comp, mode, before[1..], rest)
    ensures AllHandled(comp, mode, before, [first] + rest)
  {
    forall i | 0 <= i < |before|
      ensures Handled(comp, mode, before[i], ([first] + rest)[i])
    {
      if i > 0 {
        assert before[1..][i - 1] == before[i];
      }
    }
  }

  lemma {:induction false} NewCodesUnfold(comp: string, mode: Mode, before: seq<Var>, after: seq<Var>, first: Var,
                                          rest: seq<Var>)
    requires |before| == |rest| + 1 && after == [first] + rest
    requires Rewritten(comp, mode, before[0]) ==> HasInt(comp, first)
    ensures |after| == |before|
    ensures NewCodes(comp, mode, before, after)
         == if Rewritten(comp, mode, before[0]) then [IntOf(comp, first)] + NewCodes(comp, mode, before[1..], rest)
            else NewCodes(comp, mode, before[1..], rest)
  {
    assert after[0] == first && after[1..] == rest;
    assert [] + NewCodes(comp, mode, before[1..], rest) == NewCodes(comp, mode, before[1..], rest);
  }

  lemma RangeCons(n: int, upto: int)
    requires n < upto
    ensures Range(n, upto) == [n] + Range(n + 1, upto)
  {
  }

  /** A pass keeps names and order, leaves the variables it does not rewrite as they are, and gives the others
      consecutive codes, from the component's next code on. */
  lemma {:induction false} Allocation(comp: string, mode: Mode, vars: seq<Var>, next: int)
    requires Digitless(comp) && 0 <= next && next + Rewrites(comp, mode, vars) <= MAX_INT + 1
    ensures var r := Pass(comp, mode, vars, next);
            && AllHandled(comp, mode, vars, r.vars) && r.next >= next
            && NewCodes(comp, mode, vars, r.vars) == Range(next, r.next)
    decreases |vars|
  {
    PassShape(comp, mode, vars, next);
    if vars != [] {
      var v, first, next' := vars[0], AfterOne(comp, mode, vars[0], next), NextAfter(comp, mode, vars[0], next);
      var rest := Pass(comp, mode, vars[1..], next').vars;
      Allocation(comp, mode, vars[1..], next');
      OneHandled(comp, mode, v, next);
      PassCons(comp, mode, vars, next);
      AllHandledCons(comp, mode, vars, first, rest);
      NewCodesUnfold(comp, mode, vars, Pass(comp, mode, vars, next).vars, first, rest);
      if Rewritten(comp, mode, v) {
        RangeCons(next, Pass(comp, mode, vars, next).next);
      }
    }
  }

  // ---------- the codes after a pass ----------

  /** No value occurs twice. */
  ghost predicate Distinct(s: seq<int>) {
    forall x :: multiset(s)[x] <= 1
  }

  predicate AllInt(comp: string, vars: seq<Var>) {
    forall v :: v in vars && HasLiteral(v) ==> HasInt(comp, v)
  }

  predicate Forced(mode: Mode) {
    mode.update && mode.updateAll
  }

  const UPDATE := Mode(true, false)
  const FORCE_ALL := Mode(true, true)

  function CodeOf(comp: string, v: Var): seq<int> {
    if HasInt(comp, v) then [IntOf(comp, v)] else []
  }

  lemma {:induction false} CodesUnfold(comp: string, vars: seq<Var>, first: Var, rest: seq<Var>)
    requires vars == [first] + rest
    ensures Codes(comp, vars) == CodeOf(comp, first) + Codes(comp, rest)
  {
    assert vars[1..] == rest;
  }

  lemma RangeMultiset(n: int, upto: int, x: int)
    requires n <= upto
    ensures multiset(Range(n, upto))[x] == (if n <= x < upto then 1 else 0)
    decreases upto - n
  {
    if n < upto {
      RangeCons(n, upto);
      RangeMultiset(n + 1, upto, x);
    }
  }

  lemma SumStep(head': seq<int>, head: seq<int>, rest': seq<int>, rest: seq<int>, range': seq<int>, range: seq<int>)
    requires multiset(rest') == multiset(rest) + multiset(range')
    requires multiset(head') + multiset(range') == multiset(head) + multiset(range)
    ensures multiset(head' + rest') == multiset(head + rest) + multiset(range)
  {
    var sum', sum := multiset(head') + multiset(range'), multiset(head) + multiset(range);
    forall x
      ensures multiset(head' + rest')[x] == multiset(head + rest)[x] + multiset(range)[x]
    {
      assert sum'[x] == sum[x];
    }
  }

  lemma {:induction false} OneCode(comp: string, v: Var, first: Var, next: int, end: int)
    requires Handled(comp, UPDATE, v, first) && NextAfter(comp, UPDATE, v, next) <= end
    requires Rewritten(comp, UPDATE, v) ==> IntOf(comp, first) == next
    ensures multiset(CodeOf(comp, first)) + multiset(Range(NextAfter(comp, UPDATE, v, next), end))
         == multiset(CodeOf(comp, v)) + multiset(Range(next, end))
  {
    if Rewritten(comp, UPDATE, v) {
      RangeCons(next, end);
      assert CodeOf(comp, v) == [] && CodeOf(comp, first) == [next];
    }
  }

  /** After an update the integer codes are the old ones and the new ones. */
  lemma {:induction false} UpdatedCodes(comp: string, vars: seq<Var>, next: int)
    requires Digitless(comp) && 0 <= next && next + Rewrites(comp, UPDATE, vars) <= MAX_INT + 1
    ensures var r := Pass(comp, UPDATE, vars, next);
            r.next >= next && multiset(Codes(comp, r.vars))
                == multiset(Codes(comp, vars)) + multiset(Range(next, r.next))
    decreases |vars|
  {
    PassShape(comp, UPDATE, vars, next);
    if vars == [] {
      assert Range(next, next) == [];
    } else {
      var v, first, next' := vars[0], AfterOne(comp, UPDATE, vars[0], next), NextAfter(comp, UPDATE, vars[0], next);
      var rest := Pass(comp, UPDATE, vars[1..], next').vars;
      UpdatedCodes(comp, vars[1..], next');
      OneHandled(comp, UPDATE, v, next);
      PassCons(comp, UPDATE, vars, next);
      CodesUnfold(comp, Pass(comp, UPDATE, vars, next).vars, first, rest);
      assert vars == [v] + vars[1..];
      CodesUnfold(comp, vars, v, vars[1..]);
      var end := Pass(comp, UPDATE, vars, next).next;
      OneCode(comp, v, first, next, end);
      SumStep(CodeOf(comp, first), CodeOf(comp, v), Codes(comp, rest), Codes(comp, vars[1..]), Range(next', end),
              Range(next, end));
    }
  }

  /** A forced update gives every literal a code of its own, whatever the codes were. */
  lemma {:induction false} ForcedCodes(comp: string, vars: seq<Var>, next: int)
    requires Digitless(comp) && 0 <= next && next + Rewrites(comp, FORCE_ALL, vars) <= MAX_INT + 1
    ensures var r := Pass(comp, FORCE_ALL, vars, next);
            r.next >= next && Codes(comp, r.vars) == Range(next, r.next)
    decreases |vars|
  {
    PassShape(comp, FORCE_ALL, vars, next);
    if vars != [] {
      var v, first, next' := vars[0], AfterOne(comp, FORCE_ALL, vars[0], next),
                             NextAfter(comp, FORCE_ALL, vars[0], next);
      var rest := Pass(comp, FORCE_ALL, vars[1..], next').vars;
      ForcedCodes(comp, vars[1..], next');
      OneHandled(comp, FORCE_ALL, v, next);
      PassCons(comp, FORCE_ALL, vars, next);
      CodesUnfold(comp, Pass(comp, FORCE_ALL, vars, next).vars, first, rest);
      if Rewritten(comp, FORCE_ALL, v) {
        RangeCons(next, Pass(comp, FORCE_ALL, vars, next).next);
      } else {
        assert CodeOf(comp, first) == [];
      }
    }
  }

  lemma RangeDistinct(n: int, upto: int)
    requires n <= upto
    ensures Distinct(Range(n, upto))
  {
    forall x
      ensures multiset(Range(n, upto))[x] <= 1
    {
      RangeMultiset(n, upto, x);
    }
  }

  /** Exactly when an update leaves distinct codes: the old ones were distinct, and none of them was among
      the codes now given out. */
  lemma {:induction false} DistinctAfterUpdate(comp: string, vars: seq<Var>, next: int)
    requires Digitless(comp) && 0 <= next && next + Rewrites(comp, UPDATE, vars) <= MAX_INT + 1
    ensures var r := Pass(comp, UPDATE, vars, next);
            Distinct(Codes(comp, r.vars))
            <==> Distinct(Codes(comp, vars)) && forall c :: c in Codes(comp, vars) ==> !(next <= c < r.next)
  {
    var r := Pass(comp, UPDATE, vars, next);
    UpdatedCodes(comp, vars, next);
    DistinctSum(Codes(comp, r.vars), Codes(comp, vars), next, r.next);
  }

  lemma {:induction false} DistinctSum(all: seq<int>, kept: seq<int>, next: int, upto: int)
    requires next <= upto && multiset(all) == multiset(kept) + multiset(Range(next, upto))
    ensures Distinct(all) <==> Distinct(kept) && forall c :: c in kept ==> !(next <= c < upto)
  {
    forall x
      ensures multiset(all)[x] == multiset(kept)[x] + if next <= x < upto then 1 else 0
    {
      RangeMultiset(next, upto, x);
    }
    if Distinct(all) {
      forall c | c in kept
        ensures !(next <= c < upto)
      {
        assert c in multiset(kept);
        assert multiset(all)[c] <= 1;
      }
      forall x
        ensures multiset(kept)[x] <= 1
      {
        assert multiset(all)[x] <= 1;
      }
    }
    if Distinct(kept) && forall c :: c in kept ==> !(next <= c < upto) {
      forall x
        ensures multiset(all)[x] <= 1
      {
        assert multiset(kept)[x] <= 1;
        assert x in multiset(kept) ==> x in kept;
      }
    }
  }

  lemma BelowSum(all: seq<int>, kept: seq<int>, next: int, upto: int)
    requires next <= upto && multiset(all) == multiset(kept) + multiset(Range(next, upto))
    requires forall c :: c in kept ==> c < next
    ensures forall c :: c in all ==> c < upto
  {
    forall c | c in all
      ensures c < upto
    {
      RangeMultiset(next, upto, c);
      assert multiset(all)[c] > 0;
      assert c in multiset(kept) ==> c in kept;
    }
  }

  /** Codes below the start value stay distinct, and all codes are below the next one. */
  lemma {:induction false} FreshCodes(comp: string, vars: seq<Var>, next: int)
    requires Digitless(comp) && 0 <= next && next + Rewrites(comp, UPDATE, vars) <= MAX_INT + 1
    requires Distinct(Codes(comp, vars)) && forall c :: c in Codes(comp, vars) ==> c < next
    ensures var r := Pass(comp, UPDATE, vars, next);
            && Distinct(Codes(comp, r.vars)) && AllInt(comp, r.vars)
            && forall c :: c in Codes(comp, r.vars) ==> c < r.next
  {
    var r := Pass(comp, UPDATE, vars, next);
    UpdatedCodes(comp, vars, next);
    DistinctAfterUpdate(comp, vars, next);
    Allocation(comp, UPDATE, vars, next);
    AllIntAfter(comp, UPDATE, vars, r.vars);
    BelowSum(Codes(comp, r.vars), Codes(comp, vars), next, r.next);
  }

  /** The same after a forced update, without any condition on the old codes. */
  lemma {:induction false} ForcedFreshCodes(comp: string, vars: seq<Var>, next: int)
    requires Digitless(comp) && 0 <= next && next + Rewrites(comp, FORCE_ALL, vars) <= MAX_INT + 1
    ensures var r := Pass(comp, FORCE_ALL, vars, next);
            && Distinct(Codes(comp, r.vars)) && AllInt(comp, r.vars)
            && forall c :: c in Codes(comp, r.vars) ==> c < r.next
  {
    var r := Pass(comp, FORCE_ALL, vars, next);
    ForcedCodes(comp, vars, next);
    RangeDistinct(next, r.next);
    Allocation(comp, FORCE_ALL, vars, next);
    AllIntAfter(comp, FORCE_ALL, vars, r.vars);
  }

  lemma {:induction false} AllIntAfter(comp: string, mode: Mode, before: seq<Var>, after: seq<Var>)
    requires mode.update && AllHandled(comp, mode, before, after)
    ensures AllInt(comp, after)
  {
    forall v | v in after && HasLiteral(v)
      ensures HasInt(comp, v)
    {
      var i :| 0 <= i < |after| && after[i] == v;
      assert Handled(comp, mode, before[i], after[i]);
    }
  }

  /** Where all codes are integers, a pass that is not forced changes nothing. */
  lemma {:induction false} NothingLeft(comp: string, mode: Mode, vars: seq<Var>, next: int)
    requires AllInt(comp, vars) && !Forced(mode)
    ensures Pass(comp, mode, vars, next).vars == vars && Pass(comp, mode, vars, next).next == next
    decreases |vars|
  {
    if vars != [] {
      assert vars[0] in vars;
      assert !Rewritten(comp, mode, vars[0]);
      NothingLeft(comp, mode, vars[1..], next);
      PassCons(comp, mode, vars, next);
      assert vars == [vars[0]] + vars[1..];
    }
  }

  /** A forced update records an integer code as an integer, but with its new text, which is none: a summary
      of the same pass counts it as zero. This is why only a second pass can be summed up. */
  lemma {:induction false} ForcedEntryReadsZero(comp: string, v: Var, next: nat)
    requires HasInt(comp, v) && comp != "" && !IsDigit(comp[0]) && comp[0] != '"' && comp[0] != '-' && comp[0] != '+'
    ensures var infos := HandleName(comp, FORCE_ALL, v.name, v.value, next).infos;
            |infos| == 1 && infos[0].codeIsInt && Atoi(infos[0].code) == Parsed(0, false)
  {
    var digits := Print(next);
    var from := QuotesTrimmed(comp, digits);
    var code := comp[from..] + "-" + digits;
    assert code[0] == comp[0];
    assert comp[0] in code;
  }

  // ---------- what a pass looks at ----------

  /** The names of error codes: `Err`, a capital, at least one more character, and `Code`. */
  lemma {:induction false} ErrorCodeNames(name: string, err: string, capital: char, middle: string, code: string)
    requires err == "Err" && code == "Code"
    ensures name == err + [capital] + middle + code && 'A' <= capital <= 'Z' && middle != "" && '\n' !in middle ==>
              IsErrorCodeVarName(name)
    ensures IsErrorCodeVarName(name) ==>
              && 'A' <= name[3] <= 'Z' && name[4..|name| - 4] != "" && '\n' !in name[4..|name| - 4]
              && name == err + [name[3]] + name[4..|name| - 4] + code
  {
    if name == err + [capital] + middle + code {
      assert name[4..|name| - 4] == middle && name[|name| - 4..] == code;
    }
    if IsErrorCodeVarName(name) {
      assert name[..3] == err;
      assert name == name[..3] + [name[3]] + name[4..|name| - 4] + name[|name| - 4..];
    }
  }

  /** Without an update nothing is changed, whatever the codes are. */
  lemma {:induction false} AnalysisChangesNothing(comp: string, mode: Mode, vars: seq<Var>, next: int)
    requires !mode.update
    ensures Pass(comp, mode, vars, next).vars == vars && Pass(comp, mode, vars, next).next == next
    decreases |vars|
  {
    if vars != [] {
      AnalysisChangesNothing(comp, mode, vars[1..], next);
      PassCons(comp, mode, vars, next);
      assert vars == [vars[0]] + vars[1..];
    }
  }

  /** The variables with names of error codes. */
  function Matched(vars: seq<Var>): seq<Var> {
    if vars == [] then []
    else (if IsErrorCodeVarName(vars[0].name) then [vars[0]] else []) + Matched(vars[1..])
  }

  /** The entry a variable gets: a literal with the code it had and whether that was an integer, or a mere name. */
  predicate RecordedAs(comp: string, e: Info, v: Var) {
    && e.name == v.name
    && (e.codeIsLiteral <==> v.value.Literal?)
    && (if v.value.Literal?
        then e.oldCode == OldCode(comp, v.value.text) && (e.codeIsInt <==> Atoi(OldCode(comp, v.value.text)).ok)
        else e.oldCode == "" && e.code == "" && !e.codeIsInt)
  }

  /** Every variable with such a name has one entry, in order. */
  lemma {:induction false} EntriesMatched(comp: string, mode: Mode, vars: seq<Var>, next: int)
    ensures var infos, matched := Pass(comp, mode, vars, next).infos, Matched(vars);
            |infos| == |matched| && forall i :: 0 <= i < |infos| ==> RecordedAs(comp, infos[i], matched[i])
    decreases |vars|
  {
    if vars != [] {
      EntriesMatched(comp, mode, vars[1..], NextAfter(comp, mode, vars[0], next));
      PassCons(comp, mode, vars, next);
    }
  }

  /** A code that is not rewritten is recorded as it was, and a new one as it is written, without the quotes. */
  lemma {:induction false} EntryText(comp: string, mode: Mode, v: Var, next: int)
    requires HasLiteral(v)
    ensures var infos := HandleName(comp, mode, v.name, v.value, next).infos;
            && |infos| == 1
            && (!Rewritten(comp, mode, v) ==> infos[0].code == infos[0].oldCode)
            && (Rewritten(comp, mode, v) && comp != "" && comp[0] != '"' ==> infos[0].code == comp + "-" + Itoa(next))
  {
    if Rewritten(comp, mode, v) && comp != "" && comp[0] != '"' {
      WrittenText(comp, Itoa(next));
    }
  }

  lemma {:induction false} WrittenText(comp: string, number: string)
    requires comp != "" && comp[0] != '"' && number != "" && number[|number| - 1] != '"'
    ensures Trim("\"" + (comp + "-" + number) + "\"", "\"") == comp + "-" + number
  {
    var text := comp + "-" + number;
    assert text[0] == comp[0] && text[|text| - 1] == number[|number| - 1];
    TrimIs("\"", text, "\"", "\"");
  }
}
