/** The objects a walk over the sources updates: the value specifications, the component's next code and
    the recorded entries. */
module ErrorCoder {

  import opened Decimals
  import opened ErrorCodes
  import opened ErrorSummary
  import opened Sequences

  class ValueSpec {
    const names: seq<string>
    var value: Expr

    constructor (names: seq<string>, value: Expr)
      ensures this.names == names && this.value == value
    {
      this.names, this.value := names, value;
    }
  }

  class Component {
    const name: string
    var nextErrorCode: int

    constructor (name: string, nextErrorCode: int)
      ensures this.name == name && this.nextErrorCode == nextErrorCode
    {
      this.name, this.nextErrorCode := name, nextErrorCode;
    }

    method GetNextErrorCode() returns (s: string)
      modifies this
      ensures s == Itoa(old(nextErrorCode)) && nextErrorCode == old(nextErrorCode) + 1
    {
      s := Itoa(nextErrorCode);
      nextErrorCode := nextErrorCode + 1;
    }
  }

  /** The entries that are no literals. */
  function NoLiterals(infos: seq<Info>): seq<Info> {
    if infos == [] then []
    else NoLiterals(infos[..|infos| - 1]) + if infos[|infos| - 1].codeIsLiteral then [] else [infos[|infos| - 1]]
  }

  class InfoAll {
    var entries: seq<Info>
    var literalCodes: Groups
    var callExprCodes: seq<Info>

    /** The maps hold what the list of entries says. */
    ghost predicate Valid()
      reads this
    {
      literalCodes == Group(entries) && callExprCodes == NoLiterals(entries)
    }

    constructor ()
      ensures Valid() && entries == []
    {
      entries, literalCodes, callExprCodes := [], map[], [];
    }

    method Record(ec: Info)
      requires Valid()
      modifies this
      ensures Valid() && entries == old(entries) + [ec]
    {
      GroupSnoc(entries, ec);
      NoLiteralsSnoc(entries, ec);
      entries := entries + [ec];
      if ec.codeIsLiteral {
        AddInTwoSteps(literalCodes, ec);
        var key := ec.oldCode;
        if ec.oldCode == "" {
          key := "no_code";
        }
        if key !in literalCodes {
          literalCodes := literalCodes[key := []];
        }
        literalCodes := literalCodes[key := literalCodes[key] + [ec]];
      } else {
        callExprCodes := callExprCodes + [ec];
      }
    }
  }

  lemma {:induction false} GroupSnoc(infos: seq<Info>, e: Info)
    ensures Group(infos + [e]) == AddLiteral(Group(infos), e)
  {
    assert (infos + [e])[..|infos|] == infos;
  }

  lemma {:induction false} NoLiteralsSnoc(infos: seq<Info>, e: Info)
    ensures NoLiterals(infos + [e]) == if e.codeIsLiteral then NoLiterals(infos) else NoLiterals(infos) + [e]
  {
    assert (infos + [e])[..|infos|] == infos;
  }

  lemma AddInTwoSteps(groups: Groups, e: Info)
    requires e.codeIsLiteral
    ensures var groups1 := if KeyOf(e) in groups then groups else groups[KeyOf(e) := []];
            groups1[KeyOf(e) := groups1[KeyOf(e)] + [e]] == AddLiteral(groups, e)
  {
  }

  /** One name of a specification. */
  method HandleErrorName(name: string, spec: ValueSpec, mode: Mode, comp: Component, infoAll: InfoAll)
    returns (changed: bool)
    requires infoAll.Valid()
    modifies spec, comp, infoAll
    ensures infoAll.Valid()
    ensures var e := HandleName(comp.name, mode, name, old(spec.value), old(comp.nextErrorCode));
            && spec.value == e.value && comp.nextErrorCode == e.next
               && infoAll.entries == old(infoAll.entries) + e.infos
            && (changed <==> e.next != old(comp.nextErrorCode))
  {
    changed := false;
    if IsErrorCodeVarName(name) {
      var isLiteral, isInteger := false, false;
      var oldValue, newValue := "", "";
      if spec.value.Literal? {
        isLiteral := true;
        oldValue := Trim(Trim(spec.value.text, "\""), comp.name + "-");
        isInteger := Atoi(oldValue).ok;
        if (mode.update && !isInteger) || (mode.update && mode.updateAll) {
          var code := comp.GetNextErrorCode();
          spec.value := Literal("\"" + (comp.name + "-" + code) + "\"");
          newValue := Trim(spec.value.text, "\"");
          changed := true;
        } else {
          newValue := oldValue;
        }
      }
      infoAll.Record(Info(name, oldValue, newValue, isLiteral, isInteger));
    } else {
      assert infoAll.entries == old(infoAll.entries) + [];
    }
  }

  /** The objects show an effect that began with `entries` and `next`. */
  ghost predicate Shows(e: Effect, spec: ValueSpec, comp: Component, infoAll: InfoAll, entries: seq<Info>, next: int,
                        changed: bool)
    reads spec, comp, infoAll
  {
    && infoAll.Valid() && spec.value == e.value && comp.nextErrorCode == e.next && infoAll.entries == entries + e.infos
    && e.next >= next && (changed <==> e.next != next)
  }

  /** One turn of the loop over the names. */
  method HandleNext(name: string, spec: ValueSpec, mode: Mode, comp: Component, infoAll: InfoAll, changedBefore: bool,
                    ghost e: Effect, ghost entries: seq<Info>, ghost next: int) returns (anyValueChanged: bool)
    requires Shows(e, spec, comp, infoAll, entries, next, changedBefore)
    modifies spec, comp, infoAll
    ensures Shows(Then(e, HandleName(comp.name, mode, name, e.value, e.next)), spec, comp, infoAll, entries, next,
                  anyValueChanged)
  {
    ghost var last := HandleName(comp.name, mode, name, e.value, e.next);
    NextGrows(comp.name, mode, name, e.value, e.next);
    Regroup(entries, e.infos, last.infos);
    var changed := HandleErrorName(name, spec, mode, comp, infoAll);
    anyValueChanged := changedBefore || changed;
  }

  /** `handleValueSpec`: all names of a specification, and whether a value was changed. */
  method HandleValueSpec(spec: ValueSpec, mode: Mode, comp: Component, infoAll: InfoAll) returns (anyValueChanged: bool)
    requires infoAll.Valid()
    modifies spec, comp, infoAll
    ensures infoAll.Valid()
    ensures var e := HandleNames(comp.name, mode, spec.names, old(spec.value), old(comp.nextErrorCode));
            && spec.value == e.value && comp.nextErrorCode == e.next
               && infoAll.entries == old(infoAll.entries) + e.infos
            && (anyValueChanged <==> e.next != old(comp.nextErrorCode))
  {
    anyValueChanged := false;
    ghost var e := Effect(spec.value, comp.nextErrorCode, []);
    for i := 0 to |spec.names|
      invariant e == HandleNames(comp.name, mode, spec.names[..i], old(spec.value), old(comp.nextErrorCode))
      invariant Shows(e, spec, comp, infoAll, old(infoAll.entries), old(comp.nextErrorCode), anyValueChanged)
    {
      HandleNamesSnoc(comp.name, mode, spec.names[..i], spec.names[i], old(spec.value), old(comp.nextErrorCode));
      assert spec.names[..i + 1] == spec.names[..i] + [spec.names[i]];
      anyValueChanged := HandleNext(spec.names[i], spec, mode, comp, infoAll, anyValueChanged,
                                    e, old(infoAll.entries), old(comp.nextErrorCode));
      e := HandleNames(comp.name, mode, spec.names[..i + 1], old(spec.value), old(comp.nextErrorCode));
    }
    assert spec.names[..|spec.names|] == spec.names;
  }

  /** One effect after another. */
  function Then(e: Effect, last: Effect): Effect {
    Effect(last.value, last.next, e.infos + last.infos)
  }

  lemma {:induction false} NextGrows(comp: string, mode: Mode, name: string, value: Expr, next: int)
    ensures HandleName(comp, mode, name, value, next).next >= next
  {
  }

  lemma {:induction false} HandleNamesSnoc(comp: string, mode: Mode, names: seq<string>, name: string, value: Expr,
                                           next: int)
    ensures var e := HandleNames(comp, mode, names, value, next);
            HandleNames(comp, mode, names + [name], value, next)
                == Then(e, HandleName(comp, mode, name, e.value, e.next))
  {
    assert (names + [name])[..|names|] == names;
  }

  lemma {:induction false} OneName(comp: string, mode: Mode, name: string, value: Expr, next: int)
    ensures HandleNames(comp, mode, [name], value, next) == HandleName(comp, mode, name, value, next)
  {
    HandleNamesSnoc(comp, mode, [], name, value, next);
    var e := HandleName(comp, mode, name, value, next);
    assert [] + e.infos == e.infos;
    assert [] + [name] == [name];
  }

  // ---------- a walk ----------

  ghost function VarOf(spec: ValueSpec): Var
    requires |spec.names| == 1
    reads spec
  {
    Var(spec.names[0], spec.value)
  }

  ghost function Vars(specs: seq<ValueSpec>): (vars: seq<Var>)
    requires forall s :: s in specs ==> |s.names| == 1
    reads specs
    ensures |vars| == |specs| && forall i :: 0 <= i < |specs| ==> vars[i] == VarOf(specs[i])
  {
    seq(|specs|, i requires 0 <= i < |specs| reads specs => VarOf(specs[i]))
  }

  function Extended(r: PassResult, name: string, e: Effect): PassResult {
    PassResult(r.vars + [Var(name, e.value)], e.next, r.infos + e.infos)
  }

  function Prefixed(first: Var, infos: seq<Info>, r: PassResult): PassResult {
    PassResult([first] + r.vars, r.next, infos + r.infos)
  }

  lemma PrefixedExtended(first: Var, infos: seq<Info>, r: PassResult, name: string, e: Effect)
    ensures Extended(Prefixed(first, infos, r), name, e) == Prefixed(first, infos, Extended(r, name, e))
  {
    Regroup([first], r.vars, [Var(name, e.value)]);
    Regroup(infos, r.infos, e.infos);
  }

  lemma {:induction false} PassFront(comp: string, mode: Mode, v: Var, rest: seq<Var>, next: int)
    ensures Pass(comp, mode, [v] + rest, next)
         == Prefixed(AfterOne(comp, mode, v, next), HandleName(comp, mode, v.name, v.value, next).infos,
                     Pass(comp, mode, rest, NextAfter(comp, mode, v, next)))
  {
    PassCons(comp, mode, [v] + rest, next);
    assert ([v] + rest)[1..] == rest;
  }

  lemma {:induction false} PassOne(comp: string, mode: Mode, v: Var, next: int)
    ensures Pass(comp, mode, [v], next)
         == Extended(PassResult([], next, []), v.name, HandleName(comp, mode, v.name, v.value, next))
  {
    assert [v][1..] == [];
    var infos := HandleName(comp, mode, v.name, v.value, next).infos;
    assert [] + infos == infos + [];
  }

  lemma {:induction false} PassSnoc(comp: string, mode: Mode, vars: seq<Var>, v: Var, next: int)
    ensures var r := Pass(comp, mode, vars, next);
            Pass(comp, mode, vars + [v], next) == Extended(r, v.name, HandleName(comp, mode, v.name, v.value, r.next))
    decreases |vars|
  {
    if vars == [] {
      assert vars + [v] == [v];
      PassOne(comp, mode, v, next);
    } else {
      var first, rest := vars[0], vars[1..];
      var next' := NextAfter(comp, mode, first, next);
      var r := Pass(comp, mode, rest, next');
      var head, infos := AfterOne(comp, mode, first, next), HandleName(comp, mode, first.name, first.value, next).infos;
      var e := HandleName(comp, mode, v.name, v.value, r.next);
      assert Pass(comp, mode, rest + [v], next') == Extended(r, v.name, e) by {
        PassSnoc(comp, mode, rest, v, next');
      }
      assert Pass(comp, mode, vars, next) == Prefixed(head, infos, r) by {
        PassFront(comp, mode, first, rest, next);
        assert vars == [first] + rest;
      }
      assert Pass(comp, mode, vars + [v], next) == Prefixed(head, infos, Extended(r, v.name, e)) by {
        PassFront(comp, mode, first, rest + [v], next);
        assert vars + [v] == [first] + (rest + [v]);
      }
      PrefixedExtended(head, infos, r, v.name, e);
    }
  }

  lemma PassNext(comp: string, mode: Mode, vars: seq<Var>, k: nat, next: int)
    requires k < |vars|
    ensures var r := Pass(comp, mode, vars[..k], next);
            Pass(comp, mode, vars[..k + 1], next) ==
              Extended(r, vars[k].name, HandleName(comp, mode, vars[k].name, vars[k].value, r.next))
  {
    assert vars[..k + 1] == vars[..k] + [vars[k]];
    PassSnoc(comp, mode, vars[..k], vars[k], next);
  }

  /** A specification with one name. */
  method HandleSingle(spec: ValueSpec, mode: Mode, comp: Component, infoAll: InfoAll)
    requires infoAll.Valid() && |spec.names| == 1
    modifies spec, comp, infoAll
    ensures infoAll.Valid()
    ensures var e := HandleName(comp.name, mode, spec.names[0], old(spec.value), old(comp.nextErrorCode));
            spec.value == e.value && comp.nextErrorCode == e.next && infoAll.entries == old(infoAll.entries) + e.infos
  {
    OneName(comp.name, mode, spec.names[0], spec.value, comp.nextErrorCode);
    assert spec.names == [spec.names[0]];
    var changed := HandleValueSpec(spec, mode, comp, infoAll);
  }

  /** The first `k` variables are as in `r`, the others as before the walk. */
  ghost predicate Walked(specs: seq<ValueSpec>, vars: seq<Var>, k: nat, done: seq<Var>)
    requires k <= |specs| && forall s :: s in specs ==> |s.names| == 1
    reads specs
  {
    && |vars| == |specs| && |done| == k
    && (forall i :: 0 <= i < k ==> Var(specs[i].names[0], specs[i].value) == done[i])
    && (forall i :: k <= i < |specs| ==> Var(specs[i].names[0], specs[i].value) == vars[i])
  }

  ghost predicate DistinctSpecs(specs: seq<ValueSpec>) {
    forall i, j :: 0 <= i < j < |specs| ==> specs[i] != specs[j]
  }

  /** One step of the walk. */
  method WalkOne(specs: seq<ValueSpec>, k: nat, mode: Mode, comp: Component, infoAll: InfoAll, ghost vars: seq<Var>,
                 ghost r: PassResult)
    requires k < |specs| && DistinctSpecs(specs) && forall s :: s in specs ==> |s.names| == 1
    requires infoAll.Valid() && Walked(specs, vars, k, r.vars)
    requires comp.nextErrorCode == r.next && infoAll.entries == r.infos
    modifies specs[k], comp, infoAll
    ensures infoAll.Valid()
    ensures var r' := Extended(r, vars[k].name, HandleName(comp.name, mode, vars[k].name, vars[k].value, r.next));
            Walked(specs, vars, k + 1, r'.vars) && comp.nextErrorCode == r'.next && infoAll.entries == r'.infos
  {
    assert vars[k] == Var(specs[k].names[0], specs[k].value);
    HandleSingle(specs[k], mode, comp, infoAll);
  }

  /** The walk over the specifications of a run, each with one name. */
  method Walk(specs: seq<ValueSpec>, mode: Mode, comp: Component, infoAll: InfoAll)
    requires infoAll.Valid() && infoAll.entries == []
    requires DistinctSpecs(specs) && forall s :: s in specs ==> |s.names| == 1
    modifies specs, comp, infoAll
    ensures infoAll.Valid()
    ensures var r := Pass(comp.name, mode, old(Vars(specs)), old(comp.nextErrorCode));
            Vars(specs) == r.vars && comp.nextErrorCode == r.next && infoAll.entries == r.infos
  {
    ghost var vars := Vars(specs);
    ghost var r := PassResult([], comp.nextErrorCode, []);
    for k := 0 to |specs|
      invariant infoAll.Valid() && Walked(specs, vars, k, r.vars)
      invariant r == Pass(comp.name, mode, vars[..k], old(comp.nextErrorCode))
      invariant comp.nextErrorCode == r.next && infoAll.entries == r.infos
    {
      ghost var next := Extended(r, vars[k].name, HandleName(comp.name, mode, vars[k].name, vars[k].value, r.next));
      assert next == Pass(comp.name, mode, vars[..k + 1], old(comp.nextErrorCode)) by {
        PassNext(comp.name, mode, vars, k, old(comp.nextErrorCode));
      }
      WalkOne(specs, k, mode, comp, infoAll, vars, r);
      r := next;
    }
    assert vars[..|specs|] == vars;
  }
}
