/** What becomes of a require line of the destination, and which of the three outcomes a run has. */
module ModSyncRequires {
  import opened GoModText
  import opened ModSync
  import opened Strings

  ghost predicate Without(line: string, sub: string) {
    forall i: nat :: !OccursAt(line, sub, i)
  }

  lemma {:induction false} ContainsIff(line: string, sub: string)
    ensures Contains(line, sub) <==> !Without(line, sub)
  {
    IndexOfFirst(line, sub);
  }

  /** A line with the name of a required package and a blank, without an arrow and without its version, becomes
      the line that requires it, and stays a comment on an indirect one. */
  lemma {:induction false} RequirePinned(r: Package, line: string, before: string, rest: string)
    requires line == before + r.name + " " + rest && Without(line, "=>") && Without(line, r.version)
    ensures RewriteStep(r, line)
         == "\t" + r.name + " " + r.version + if Without(line, "//indirect") then "" else " //indirect"
  {
    var found := r.name + " ";
    assert line[|before|..|before| + |found|] == found;
    ContainsAt(line, found, |before|);
    ContainsIff(line, "=>");
    ContainsIff(line, r.version);
    ContainsIff(line, "//indirect");
  }

  /** Every other line stays. */
  lemma {:induction false} OthersKept(r: Package, line: string)
    requires !Without(line, "=>") || !Without(line, r.version) || Without(line, r.name + " ")
    ensures RewriteStep(r, line) == line
  {
    ContainsIff(line, "=>");
    ContainsIff(line, r.version);
    ContainsIff(line, r.name + " ");
  }

  /** The packages take their turns in order, each on what the ones before it have left. */
  lemma {:induction false} InOrder(first: seq<Package>, rest: seq<Package>, line: string)
    ensures Rewritten(first + rest, line) == Rewritten(rest, Rewritten(first, line))
    decreases |first|
  {
    if first == [] {
      assert first + rest == rest;
    } else {
      assert (first + rest)[0] == first[0] && (first + rest)[1..] == first[1..] + rest;
      InOrder(first[1..], rest, RewriteStep(first[0], line));
    }
  }

  lemma {:induction false} OneTurn(r: Package, line: string)
    ensures Rewritten([r], line) == RewriteStep(r, line)
  {
    assert [r][1..] == [];
  }

  predicate NoneFires(r: Package, lines: seq<string>) {
    forall l :: l in lines ==> !Fires(r, l)
  }

  /** The mismatch reported is that of the first package that disagrees with a line, on the first such line. */
  lemma {:induction false} MismatchIs(required: seq<Package>, lines: seq<string>, i: nat, j: nat)
    requires i < |required| && j < |lines| && Fires(required[i], lines[j]) && NoneFires(required[i], lines[..j])
    requires forall k :: 0 <= k < i ==> NoneFires(required[k], lines)
    ensures FirstMismatch(required, lines) == [(required[i], lines[j])]
    decreases i
  {
    var f := FirstFiring(required[0], lines);
    forall k | 0 <= k < j
      ensures !Fires(required[i], lines[k])
    {
      assert lines[..j][k] == lines[k];
    }
    if i > 0 {
      assert NoneFires(required[0], lines);
      forall k | 0 <= k < i - 1
        ensures NoneFires(required[1..][k], lines)
      {
        assert required[1..][k] == required[k + 1];
      }
      MismatchIs(required[1..], lines, i - 1, j);
    }
  }

  lemma {:induction false} NoMismatch(required: seq<Package>, lines: seq<string>)
    requires forall k :: 0 <= k < |required| ==> NoneFires(required[k], lines)
    ensures FirstMismatch(required, lines) == []
  {
    if required != [] {
      assert NoneFires(required[0], lines);
      forall k | 0 <= k < |required| - 1
        ensures NoneFires(required[1..][k], lines)
      {
        assert required[1..][k] == required[k + 1];
      }
      NoMismatch(required[1..], lines);
    }
  }

  /** The error mode looks for mismatches before anything else; only then an invalid directive is fatal. */
  lemma {:induction false} Outcomes(g: GoMod, text: string, throwerr: bool, i: nat, j: nat)
    ensures throwerr && i < |g.required| && j < |Lines(text)| && Fires(g.required[i], Lines(text)[j])
            && NoneFires(g.required[i], Lines(text)[..j])
            && (forall k :: 0 <= k < i ==> NoneFires(g.required[k], Lines(text))) ==>
              Synchronized(g, text, throwerr) == Mismatch(g.required[i], Lines(text)[j])
    ensures !throwerr || (forall k :: 0 <= k < |g.required| ==> NoneFires(g.required[k], Lines(text))) ==>
              Synchronized(g, text, throwerr)
              == if ReplacedVersions(text).Fatal? then InvalidGoMod else Synced(Output(g, text))
  {
    var lines := Lines(text);
    if i < |g.required| && j < |lines| && Fires(g.required[i], lines[j]) && NoneFires(g.required[i], lines[..j])
       && forall k :: 0 <= k < i ==> NoneFires(g.required[k], lines) {
      MismatchIs(g.required, lines, i, j);
    }
    if forall k :: 0 <= k < |g.required| ==> NoneFires(g.required[k], lines) {
      NoMismatch(g.required, lines);
    }
  }
}
