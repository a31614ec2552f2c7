/** `clearSchemaRefs`: the walk that inlines references in a shared, possibly cyclic graph of schemas
    and cuts every back edge. */
module SchemaRefs {

  /** A schema. The walk never writes its child lists. */
  class Schema {
    const allOf: seq<SchemaRef?>
    const anyOf: seq<SchemaRef?>
    const oneOf: seq<SchemaRef?>
    const not: SchemaRef?
    const items: SchemaRef?
    const properties: map<string, SchemaRef?>
    const additionalProperties: SchemaRef?

    constructor Empty()
      ensures Leaf(this)
    {
      allOf, anyOf, oneOf := [], [], [];
      not, items, additionalProperties := null, null, null;
      properties := map[];
    }

    /** All child positions. */
    ghost function Slots(): set<SchemaRef?> {
      Elems(allOf) + Elems(anyOf) + Elems(oneOf)
      + {not, items, additionalProperties} + properties.Values
    }
  }

  class SchemaRef {
    var ref: string
    var value: Schema?
  }

  /** The set of schemas on the current path, shared by all calls. */
  class Stack {
    var on: map<Schema, bool>

    constructor ()
      ensures on == map[]
    {
      on := map[];
    }
  }

  /** The schema without children that replaces the target of a back edge. */
  ghost predicate Leaf(s: Schema) {
    && s.allOf == [] && s.anyOf == [] && s.oneOf == [] && s.properties == map[]
    && s.not == null && s.items == null && s.additionalProperties == null
  }

  function Elems<T>(s: seq<T>): set<T> {
    set x | x in s
  }

  // ---------- snapshots of the graph ----------

  type Graph = map<SchemaRef, Schema?>

  ghost function Values(refs: set<SchemaRef>): Graph
    reads refs
  {
    map r | r in refs :: r.value
  }

  ghost function Cleared(refs: set<SchemaRef>): set<SchemaRef>
    reads refs
  {
    set r | r in refs && r.ref == ""
  }

  /** Every child of a schema is a known reference, every reference leads to a known schema or nowhere. */
  ghost predicate Closed(S: set<Schema>, G: Graph) {
    && (forall s, c: SchemaRef? :: s in S && c in s.Slots() && c != null ==> c in G)
    && (forall r :: r in G && G[r] != null ==> G[r] in S)
  }

  ghost predicate Edge(G: Graph, s: Schema, t: Schema) {
    exists c: SchemaRef :: c in s.Slots() && c in G && G[c] == t
  }

  ghost predicate IsPath(G: Graph, p: seq<Schema>) {
    forall i, j {:trigger Edge(G, p[i], p[j])} :: 0 <= i < j < |p| && j == i + 1 ==> Edge(G, p[i], p[j])
  }

  ghost predicate NoRepeat(p: seq<Schema>) {
    forall i, j :: 0 <= i < j < |p| ==> p[i] != p[j]
  }

  ghost function Nodes(G: Graph, starts: set<Schema>): set<Schema> {
    starts + set r | r in G && G[r] != null :: G[r]
  }

  /** A path from one of the starting points. */
  ghost predicate Trail(G: Graph, starts: set<Schema>, older p: seq<Schema>) {
    p != [] && p[0] in starts && IsPath(G, p) && forall i :: 0 <= i < |p| ==> p[i] in Nodes(G, starts)
  }

  /** No path from the starting points meets a schema twice. */
  ghost predicate Acyclic(G: Graph, starts: set<Schema>) {
    forall p: seq<Schema> :: Trail(G, starts, p) ==> NoRepeat(p)
  }

  /** The target of `r` is an ancestor of `r` on some path from the starting points. */
  ghost predicate BackEdge(G: Graph, starts: set<Schema>, r: SchemaRef) {
    r in G && exists p: seq<Schema> :: Trail(G, starts, p) && r in p[|p| - 1].Slots() && G[r] in p
  }

  /** What the walk may have done to the graph it started from: some back edges now lead to fresh leaves. */
  ghost predicate CutOnly(S: set<Schema>, starts: set<Schema>, G: Graph, G': Graph) {
    && G'.Keys == G.Keys
    && forall r :: r in G ==> G'[r] == G[r] || (G'[r] != null && G'[r] !in S && Leaf(G'[r]) && BackEdge(G, starts, r))
  }

  /** One stretch of the walk: values stay or become leaves outside the graph, references are only cleared. */
  ghost predicate Evolves(S: set<Schema>, G: Graph, C: set<SchemaRef>, G': Graph, C': set<SchemaRef>) {
    && G'.Keys == G.Keys && C <= C'
    && forall r :: r in G ==> G'[r] == G[r] || (G[r] != null && G'[r] != null && G'[r] !in S && Leaf(G'[r]))
  }

  /** Below `s` no path meets a schema of `P` or meets a schema twice, and every reference is cleared. */
  ghost predicate Clear(S: set<Schema>, G: Graph, C: set<SchemaRef>, s: Schema, P: set<Schema>)
    decreases S - P
  {
    && s !in P
    && (s in S || Leaf(s))
    && (s in S ==> forall c: SchemaRef? :: c in s.Slots() && c != null ==>
          c in G && c in C && (G[c] != null ==> Clear(S, G, C, G[c], P + {s})))
  }

  lemma {:induction false} ClearStable(S: set<Schema>, G: Graph, C: set<SchemaRef>, G': Graph, C': set<SchemaRef>,
                                       s: Schema, P: set<Schema>)
    requires Clear(S, G, C, s, P) && Evolves(S, G, C, G', C') && P <= S
    ensures Clear(S, G', C', s, P)
    decreases S - P
  {
    if s in S {
      forall c: SchemaRef? | c in s.Slots() && c != null
        ensures c in G' && c in C' && (G'[c] != null ==> Clear(S, G', C', G'[c], P + {s}))
      {
        if G'[c] != null && G'[c] == G[c] {
          ClearStable(S, G, C, G', C', G[c], P + {s});
        }
      }
    }
  }

  /** `Clear` in terms of paths: they stay off `P`, never repeat, and pass through cleared references only. */
  lemma {:induction false} ClearPaths(S: set<Schema>, G: Graph, C: set<SchemaRef>, s: Schema, P: set<Schema>,
                                      p: seq<Schema>)
    requires Clear(S, G, C, s, P) && p != [] && p[0] == s && IsPath(G, p)
    ensures NoRepeat(p) && forall t :: t in p ==> t !in P
    ensures forall t, c: SchemaRef? :: t in p && c in t.Slots() && c != null ==> c in C
    decreases |p|
  {
    if |p| > 1 {
      var rest := p[1..];
      assert Edge(G, p[0], p[1]);
      var c: SchemaRef :| c in s.Slots() && c in G && G[c] == p[1];
      forall i, j | 0 <= i < j < |rest| && j == i + 1 ensures Edge(G, rest[i], rest[j]) {
        assert Edge(G, p[i + 1], p[j + 1]);
      }
      ClearPaths(S, G, C, p[1], P + {s}, rest);
      forall i, j | 0 <= i < j < |p| ensures p[i] != p[j] {
        assert p[j] == rest[j - 1] && rest[j - 1] in rest;
        if i > 0 {
          assert p[i] == rest[i - 1];
        }
      }
      assert forall t :: t in p ==> t == s || t in rest;
    }
  }

  // ---------- the walk ----------

  /** What the walk has established for a child position. */
  ghost predicate Walked(S: set<Schema>, G: Graph, C: set<SchemaRef>, c: SchemaRef?, P: set<Schema>) {
    c != null ==> c in G && c in C && (G[c] != null ==> Clear(S, G, C, G[c], P))
  }

  ghost predicate AllWalked(S: set<Schema>, G: Graph, C: set<SchemaRef>, done: set<SchemaRef?>, P: set<Schema>) {
    forall c :: c in done ==> Walked(S, G, C, c, P)
  }

  lemma WalkedStable(S: set<Schema>, G: Graph, C: set<SchemaRef>, G': Graph, C': set<SchemaRef>,
                     done: set<SchemaRef?>, P: set<Schema>)
    requires AllWalked(S, G, C, done, P) && Evolves(S, G, C, G', C') && P <= S
    ensures AllWalked(S, G', C', done, P)
  {
    forall c | c in done ensures Walked(S, G', C', c, P) {
      if c != null && G'[c] != null && G'[c] == G[c] {
        ClearStable(S, G, C, G', C', G[c], P);
      }
    }
  }

  /** The ghost view of a run: all original schemas `S`, all references `refs`, the graph `G` at the start
      and the schemas the roots led to. */
  datatype Run = Run(S: set<Schema>, refs: set<SchemaRef>, G: Graph, starts: set<Schema>)

  ghost predicate Consistent(run: Run)
    reads run.refs
  {
    && run.G.Keys == run.refs && Closed(run.S, run.G) && run.starts <= run.S
    && CutOnly(run.S, run.starts, run.G, Values(run.refs))
  }

  /** The stack holds exactly the schemas of `path`, which starts at a root. */
  ghost predicate OnStack(run: Run, on: map<Schema, bool>, path: seq<Schema>) {
    && on.Keys == Elems(path) && (forall t :: t in on ==> on[t] && t in run.S)
    && (path != [] ==> Trail(run.G, run.starts, path))
  }

  /** `sr` is a root when the path is empty, and otherwise a child of its last schema. */
  ghost predicate ChildOf(run: Run, path: seq<Schema>, sr: SchemaRef) {
    && sr in run.G
    && if path == [] then run.G[sr] != null ==> run.G[sr] in run.starts else sr in path[|path| - 1].Slots()
  }

  lemma Extend(run: Run, on: map<Schema, bool>, path: seq<Schema>, sr: SchemaRef, s: Schema)
    requires OnStack(run, on, path) && ChildOf(run, path, sr) && run.G[sr] == s && s in run.S
    ensures OnStack(run, on[s := true], path + [s])
  {
    var p := path + [s];
    assert path != [] ==> Edge(run.G, path[|path| - 1], s);
    forall i, j | 0 <= i < j < |p| && j == i + 1 ensures Edge(run.G, p[i], p[j]) {
      if j < |path| {
        assert Edge(run.G, path[i], path[j]);
      }
    }
    assert s in Nodes(run.G, run.starts);
  }

  lemma CutIsBackEdge(run: Run, on: map<Schema, bool>, path: seq<Schema>, sr: SchemaRef)
    requires OnStack(run, on, path) && ChildOf(run, path, sr) && run.G[sr] != null && run.G[sr] in on
    ensures BackEdge(run.G, run.starts, sr)
  {
    assert run.G[sr] in path;
  }

  lemma CutOne(run: Run, G: Graph, C: set<SchemaRef>, sr: SchemaRef, leaf: Schema)
    requires CutOnly(run.S, run.starts, run.G, G) && sr in G && G[sr] != null && BackEdge(run.G, run.starts, sr)
    requires leaf !in run.S && Leaf(leaf)
    ensures CutOnly(run.S, run.starts, run.G, G[sr := leaf]) && Evolves(run.S, G, C, G[sr := leaf], C)
  {
  }

  lemma SlotsWalked(S: set<Schema>, G: Graph, C: set<SchemaRef>, s: Schema, P: set<Schema>)
    requires AllWalked(S, G, C, s.Slots(), P + {s}) && s !in P && (s in S || Leaf(s))
    ensures Clear(S, G, C, s, P)
  {
    forall c: SchemaRef? | c in s.Slots() && c != null
      ensures c in G && c in C && (G[c] != null ==> Clear(S, G, C, G[c], P + {s}))
    {
      assert Walked(S, G, C, c, P + {s});
    }
  }

  method ClearSchemaRefs(sr: SchemaRef?, stack: Stack, ghost run: Run, ghost path: seq<Schema>)
    requires Consistent(run)
    requires sr != null ==> OnStack(run, stack.on, path) && ChildOf(run, path, sr)
    modifies run.refs, stack
    ensures stack.on == old(stack.on)
    ensures Consistent(run)
    ensures Evolves(run.S, old(Values(run.refs)), old(Cleared(run.refs)), Values(run.refs), Cleared(run.refs))
    ensures forall r :: r in run.refs ==> r.ref == old(r.ref) || r.ref == ""
    ensures sr == null ==> Values(run.refs) == old(Values(run.refs)) && Cleared(run.refs) == old(Cleared(run.refs))
    ensures Walked(run.S, Values(run.refs), Cleared(run.refs), sr, stack.on.Keys)
    decreases run.S - stack.on.Keys, if sr == null then 0 else 6
  {
    if sr == null {
      return;
    }
    sr.ref := "";
    assert Values(run.refs) == old(Values(run.refs));
    ClearTarget(sr, stack, run, path);
  }

  /** What is done with the value of a reference that has been cleared. */
  method ClearTarget(sr: SchemaRef, stack: Stack, ghost run: Run, ghost path: seq<Schema>)
    requires Consistent(run)
    requires OnStack(run, stack.on, path) && ChildOf(run, path, sr) && sr.ref == ""
    modifies run.refs, stack
    ensures stack.on == old(stack.on)
    ensures Consistent(run)
    ensures Evolves(run.S, old(Values(run.refs)), old(Cleared(run.refs)), Values(run.refs), Cleared(run.refs))
    ensures forall r :: r in run.refs ==> r.ref == old(r.ref) || r.ref == ""
    ensures Walked(run.S, Values(run.refs), Cleared(run.refs), sr, stack.on.Keys)
    decreases run.S - stack.on.Keys, 5
  {
    assert sr in Cleared(run.refs);
    var s := sr.value;
    if s == null {
    } else if s in stack.on && stack.on[s] {
      CutIsBackEdge(run, stack.on, path, sr);
      CutBackEdge(sr, run);
    } else {
      VisitTarget(sr, s, stack, run, path);
    }
  }

  /** Walks below a target that is not on the path. */
  method VisitTarget(sr: SchemaRef, s: Schema, stack: Stack, ghost run: Run, ghost path: seq<Schema>)
    requires Consistent(run)
    requires OnStack(run, stack.on, path) && ChildOf(run, path, sr)
    requires sr in Cleared(run.refs) && sr.value == s && s !in stack.on
    modifies run.refs, stack
    ensures stack.on == old(stack.on)
    ensures Consistent(run)
    ensures Evolves(run.S, old(Values(run.refs)), old(Cleared(run.refs)), Values(run.refs), Cleared(run.refs))
    ensures forall r :: r in run.refs ==> r.ref == old(r.ref) || r.ref == ""
    ensures Walked(run.S, Values(run.refs), Cleared(run.refs), sr, stack.on.Keys)
    decreases run.S - stack.on.Keys, 5, 0
  {
    assert Values(run.refs)[sr] == s;
    if s in run.S {
      Extend(run, stack.on, path, sr, s);
    }
    ghost var G1, C1 := Values(run.refs), Cleared(run.refs);
    Visit(s, stack, run, path + [s]);
    TargetWalked(run.S, G1, C1, Values(run.refs), Cleared(run.refs), sr, stack.on.Keys);
  }

  /** A walk below the target of a cleared reference. */
  lemma TargetWalked(S: set<Schema>, G: Graph, C: set<SchemaRef>, G': Graph, C': set<SchemaRef>, sr: SchemaRef,
                     P: set<Schema>)
    requires sr in G && sr in C && G[sr] != null && P <= S
    requires Evolves(S, G, C, G', C') && Clear(S, G', C', G[sr], P)
    ensures Walked(S, G', C', sr, P)
  {
  }

  /** Replaces a target that is on the path. */
  method CutBackEdge(sr: SchemaRef, ghost run: Run)
    requires Consistent(run) && sr in run.refs && sr.value != null && BackEdge(run.G, run.starts, sr)
    modifies sr
    ensures sr.ref == old(sr.ref) && Cleared(run.refs) == old(Cleared(run.refs))
    ensures Consistent(run)
    ensures Evolves(run.S, old(Values(run.refs)), old(Cleared(run.refs)), Values(run.refs), Cleared(run.refs))
    ensures sr.value != null && Leaf(sr.value) && fresh(sr.value)
  {
    ghost var G1, C1 := Values(run.refs), Cleared(run.refs);
    assert G1[sr] == sr.value;
    var leaf := new Schema.Empty();
    CutOne(run, G1, C1, sr, leaf);
    sr.value := leaf;
    assert Values(run.refs) == G1[sr := leaf] && Cleared(run.refs) == C1;
  }

  /** Pushes a schema that is not on the path, walks below it and pops it. */
  method Visit(s: Schema, stack: Stack, ghost run: Run, ghost path: seq<Schema>)
    requires Consistent(run)
    requires s in run.S || Leaf(s)
    requires s !in stack.on
    requires s in run.S ==> path != [] && path[|path| - 1] == s && OnStack(run, stack.on[s := true], path)
    modifies run.refs, stack
    ensures stack.on == old(stack.on)
    ensures Consistent(run)
    ensures Evolves(run.S, old(Values(run.refs)), old(Cleared(run.refs)), Values(run.refs), Cleared(run.refs))
    ensures forall r :: r in run.refs ==> r.ref == old(r.ref) || r.ref == ""
    ensures Clear(run.S, Values(run.refs), Cleared(run.refs), s, stack.on.Keys)
    decreases run.S - stack.on.Keys, 4
  {
    ghost var P, on := stack.on.Keys, stack.on;
    stack.on := stack.on[s := true];
    assert stack.on.Keys == P + {s};
    assert s !in run.S ==> run.S - P == run.S - (P + {s});
    ClearChildren(s, stack, run, path);
    ghost var G1, C1 := Values(run.refs), Cleared(run.refs);
    SlotsWalked(run.S, G1, C1, s, P);
    assert stack.on - {s} == on;
    label Walked:
    stack.on := stack.on - {s};
    assert forall r :: r in run.refs ==> unchanged@Walked(r);
  }

  /** The body of the walk at one schema. */
  method ClearChildren(s: Schema, stack: Stack, ghost run: Run, ghost path: seq<Schema>)
    requires Consistent(run)
    requires s in run.S || Leaf(s)
    requires s in run.S ==> path != [] && path[|path| - 1] == s && OnStack(run, stack.on, path)
    modifies run.refs, stack
    ensures stack.on == old(stack.on)
    ensures Consistent(run)
    ensures Evolves(run.S, old(Values(run.refs)), old(Cleared(run.refs)), Values(run.refs), Cleared(run.refs))
    ensures forall r :: r in run.refs ==> r.ref == old(r.ref) || r.ref == ""
    ensures AllWalked(run.S, Values(run.refs), Cleared(run.refs), s.Slots(), stack.on.Keys)
    decreases run.S - stack.on.Keys, if s !in run.S then 3 else 10
  {
    ghost var done := ClearComposites(s, stack, run, path);
    done := ClearOne(s.not, stack, run, path, done);
    done := ClearNamed(s, stack, run, path, done);
    forall c | c in s.Slots() ensures Walked(run.S, Values(run.refs), Cleared(run.refs), c, stack.on.Keys) {
      assert c == null || c in done;
    }
  }

  /** `allOf`, `anyOf` and `oneOf`. */
  method ClearComposites(s: Schema, stack: Stack, ghost run: Run, ghost path: seq<Schema>)
    returns (ghost done: set<SchemaRef?>)
    requires Consistent(run)
    requires s in run.S || Leaf(s)
    requires s in run.S ==> path != [] && path[|path| - 1] == s && OnStack(run, stack.on, path)
    modifies run.refs, stack
    ensures stack.on == old(stack.on)
    ensures Consistent(run)
    ensures Evolves(run.S, old(Values(run.refs)), old(Cleared(run.refs)), Values(run.refs), Cleared(run.refs))
    ensures forall r :: r in run.refs ==> r.ref == old(r.ref) || r.ref == ""
    ensures done == Elems(s.allOf) + Elems(s.anyOf) + Elems(s.oneOf)
    ensures AllWalked(run.S, Values(run.refs), Cleared(run.refs), done, stack.on.Keys)
    decreases run.S - stack.on.Keys, if s !in run.S then 2 else 9
  {
    done := {};
    done := ClearAll(s.allOf, stack, run, path, done);
    done := ClearAll(s.anyOf, stack, run, path, done);
    done := ClearAll(s.oneOf, stack, run, path, done);
  }

  /** `items`, `properties` and `additionalProperties`. */
  method ClearNamed(s: Schema, stack: Stack, ghost run: Run, ghost path: seq<Schema>, ghost done: set<SchemaRef?>)
    returns (ghost done': set<SchemaRef?>)
    requires Consistent(run)
    requires s in run.S || Leaf(s)
    requires s in run.S ==> path != [] && path[|path| - 1] == s && OnStack(run, stack.on, path)
    requires AllWalked(run.S, Values(run.refs), Cleared(run.refs), done, stack.on.Keys)
    modifies run.refs, stack
    ensures stack.on == old(stack.on)
    ensures Consistent(run)
    ensures Evolves(run.S, old(Values(run.refs)), old(Cleared(run.refs)), Values(run.refs), Cleared(run.refs))
    ensures forall r :: r in run.refs ==> r.ref == old(r.ref) || r.ref == ""
    ensures done' == done + (if s.items != null then {s.items} else {}) + s.properties.Values
                     + (if s.additionalProperties != null then {s.additionalProperties} else {})
    ensures AllWalked(run.S, Values(run.refs), Cleared(run.refs), done', stack.on.Keys)
    decreases run.S - stack.on.Keys, if s !in run.S then 2 else 9
  {
    done' := done;
    if s.items != null {
      done' := ClearOne(s.items, stack, run, path, done');
    }
    done' := ClearProperties(s.properties, stack, run, path, done');
    if s.additionalProperties != null {
      done' := ClearOne(s.additionalProperties, stack, run, path, done');
    }
  }

  /** One more child beside those already walked. */
  method ClearOne(child: SchemaRef?, stack: Stack, ghost run: Run, ghost path: seq<Schema>, ghost done: set<SchemaRef?>)
    returns (ghost done': set<SchemaRef?>)
    requires Consistent(run)
    requires child != null ==> OnStack(run, stack.on, path) && ChildOf(run, path, child)
    requires AllWalked(run.S, Values(run.refs), Cleared(run.refs), done, stack.on.Keys)
    modifies run.refs, stack
    ensures stack.on == old(stack.on)
    ensures Consistent(run)
    ensures Evolves(run.S, old(Values(run.refs)), old(Cleared(run.refs)), Values(run.refs), Cleared(run.refs))
    ensures forall r :: r in run.refs ==> r.ref == old(r.ref) || r.ref == ""
    ensures done' == done + {child}
    ensures AllWalked(run.S, Values(run.refs), Cleared(run.refs), done', stack.on.Keys)
    decreases run.S - stack.on.Keys, if child == null then 1 else 7
  {
    ClearSchemaRefs(child, stack, run, path);
    if child != null {
      WalkedStable(run.S, old(Values(run.refs)), old(Cleared(run.refs)), Values(run.refs), Cleared(run.refs), done,
                   stack.on.Keys);
    }
    done' := done + {child};
  }

  method ClearAll(children: seq<SchemaRef?>, stack: Stack, ghost run: Run, ghost path: seq<Schema>,
                  ghost done: set<SchemaRef?>)
    returns (ghost done': set<SchemaRef?>)
    requires Consistent(run)
    requires children != [] ==> OnStack(run, stack.on, path)
    requires forall c: SchemaRef :: c in children ==> ChildOf(run, path, c)
    requires AllWalked(run.S, Values(run.refs), Cleared(run.refs), done, stack.on.Keys)
    modifies run.refs, stack
    ensures stack.on == old(stack.on)
    ensures Consistent(run)
    ensures Evolves(run.S, old(Values(run.refs)), old(Cleared(run.refs)), Values(run.refs), Cleared(run.refs))
    ensures forall r :: r in run.refs ==> r.ref == old(r.ref) || r.ref == ""
    ensures done' == done + Elems(children)
    ensures AllWalked(run.S, Values(run.refs), Cleared(run.refs), done', stack.on.Keys)
    decreases run.S - stack.on.Keys, if children == [] then 1 else 8
  {
    done' := done;
    for i := 0 to |children|
      invariant stack.on == old(stack.on)
      invariant Consistent(run)
      invariant Evolves(run.S, old(Values(run.refs)), old(Cleared(run.refs)), Values(run.refs), Cleared(run.refs))
      invariant forall r :: r in run.refs ==> r.ref == old(r.ref) || r.ref == ""
      invariant done' == done + Elems(children[..i])
      invariant AllWalked(run.S, Values(run.refs), Cleared(run.refs), done', stack.on.Keys)
    {
      done' := ClearOne(children[i], stack, run, path, done');
    }
    assert children[..|children|] == children;
  }

  method ClearProperties(children: map<string, SchemaRef?>, stack: Stack, ghost run: Run, ghost path: seq<Schema>,
                         ghost done: set<SchemaRef?>)
    returns (ghost done': set<SchemaRef?>)
    requires Consistent(run)
    requires children != map[] ==> OnStack(run, stack.on, path)
    requires forall c: SchemaRef :: c in children.Values ==> ChildOf(run, path, c)
    requires AllWalked(run.S, Values(run.refs), Cleared(run.refs), done, stack.on.Keys)
    modifies run.refs, stack
    ensures stack.on == old(stack.on)
    ensures Consistent(run)
    ensures Evolves(run.S, old(Values(run.refs)), old(Cleared(run.refs)), Values(run.refs), Cleared(run.refs))
    ensures forall r :: r in run.refs ==> r.ref == old(r.ref) || r.ref == ""
    ensures done' == done + children.Values
    ensures AllWalked(run.S, Values(run.refs), Cleared(run.refs), done', stack.on.Keys)
    decreases run.S - stack.on.Keys, if children == map[] then 1 else 8
  {
    done' := done;
    var todo := children.Keys;
    while todo != {}
      invariant todo <= children.Keys
      invariant stack.on == old(stack.on)
      invariant Consistent(run)
      invariant Evolves(run.S, old(Values(run.refs)), old(Cleared(run.refs)), Values(run.refs), Cleared(run.refs))
      invariant forall r :: r in run.refs ==> r.ref == old(r.ref) || r.ref == ""
      invariant done' == done + set name | name in children && name !in todo :: children[name]
      invariant AllWalked(run.S, Values(run.refs), Cleared(run.refs), done', stack.on.Keys)
      decreases todo
    {
      var name :| name in todo;
      todo := todo - {name};
      assert children[name] in children.Values;
      done' := ClearOne(children[name], stack, run, path, done');
    }
  }

  // ---------- all roots ----------

  ghost function Targets(G: Graph, roots: set<SchemaRef?>): set<Schema> {
    set r | r in G && r in roots && G[r] != null :: G[r]
  }

  /** Everything reachable from the roots is free of cycles and of references. */
  ghost predicate Inlined(G: Graph, C: set<SchemaRef>, roots: set<SchemaRef?>) {
    && (forall r: SchemaRef :: r in roots ==> r in C)
    && Acyclic(G, Targets(G, roots))
    && forall p: seq<Schema> :: Trail(G, Targets(G, roots), p) ==>
         forall c: SchemaRef :: c in p[|p| - 1].Slots() ==> c in C
  }

  lemma WalkedInlined(S: set<Schema>, G: Graph, C: set<SchemaRef>, roots: set<SchemaRef?>)
    requires AllWalked(S, G, C, roots, {})
    ensures Inlined(G, C, roots)
  {
    forall r: SchemaRef | r in roots ensures r in C {
      assert Walked(S, G, C, r, {});
    }
    forall p: seq<Schema> | Trail(G, Targets(G, roots), p)
      ensures NoRepeat(p) && forall c: SchemaRef :: c in p[|p| - 1].Slots() ==> c in C
    {
      var r :| r in G && r in roots && G[r] == p[0];
      assert Walked(S, G, C, r, {});
      ClearPaths(S, G, C, p[0], {}, p);
    }
  }

  /** An edge whose target is an ancestor closes a cycle. */
  lemma BackEdgeRepeats(G: Graph, starts: set<Schema>, r: SchemaRef)
    requires BackEdge(G, starts, r)
    ensures !Acyclic(G, starts)
  {
    var p: seq<Schema> :| Trail(G, starts, p) && r in p[|p| - 1].Slots() && G[r] in p;
    TrailExtends(G, starts, p, r);
    var q := p + [G[r]];
    var k :| 0 <= k < |p| && p[k] == G[r];
    assert q[k] == q[|p|];
  }

  lemma TrailExtends(G: Graph, starts: set<Schema>, p: seq<Schema>, r: SchemaRef)
    requires Trail(G, starts, p) && r in p[|p| - 1].Slots() && r in G && G[r] != null
    ensures Trail(G, starts, p + [G[r]])
  {
    var q := p + [G[r]];
    assert Edge(G, p[|p| - 1], G[r]);
    forall i, j | 0 <= i < j < |q| && j == i + 1 ensures Edge(G, q[i], q[j]) {
      if j < |p| {
        assert Edge(G, p[i], p[j]);
      }
    }
    assert G[r] in Nodes(G, starts);
  }

  /** Walking from every root: below the roots nothing is cyclic and nothing is a reference any more,
      only back edges were cut, and nothing was cut exactly when the graph had no cycle. */
  method ResolveRoots(roots: map<string, SchemaRef?>, ghost S: set<Schema>, ghost refs: set<SchemaRef>)
    requires forall r: SchemaRef :: r in roots.Values ==> r in refs
    requires Closed(S, Values(refs))
    modifies refs
    ensures Inlined(Values(refs), Cleared(refs), roots.Values)
    ensures CutOnly(S, Targets(old(Values(refs)), roots.Values), old(Values(refs)), Values(refs))
    ensures forall r :: r in refs ==> r.ref == old(r.ref) || r.ref == ""
    ensures Values(refs) == old(Values(refs)) <==> Acyclic(old(Values(refs)), Targets(old(Values(refs)), roots.Values))
  {
    var stack := new Stack();
    ghost var G := Values(refs);
    ghost var starts := Targets(G, roots.Values);
    ghost var run := Run(S, refs, G, starts);
    ghost var done: set<SchemaRef?> := {};
    var todo := roots.Keys;
    while todo != {}
      invariant todo <= roots.Keys
      invariant stack.on == map[] && Consistent(run)
      invariant done == set name | name in roots && name !in todo :: roots[name]
      invariant AllWalked(S, Values(refs), Cleared(refs), done, {})
      invariant forall r :: r in refs ==> r.ref == old(r.ref) || r.ref == ""
      decreases todo
    {
      var name :| name in todo;
      todo := todo - {name};
      assert roots[name] in roots.Values;
      ghost var G1, C1 := Values(refs), Cleared(refs);
      ClearSchemaRefs(roots[name], stack, run, []);
      assert stack.on.Keys == {};
      WalkedStable(S, G1, C1, Values(refs), Cleared(refs), done, {});
      done := done + {roots[name]};
    }
    assert done == roots.Values;
    WalkedInlined(S, Values(refs), Cleared(refs), roots.Values);
    if Acyclic(G, starts) {
      forall r | r in G ensures Values(refs)[r] == G[r] {
        if BackEdge(G, starts, r) {
          BackEdgeRepeats(G, starts, r);
        }
      }
    }
  }
}
