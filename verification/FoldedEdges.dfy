/**
  Edges of modules that own no source (internal/initcfg/inventory.go, foldDroppedEdges):
  an edge into a dropped module goes to the kept modules that own its files instead.
  Which modules those are is a parameter.
*/
module FoldedEdges {
  import opened Orders
  import opened ModuleGraph
  import opened CycleCount
  import opened StarterRules

  /** Where an edge to a module of this name leads. */
  function TargetsOf(kept: set<string>, owners: map<string, seq<string>>, to: string): seq<string> {
    if to in kept then [to] else if to in owners then owners[to] else []
  }

  function AddEdge(out: seq<ModuleEdge>, e: ModuleEdge): seq<ModuleEdge> {
    if e in out || e.from == e.to then out else out + [e]
  }

  function AddEdges(out: seq<ModuleEdge>, from: string, targets: seq<string>): seq<ModuleEdge> {
    if |targets| == 0 then out
    else
      var last := |targets| - 1;
      AddEdge(AddEdges(out, from, targets[..last]), ModuleEdge(from, targets[last]))
  }

  function Folded(edges: seq<ModuleEdge>, kept: set<string>, owners: map<string, seq<string>>): seq<ModuleEdge> {
    if |edges| == 0 then []
    else
      var last := |edges| - 1;
      var before := Folded(edges[..last], kept, owners);
      if edges[last].from in kept then AddEdges(before, edges[last].from, TargetsOf(kept, owners, edges[last].to))
      else before
  }

  method FoldDroppedEdges(edges: seq<ModuleEdge>, kept: set<string>, owners: map<string, seq<string>>)
    returns (out: seq<ModuleEdge>)
    ensures out == Folded(edges, kept, owners)
  {
    out := [];
    var seen: set<ModuleEdge> := {};
    for i := 0 to |edges|
      invariant out == Folded(edges[..i], kept, owners) && SeenIn(seen, out)
    {
      assert edges[..i + 1][..i] == edges[..i];
      var e := edges[i];
      if e.from in kept {
        out, seen := AddAll(out, seen, e.from, TargetsOf(kept, owners, e.to));
      }
    }
    assert edges[..|edges|] == edges;
  }

  ghost predicate SeenIn(seen: set<ModuleEdge>, out: seq<ModuleEdge>) {
    forall e :: e in seen <==> e in out
  }

  /** The inner loop. */
  method AddAll(before: seq<ModuleEdge>, seenBefore: set<ModuleEdge>, from: string, targets: seq<string>)
    returns (out: seq<ModuleEdge>, seen: set<ModuleEdge>)
    requires SeenIn(seenBefore, before)
    ensures out == AddEdges(before, from, targets) && SeenIn(seen, out)
  {
    out, seen := before, seenBefore;
    for j := 0 to |targets|
      invariant out == AddEdges(before, from, targets[..j]) && SeenIn(seen, out)
    {
      assert targets[..j + 1][..j] == targets[..j];
      var edge := ModuleEdge(from, targets[j]);
      if edge in seen || edge.from == edge.to {
        continue;
      }
      seen := seen + {edge};
      out := out + [edge];
    }
    assert targets[..|targets|] == targets;
  }

  // ---- What is left ----

  /** Edge e stands for an edge from the same kept module to it, or to a dropped module e.to owns. */
  ghost predicate Stands(edges: seq<ModuleEdge>, kept: set<string>, owners: map<string, seq<string>>, e: ModuleEdge) {
    e.from in kept && e.from != e.to
    && exists to :: ModuleEdge(e.from, to) in edges && e.to in TargetsOf(kept, owners, to)
  }

  lemma {:induction false} AddEdgesMembers(out: seq<ModuleEdge>, from: string, targets: seq<string>)
    requires NoDup(out)
    ensures NoDup(AddEdges(out, from, targets))
    ensures forall e :: e in AddEdges(out, from, targets) <==>
                        e in out || (e.from == from && e.to in targets && e.from != e.to)
  {
    if |targets| != 0 {
      var last := |targets| - 1;
      AddEdgesMembers(out, from, targets[..last]);
      assert targets == targets[..last] + [targets[last]];
    }
  }

  /** Exactly the edges that stand for one are left, each once. */
  lemma {:induction false} FoldedExactly(edges: seq<ModuleEdge>, kept: set<string>, owners: map<string, seq<string>>)
    ensures NoDup(Folded(edges, kept, owners))
    ensures forall e :: e in Folded(edges, kept, owners) <==> Stands(edges, kept, owners, e)
  {
    if |edges| != 0 {
      var last := |edges| - 1;
      var before, e := Folded(edges[..last], kept, owners), edges[last];
      FoldedExactly(edges[..last], kept, owners);
      AddEdgesMembers(before, e.from, TargetsOf(kept, owners, e.to));
      forall x
        ensures Stands(edges, kept, owners, x) <==>
                Stands(edges[..last], kept, owners, x)
                || (e.from in kept && x.from == e.from && x.from != x.to && x.to in TargetsOf(kept, owners, e.to))
      {
        LastStands(edges, kept, owners, x);
      }
    }
  }

  lemma LastStands(edges: seq<ModuleEdge>, kept: set<string>, owners: map<string, seq<string>>, x: ModuleEdge)
    requires |edges| != 0
    ensures var last := |edges| - 1;
            var e := edges[last];
            Stands(edges, kept, owners, x) <==>
            Stands(edges[..last], kept, owners, x)
            || (e.from in kept && x.from == e.from && x.from != x.to && x.to in TargetsOf(kept, owners, e.to))
  {
    var last := |edges| - 1;
    assert edges == edges[..last] + [edges[last]];
    assert edges[last] == ModuleEdge(edges[last].from, edges[last].to);
  }

  ghost predicate SameMembers(a: seq<ModuleEdge>, b: seq<ModuleEdge>) {
    forall e :: e in a <==> e in b
  }

  /** Edges between kept modules stay, whatever is folded beside them. */
  lemma KeptEdgesStay(others: seq<ModuleEdge>, edges: seq<ModuleEdge>, kept: set<string>,
                      owners: map<string, seq<string>>)
    requires forall e :: e in edges ==> e.from in kept && e.to in kept && e.from != e.to
    ensures SameMembers(Folded(others + edges, kept, owners), Folded(others, kept, owners) + edges)
  {
    FoldedExactly(others + edges, kept, owners);
    FoldedExactly(others, kept, owners);
    forall e ensures Stands(others + edges, kept, owners, e) <==> Stands(others, kept, owners, e) || e in edges {
      if e in edges { assert ModuleEdge(e.from, e.to) in others + edges; }
      if Stands(others, kept, owners, e) {
        var to :| ModuleEdge(e.from, to) in others && e.to in TargetsOf(kept, owners, to);
        assert ModuleEdge(e.from, to) in others + edges;
      }
    }
  }

  /** Neither count tells edge lists apart that hold the same edges, as far as being 0 goes. */
  lemma CountsOfMembers(a: seq<ModuleEdge>, b: seq<ModuleEdge>, ranks: map<string, nat>)
    requires SameMembers(a, b)
    ensures CycleTotal(a) == 0 <==> CycleTotal(b) == 0
    ensures BackEdges(ranks, a) == 0 <==> BackEdges(ranks, b) == 0
  {
    if CycleTotal(b) == 0 { FewerEdgesAcyclic(a, b); }
    if CycleTotal(a) == 0 { FewerEdgesAcyclic(b, a); }
    NoBackEdges(ranks, a);
    NoBackEdges(ranks, b);
  }
}
