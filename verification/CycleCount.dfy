/**
  moduleCycleCount (internal/initcfg/starter_rules.go): how many dependency
  cycles the modules form, counted as strongly connected components of two or
  more modules.
*/
module CycleCount {
  import opened Orders
  import opened ModuleGraph

  /** The edges the counter looks at: an import of oneself is skipped. */
  function Proper(edges: seq<ModuleEdge>): (r: seq<ModuleEdge>)
    ensures forall e :: e in r <==> e in edges && e.from != e.to
  {
    if |edges| == 0 then []
    else
      var last := |edges| - 1;
      assert edges == edges[..last] + [edges[last]];
      Proper(edges[..last]) + if edges[last].from == edges[last].to then [] else [edges[last]]
  }

  ghost predicate Mutual(edges: seq<ModuleEdge>, a: string, b: string) {
    Reaches(edges, a, b) && Reaches(edges, b, a)
  }

  /** The modules that import their way to a and back. */
  ghost function CycleOf(edges: seq<ModuleEdge>, a: string): set<string> {
    set b | b in Nodes(edges) && Mutual(edges, a, b)
  }

  ghost predicate OnCycle(edges: seq<ModuleEdge>, a: string) {
    Reaches(edges, a, a)
  }

  ghost function Cycles(edges: seq<ModuleEdge>): set<set<string>> {
    set a | a in Nodes(edges) && OnCycle(edges, a) :: CycleOf(edges, a)
  }

  /** The number of cycles among the modules. */
  ghost function CycleTotal(edges: seq<ModuleEdge>): nat {
    |Cycles(Proper(edges))|
  }

  // ---- What is counted ----

  /** A strongly connected component: a module with all it reaches and is reached by. */
  ghost predicate IsComponent(edges: seq<ModuleEdge>, c: set<string>) {
    exists a :: a in Nodes(edges) && IsComponentOf(edges, c, a)
  }

  ghost predicate IsComponentOf(edges: seq<ModuleEdge>, c: set<string>, a: string) {
    forall b :: b in c <==> b == a || Mutual(edges, a, b)
  }

  lemma MutualTransitive(edges: seq<ModuleEdge>, a: string, b: string, c: string)
    requires Mutual(edges, a, b) && Mutual(edges, b, c)
    ensures Mutual(edges, a, c)
  {
    ReachesTransitive(edges, a, b, c);
    ReachesTransitive(edges, c, b, a);
  }

  /** Members of one cycle name the same cycle. */
  lemma SameCycle(edges: seq<ModuleEdge>, a: string, b: string)
    requires Mutual(edges, a, b)
    ensures CycleOf(edges, a) == CycleOf(edges, b)
    ensures a in CycleOf(edges, b) && b in CycleOf(edges, a) && a in CycleOf(edges, a)
  {
    ReachedIsNode(edges, a, b);
    ReachesTransitive(edges, a, b, a);
    forall c | c in Nodes(edges) ensures Mutual(edges, a, c) <==> Mutual(edges, b, c) {
      if Mutual(edges, a, c) { MutualTransitive(edges, b, a, c); }
      if Mutual(edges, b, c) { MutualTransitive(edges, a, b, c); }
    }
  }

  /** Without imports of oneself a cycle has a second module. */
  lemma CycleHasTwo(edges: seq<ModuleEdge>, a: string)
    requires OnCycle(edges, a)
    requires forall e :: e in edges ==> e.from != e.to
    ensures a in CycleOf(edges, a) && |CycleOf(edges, a)| >= 2
  {
    ReachedIsNode(edges, a, a);
    var p :| Walk(edges, p) && |p| >= 2 && p[0] == a && p[|p| - 1] == a;
    assert ModuleEdge(p[0], p[1]) in edges;
    EdgeReaches(edges, p[0], p[1]);
    assert p[1] != a;
    assert Walk(edges, p[1..]) && |p[1..]| >= 2;
    assert Reaches(edges, p[1], a);
    ReachedIsNode(edges, p[1], a);
    assert {a, p[1]} <= CycleOf(edges, a);
    SubsetSize({a, p[1]}, CycleOf(edges, a));
  }

  lemma {:induction false} SubsetSize<T>(a: set<T>, b: set<T>)
    requires a <= b
    ensures |a| <= |b|
  {
    if a != {} {
      var x :| x in a;
      SubsetSize(a - {x}, b - {x});
    }
  }

  /** What is counted is exactly the strongly connected components of two or more modules. */
  lemma CyclesAreTheLargeComponents(edges: seq<ModuleEdge>, c: set<string>)
    requires forall e :: e in edges ==> e.from != e.to
    ensures c in Cycles(edges) <==> IsComponent(edges, c) && |c| >= 2
  {
    if c in Cycles(edges) {
      var a :| a in Nodes(edges) && OnCycle(edges, a) && c == CycleOf(edges, a);
      CycleHasTwo(edges, a);
      forall b ensures b in c <==> b == a || Mutual(edges, a, b) {
        if Mutual(edges, a, b) { ReachedIsNode(edges, a, b); }
      }
      assert IsComponentOf(edges, c, a);
    }
    if IsComponent(edges, c) && |c| >= 2 {
      var a :| a in Nodes(edges) && IsComponentOf(edges, c, a);
      if c <= {a} { SubsetSize(c, {a}); }
      var b :| b in c && b != a;
      assert Mutual(edges, a, b);
      ReachesTransitive(edges, a, b, a);
      forall x ensures x in c <==> x in CycleOf(edges, a) {
        if Mutual(edges, a, x) { ReachedIsNode(edges, a, x); }
      }
      assert c == CycleOf(edges, a);
    }
  }

  ghost predicate Acyclic(edges: seq<ModuleEdge>) {
    forall a :: a in Nodes(edges) ==> !OnCycle(edges, a)
  }

  /** No cycle is counted exactly when no module reaches itself through another. */
  lemma {:induction false} NoCycleCounted(edges: seq<ModuleEdge>)
    ensures CycleTotal(edges) == 0 <==> Acyclic(Proper(edges))
  {
    var proper := Proper(edges);
    if Acyclic(proper) {
      assert Cycles(proper) == {};
    } else {
      var a :| a in Nodes(proper) && OnCycle(proper, a);
      var c := CycleOf(proper, a);
      assert c in Cycles(proper);
      SubsetSize({c}, Cycles(proper));
    }
  }

  /** With some edges taken away no cycle comes up. */
  lemma {:induction false} FewerEdgesAcyclic(edges: seq<ModuleEdge>, more: seq<ModuleEdge>)
    requires CycleTotal(more) == 0 && forall e :: e in edges ==> e in more
    ensures CycleTotal(edges) == 0
  {
    NoCycleCounted(edges);
    NoCycleCounted(more);
    var few, all := Proper(edges), Proper(more);
    forall a | a in Nodes(few) ensures !OnCycle(few, a) {
      if OnCycle(few, a) {
        ReachesSubset(few, all, a, a);
        ReachedIsNode(all, a, a);
      }
    }
  }

  // ---- The counter ----

  /** What a module imports, as often and in the order the edges list it. */
  function Imports(edges: seq<ModuleEdge>, a: string): (r: seq<string>)
    ensures forall b :: b in r <==> ModuleEdge(a, b) in edges
  {
    if |edges| == 0 then []
    else
      var last := |edges| - 1;
      assert edges == edges[..last] + [edges[last]];
      Imports(edges[..last], a) + if edges[last].from == a then [edges[last].to] else []
  }

  /** Everything seen or stacked is reached, and what is reached next is seen or stacked. */
  ghost predicate Exploring(edges: seq<ModuleEdge>, start: string, seen: set<string>, stack: seq<string>) {
    && (forall b :: b in seen || b in stack ==> Reaches(edges, start, b))
    && (forall e :: e in edges && (e.from == start || e.from in seen) ==> e.to in seen || e.to in stack)
  }

  lemma StartExploring(edges: seq<ModuleEdge>, start: string)
    ensures Exploring(edges, start, {}, Imports(edges, start))
  {
    forall b | b in Imports(edges, start) ensures Reaches(edges, start, b) { EdgeReaches(edges, start, b); }
    forall e | e in edges && e.from == start ensures e.to in Imports(edges, start) {
      assert ModuleEdge(start, e.to) in edges;
    }
  }

  lemma {:induction false} PopKeepsExploring(edges: seq<ModuleEdge>, start: string, seen: set<string>,
                                             stack: seq<string>)
    requires |stack| > 0 && Exploring(edges, start, seen, stack)
    ensures var cur, rest := stack[|stack| - 1], stack[..|stack| - 1];
            && (cur in seen ==> Exploring(edges, start, seen, rest))
            && Exploring(edges, start, seen + {cur}, rest + Imports(edges, cur))
            && cur in Nodes(edges)
  {
    var cur, rest := stack[|stack| - 1], stack[..|stack| - 1];
    assert stack == rest + [cur];
    forall b ensures b in stack <==> b in rest || b == cur {}
    forall b ensures b in rest + Imports(edges, cur) <==> b in rest || b in Imports(edges, cur) {}
    ReachedIsNode(edges, start, cur);
    forall b | b in Imports(edges, cur) ensures Reaches(edges, start, b) {
      EdgeReaches(edges, cur, b);
      ReachesTransitive(edges, start, cur, b);
    }
    forall e | e in edges && e.from == cur ensures e.to in Imports(edges, cur) {
      assert ModuleEdge(cur, e.to) in edges;
    }
  }

  lemma OneLess(all: set<string>, seen: set<string>, cur: string)
    requires cur in all && cur !in seen
    ensures |all - (seen + {cur})| < |all - seen|
  {
    assert all - (seen + {cur}) == (all - seen) - {cur};
  }

  /** Modules reached from start by one or more imports: a stack that may hold a module
      twice, popped from its end. */
  method ReachableFrom(edges: seq<ModuleEdge>, adj: map<string, seq<string>>, start: string) returns (seen: set<string>)
    requires forall a :: ListOf(adj, a) == Imports(edges, a)
    ensures forall b :: b in seen <==> Reaches(edges, start, b)
  {
    seen := {};
    var stack := ListOf(adj, start);
    ghost var nodes := Nodes(edges);
    StartExploring(edges, start);
    while |stack| > 0
      invariant Exploring(edges, start, seen, stack)
      invariant seen <= nodes
      decreases |nodes - seen|, |stack|
    {
      var cur := stack[|stack| - 1];
      PopKeepsExploring(edges, start, seen, stack);
      stack := stack[..|stack| - 1];
      if cur in seen {
        continue;
      }
      OneLess(nodes, seen, cur);
      seen := seen + {cur};
      stack := stack + ListOf(adj, cur);
    }
    ClosedSetHoldsReachable(edges, start, seen);
  }

  method ModuleCycleCount(edges: seq<ModuleEdge>) returns (cycles: nat)
    ensures cycles == CycleTotal(edges)
  {
    var adj: map<string, seq<string>> := map[];
    var nodes: set<string> := {};
    for i := 0 to |edges|
      invariant forall a :: ListOf(adj, a) == Imports(Proper(edges[..i]), a)
      invariant nodes == Nodes(Proper(edges[..i]))
    {
      var e := edges[i];
      ProperStep(edges, i);
      if e.from == e.to {
        continue;
      }
      adj := adj[e.from := ListOf(adj, e.from) + [e.to]];
      nodes := nodes + {e.from, e.to};
    }
    assert edges[..|edges|] == edges;
    var names := SortedNames(nodes);
    var reach := ReachAll(Proper(edges), adj, names);
    cycles := CountClasses(Proper(edges), names, reach);
  }

  method ReachAll(edges: seq<ModuleEdge>, adj: map<string, seq<string>>, names: seq<string>)
    returns (reach: map<string, set<string>>)
    requires forall a :: ListOf(adj, a) == Imports(edges, a)
    ensures forall a :: a in names ==> a in reach
    ensures forall a :: a in reach ==> forall b :: b in reach[a] <==> Reaches(edges, a, b)
  {
    reach := map[];
    for i := 0 to |names|
      invariant forall j :: 0 <= j < i ==> names[j] in reach
      invariant forall a :: a in reach ==> forall b :: b in reach[a] <==> Reaches(edges, a, b)
    {
      var seen := ReachableFrom(edges, adj, names[i]);
      reach := reach[names[i] := seen];
    }
  }

  lemma {:induction false} ProperStep(edges: seq<ModuleEdge>, i: nat)
    requires i < |edges|
    ensures var e, before, after := edges[i], Proper(edges[..i]), Proper(edges[..i + 1]);
            && (e.from == e.to ==> after == before)
            && (e.from != e.to ==> Nodes(after) == Nodes(before) + {e.from, e.to})
            && (e.from != e.to ==>
                forall a :: Imports(after, a) == Imports(before, a) + if e.from == a then [e.to] else [])
  {
    var e, before := edges[i], Proper(edges[..i]);
    assert edges[..i + 1][..i] == edges[..i];
    if e.from != e.to {
      assert Proper(edges[..i + 1]) == before + [e];
      assert (before + [e])[..|before|] == before;
      NodesSnoc(before, e);
    }
  }

  lemma NodesSnoc(edges: seq<ModuleEdge>, e: ModuleEdge)
    ensures Nodes(edges + [e]) == Nodes(edges) + {e.from, e.to}
  {
    forall x ensures x in Nodes(edges + [e]) <==> x in Nodes(edges) + {e.from, e.to} {
      assert forall f :: f in edges + [e] <==> f in edges || f == e;
      if x in Nodes(edges) {
        var f :| f in edges && (f.from == x || f.to == x);
        assert f in edges + [e];
      }
      assert e in edges + [e];
    }
  }

  /** The marking loop: a class is counted at its first name and marked whole. */
  method CountClasses(edges: seq<ModuleEdge>, names: seq<string>, reach: map<string, set<string>>) returns (cycles: nat)
    requires forall a :: a in names <==> a in Nodes(edges)
    requires forall a :: a in names ==> a in reach
    requires forall a :: a in reach ==> forall b :: b in reach[a] <==> Reaches(edges, a, b)
    ensures cycles == |Cycles(edges)|
  {
    var marked: set<string> := {};
    cycles := 0;
    ghost var counted: set<set<string>> := {};
    for i := 0 to |names|
      invariant cycles == |counted|
      invariant forall a :: a in marked ==> OnCycle(edges, a) && CycleOf(edges, a) in counted
      invariant forall a :: a in Nodes(edges) && OnCycle(edges, a) && CycleOf(edges, a) in counted ==> a in marked
      invariant forall c :: c in counted ==> c in Cycles(edges)
      invariant forall j :: 0 <= j < i && OnCycle(edges, names[j]) ==> CycleOf(edges, names[j]) in counted
    {
      var n := names[i];
      if n in marked || n !in reach[n] {
        continue;
      }
      ghost var before := marked;
      marked := MarkClass(names, reach, n, marked);
      forall a | a in Nodes(edges) && OnCycle(edges, a)
        ensures CycleOf(edges, a) == CycleOf(edges, n) <==> Mutual(edges, n, a)
      {
        if Mutual(edges, n, a) { SameCycle(edges, n, a); }
        assert a in CycleOf(edges, a);
      }
      forall a | a in marked ensures OnCycle(edges, a) && CycleOf(edges, a) in counted + {CycleOf(edges, n)} {
        if a !in before {
          assert Mutual(edges, n, a);
          ReachesTransitive(edges, a, n, a);
        }
      }
      assert CycleOf(edges, n) !in counted;
      counted := counted + {CycleOf(edges, n)};
      cycles := cycles + 1;
    }
    assert counted == Cycles(edges);
  }

  method MarkClass(names: seq<string>, reach: map<string, set<string>>, n: string, marked: set<string>)
    returns (r: set<string>)
    requires n in reach && forall a :: a in names ==> a in reach
    ensures forall a :: a in r <==> a in marked || (a in names && a in reach[n] && n in reach[a])
  {
    r := marked;
    for i := 0 to |names|
      invariant forall a :: a in r <==> a in marked || (a in names[..i] && a in reach[n] && n in reach[a])
    {
      var m := names[i];
      assert names[..i + 1] == names[..i] + [m];
      if m in reach[n] && n in reach[m] { r := r + {m}; }
    }
    assert names[..|names|] == names;
  }
}
