/**
  The import graph config init discovers, and the graph theory its starter rules
  rest on: walks, reachability by one or more imports, and cycles.
*/
module ModuleGraph {

  /** From imports To. */
  datatype ModuleEdge = ModuleEdge(from: string, to: string)

  function Nodes(edges: seq<ModuleEdge>): set<string> {
    (set e | e in edges :: e.from) + (set e | e in edges :: e.to)
  }

  /** A Go map of slices, read with its zero value for an absent key. */
  function ListOf(adj: map<string, seq<string>>, a: string): seq<string> {
    if a in adj then adj[a] else []
  }

  /** A chain of modules each of which imports the next. */
  ghost predicate Walk(edges: seq<ModuleEdge>, p: seq<string>) {
    |p| >= 1 && forall i :: 0 <= i < |p| - 1 ==> ModuleEdge(p[i], p[i + 1]) in edges
  }

  /** a reaches b by one or more imports. */
  ghost predicate Reaches(edges: seq<ModuleEdge>, a: string, b: string) {
    exists p :: Walk(edges, p) && |p| >= 2 && p[0] == a && p[|p| - 1] == b
  }

  /** a lies on a cycle, or imports its way to one. */
  ghost predicate ReachesCycle(edges: seq<ModuleEdge>, a: string) {
    exists c :: (c == a || Reaches(edges, a, c)) && Reaches(edges, c, c)
  }

  /** k imports is the length of the longest chain that starts at a. */
  ghost predicate LongestChain(edges: seq<ModuleEdge>, a: string, k: nat) {
    && (exists p :: Walk(edges, p) && p[0] == a && |p| == k + 1)
    && (forall p :: Walk(edges, p) && p[0] == a ==> |p| <= k + 1)
  }

  lemma EdgeReaches(edges: seq<ModuleEdge>, a: string, b: string)
    requires ModuleEdge(a, b) in edges
    ensures Reaches(edges, a, b)
  {
    assert Walk(edges, [a, b]);
  }

  lemma ReachesTransitive(edges: seq<ModuleEdge>, a: string, b: string, c: string)
    requires Reaches(edges, a, b) && Reaches(edges, b, c)
    ensures Reaches(edges, a, c)
  {
    var p :| Walk(edges, p) && |p| >= 2 && p[0] == a && p[|p| - 1] == b;
    var q :| Walk(edges, q) && |q| >= 2 && q[0] == b && q[|q| - 1] == c;
    JoinWalks(edges, p, q);
  }

  /** Walks that meet end to start join into one. */
  lemma JoinWalks(edges: seq<ModuleEdge>, p: seq<string>, q: seq<string>)
    requires Walk(edges, p) && Walk(edges, q) && p[|p| - 1] == q[0]
    ensures Walk(edges, p + q[1..])
  {
    var r := p + q[1..];
    forall i | 0 <= i < |r| - 1 ensures ModuleEdge(r[i], r[i + 1]) in edges {
      if i >= |p| - 1 {
        assert r[i] == q[i - (|p| - 1)] && r[i + 1] == q[i - (|p| - 1) + 1];
      }
    }
  }

  /** A set that holds what a imports and what its own members import holds all a reaches. */
  lemma ClosedSetHoldsReachable(edges: seq<ModuleEdge>, a: string, closed: set<string>)
    requires forall e :: e in edges && (e.from == a || e.from in closed) ==> e.to in closed
    ensures forall b :: Reaches(edges, a, b) ==> b in closed
  {
    forall b | Reaches(edges, a, b) ensures b in closed {
      var p :| Walk(edges, p) && |p| >= 2 && p[0] == a && p[|p| - 1] == b;
      WalkStaysClosed(edges, p, closed, |p| - 1);
    }
  }

  lemma {:induction false} WalkStaysClosed(edges: seq<ModuleEdge>, p: seq<string>, closed: set<string>, i: nat)
    requires Walk(edges, p) && 1 <= i < |p|
    requires forall e :: e in edges && (e.from == p[0] || e.from in closed) ==> e.to in closed
    ensures p[i] in closed
  {
    if i > 1 { WalkStaysClosed(edges, p, closed, i - 1); }
    assert ModuleEdge(p[i - 1], p[i]) in edges;
  }

  lemma ReachedIsNode(edges: seq<ModuleEdge>, a: string, b: string)
    requires Reaches(edges, a, b)
    ensures a in Nodes(edges) && b in Nodes(edges)
  {
    var p :| Walk(edges, p) && |p| >= 2 && p[0] == a && p[|p| - 1] == b;
    assert ModuleEdge(p[0], p[1]) in edges;
    assert ModuleEdge(p[|p| - 2], p[|p| - 2 + 1]) in edges;
  }

  /** Reachability only asks which edges there are. */
  lemma ReachesSubset(edges: seq<ModuleEdge>, more: seq<ModuleEdge>, a: string, b: string)
    requires Reaches(edges, a, b)
    requires forall e :: e in edges ==> e in more
    ensures Reaches(more, a, b)
  {
    var p :| Walk(edges, p) && |p| >= 2 && p[0] == a && p[|p| - 1] == b;
    assert Walk(more, p);
  }

  // ---- Long walks hold a cycle ----

  /** A walk that visits one module twice goes round a cycle. */
  lemma RepeatIsCycle(edges: seq<ModuleEdge>, p: seq<string>, i: nat, j: nat)
    requires Walk(edges, p) && i < j < |p| && p[i] == p[j]
    ensures ReachesCycle(edges, p[0])
  {
    assert Walk(edges, p[i..j + 1]);
    assert Reaches(edges, p[i], p[i]);
    if i > 0 {
      assert Walk(edges, p[..i + 1]);
      assert Reaches(edges, p[0], p[i]);
    }
  }

  /** A sequence longer than the set it draws from repeats. */
  lemma {:induction false} Pigeonhole(p: seq<string>, from: set<string>) returns (i: nat, j: nat)
    requires forall x :: x in p ==> x in from
    requires |p| > |from|
    ensures i < j < |p| && p[i] == p[j]
  {
    var last := |p| - 1;
    if k: nat :| k < last && p[k] == p[last] {
      i, j := k, last;
    } else {
      forall x | x in p[..last] ensures x in from - {p[last]} {
        var k :| 0 <= k < last && p[k] == x;
      }
      i, j := Pigeonhole(p[..last], from - {p[last]});
    }
  }

  ghost predicate ImportsInto(edges: seq<ModuleEdge>, a: string, stuck: set<string>) {
    exists e :: e in edges && e.from == a && e.to in stuck
  }

  /** Every module of the set imports another module of the set. */
  ghost predicate Stuck(edges: seq<ModuleEdge>, stuck: set<string>) {
    forall x :: x in stuck ==> ImportsInto(edges, x, stuck)
  }

  /** From a stuck set walks never end. */
  lemma {:induction false} EndlessWalk(edges: seq<ModuleEdge>, stuck: set<string>, a: string, n: nat)
    returns (p: seq<string>)
    requires a in stuck && Stuck(edges, stuck)
    ensures Walk(edges, p) && |p| == n + 1 && p[0] == a && forall x :: x in p ==> x in stuck
    decreases n
  {
    if n == 0 {
      p := [a];
    } else {
      assert ImportsInto(edges, a, stuck);
      var e :| e in edges && e.from == a && e.to in stuck;
      var q := EndlessWalk(edges, stuck, e.to, n - 1);
      p := [a] + q;
      assert e == ModuleEdge(p[0], p[1]);
    }
  }

  lemma StuckReachesCycle(edges: seq<ModuleEdge>, stuck: set<string>, a: string)
    requires a in stuck && Stuck(edges, stuck)
    ensures ReachesCycle(edges, a)
  {
    var p := EndlessWalk(edges, stuck, a, |stuck|);
    var i, j := Pigeonhole(p, stuck);
    RepeatIsCycle(edges, p, i, j);
  }

  // ---- Longest chains ----

  lemma LongestChainUnique(edges: seq<ModuleEdge>, a: string, j: nat, k: nat)
    requires LongestChain(edges, a, j) && LongestChain(edges, a, k)
    ensures j == k
  {
  }

  /** An import adds at least one to the longest chain. */
  lemma ImporterIsHigher(edges: seq<ModuleEdge>, a: string, b: string, j: nat, k: nat)
    requires ModuleEdge(a, b) in edges && LongestChain(edges, a, j) && LongestChain(edges, b, k)
    ensures j >= k + 1
  {
    var p :| Walk(edges, p) && p[0] == b && |p| == k + 1;
    assert Walk(edges, [a] + p);
  }

  /** The longest chain passes through a module of every lower height. */
  lemma ChainHasEveryHeight(edges: seq<ModuleEdge>, a: string, k: nat, j: nat) returns (b: string)
    requires LongestChain(edges, a, k) && j <= k
    ensures LongestChain(edges, b, j) && (b == a || Reaches(edges, a, b))
  {
    var p :| Walk(edges, p) && p[0] == a && |p| == k + 1;
    var i := k - j;
    b := p[i];
    assert Walk(edges, p[i..]) && p[i..][0] == b && |p[i..]| == j + 1;
    forall q | Walk(edges, q) && q[0] == b ensures |q| <= j + 1 {
      assert Walk(edges, p[..i + 1]);
      JoinWalks(edges, p[..i + 1], q);
      assert (p[..i + 1] + q[1..])[0] == a;
    }
    if i > 0 { assert Walk(edges, p[..i + 1]) && Reaches(edges, a, b); }
  }

  /** From a module that reaches a cycle there are walks of any length. */
  lemma {:induction false} PumpWalk(edges: seq<ModuleEdge>, a: string, c: string, n: nat) returns (p: seq<string>)
    requires (c == a || Reaches(edges, a, c)) && Reaches(edges, c, c)
    ensures Walk(edges, p) && p[0] == a && p[|p| - 1] == c && |p| >= n
    decreases n
  {
    if n == 0 {
      if c == a {
        p := [a];
      } else {
        p :| Walk(edges, p) && |p| >= 2 && p[0] == a && p[|p| - 1] == c;
      }
    } else {
      var q := PumpWalk(edges, a, c, n - 1);
      var round :| Walk(edges, round) && |round| >= 2 && round[0] == c && round[|round| - 1] == c;
      JoinWalks(edges, q, round);
      p := q + round[1..];
    }
  }

  /** Where chains have a longest one no cycle is in reach. */
  lemma BoundedMeansAcyclic(edges: seq<ModuleEdge>, a: string, k: nat)
    requires LongestChain(edges, a, k)
    ensures !ReachesCycle(edges, a)
  {
    if ReachesCycle(edges, a) {
      var c :| (c == a || Reaches(edges, a, c)) && Reaches(edges, c, c);
      var p := PumpWalk(edges, a, c, k + 2);
    }
  }

  ghost predicate SameEdges(edges: seq<ModuleEdge>, others: seq<ModuleEdge>) {
    forall e :: e in edges <==> e in others
  }

  lemma SameWalks(edges: seq<ModuleEdge>, others: seq<ModuleEdge>)
    requires SameEdges(edges, others)
    ensures forall p :: Walk(edges, p) <==> Walk(others, p)
  {
  }

  lemma SameChains(edges: seq<ModuleEdge>, others: seq<ModuleEdge>, a: string, k: nat)
    requires SameEdges(edges, others) && LongestChain(edges, a, k)
    ensures LongestChain(others, a, k)
  {
    SameWalks(edges, others);
    var p :| Walk(edges, p) && p[0] == a && |p| == k + 1;
    assert Walk(others, p);
  }
}
