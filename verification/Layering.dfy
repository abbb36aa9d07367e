/**
  topoLayerAssign (internal/initcfg/helpers.go): Kahn's algorithm on the reversed
  import graph. It gives each module the length of its longest import chain.
*/
module Layering {
  import opened Orders
  import opened ModuleGraph
  import opened Tiers

  /** The edges between listed modules; the others are skipped. */
  function Inner(names: seq<string>, edges: seq<ModuleEdge>): (r: seq<ModuleEdge>)
    ensures forall e :: e in r <==> e in edges && e.from in names && e.to in names
  {
    if |edges| == 0 then []
    else
      var last := |edges| - 1;
      assert edges == edges[..last] + [edges[last]];
      Inner(names, edges[..last]) + if edges[last].from in names && edges[last].to in names then [edges[last]] else []
  }

  /** Who imports b, once for each edge, in edge order. */
  function Importers(edges: seq<ModuleEdge>, b: string): (r: seq<string>)
    ensures forall a :: a in r <==> ModuleEdge(a, b) in edges
  {
    if |edges| == 0 then []
    else
      var last := |edges| - 1;
      assert edges == edges[..last] + [edges[last]];
      Importers(edges[..last], b) + if edges[last].to == b then [edges[last].from] else []
  }

  /** How many import edges of a still lead to a module outside done. */
  function Pending(edges: seq<ModuleEdge>, a: string, done: set<string>): nat {
    if |edges| == 0 then 0
    else
      var last := |edges| - 1;
      Pending(edges[..last], a, done) + if edges[last].from == a && edges[last].to !in done then 1 else 0
  }

  lemma {:induction false} PendingNone(edges: seq<ModuleEdge>, a: string, done: set<string>)
    ensures Pending(edges, a, done) == 0 <==> forall b :: ModuleEdge(a, b) in edges ==> b in done
  {
    if |edges| != 0 {
      var last := |edges| - 1;
      assert edges == edges[..last] + [edges[last]];
      PendingNone(edges[..last], a, done);
    }
  }

  lemma {:induction false} PendingDrops(edges: seq<ModuleEdge>, a: string, done: set<string>, cur: string)
    requires cur !in done
    ensures Pending(edges, a, done) == Pending(edges, a, done + {cur}) + multiset(Importers(edges, cur))[a]
  {
    if |edges| != 0 {
      PendingDrops(edges[..|edges| - 1], a, done, cur);
    }
  }

  // ---- The state of the algorithm ----

  /** A Go map of ints, read with its zero value for an absent key. */
  function Get(m: map<string, int>, a: string): int {
    if a in m then m[a] else 0
  }

  /** order lists the modules taken off the queue so far. */
  datatype State = State(order: seq<string>, queue: seq<string>, inDeg: map<string, int>, level: map<string, int>)

  /** The level of a is the least one above those of its imports in done. */
  ghost predicate Tight(edges: seq<ModuleEdge>, done: set<string>, level: map<string, int>, a: string) {
    && Witnessed(edges, done, level, a)
    && forall b :: b in done && ModuleEdge(a, b) in edges ==> Get(level, a) >= Get(level, b) + 1
  }

  ghost predicate Witnessed(edges: seq<ModuleEdge>, done: set<string>, level: map<string, int>, a: string) {
    Get(level, a) == 0 || exists b :: b in done && ModuleEdge(a, b) in edges && Get(level, a) == Get(level, b) + 1
  }

  /** Every module comes after all it imports. */
  ghost predicate Topological(edges: seq<ModuleEdge>, order: seq<string>) {
    forall i, b :: 0 <= i < |order| && ModuleEdge(order[i], b) in edges ==> b in order[..i]
  }

  /** No module is listed twice, in the order, as the one in hand, or in the queue. */
  ghost predicate Distinct(order: seq<string>, queue: seq<string>) {
    NoDup(order) && NoDup(queue) && forall a :: a in order ==> a !in queue
  }

  ghost predicate DegreesArePending(edges: seq<ModuleEdge>, names: seq<string>, st: State) {
    forall a :: a in names ==> Get(st.inDeg, a) == Pending(edges, a, SetOf(st.order))
  }

  ghost predicate ListedAreFree(names: seq<string>, st: State) {
    forall a :: a in st.order || a in st.queue <==> a in names && Get(st.inDeg, a) == 0
  }

  ghost predicate LevelsAreTight(edges: seq<ModuleEdge>, names: seq<string>, st: State) {
    forall a :: a in names ==> Tight(edges, SetOf(st.order), st.level, a)
  }

  ghost predicate Invariant(edges: seq<ModuleEdge>, names: seq<string>, st: State) {
    && Distinct(st.order, st.queue)
    && DegreesArePending(edges, names, st)
    && ListedAreFree(names, st)
    && Topological(edges, st.order)
    && LevelsAreTight(edges, names, st)
  }

  // ---- Relaxing the importers of the module taken off the queue ----

  /** st.order already ends in cur; the importers before index i have been relaxed. */
  ghost predicate Relaxing(edges: seq<ModuleEdge>, names: seq<string>, cur: string, i: nat, st: State)
    requires i <= |Importers(edges, cur)|
  {
    && |st.order| > 0 && st.order[|st.order| - 1] == cur
    && Distinct(st.order, st.queue)
    && DegreesRelaxed(edges, names, cur, i, st)
    && ListedAreFree(names, st)
    && Topological(edges, st.order)
    && LevelsRelaxed(edges, names, cur, i, st)
  }

  ghost predicate DegreesRelaxed(edges: seq<ModuleEdge>, names: seq<string>, cur: string, i: nat, st: State)
    requires i <= |Importers(edges, cur)|
  {
    forall a :: a in names ==>
      Get(st.inDeg, a) == Pending(edges, a, SetOf(st.order)) + multiset(Importers(edges, cur)[i..])[a]
  }

  ghost predicate LevelRelaxed(edges: seq<ModuleEdge>, cur: string, i: nat, st: State, a: string)
    requires i <= |Importers(edges, cur)|
  {
    && Witnessed(edges, SetOf(st.order), st.level, a)
    && (forall b :: b in SetOf(st.order) && b != cur && ModuleEdge(a, b) in edges ==>
          Get(st.level, a) >= Get(st.level, b) + 1)
    && (a in Importers(edges, cur)[..i] ==> Get(st.level, a) >= Get(st.level, cur) + 1)
  }

  ghost predicate LevelsRelaxed(edges: seq<ModuleEdge>, names: seq<string>, cur: string, i: nat, st: State)
    requires i <= |Importers(edges, cur)|
  {
    forall a :: a in names ==> LevelRelaxed(edges, cur, i, st, a)
  }

  /** The queue as Go leaves it: appended to, then sorted. */
  function Enqueue(queue: seq<string>, a: string): seq<string> {
    SortBy(queue + [a], StrLe)
  }

  function RaiseAbove(level: map<string, int>, next: string, cur: string): map<string, int> {
    if Get(level, next) < Get(level, cur) + 1 then level[next := Get(level, cur) + 1] else level
  }

  function Add(m: map<string, int>, a: string, n: int): map<string, int> {
    m[a := Get(m, a) + n]
  }

  function Relax(st: State, cur: string, next: string): State {
    var inDeg := Add(st.inDeg, next, -1);
    State(st.order, if Get(inDeg, next) == 0 then Enqueue(st.queue, next) else st.queue,
          inDeg, RaiseAbove(st.level, next, cur))
  }

  function TakeFirst(st: State): State
    requires |st.queue| > 0
  {
    st.(order := st.order + [st.queue[0]], queue := st.queue[1..])
  }

  lemma NextIsPending(edges: seq<ModuleEdge>, names: seq<string>, cur: string, i: nat, st: State)
    requires i < |Importers(edges, cur)| && Relaxing(edges, names, cur, i, st)
    requires forall e :: e in edges ==> e.from in names && e.to in names
    ensures var next := Importers(edges, cur)[i];
            next in names && Get(st.inDeg, next) >= 1 && next !in st.order && next !in st.queue
  {
    var next := Importers(edges, cur)[i];
    assert ModuleEdge(next, cur) in edges;
    assert next in Importers(edges, cur)[i..];
  }

  lemma RelaxDegrees(edges: seq<ModuleEdge>, names: seq<string>, cur: string, i: nat, st: State)
    requires i < |Importers(edges, cur)| && DegreesRelaxed(edges, names, cur, i, st)
    ensures DegreesRelaxed(edges, names, cur, i + 1, Relax(st, cur, Importers(edges, cur)[i]))
  {
    var importers := Importers(edges, cur);
    assert importers[i..] == [importers[i]] + importers[i + 1..];
  }

  lemma EnqueueMembers(queue: seq<string>, a: string)
    ensures forall b :: b in Enqueue(queue, a) <==> b in queue || b == a
    ensures NoDup(queue) && a !in queue ==> NoDup(Enqueue(queue, a))
  {
    SortByMembers(queue + [a], StrLe);
    if NoDup(queue) && a !in queue { NoDupPermutation(queue + [a], Enqueue(queue, a)); }
  }

  lemma {:induction false} RelaxLists(edges: seq<ModuleEdge>, names: seq<string>, cur: string, i: nat, st: State)
    requires i < |Importers(edges, cur)| && Relaxing(edges, names, cur, i, st)
    requires forall e :: e in edges ==> e.from in names && e.to in names
    ensures var after := Relax(st, cur, Importers(edges, cur)[i]);
            Distinct(after.order, after.queue) && ListedAreFree(names, after)
  {
    NextIsPending(edges, names, cur, i, st);
    EnqueueMembers(st.queue, Importers(edges, cur)[i]);
  }

  /** Relaxing next leaves the level of every finished module and of the one in hand alone. */
  lemma RelaxLevel(edges: seq<ModuleEdge>, cur: string, i: nat, st: State, a: string)
    requires i < |Importers(edges, cur)| && LevelRelaxed(edges, cur, i, st, a)
    requires Importers(edges, cur)[i] !in SetOf(st.order) && cur in SetOf(st.order)
    ensures LevelRelaxed(edges, cur, i + 1, Relax(st, cur, Importers(edges, cur)[i]), a)
  {
    hide Importers, Enqueue;
    var importers := Importers(edges, cur);
    var next := importers[i];
    var after := Relax(st, cur, next);
    assert ModuleEdge(next, cur) in edges;
    assert importers[..i + 1] == importers[..i] + [next];
    assert forall b :: b in SetOf(st.order) ==> Get(after.level, b) == Get(st.level, b);
    if Get(after.level, a) != Get(st.level, a) {
      assert a == next && Get(after.level, a) == Get(after.level, cur) + 1;
    } else {
      WitnessStays(edges, SetOf(st.order), st.level, after.level, a);
    }
  }

  lemma WitnessStays(edges: seq<ModuleEdge>, done: set<string>, level: map<string, int>, after: map<string, int>,
                     a: string)
    requires Witnessed(edges, done, level, a) && Get(after, a) == Get(level, a)
    requires forall b :: b in done ==> Get(after, b) == Get(level, b)
    ensures Witnessed(edges, done, after, a)
  {
  }

  lemma {:induction false} RelaxKeepsRelaxing(edges: seq<ModuleEdge>, names: seq<string>, cur: string, i: nat,
                                              st: State)
    requires i < |Importers(edges, cur)| && Relaxing(edges, names, cur, i, st)
    requires forall e :: e in edges ==> e.from in names && e.to in names
    ensures Relaxing(edges, names, cur, i + 1, Relax(st, cur, Importers(edges, cur)[i]))
  {
    hide Importers, Enqueue, DegreesRelaxed, ListedAreFree, Topological, LevelRelaxed;
    NextIsPending(edges, names, cur, i, st);
    RelaxDegrees(edges, names, cur, i, st);
    RelaxLists(edges, names, cur, i, st);
    assert st.order[|st.order| - 1] == cur;
    assert cur in SetOf(st.order);
    forall a | a in names ensures LevelRelaxed(edges, cur, i + 1, Relax(st, cur, Importers(edges, cur)[i]), a) {
      RelaxLevel(edges, cur, i, st, a);
    }
  }

  // ---- Taking a module off the queue ----

  lemma TakenIsDone(order: seq<string>, cur: string)
    ensures SetOf(order + [cur]) == SetOf(order) + {cur}
  {
  }

  lemma TakenKeepsTopological(edges: seq<ModuleEdge>, order: seq<string>, cur: string)
    requires Topological(edges, order) && Pending(edges, cur, SetOf(order)) == 0
    ensures Topological(edges, order + [cur])
  {
    PendingNone(edges, cur, SetOf(order));
    var after := order + [cur];
    assert after[..|order|] == order;
    forall i, b | 0 <= i < |after| && ModuleEdge(after[i], b) in edges ensures b in after[..i] {
      if i < |order| { assert after[..i] == order[..i]; }
    }
  }

  lemma TakenStartsDegrees(edges: seq<ModuleEdge>, names: seq<string>, st: State)
    requires DegreesArePending(edges, names, st) && |st.queue| > 0 && st.queue[0] !in st.order
    ensures DegreesRelaxed(edges, names, st.queue[0], 0, TakeFirst(st))
  {
    var cur := st.queue[0];
    TakenIsDone(st.order, cur);
    assert Importers(edges, cur)[0..] == Importers(edges, cur);
    forall a | a in names { PendingDrops(edges, a, SetOf(st.order), cur); }
  }

  lemma TakenStartsLevels(edges: seq<ModuleEdge>, names: seq<string>, st: State)
    requires LevelsAreTight(edges, names, st) && |st.queue| > 0
    ensures LevelsRelaxed(edges, names, st.queue[0], 0, TakeFirst(st))
  {
    TakenIsDone(st.order, st.queue[0]);
    forall a | a in names ensures LevelRelaxed(edges, st.queue[0], 0, TakeFirst(st), a) {
      assert Tight(edges, SetOf(st.order), st.level, a);
    }
  }

  lemma {:induction false} TakeFirstStartsRelaxing(edges: seq<ModuleEdge>, names: seq<string>, st: State)
    requires Invariant(edges, names, st) && |st.queue| > 0
    ensures Relaxing(edges, names, st.queue[0], 0, TakeFirst(st))
    ensures st.queue[0] in names && st.queue[0] !in st.order
  {
    var cur := st.queue[0];
    assert st.queue == [cur] + st.queue[1..];
    TakenStartsDegrees(edges, names, st);
    TakenStartsLevels(edges, names, st);
    TakenKeepsTopological(edges, st.order, cur);
  }

  lemma DoneRelaxing(edges: seq<ModuleEdge>, names: seq<string>, cur: string, st: State)
    requires Relaxing(edges, names, cur, |Importers(edges, cur)|, st)
    ensures Invariant(edges, names, st)
  {
    var importers := Importers(edges, cur);
    assert importers[|importers|..] == [] && importers[..|importers|] == importers;
    forall a | a in names ensures Tight(edges, SetOf(st.order), st.level, a) {
      assert LevelRelaxed(edges, cur, |importers|, st, a);
    }
    forall a | a in names ensures Get(st.inDeg, a) == Pending(edges, a, SetOf(st.order)) {
      assert multiset(importers[|importers|..])[a] == 0;
    }
  }

  // ---- When the queue runs dry ----

  /** The level of a is the length of its longest import chain. */
  ghost predicate Settled(edges: seq<ModuleEdge>, level: map<string, int>, a: string) {
    Get(level, a) >= 0 && LongestChain(edges, a, Get(level, a))
  }

  lemma SettledAboveSettled(edges: seq<ModuleEdge>, done: set<string>, level: map<string, int>, a: string)
    requires Tight(edges, done, level, a)
    requires forall b :: ModuleEdge(a, b) in edges ==> b in done && Settled(edges, level, b)
    ensures Settled(edges, level, a)
  {
    var k := Get(level, a);
    if k == 0 {
      assert Walk(edges, [a]);
    } else {
      var b :| b in done && ModuleEdge(a, b) in edges && k == Get(level, b) + 1;
      assert Settled(edges, level, b);
      var p :| Walk(edges, p) && p[0] == b && |p| == k;
      assert Walk(edges, [a] + p);
    }
    forall p | Walk(edges, p) && p[0] == a ensures |p| <= k + 1 {
      if |p| > 1 {
        assert ModuleEdge(a, p[1]) in edges;
        assert Settled(edges, level, p[1]);
        assert Walk(edges, p[1..]);
      }
    }
  }

  lemma {:induction false} FinishedLevel(edges: seq<ModuleEdge>, names: seq<string>, st: State, i: nat)
    requires Invariant(edges, names, st) && i < |st.order|
    ensures Settled(edges, st.level, st.order[i])
    decreases i
  {
    var a := st.order[i];
    forall b | ModuleEdge(a, b) in edges
      ensures b in SetOf(st.order) && Settled(edges, st.level, b)
    {
      assert b in st.order[..i];
      var j :| 0 <= j < i && st.order[j] == b;
      FinishedLevel(edges, names, st, j);
    }
    assert a in names;
    SettledAboveSettled(edges, SetOf(st.order), st.level, a);
  }

  /** A module never taken off the queue imports its way to a cycle. */
  lemma UnfinishedReachesCycle(edges: seq<ModuleEdge>, names: seq<string>, st: State, a: string)
    requires Invariant(edges, names, st) && st.queue == []
    requires forall e :: e in edges ==> e.from in names && e.to in names
    requires a in names && a !in st.order
    ensures ReachesCycle(edges, a)
  {
    var stuck := set x | x in names && x !in st.order;
    forall x | x in stuck ensures ImportsInto(edges, x, stuck) {
      PendingNone(edges, x, SetOf(st.order));
      assert Get(st.inDeg, x) == Pending(edges, x, SetOf(st.order));
      var b :| ModuleEdge(x, b) in edges && b !in SetOf(st.order);
      var e := ModuleEdge(x, b);
      assert e in edges && e.from == x && e.to in stuck;
    }
    StuckReachesCycle(edges, stuck, a);
  }

  // ---- The tiers ----

  /** One above the highest import whose own chains are bounded; 0 when there is none. */
  ghost predicate AboveSettled(edges: seq<ModuleEdge>, a: string, k: nat) {
    && (k == 0 || exists b :: ModuleEdge(a, b) in edges && LongestChain(edges, b, k - 1))
    && (forall b, j: nat :: ModuleEdge(a, b) in edges && LongestChain(edges, b, j) ==> j + 1 <= k)
  }

  /** The tier of a: its longest import chain, or what is left of it when a cycle is in reach. */
  ghost predicate IsTier(edges: seq<ModuleEdge>, a: string, k: nat) {
    if ReachesCycle(edges, a) then AboveSettled(edges, a, k) else LongestChain(edges, a, k)
  }

  ghost predicate TierOf(edges: seq<ModuleEdge>, a: string, tier: string) {
    exists k: nat :: IsTier(edges, a, k) && tier == TierName(k)
  }

  /** Each listed module mapped to the name of its tier. */
  ghost predicate IsTiering(names: seq<string>, edges: seq<ModuleEdge>, tiers: map<string, string>) {
    && (forall a :: a in tiers <==> a in names)
    && (forall a :: a in names ==> TierOf(Inner(names, edges), a, tiers[a]))
  }

  lemma {:induction false} FinishedAreSettled(edges: seq<ModuleEdge>, names: seq<string>, st: State)
    requires Invariant(edges, names, st)
    ensures forall b :: b in st.order ==> Settled(edges, st.level, b)
  {
    forall b | b in st.order ensures Settled(edges, st.level, b) {
      var i :| 0 <= i < |st.order| && st.order[i] == b;
      FinishedLevel(edges, names, st, i);
    }
  }

  lemma UnfinishedIsAboveSettled(edges: seq<ModuleEdge>, order: seq<string>, level: map<string, int>, a: string)
    requires Tight(edges, SetOf(order), level, a)
    requires forall b :: b in order ==> Settled(edges, level, b)
    requires forall b :: ModuleEdge(a, b) in edges && b !in order ==> ReachesCycle(edges, b)
    ensures Get(level, a) >= 0 && AboveSettled(edges, a, Get(level, a))
  {
    var k := Get(level, a);
    if k != 0 {
      var b :| b in SetOf(order) && ModuleEdge(a, b) in edges && k == Get(level, b) + 1;
      assert Settled(edges, level, b);
    }
    forall b, j: nat | ModuleEdge(a, b) in edges && LongestChain(edges, b, j) ensures j + 1 <= k {
      BoundedMeansAcyclic(edges, b, j);
      assert Settled(edges, level, b);
      LongestChainUnique(edges, b, j, Get(level, b));
    }
  }

  lemma {:induction false} FinishedTier(edges: seq<ModuleEdge>, names: seq<string>, st: State, a: string)
    requires Invariant(edges, names, st) && st.queue == []
    requires forall e :: e in edges ==> e.from in names && e.to in names
    requires a in names
    ensures Get(st.level, a) >= 0 && IsTier(edges, a, Get(st.level, a))
    ensures a in st.order <==> !ReachesCycle(edges, a)
  {
    FinishedAreSettled(edges, names, st);
    if a in st.order {
      BoundedMeansAcyclic(edges, a, Get(st.level, a));
    } else {
      UnfinishedReachesCycle(edges, names, st, a);
      forall b | ModuleEdge(a, b) in edges && b !in st.order ensures ReachesCycle(edges, b) {
        UnfinishedReachesCycle(edges, names, st, b);
      }
      UnfinishedIsAboveSettled(edges, st.order, st.level, a);
    }
  }

  /** Names repeat in no caller: buildRustModules passes the sorted keys of a map. order is
      what came off the queue: each module at most once, and just those with no cycle in reach. */
  method TopoLayerAssign(names: seq<string>, edges: seq<ModuleEdge>)
    returns (result: map<string, string>, ghost order: seq<string>)
    requires NoDup(names)
    ensures edges == [] ==> result == map[]
    ensures edges != [] ==> IsTiering(names, edges, result)
    ensures edges != [] ==> NoDup(order)
    ensures edges != [] ==> forall a :: a in order <==> a in names && !ReachesCycle(Inner(names, edges), a)
  {
    order := [];
    if |edges| == 0 {
      return map[], [];
    }
    ghost var inner := Inner(names, edges);
    var inDeg, adj := CountImports(names, edges);
    var queue := Leaves(names, inDeg);
    StartsInvariant(inner, names, queue, inDeg);
    var level;
    level, order := Drain(inner, names, adj, queue, inDeg);
    result := NameTiers(inner, names, level);
  }

  /** The worklist loop. */
  method Drain(ghost edges: seq<ModuleEdge>, ghost names: seq<string>, adj: map<string, seq<string>>,
               queue0: seq<string>, inDeg0: map<string, int>)
    returns (level: map<string, int>, ghost order: seq<string>)
    requires forall e :: e in edges ==> e.from in names && e.to in names
    requires forall b :: ListOf(adj, b) == Importers(edges, b)
    requires Invariant(edges, names, State([], queue0, inDeg0, map[]))
    ensures NoDup(order) && forall a :: a in order <==> a in names && !ReachesCycle(edges, a)
    ensures forall a :: a in names ==> Get(level, a) >= 0 && IsTier(edges, a, Get(level, a))
  {
    var queue, inDeg := queue0, inDeg0;
    order, level := [], map[];
    ghost var all := SetOf(names);
    while |queue| > 0
      invariant Invariant(edges, names, State(order, queue, inDeg, level))
      decreases |all - SetOf(order)|
    {
      TakeFirstStartsRelaxing(edges, names, State(order, queue, inDeg, level));
      var cur := queue[0];
      ghost var before := order;
      queue, order := queue[1..], order + [cur];
      DoneGrows(names, before, cur);
      queue, inDeg, level := RelaxImporters(edges, names, adj, cur, order, queue, inDeg, level);
    }
    ghost var st := State(order, queue, inDeg, level);
    forall a | a in names
      ensures Get(level, a) >= 0 && IsTier(edges, a, Get(level, a)) && (a in order <==> !ReachesCycle(edges, a))
    {
      FinishedTier(edges, names, st, a);
    }
  }

  lemma DoneGrows(names: seq<string>, order: seq<string>, cur: string)
    requires cur in names && cur !in order
    ensures |SetOf(names) - SetOf(order + [cur])| < |SetOf(names) - SetOf(order)|
  {
    assert SetOf(names) - SetOf(order + [cur]) == (SetOf(names) - SetOf(order)) - {cur};
  }

  method NameTiers(ghost edges: seq<ModuleEdge>, names: seq<string>, level: map<string, int>)
    returns (result: map<string, string>)
    requires forall a :: a in names ==> Get(level, a) >= 0 && IsTier(edges, a, Get(level, a))
    ensures forall a :: a in result <==> a in names
    ensures forall a :: a in names ==> TierOf(edges, a, result[a])
  {
    result := map[];
    for i := 0 to |names|
      invariant forall a :: a in result <==> a in names[..i]
      invariant forall a :: a in result ==> TierOf(edges, a, result[a])
    {
      assert names[..i + 1] == names[..i] + [names[i]];
      assert TierOf(edges, names[i], TierName(Get(level, names[i])));
      result := result[names[i] := TierName(Get(level, names[i]))];
    }
    assert names[..|names|] == names;
  }

  /** The first queue: the modules that import nothing, sorted. */
  method Leaves(names: seq<string>, inDeg: map<string, int>) returns (queue: seq<string>)
    requires NoDup(names) && forall a :: a in names ==> a in inDeg
    ensures NoDup(queue) && forall a :: a in queue <==> a in names && Get(inDeg, a) == 0
  {
    queue := [];
    for i := 0 to |names|
      invariant NoDup(queue) && forall a :: a in queue <==> a in names[..i] && Get(inDeg, a) == 0
    {
      assert names[..i + 1] == names[..i] + [names[i]];
      assert names[i] !in names[..i];
      assert names[i] !in queue;
      if inDeg[names[i]] == 0 {
        queue := queue + [names[i]];
      }
    }
    assert names[..|names|] == names;
    NoDupPermutation(queue, SortBy(queue, StrLe));
    SortByMembers(queue, StrLe);
    queue := SortBy(queue, StrLe);
  }

  lemma StartsInvariant(edges: seq<ModuleEdge>, names: seq<string>, queue: seq<string>, inDeg: map<string, int>)
    requires NoDup(queue) && forall a :: a in queue <==> a in names && Get(inDeg, a) == 0
    requires forall a :: Get(inDeg, a) == Pending(edges, a, {})
    ensures Invariant(edges, names, State([], queue, inDeg, map[]))
  {
    assert SetOf<string>([]) == {};
    forall a ensures Tight(edges, {}, map[], a) {}
  }

  /** The inner loop: every importer of cur is raised above it and loses one pending import. */
  method RelaxImporters(ghost edges: seq<ModuleEdge>, ghost names: seq<string>, adj: map<string, seq<string>>,
                        cur: string, ghost order: seq<string>, queue0: seq<string>, inDeg0: map<string, int>,
                        level0: map<string, int>)
    returns (queue: seq<string>, inDeg: map<string, int>, level: map<string, int>)
    requires forall e :: e in edges ==> e.from in names && e.to in names
    requires ListOf(adj, cur) == Importers(edges, cur)
    requires Relaxing(edges, names, cur, 0, State(order, queue0, inDeg0, level0))
    ensures Invariant(edges, names, State(order, queue, inDeg, level))
  {
    queue, inDeg, level := queue0, inDeg0, level0;
    var importers := ListOf(adj, cur);
    for i := 0 to |importers|
      invariant Relaxing(edges, names, cur, i, State(order, queue, inDeg, level))
    {
      var next := importers[i];
      ghost var st := State(order, queue, inDeg, level);
      RelaxKeepsRelaxing(edges, names, cur, i, st);
      level := RaiseAbove(level, next, cur);
      inDeg := Add(inDeg, next, -1);
      if Get(inDeg, next) == 0 {
        queue := Enqueue(queue, next);
      }
      assert State(order, queue, inDeg, level) == Relax(st, cur, next);
    }
    DoneRelaxing(edges, names, cur, State(order, queue, inDeg, level));
  }

  /** The counting loop: pending imports of each module, and who imports it. */
  method CountImports(names: seq<string>, edges: seq<ModuleEdge>)
    returns (inDeg: map<string, int>, adj: map<string, seq<string>>)
    ensures forall a :: a in names ==> a in inDeg
    ensures Counted(Inner(names, edges), inDeg, adj)
  {
    inDeg := ZeroDegrees(names);
    adj := map[];
    for i := 0 to |edges|
      invariant forall a :: a in names ==> a in inDeg
      invariant Counted(Inner(names, edges[..i]), inDeg, adj)
    {
      var e := edges[i];
      InnerStep(names, edges, i);
      if e.from !in names || e.to !in names {
        continue;
      }
      CountedStep(Inner(names, edges[..i]), inDeg, adj, e);
      adj := Append(adj, e.to, e.from);
      inDeg := Add(inDeg, e.from, 1);
    }
    assert edges[..|edges|] == edges;
  }

  method ZeroDegrees(names: seq<string>) returns (inDeg: map<string, int>)
    ensures forall a :: a in inDeg <==> a in names
    ensures forall a :: Get(inDeg, a) == 0
  {
    inDeg := map[];
    for i := 0 to |names|
      invariant forall a :: a in inDeg <==> a in names[..i]
      invariant forall a :: a in inDeg ==> inDeg[a] == 0
    {
      assert names[..i + 1] == names[..i] + [names[i]];
      inDeg := inDeg[names[i] := 0];
    }
    assert names[..|names|] == names;
  }

  function Append(adj: map<string, seq<string>>, to: string, from: string): map<string, seq<string>> {
    adj[to := ListOf(adj, to) + [from]]
  }

  ghost predicate Counted(edges: seq<ModuleEdge>, inDeg: map<string, int>, adj: map<string, seq<string>>) {
    && (forall a :: Get(inDeg, a) == Pending(edges, a, {}))
    && (forall b :: ListOf(adj, b) == Importers(edges, b))
  }

  lemma CountedStep(edges: seq<ModuleEdge>, inDeg: map<string, int>, adj: map<string, seq<string>>, e: ModuleEdge)
    requires Counted(edges, inDeg, adj)
    ensures Counted(edges + [e], Add(inDeg, e.from, 1), Append(adj, e.to, e.from))
  {
    assert (edges + [e])[..|edges|] == edges;
    forall a ensures Get(Add(inDeg, e.from, 1), a) == Pending(edges + [e], a, {}) {}
    forall b ensures ListOf(Append(adj, e.to, e.from), b) == Importers(edges + [e], b) {}
  }

  lemma {:induction false} InnerStep(names: seq<string>, edges: seq<ModuleEdge>, i: nat)
    requires i < |edges|
    ensures var before := Inner(names, edges[..i]);
            Inner(names, edges[..i + 1]) ==
              if edges[i].from in names && edges[i].to in names then before + [edges[i]] else before
  {
    assert edges[..i + 1][..i] == edges[..i];
    var before := Inner(names, edges[..i]);
    assert before + [] == before;
  }

  // ---- What the tiers depend on ----

  lemma TierUnique(edges: seq<ModuleEdge>, a: string, j: nat, k: nat)
    requires IsTier(edges, a, j) && IsTier(edges, a, k)
    ensures j == k
  {
  }

  lemma SameTier(edges: seq<ModuleEdge>, others: seq<ModuleEdge>, a: string, k: nat)
    requires SameEdges(edges, others) && IsTier(edges, a, k)
    ensures IsTier(others, a, k)
  {
    forall b, c | Reaches(edges, b, c) ensures Reaches(others, b, c) { ReachesSubset(edges, others, b, c); }
    forall b, c | Reaches(others, b, c) ensures Reaches(edges, b, c) { ReachesSubset(others, edges, b, c); }
    assert ReachesCycle(edges, a) <==> ReachesCycle(others, a);
    forall b, j: nat ensures LongestChain(edges, b, j) <==> LongestChain(others, b, j) {
      if LongestChain(edges, b, j) { SameChains(edges, others, b, j); }
      if LongestChain(others, b, j) { SameChains(others, edges, b, j); }
    }
  }

  /** The tiers do not depend on the order or repetition of names and edges. */
  lemma {:induction false} TieringIgnoresOrder(names: seq<string>, edges: seq<ModuleEdge>, tiers: map<string, string>,
                                               names2: seq<string>, edges2: seq<ModuleEdge>,
                                               tiers2: map<string, string>)
    requires IsTiering(names, edges, tiers) && IsTiering(names2, edges2, tiers2)
    requires SameEdges(edges, edges2) && forall a :: a in names <==> a in names2
    ensures tiers == tiers2
  {
    var inner, inner2 := Inner(names, edges), Inner(names2, edges2);
    forall a | a in tiers ensures tiers[a] == tiers2[a] {
      assert TierOf(inner, a, tiers[a]) && TierOf(inner2, a, tiers2[a]);
      var j: nat :| IsTier(inner, a, j) && tiers[a] == TierName(j);
      var k: nat :| IsTier(inner2, a, k) && tiers2[a] == TierName(k);
      SameTier(inner, inner2, a, j);
      TierUnique(inner2, a, j, k);
    }
  }

  // ---- Any queue discipline ----

  /** Relaxing the importers of cur from the i-th on. */
  function RelaxAll(importers: seq<string>, i: nat, cur: string, st: State): State
    requires i <= |importers|
    decreases |importers| - i
  {
    if i == |importers| then st else RelaxAll(importers, i + 1, cur, Relax(st, cur, importers[i]))
  }

  /** The same state with its queue in any other order. */
  ghost predicate Rearranged(st: State, other: State) {
    other == st.(queue := other.queue) && multiset(other.queue) == multiset(st.queue)
  }

  /** One turn of the worklist under any discipline: some queued module is taken and its importers are
      relaxed. */
  ghost predicate Turn(edges: seq<ModuleEdge>, st: State, after: State) {
    exists from :: Rearranged(st, from) && TurnFrom(edges, from, after)
  }

  ghost predicate TurnFrom(edges: seq<ModuleEdge>, from: State, after: State) {
    |from.queue| > 0 && after == RelaxAll(Importers(edges, from.queue[0]), 0, from.queue[0], TakeFirst(from))
  }

  ghost predicate Turns(edges: seq<ModuleEdge>, turns: seq<State>) {
    |turns| > 0 && forall i :: 0 <= i < |turns| - 1 ==> Turn(edges, turns[i], turns[i + 1])
  }

  lemma RearrangedKeepsInvariant(edges: seq<ModuleEdge>, names: seq<string>, st: State, other: State)
    requires Invariant(edges, names, st) && Rearranged(st, other)
    ensures Invariant(edges, names, other)
  {
    NoDupPermutation(st.queue, other.queue);
    forall a ensures a in other.queue <==> a in st.queue {
      assert a in multiset(other.queue) <==> a in multiset(st.queue);
    }
  }

  lemma {:induction false} RelaxAllKeeps(edges: seq<ModuleEdge>, names: seq<string>, cur: string, i: nat, st: State)
    requires i <= |Importers(edges, cur)| && Relaxing(edges, names, cur, i, st)
    requires forall e :: e in edges ==> e.from in names && e.to in names
    ensures Invariant(edges, names, RelaxAll(Importers(edges, cur), i, cur, st))
    ensures RelaxAll(Importers(edges, cur), i, cur, st).order == st.order
    decreases |Importers(edges, cur)| - i
  {
    hide Importers, Relaxing, Invariant;
    var importers := Importers(edges, cur);
    if i == |importers| {
      DoneRelaxing(edges, names, cur, st);
    } else {
      RelaxKeepsRelaxing(edges, names, cur, i, st);
      RelaxAllKeeps(edges, names, cur, i + 1, Relax(st, cur, importers[i]));
    }
  }

  lemma {:induction false} TurnKeepsInvariant(edges: seq<ModuleEdge>, names: seq<string>, st: State, after: State)
    requires Invariant(edges, names, st) && Turn(edges, st, after)
    requires forall e :: e in edges ==> e.from in names && e.to in names
    ensures Invariant(edges, names, after) && |after.order| == |st.order| + 1
  {
    hide Invariant, Importers;
    var from :| Rearranged(st, from) && TurnFrom(edges, from, after);
    RearrangedKeepsInvariant(edges, names, st, from);
    TakeFirstStartsRelaxing(edges, names, from);
    RelaxAllKeeps(edges, names, from.queue[0], 0, TakeFirst(from));
  }

  lemma {:induction false} TurnsKeepInvariant(edges: seq<ModuleEdge>, names: seq<string>, turns: seq<State>, n: nat)
    requires Turns(edges, turns) && n < |turns| && Invariant(edges, names, turns[0])
    requires forall e :: e in edges ==> e.from in names && e.to in names
    ensures Invariant(edges, names, turns[n]) && |turns[n].order| == |turns[0].order| + n
  {
    hide Invariant;
    if n > 0 {
      TurnsKeepInvariant(edges, names, turns, n - 1);
      assert Turn(edges, turns[n - 1], turns[n - 1 + 1]);
      TurnKeepsInvariant(edges, names, turns[n - 1], turns[n]);
    }
  }

  /** Whatever order queued modules are taken in, there are no more turns than modules, and when the
      queue is empty each module is in its tier and those with no cycle in reach were taken. */
  lemma {:induction false} AnyQueueDiscipline(edges: seq<ModuleEdge>, names: seq<string>, turns: seq<State>)
    requires Turns(edges, turns) && Invariant(edges, names, turns[0])
    requires forall e :: e in edges ==> e.from in names && e.to in names
    ensures |turns| - 1 <= |SetOf(names)|
    ensures var end := turns[|turns| - 1];
            end.queue == [] ==> forall a :: a in names ==>
              Get(end.level, a) >= 0 && IsTier(edges, a, Get(end.level, a))
                && (a in end.order <==> !ReachesCycle(edges, a))
  {
    var end := turns[|turns| - 1];
    TurnsKeepInvariant(edges, names, turns, |turns| - 1);
    NoDupAtMost(end.order, SetOf(names));
    if end.queue == [] {
      forall a | a in names
        ensures Get(end.level, a) >= 0 && IsTier(edges, a, Get(end.level, a))
        ensures (a in end.order <==> !ReachesCycle(edges, a))
      {
        FinishedTier(edges, names, end, a);
      }
    }
  }

  /** The levels do not depend on the queue: any two runs that end agree. */
  lemma LevelsIgnoreQueueOrder(edges: seq<ModuleEdge>, names: seq<string>, turns: seq<State>, others: seq<State>,
                               a: string)
    requires Turns(edges, turns) && Turns(edges, others)
    requires Invariant(edges, names, turns[0]) && Invariant(edges, names, others[0]) && a in names
    requires forall e :: e in edges ==> e.from in names && e.to in names
    requires turns[|turns| - 1].queue == [] && others[|others| - 1].queue == []
    ensures Get(turns[|turns| - 1].level, a) == Get(others[|others| - 1].level, a)
  {
    hide Invariant;
    AnyQueueDiscipline(edges, names, turns);
    AnyQueueDiscipline(edges, names, others);
    TierUnique(edges, a, Get(turns[|turns| - 1].level, a), Get(others[|others| - 1].level, a));
  }
}
