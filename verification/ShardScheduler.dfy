/**
  scripts/ci_test_shards.py: split a package list into balanced CI test shards.
  Costs are kept in tenths of a second, so the script's one-decimal literals are
  exact.
*/
module ShardScheduler {
  import opened Orders
  import Greedy

  /** The measured costs, the cost of an unlisted package, and the packages split by
      test name elsewhere. The table is refreshed from CI logs, so everything below
      holds of any table. */
  datatype Table = Table(costs: map<string, nat>, default: nat, split: set<string>) {
    function Cost(package: string): nat {
      if package in costs then costs[package] else default
    }

    /** The sort key: dearest first, then by name. */
    predicate DearerFirst(a: string, b: string) {
      Cost(a) > Cost(b) || (Cost(a) == Cost(b) && StrLe(a, b))
    }
  }

  /** The table in the script. */
  const CI_TABLE := Table(
    map[
      "github.com/alexei-led/archfit/v3/internal/toolrun" := 260,
      "github.com/alexei-led/archfit/v3/internal/extract/ts" := 250,
      "github.com/alexei-led/archfit/v3/internal/extract/py" := 130,
      "github.com/alexei-led/archfit/v3/internal" := 110,
      "github.com/alexei-led/archfit/v3/internal/extract/golang" := 45
    ],
    12,
    {
      "github.com/alexei-led/archfit/v3/cmd/archfit",
      "github.com/alexei-led/archfit/v3/internal/extract/scip"
    }
  )

  lemma {:induction false} DearerFirstIsTotal(t: Table)
    ensures TotalOrder(t.DearerFirst)
  {
    StrLeTotalOrder();
  }

  /** The packages the scheduler takes: those not split by test name elsewhere. */
  function Unsplit(t: Table, packages: seq<string>): seq<string> {
    if |packages| == 0 then []
    else
      var last := |packages| - 1;
      Unsplit(t, packages[..last]) + if packages[last] in t.split then [] else [packages[last]]
  }

  function Scheduled(t: Table, packages: seq<string>): seq<string> {
    SortBy(Unsplit(t, packages), t.DearerFirst)
  }

  function CostsOf(t: Table, packages: seq<string>): (r: seq<nat>)
    ensures |r| == |packages|
  {
    seq(|packages|, i requires 0 <= i < |packages| => t.Cost(packages[i]))
  }

  /** The packages a plan puts on machine k, in schedule order. */
  function Members(packages: seq<string>, plan: seq<nat>, k: nat): seq<string>
    requires |packages| == |plan|
  {
    if |packages| == 0 then []
    else
      var last := |packages| - 1;
      Members(packages[..last], plan[..last], k) + if plan[last] == k then [packages[last]] else []
  }

  /** What machine k runs of a schedule. */
  function ShardFrom(t: Table, scheduled: seq<string>, total: nat, k: nat): seq<string>
    requires total >= 1
  {
    Members(scheduled, Greedy.Plan(CostsOf(t, scheduled), total), k)
  }

  /** What shard number shard (from one) runs out of total. */
  function Shard(t: Table, packages: seq<string>, total: nat, shard: nat): seq<string>
    requires 1 <= shard <= total
  {
    ShardFrom(t, Scheduled(t, packages), total, shard - 1)
  }

  function ShardLoad(t: Table, packages: seq<string>): nat {
    Greedy.Sum(CostsOf(t, packages))
  }

  /** The script's shard_of. main has checked the shard number. */
  method ShardOf(t: Table, packages: seq<string>, total: nat, shard: nat) returns (r: seq<string>)
    requires 1 <= shard <= total
    ensures r == Shard(t, packages, total, shard)
  {
    var kept: seq<string> := [];
    for i := 0 to |packages|
      invariant kept == Unsplit(t, packages[..i])
    {
      assert packages[..i + 1][..i] == packages[..i];
      if packages[i] !in t.split { kept := kept + [packages[i]]; }
    }
    assert packages[..|packages|] == packages;
    var sorted := SortBy(kept, t.DearerFirst);
    ghost var plan := Greedy.Plan(CostsOf(t, sorted), total);
    Greedy.PlanIsGreedy(CostsOf(t, sorted), total);
    var members := Distribute(t, sorted, total, plan);
    r := members[shard - 1];
  }

  /** The greedy loop of shard_of. */
  method Distribute(t: Table, sorted: seq<string>, total: nat, ghost plan: seq<nat>) returns (members: seq<seq<string>>)
    requires Greedy.IsGreedy(CostsOf(t, sorted), plan, total)
    ensures |members| == total
    ensures forall k: nat :: k < total ==> members[k] == Members(sorted, plan, k)
  {
    var loads: seq<nat> := seq(total, _ => 0);
    members := seq(total, _ => []);
    NothingPlaced(t, sorted, plan, loads, members);
    for i := 0 to |sorted|
      invariant |loads| == |members| == total
      invariant Follows(t, sorted, plan, i, loads, members)
    {
      var target := LeastLoadedOf(loads);
      TargetIsPlanned(t, sorted, plan, i, loads, members);
      StepAll(t, sorted, plan, i, loads, members);
      members := members[target := members[target] + [sorted[i]]];
      loads := loads[target := loads[target] + t.Cost(sorted[i])];
    }
    AllPlaced(t, sorted, plan, loads, members);
  }

  lemma NothingPlaced(t: Table, sorted: seq<string>, plan: seq<nat>, loads: seq<nat>, members: seq<seq<string>>)
    requires |sorted| == |plan| && |loads| == |members|
    requires forall k :: 0 <= k < |loads| ==> loads[k] == 0 && members[k] == []
    ensures Follows(t, sorted, plan, 0, loads, members)
  {
  }

  lemma TargetIsPlanned(t: Table, sorted: seq<string>, plan: seq<nat>, i: nat, loads: seq<nat>,
                        members: seq<seq<string>>)
    requires i < |sorted| && |loads| == |members| && Greedy.IsGreedy(CostsOf(t, sorted), plan, |loads|)
    requires Follows(t, sorted, plan, i, loads, members)
    ensures plan[i] == Greedy.LeastLoaded(loads)
  {
    assert loads == Greedy.Loads(CostsOf(t, sorted)[..i], plan[..i], |loads|);
  }

  lemma {:induction false} AllPlaced(t: Table, sorted: seq<string>, plan: seq<nat>, loads: seq<nat>,
                                     members: seq<seq<string>>)
    requires |sorted| == |plan| && |loads| == |members| && Follows(t, sorted, plan, |sorted|, loads, members)
    ensures forall k: nat :: k < |members| ==> members[k] == Members(sorted, plan, k)
  {
    forall k: nat | k < |members| ensures members[k] == Members(sorted, plan, k) {
      MembersOfWhole(sorted, plan, k);
      assert members[k] == Members(sorted[..|sorted|], plan[..|sorted|], k);
    }
  }

  lemma MembersOfWhole(packages: seq<string>, plan: seq<nat>, k: nat)
    requires |packages| == |plan|
    ensures Members(packages[..|packages|], plan[..|packages|], k) == Members(packages, plan, k)
  {
    assert packages[..|packages|] == packages && plan[..|packages|] == plan;
  }

  /** The two lists hold what the first i choices of the plan make them hold. */
  ghost predicate Follows(t: Table, sorted: seq<string>, plan: seq<nat>, i: nat, loads: seq<nat>,
                          members: seq<seq<string>>)
    requires i <= |sorted| == |plan| && |loads| == |members|
  {
    && (forall k: nat :: k < |loads| ==> loads[k] == Greedy.Load(CostsOf(t, sorted)[..i], plan[..i], k))
    && (forall k: nat :: k < |loads| ==> members[k] == Members(sorted[..i], plan[..i], k))
  }

  lemma StepAll(t: Table, sorted: seq<string>, plan: seq<nat>, i: nat, loads: seq<nat>, members: seq<seq<string>>)
    requires i < |sorted| == |plan| && |loads| == |members| && Follows(t, sorted, plan, i, loads, members)
    requires plan[i] < |loads|
    ensures Follows(t, sorted, plan, i + 1,
                    loads[plan[i] := loads[plan[i]] + t.Cost(sorted[i])],
                    members[plan[i] := members[plan[i]] + [sorted[i]]])
  {
    forall k: nat | k < |loads| { LoadStep(CostsOf(t, sorted), plan, i, k); }
    forall k: nat | k < |loads| { MembersStep(sorted, plan, i, k); }
  }

  lemma LoadStep(costs: seq<nat>, plan: seq<nat>, i: nat, k: nat)
    requires i < |costs| == |plan|
    ensures Greedy.Load(costs[..i + 1], plan[..i + 1], k)
            == Greedy.Load(costs[..i], plan[..i], k) + if plan[i] == k then costs[i] else 0
  {
    assert costs[..i + 1][..i] == costs[..i] && plan[..i + 1][..i] == plan[..i];
  }

  lemma MembersStep(packages: seq<string>, plan: seq<nat>, i: nat, k: nat)
    requires i < |packages| == |plan|
    ensures Members(packages[..i + 1], plan[..i + 1], k)
            == Members(packages[..i], plan[..i], k) + if plan[i] == k then [packages[i]] else []
  {
    assert packages[..i + 1][..i] == packages[..i] && plan[..i + 1][..i] == plan[..i];
  }

  /** Python's min over the indexes, by load and then by index. */
  method LeastLoadedOf(loads: seq<nat>) returns (target: nat)
    requires |loads| > 0
    ensures target == Greedy.LeastLoaded(loads)
  {
    target := 0;
    for i := 1 to |loads|
      invariant target < i
      invariant target == Greedy.LeastLoaded(loads[..i])
    {
      assert loads[..i + 1][..i] == loads[..i];
      if loads[i] < loads[target] { target := i; }
    }
    assert loads[..|loads|] == loads;
  }

  // ---- Conservation ----

  /** One for each job that is package p: the load it makes is how often p occurs. */
  function Occurrences(packages: seq<string>, p: string): (w: seq<nat>)
    ensures |w| == |packages|
  {
    seq(|packages|, i requires 0 <= i < |packages| => if packages[i] == p then 1 else 0)
  }

  lemma {:induction false} CountIsLoad(packages: seq<string>, plan: seq<nat>, k: nat, p: string)
    requires |packages| == |plan|
    ensures multiset(Members(packages, plan, k))[p] == Greedy.Load(Occurrences(packages, p), plan, k)
  {
    if |packages| != 0 {
      var last := |packages| - 1;
      CountIsLoad(packages[..last], plan[..last], k, p);
      assert Occurrences(packages, p)[..last] == Occurrences(packages[..last], p);
    }
  }

  lemma {:induction false} CountIsSum(packages: seq<string>, p: string)
    ensures multiset(packages)[p] == Greedy.Sum(Occurrences(packages, p))
  {
    if |packages| != 0 {
      var last := |packages| - 1;
      assert packages == packages[..last] + [packages[last]];
      CountIsSum(packages[..last], p);
      assert Occurrences(packages, p)[..last] == Occurrences(packages[..last], p);
    }
  }

  /** All machines together, one after the other. */
  function AllMembers(packages: seq<string>, plan: seq<nat>, machines: nat): seq<string>
    requires |packages| == |plan|
  {
    if machines == 0 then [] else AllMembers(packages, plan, machines - 1) + Members(packages, plan, machines - 1)
  }

  lemma CountOfConcat(a: seq<string>, b: seq<string>, p: string)
    ensures multiset(a + b)[p] == multiset(a)[p] + multiset(b)[p]
  {
  }

  lemma {:induction false} CountsAddUp(packages: seq<string>, plan: seq<nat>, machines: nat, p: string)
    requires |packages| == |plan|
    ensures multiset(AllMembers(packages, plan, machines))[p]
            == Greedy.SumLoads(Occurrences(packages, p), plan, machines)
  {
    hide Occurrences, Members, Greedy.Load;
    if machines != 0 {
      CountsAddUp(packages, plan, machines - 1, p);
      CountIsLoad(packages, plan, machines - 1, p);
      CountOfConcat(AllMembers(packages, plan, machines - 1), Members(packages, plan, machines - 1), p);
    }
  }

  /** All shards together: shard 1, shard 2, and so on. */
  function AllShards(t: Table, packages: seq<string>, total: nat): seq<string>
    requires total >= 1
  {
    var scheduled := Scheduled(t, packages);
    AllMembers(scheduled, Greedy.Plan(CostsOf(t, scheduled), total), total)
  }

  lemma {:induction false} UnsplitCount(t: Table, packages: seq<string>, p: string)
    ensures multiset(Unsplit(t, packages))[p] == if p in t.split then 0 else multiset(packages)[p]
  {
    if |packages| != 0 {
      var last := |packages| - 1;
      assert packages == packages[..last] + [packages[last]];
      UnsplitCount(t, packages[..last], p);
    }
  }

  /** A package is never dropped and never run twice: over all shards each one runs
      exactly as often as it was listed, and the split ones not at all. */
  lemma ShardsConservePackages(t: Table, packages: seq<string>, total: nat, p: string)
    requires total >= 1
    ensures multiset(AllShards(t, packages, total))[p]
            == if p in t.split then 0 else multiset(packages)[p]
  {
    var scheduled := Scheduled(t, packages);
    var plan := Greedy.Plan(CostsOf(t, scheduled), total);
    CountsAddUp(scheduled, plan, total, p);
    Greedy.LoadsAddUp(Occurrences(scheduled, p), plan, total);
    CountIsSum(scheduled, p);
    UnsplitCount(t, packages, p);
  }

  /** The shards do not depend on the order go list printed the packages in. */
  lemma ShardsIgnoreInputOrder(t: Table, a: seq<string>, b: seq<string>, total: nat, shard: nat)
    requires 1 <= shard <= total && multiset(a) == multiset(b)
    ensures Shard(t, a, total, shard) == Shard(t, b, total, shard)
  {
    forall p ensures multiset(Unsplit(t, a))[p] == multiset(Unsplit(t, b))[p] {
      UnsplitCount(t, a, p);
      UnsplitCount(t, b, p);
    }
    assert multiset(Unsplit(t, a)) == multiset(Unsplit(t, b));
    DearerFirstIsTotal(t);
    SortByOrderFree(Unsplit(t, a), Unsplit(t, b), t.DearerFirst);
  }

  // ---- Balance ----

  lemma {:induction false} ShardLoadIsLoad(t: Table, packages: seq<string>, plan: seq<nat>, k: nat)
    requires |packages| == |plan|
    ensures ShardLoad(t, Members(packages, plan, k)) == Greedy.Load(CostsOf(t, packages), plan, k)
  {
    if |packages| != 0 {
      var last := |packages| - 1;
      ShardLoadIsLoad(t, packages[..last], plan[..last], k);
      assert CostsOf(t, packages)[..last] == CostsOf(t, packages[..last]);
      var before, added := Members(packages[..last], plan[..last], k), [packages[last]];
      assert CostsOf(t, before + added)[..|before|] == CostsOf(t, before);
      assert before + [] == before;
    }
  }

  lemma ScheduledDearestFirst(t: Table, packages: seq<string>)
    ensures Greedy.Descending(CostsOf(t, Scheduled(t, packages)))
  {
    DearerFirstIsTotal(t);
    SortBySorts(Unsplit(t, packages), t.DearerFirst);
    var scheduled := Scheduled(t, packages);
    forall i, j | 0 <= i < j < |scheduled| ensures CostsOf(t, scheduled)[i] >= CostsOf(t, scheduled)[j] {
      assert t.DearerFirst(scheduled[i], scheduled[j]);
    }
  }

  lemma {:induction false} FourThirdsOfScheduled(t: Table, scheduled: seq<string>, total: nat, k: nat, other: seq<nat>,
                                                 deadline: nat)
    requires k < total && Greedy.Descending(CostsOf(t, scheduled))
    requires Greedy.IsPlan(other, |scheduled|, total)
    requires forall j: nat :: j < total ==> ShardLoad(t, Members(scheduled, other, j)) <= deadline
    ensures 3 * total * ShardLoad(t, ShardFrom(t, scheduled, total, k)) <= (4 * total - 1) * deadline
  {
    var costs := CostsOf(t, scheduled);
    forall j: nat | j < total ensures Greedy.Load(costs, other, j) <= deadline {
      ShardLoadIsLoad(t, scheduled, other, j);
    }
    Greedy.FourThirdsMinusOneOverThreeM(costs, total, other, deadline, k);
    ShardLoadIsLoad(t, scheduled, Greedy.Plan(costs, total), k);
  }

  /** The longest shard is within 4/3 - 1/(3m) of the best any assignment of the same
      packages to m runners reaches. */
  lemma {:induction false} ShardsWithinFourThirds(t: Table, packages: seq<string>, total: nat, shard: nat,
                                                  other: seq<nat>, deadline: nat)
    requires 1 <= shard <= total
    requires Greedy.IsPlan(other, |Scheduled(t, packages)|, total)
    requires forall k: nat :: k < total ==> ShardLoad(t, Members(Scheduled(t, packages), other, k)) <= deadline
    ensures 3 * total * ShardLoad(t, Shard(t, packages, total, shard)) <= (4 * total - 1) * deadline
  {
    ScheduledDearestFirst(t, packages);
    FourThirdsOfScheduled(t, Scheduled(t, packages), total, shard - 1, other, deadline);
  }

  ghost predicate NoneDearer(t: Table, scheduled: seq<string>, dearest: nat) {
    forall p :: p in scheduled ==> t.Cost(p) <= dearest
  }

  lemma GapOfScheduled(t: Table, scheduled: seq<string>, total: nat, a: nat, b: nat, dearest: nat)
    requires a < total && b < total && NoneDearer(t, scheduled, dearest)
    ensures ShardLoad(t, ShardFrom(t, scheduled, total, a)) <= ShardLoad(t, ShardFrom(t, scheduled, total, b)) + dearest
  {
    var costs := CostsOf(t, scheduled);
    Greedy.GapAtMostLargestJob(costs, total, dearest, a, b);
    ShardLoadIsLoad(t, scheduled, Greedy.Plan(costs, total), a);
    ShardLoadIsLoad(t, scheduled, Greedy.Plan(costs, total), b);
  }

  lemma {:induction false} ScheduledAreListed(t: Table, packages: seq<string>, p: string)
    requires p in Scheduled(t, packages)
    ensures p in packages && p !in t.split
  {
    UnsplitCount(t, packages, p);
    assert p in multiset(Scheduled(t, packages));
    assert p in multiset(packages);
  }

  /** No scheduled package costs more than this. */
  ghost predicate DearestIs(t: Table, packages: seq<string>, dearest: nat) {
    forall p :: p in packages && p !in t.split ==> t.Cost(p) <= dearest
  }

  lemma ShardIsOfScheduled(t: Table, packages: seq<string>, total: nat, shard: nat)
    requires 1 <= shard <= total
    ensures Shard(t, packages, total, shard) == ShardFrom(t, Scheduled(t, packages), total, shard - 1)
  {
  }

  lemma ScheduledWithin(t: Table, packages: seq<string>, dearest: nat)
    requires DearestIs(t, packages, dearest)
    ensures NoneDearer(t, Scheduled(t, packages), dearest)
  {
    forall p | p in Scheduled(t, packages) ensures t.Cost(p) <= dearest { ScheduledAreListed(t, packages, p); }
  }

  /** Two shards differ by no more than the dearest package there is. */
  lemma ShardGapAtMostDearest(t: Table, packages: seq<string>, total: nat, a: nat, b: nat, dearest: nat)
    requires 1 <= a <= total && 1 <= b <= total && DearestIs(t, packages, dearest)
    ensures ShardLoad(t, Shard(t, packages, total, a)) <= ShardLoad(t, Shard(t, packages, total, b)) + dearest
  {
    hide *;
    ShardIsOfScheduled(t, packages, total, a);
    ShardIsOfScheduled(t, packages, total, b);
    ScheduledWithin(t, packages, dearest);
    GapOfScheduled(t, Scheduled(t, packages), total, a - 1, b - 1, dearest);
  }

  /** When there is enough to run, eleven times the dearest package for each runner, no shard is more
      than a tenth longer than another. */
  lemma ShardsWithinTenPercent(t: Table, packages: seq<string>, total: nat, a: nat, b: nat, dearest: nat)
    requires 1 <= a <= total && 1 <= b <= total && DearestIs(t, packages, dearest)
    requires ShardLoad(t, Scheduled(t, packages)) >= total * (11 * dearest)
    ensures 10 * ShardLoad(t, Shard(t, packages, total, a)) <= 11 * ShardLoad(t, Shard(t, packages, total, b))
  {
    hide *;
    ShardIsOfScheduled(t, packages, total, a);
    ShardIsOfScheduled(t, packages, total, b);
    ScheduledWithin(t, packages, dearest);
    TenPercentOfScheduled(t, Scheduled(t, packages), total, a - 1, b - 1, dearest);
  }

  lemma TenPercentOfScheduled(t: Table, scheduled: seq<string>, total: nat, a: nat, b: nat, dearest: nat)
    requires a < total && b < total && NoneDearer(t, scheduled, dearest)
    requires ShardLoad(t, scheduled) >= total * (11 * dearest)
    ensures 10 * ShardLoad(t, ShardFrom(t, scheduled, total, a)) <= 11 * ShardLoad(t, ShardFrom(t, scheduled, total, b))
  {
    var costs := CostsOf(t, scheduled);
    Greedy.WithinTenPercent(costs, total, dearest, a, b);
    ShardLoadIsLoad(t, scheduled, Greedy.Plan(costs, total), a);
    ShardLoadIsLoad(t, scheduled, Greedy.Plan(costs, total), b);
  }

  /** It does not hold of every list: one package on two runners leaves the second with nothing. */
  lemma OnePackageIsLopsided(t: Table, p: string)
    requires p !in t.split && t.Cost(p) > 0
    ensures ShardLoad(t, Shard(t, [p], 2, 1)) == t.Cost(p) && ShardLoad(t, Shard(t, [p], 2, 2)) == 0
  {
    var none: seq<string> := [];
    assert [p][..0] == none && Unsplit(t, [p]) == none + [p] == [p];
    assert [p][1..] == none;
    assert Scheduled(t, [p]) == [p];
    var costs := CostsOf(t, [p]);
    assert costs[..0] == [] && Greedy.Load([], [], 0) == 0 && Greedy.Load([], [], 1) == 0;
    var plan := Greedy.Plan(costs, 2);
    assert Greedy.LeastLoaded(Greedy.Loads([], [], 2)) == 0;
    assert plan == [0];
    ShardLoadIsLoad(t, [p], plan, 0);
    ShardLoadIsLoad(t, [p], plan, 1);
    assert plan[..0] == [];
  }

  lemma DearestOfCiTable(p: string)
    ensures CI_TABLE.Cost(p) <= 260
  {
  }

  /** With the costs in the script two shards are never more than 26 seconds apart, whatever go list
      prints. */
  lemma CiShardsWithin26Seconds(packages: seq<string>, total: nat, a: nat, b: nat)
    requires 1 <= a <= total && 1 <= b <= total
    ensures ShardLoad(CI_TABLE, Shard(CI_TABLE, packages, total, a))
            <= ShardLoad(CI_TABLE, Shard(CI_TABLE, packages, total, b)) + 260
  {
    hide Shard, ShardLoad, Table.Cost;
    forall p | p in packages && p !in CI_TABLE.split ensures CI_TABLE.Cost(p) <= 260 { DearestOfCiTable(p); }
    ShardGapAtMostDearest(CI_TABLE, packages, total, a, b, 260);
  }
}
