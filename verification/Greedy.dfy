/**
  Longest-processing-time greedy scheduling on bare costs: the loop of
  scripts/ci_test_shards.py without the package names. A plan gives each job,
  in order, the machine it runs on.
*/
module Greedy {

  function Sum(costs: seq<nat>): nat {
    if |costs| == 0 then 0 else Sum(costs[..|costs| - 1]) + costs[|costs| - 1]
  }

  /** Cost of the jobs a plan puts on machine k. */
  function Load(costs: seq<nat>, plan: seq<nat>, k: nat): nat
    requires |costs| == |plan|
  {
    if |costs| == 0 then 0
    else
      var last := |costs| - 1;
      Load(costs[..last], plan[..last], k) + if plan[last] == k then costs[last] else 0
  }

  ghost predicate IsPlan(plan: seq<nat>, jobs: nat, m: nat) {
    |plan| == jobs && forall i :: 0 <= i < jobs ==> plan[i] < m
  }

  /** Every machine finishes by the deadline t: the makespan is at most t. */
  ghost predicate Fits(costs: seq<nat>, plan: seq<nat>, m: nat, t: nat)
    requires |costs| == |plan|
  {
    forall k: nat :: k < m ==> Load(costs, plan, k) <= t
  }

  function Loads(costs: seq<nat>, plan: seq<nat>, m: nat): (r: seq<nat>)
    requires |costs| == |plan|
    ensures |r| == m && forall k: nat :: k < m ==> r[k] == Load(costs, plan, k)
  {
    seq(m, k requires 0 <= k < m => Load(costs, plan, k))
  }

  /** The least loaded machine, the first one of several. */
  function LeastLoaded(loads: seq<nat>): (t: nat)
    requires |loads| > 0
    ensures t < |loads|
    ensures forall i :: 0 <= i < |loads| ==> loads[t] <= loads[i]
    ensures forall i :: 0 <= i < t ==> loads[t] < loads[i]
  {
    var last := |loads| - 1;
    if last == 0 then 0
    else
      var t := LeastLoaded(loads[..last]);
      if loads[last] < loads[t] then last else t
  }

  /** The greedy plan: each job, in the order given, to the least loaded machine. */
  function Plan(costs: seq<nat>, m: nat): (plan: seq<nat>)
    requires m >= 1
    ensures |plan| == |costs| && forall i :: 0 <= i < |plan| ==> plan[i] < m
  {
    if |costs| == 0 then []
    else
      var before := costs[..|costs| - 1];
      Plan(before, m) + [LeastLoaded(Loads(before, Plan(before, m), m))]
  }

  /** Every job goes to the machine that was least loaded when its turn came. */
  ghost predicate IsGreedy(costs: seq<nat>, plan: seq<nat>, m: nat) {
    && m >= 1 && |plan| == |costs|
    && forall i :: 0 <= i < |plan| ==> plan[i] == LeastLoaded(Loads(costs[..i], plan[..i], m))
  }

  lemma {:induction false} PlanIsGreedy(costs: seq<nat>, m: nat)
    requires m >= 1
    ensures IsGreedy(costs, Plan(costs, m), m)
  {
    if |costs| != 0 {
      var last := |costs| - 1;
      PlanIsGreedy(costs[..last], m);
      GreedySnoc(costs[..last], Plan(costs[..last], m), m, costs[last]);
      assert costs == costs[..last] + [costs[last]];
    }
  }

  lemma {:induction false} GreedySnoc(costs: seq<nat>, plan: seq<nat>, m: nat, c: nat)
    requires IsGreedy(costs, plan, m)
    ensures IsGreedy(costs + [c], plan + [LeastLoaded(Loads(costs, plan, m))], m)
  {
    var more, longer := costs + [c], plan + [LeastLoaded(Loads(costs, plan, m))];
    forall i | 0 <= i < |longer| ensures longer[i] == LeastLoaded(Loads(more[..i], longer[..i], m)) {
      if i < |plan| {
        assert more[..i] == costs[..i] && longer[..i] == plan[..i];
      } else {
        assert more[..i] == costs && longer[..i] == plan;
      }
    }
  }

  // ---- Loads add up ----

  /** Load on the first m machines together. */
  function SumLoads(costs: seq<nat>, plan: seq<nat>, m: nat): nat
    requires |costs| == |plan|
  {
    if m == 0 then 0 else SumLoads(costs, plan, m - 1) + Load(costs, plan, m - 1)
  }

  lemma {:induction false} SumLoadsStep(costs: seq<nat>, plan: seq<nat>, m: nat)
    requires |costs| == |plan| > 0
    ensures var last := |costs| - 1;
            SumLoads(costs, plan, m) ==
              SumLoads(costs[..last], plan[..last], m) + if plan[last] < m then costs[last] else 0
  {
    if m != 0 { SumLoadsStep(costs, plan, m - 1); }
  }

  /** Work is conserved: the machines together hold every job exactly once. */
  lemma {:induction false} LoadsAddUp(costs: seq<nat>, plan: seq<nat>, m: nat)
    requires IsPlan(plan, |costs|, m)
    ensures SumLoads(costs, plan, m) == Sum(costs)
  {
    if |costs| == 0 {
      EmptyLoads(plan, m);
    } else {
      var last := |costs| - 1;
      LoadsAddUp(costs[..last], plan[..last], m);
      SumLoadsStep(costs, plan, m);
    }
  }

  lemma {:induction false} EmptyLoads(plan: seq<nat>, m: nat)
    requires plan == []
    ensures SumLoads([], plan, m) == 0
  {
    if m != 0 { EmptyLoads(plan, m - 1); }
  }

  lemma {:induction false} SumLoadsAtMost(costs: seq<nat>, plan: seq<nat>, m: nat, t: nat)
    requires |costs| == |plan| && Fits(costs, plan, m, t)
    ensures SumLoads(costs, plan, m) <= m * t
  {
    hide Load;
    if m != 0 {
      SumLoadsAtMost(costs, plan, m - 1, t);
      assert m * t == (m - 1) * t + t;
    }
  }

  lemma {:induction false} SumLoadsAtLeast(costs: seq<nat>, plan: seq<nat>, m: nat, t: nat)
    requires |costs| == |plan|
    requires forall k: nat :: k < m ==> t <= Load(costs, plan, k)
    ensures m * t <= SumLoads(costs, plan, m)
  {
    hide Load;
    if m != 0 {
      SumLoadsAtLeast(costs, plan, m - 1, t);
      assert m * t == (m - 1) * t + t;
    }
  }

  lemma LoadOfPrefixFits(costs: seq<nat>, plan: seq<nat>, m: nat, t: nat)
    requires |costs| == |plan| > 0 && Fits(costs, plan, m, t)
    ensures var last := |costs| - 1; Fits(costs[..last], plan[..last], m, t)
  {
    var last := |costs| - 1;
    forall k: nat | k < m ensures Load(costs[..last], plan[..last], k) <= t {
      assert Load(costs, plan, k) <= t;
    }
  }

  lemma LastJobFits(costs: seq<nat>, plan: seq<nat>, m: nat, t: nat)
    requires |costs| > 0 && IsPlan(plan, |costs|, m) && Fits(costs, plan, m, t)
    ensures costs[|costs| - 1] <= t
  {
    assert Load(costs, plan, plan[|costs| - 1]) <= t;
  }

  // ---- Any order of jobs: within 2 - 1/m of every plan ----

  /** The machine that takes the last job ends within 2 - 1/m of any deadline met. */
  lemma {:induction false} LastPlacedIsNearAverage(costs: seq<nat>, m: nat, other: seq<nat>, t: nat)
    requires m >= 1 && |costs| > 0
    requires IsPlan(other, |costs|, m) && Fits(costs, other, m, t)
    ensures var last := |costs| - 1; var k := Plan(costs, m)[last];
            m * Load(costs, Plan(costs, m), k) <= m * t + (m - 1) * costs[last]
  {
    var last := |costs| - 1;
    var before, plan := costs[..last], Plan(costs[..last], m);
    var k := LeastLoaded(Loads(before, plan, m));
    LeastIsBelowAverage(before, plan, m);
    LoadsAddUp(costs, other, m);
    SumLoadsAtMost(costs, other, m, t);
    PlanLoadElsewhere(costs, m, k);
    AverageArithmetic(m, Load(before, plan, k), costs[last], t, Sum(before));
  }

  lemma {:induction false} LeastIsBelowAverage(costs: seq<nat>, plan: seq<nat>, m: nat)
    requires m >= 1 && IsPlan(plan, |costs|, m)
    ensures m * Load(costs, plan, LeastLoaded(Loads(costs, plan, m))) <= Sum(costs)
  {
    var loads := Loads(costs, plan, m);
    var least := LeastLoaded(loads);
    forall j: nat | j < m ensures Load(costs, plan, least) <= Load(costs, plan, j) {
      assert loads[least] <= loads[j];
    }
    SumLoadsAtLeast(costs, plan, m, Load(costs, plan, least));
    LoadsAddUp(costs, plan, m);
  }

  lemma AverageArithmetic(m: nat, least: nat, c: nat, t: nat, sum: nat)
    requires m >= 1 && m * least <= sum && sum + c <= m * t
    ensures m * (least + c) <= m * t + (m - 1) * c
  {
    assert m * (least + c) == m * least + m * c;
    assert (m - 1) * c == m * c - c;
  }

  lemma PlanLoadElsewhere(costs: seq<nat>, m: nat, k: nat)
    requires m >= 1 && |costs| > 0
    ensures var last := |costs| - 1;
            Load(costs, Plan(costs, m), k)
            == Load(costs[..last], Plan(costs[..last], m), k)
               + if Plan(costs, m)[last] == k then costs[last] else 0
  {
    assert Plan(costs, m)[..|costs| - 1] == Plan(costs[..|costs| - 1], m);
  }

  /** Greedy scheduling in any order of jobs stays within 2 - 1/m of every plan. */
  lemma {:induction false} TwoMinusOneOverM(costs: seq<nat>, m: nat, other: seq<nat>, t: nat, k: nat)
    requires m >= 1 && k < m
    requires IsPlan(other, |costs|, m) && Fits(costs, other, m, t)
    ensures m * Load(costs, Plan(costs, m), k) <= (2 * m - 1) * t
  {
    if |costs| == 0 {
      Scale(2 * m - 1, 0, t);
    } else {
      var last := |costs| - 1;
      LoadOfPrefixFits(costs, other, m, t);
      TwoMinusOneOverM(costs[..last], m, other[..last], t, k);
      PlanLoadElsewhere(costs, m, k);
      if Plan(costs, m)[last] == k {
        LastPlacedIsNearAverage(costs, m, other, t);
        LastJobFits(costs, other, m, t);
        TwoMinusArithmetic(m, Load(costs, Plan(costs, m), k), costs[last], t);
      }
    }
  }

  lemma TwoMinusArithmetic(m: nat, load: nat, c: nat, t: nat)
    requires m >= 1 && c <= t && m * load <= m * t + (m - 1) * c
    ensures m * load <= (2 * m - 1) * t
  {
    Scale(m - 1, c, t);
    assert m * t + (m - 1) * t == (2 * m - 1) * t;
  }

  lemma Scale(a: nat, x: int, y: int)
    requires x <= y
    ensures a * x <= a * y
  {
    assert a * y - a * x == a * (y - x);
  }

  // ---- Longest job first: within 4/3 - 1/(3m) of every plan ----

  ghost predicate Descending(costs: seq<nat>) {
    forall i, j :: 0 <= i < j < |costs| ==> costs[i] >= costs[j]
  }

  /** One for the job itself, one more when nothing of cost c fits beside it by t. */
  function Weights(costs: seq<nat>, c: nat, t: nat): (w: seq<nat>)
    ensures |w| == |costs|
  {
    seq(|costs|, i requires 0 <= i < |costs| => if costs[i] + c > t then 2 else 1)
  }

  lemma WeightsPrefix(costs: seq<nat>, c: nat, t: nat)
    requires |costs| > 0
    ensures Weights(costs, c, t)[..|costs| - 1] == Weights(costs[..|costs| - 1], c, t)
  {
  }

  /** A machine with no room for c before t weighs at least two. */
  lemma {:induction false} FullMachineWeighsTwo(costs: seq<nat>, plan: seq<nat>, k: nat, c: nat, t: nat)
    requires |costs| == |plan|
    ensures var w := Load(Weights(costs, c, t), plan, k);
            || w >= 2
            || (w == 1 && Load(costs, plan, k) + c <= t)
            || (w == 0 && Load(costs, plan, k) == 0)
  {
    if |costs| != 0 {
      var last := |costs| - 1;
      FullMachineWeighsTwo(costs[..last], plan[..last], k, c, t);
      WeightsPrefix(costs, c, t);
    }
  }

  /** A machine that meets t with jobs above t/3 weighs at most two. */
  lemma {:induction false} FittingMachineWeighsTwo(costs: seq<nat>, plan: seq<nat>, k: nat, c: nat, t: nat)
    requires |costs| == |plan|
    requires 3 * c > t && forall i :: 0 <= i < |costs| ==> costs[i] >= c
    requires Load(costs, plan, k) <= t
    ensures var w, load := Load(Weights(costs, c, t), plan, k), Load(costs, plan, k);
            || (w == 0 && load == 0)
            || (w == 1 && load >= c)
            || (w == 2 && load + c > t)
  {
    if |costs| != 0 {
      var last := |costs| - 1;
      FittingMachineWeighsTwo(costs[..last], plan[..last], k, c, t);
      WeightsPrefix(costs, c, t);
    }
  }

  /** When every job is above t/3 and some plan meets t, the last job meets it too. */
  lemma LargeJobsAreScheduledOptimally(costs: seq<nat>, m: nat, other: seq<nat>, t: nat)
    requires m >= 1 && |costs| > 0 && Descending(costs) && 3 * costs[|costs| - 1] > t
    requires IsPlan(other, |costs|, m) && Fits(costs, other, m, t)
    ensures Load(costs, Plan(costs, m), Plan(costs, m)[|costs| - 1]) <= t
  {
    var last := |costs| - 1;
    var c, before, plan := costs[last], costs[..last], Plan(costs[..last], m);
    var k := LeastLoaded(Loads(before, plan, m));
    var w := Weights(costs, c, t);
    PlanLoadElsewhere(costs, m, k);
    LastJobFits(costs, other, m, t);
    WeightsPrefix(costs, c, t);
    if Load(before, plan, k) + c > t {
      forall j: nat | j < m ensures 2 <= Load(w[..last], plan, j) {
        assert Loads(before, plan, m)[k] <= Loads(before, plan, m)[j];
        FullMachineWeighsTwo(before, plan, j, c, t);
      }
      SumLoadsAtLeast(w[..last], plan, m, 2);
      LoadsAddUp(w[..last], plan, m);
      forall j: nat | j < m ensures Load(w, other, j) <= 2 {
        assert Load(costs, other, j) <= t;
        FittingMachineWeighsTwo(costs, other, j, c, t);
      }
      SumLoadsAtMost(w, other, m, 2);
      LoadsAddUp(w, other, m);
      assert false;
    }
  }

  /** The machine that takes the last and smallest job. */
  lemma {:induction false} LastJobWithinFourThirds(costs: seq<nat>, m: nat, other: seq<nat>, t: nat)
    requires m >= 1 && |costs| > 0 && Descending(costs)
    requires IsPlan(other, |costs|, m) && Fits(costs, other, m, t)
    ensures 3 * m * Load(costs, Plan(costs, m), Plan(costs, m)[|costs| - 1]) <= (4 * m - 1) * t
  {
    var last := |costs| - 1;
    var load := Load(costs, Plan(costs, m), Plan(costs, m)[last]);
    if 3 * costs[last] <= t {
      LastPlacedIsNearAverage(costs, m, other, t);
      FourThirdsArithmetic(m, load, costs[last], t);
    } else {
      LargeJobsAreScheduledOptimally(costs, m, other, t);
      OptimalArithmetic(m, load, t);
    }
  }

  /** Longest job first: no plan at all beats the greedy one by more than 4/3 - 1/(3m). */
  lemma {:induction false} FourThirdsMinusOneOverThreeM(costs: seq<nat>, m: nat, other: seq<nat>, t: nat, k: nat)
    requires m >= 1 && k < m && Descending(costs)
    requires IsPlan(other, |costs|, m) && Fits(costs, other, m, t)
    ensures 3 * m * Load(costs, Plan(costs, m), k) <= (4 * m - 1) * t
  {
    if |costs| == 0 {
      OptimalArithmetic(m, 0, t);
    } else if Plan(costs, m)[|costs| - 1] == k {
      LastJobWithinFourThirds(costs, m, other, t);
    } else {
      LoadOfPrefixFits(costs, other, m, t);
      FourThirdsMinusOneOverThreeM(costs[..|costs| - 1], m, other[..|costs| - 1], t, k);
      PlanLoadElsewhere(costs, m, k);
    }
  }

  lemma FourThirdsArithmetic(m: nat, load: nat, c: nat, t: nat)
    requires m >= 1 && m * load <= m * t + (m - 1) * c
    requires 3 * c <= t
    ensures 3 * m * load <= (4 * m - 1) * t
  {
    Scale(m - 1, 3 * c, t);
    assert 3 * m * load == 3 * (m * load);
    assert (m - 1) * (3 * c) == 3 * ((m - 1) * c);
    assert (4 * m - 1) * t == 3 * (m * t) + (m - 1) * t;
  }

  lemma OptimalArithmetic(m: nat, load: nat, t: nat)
    requires m >= 1 && load <= t
    ensures 3 * m * load <= (4 * m - 1) * t
  {
    Scale(3 * m, load, t);
    Scale(t, 3 * m, 4 * m - 1);
  }

  // ---- The bound is reached, on any number of machines ----

  /** Costs 2m-1, 2m-1, 2m-2, 2m-2 down to m, m and one more m. */
  function TightCosts(m: nat): (costs: seq<nat>)
    requires m >= 1
    ensures |costs| == 2 * m + 1
  {
    seq(2 * m + 1, i requires 0 <= i <= 2 * m => if i < 2 * m then 2 * m - 1 - i / 2 else m)
  }

  /** The best plan: the three smallest jobs together, every other machine one job of 2m-1-q and
      one of m+1+q. */
  function TightPlan(m: nat): (plan: seq<nat>)
    requires m >= 1
    ensures |plan| == 2 * m + 1 && forall i :: 0 <= i < |plan| ==> plan[i] < m
  {
    seq(2 * m + 1, i requires 0 <= i <= 2 * m =>
      if i >= 2 * m - 2 then m - 1 else if i % 2 == 0 then i / 2 else m - 2 - i / 2)
  }

  /** Of the first n jobs machine k of that plan holds these. */
  function TightLoad(m: nat, n: nat, k: nat): int
    requires k < m
  {
    if k == m - 1 then if n > 2 * m - 2 then m * (n - (2 * m - 2)) else 0
    else (if 2 * k < n then 2 * m - 1 - k else 0) + (if 2 * (m - 2 - k) + 1 < n then m + 1 + k else 0)
  }

  lemma {:induction false} TightPlanLoad(m: nat, n: nat, k: nat)
    requires m >= 1 && k < m && n <= 2 * m + 1
    ensures Load(TightCosts(m)[..n], TightPlan(m)[..n], k) == TightLoad(m, n, k)
  {
    if n > 0 {
      var costs, plan := TightCosts(m), TightPlan(m);
      TightPlanLoad(m, n - 1, k);
      assert costs[..n][..n - 1] == costs[..n - 1] && plan[..n][..n - 1] == plan[..n - 1];
      TightLoadStep(m, n - 1, k);
    }
  }

  lemma TightLoadStep(m: nat, i: nat, k: nat)
    requires m >= 1 && k < m && i < 2 * m + 1
    ensures TightLoad(m, i + 1, k) == TightLoad(m, i, k) + if TightPlan(m)[i] == k then TightCosts(m)[i] else 0
  {
    if i >= 2 * m - 2 {
      assert m * (i + 1 - (2 * m - 2)) == m * (i - (2 * m - 2)) + m;
    }
  }

  /** A step of the greedy plan on the bare loads: the least of them grows. */
  lemma GreedyGrowsLeast(costs: seq<nat>, c: nat, m: nat, loads: seq<nat>, j: nat)
    requires m == |loads| && j < m && forall i :: 0 <= i < m ==> loads[j] <= loads[i]
    requires multiset(Loads(costs, Plan(costs, m), m)) == multiset(loads)
    ensures multiset(Loads(costs + [c], Plan(costs + [c], m), m)) == multiset(loads[j := loads[j] + c])
  {
    hide Plan, Load, Loads, LeastLoaded;
    var now := Loads(costs, Plan(costs, m), m);
    LoadsGrow(costs, c, m);
    SameLeast(now, LeastLoaded(now), loads, j);
  }

  lemma LoadsGrow(costs: seq<nat>, c: nat, m: nat)
    requires m >= 1
    ensures var now := Loads(costs, Plan(costs, m), m);
            Loads(costs + [c], Plan(costs + [c], m), m) == now[LeastLoaded(now) := now[LeastLoaded(now)] + c]
  {
    hide Plan, Load, LeastLoaded;
    var now := Loads(costs, Plan(costs, m), m);
    var after := now[LeastLoaded(now) := now[LeastLoaded(now)] + c];
    forall k: nat | k < m ensures Load(costs + [c], Plan(costs + [c], m), k) == after[k] { LoadGrows(costs, c, m, k); }
    assert Loads(costs + [c], Plan(costs + [c], m), m) == after;
  }

  lemma LoadGrows(costs: seq<nat>, c: nat, m: nat, k: nat)
    requires m >= 1
    ensures Load(costs + [c], Plan(costs + [c], m), k)
            == Load(costs, Plan(costs, m), k) + if k == LeastLoaded(Loads(costs, Plan(costs, m), m)) then c else 0
  {
    var more := costs + [c];
    assert more[..|more| - 1] == costs;
    PlanLoadElsewhere(more, m, k);
  }

  lemma SameLeast(a: seq<nat>, i: nat, b: seq<nat>, j: nat)
    requires multiset(a) == multiset(b) && i < |a| && j < |b|
    requires (forall k :: 0 <= k < |a| ==> a[i] <= a[k]) && (forall k :: 0 <= k < |b| ==> b[j] <= b[k])
    ensures a[i] == b[j]
  {
    assert a[i] in multiset(b) && b[j] in multiset(a);
  }

  /** The greedy loads after n of the jobs, in some order: the first m jobs get a machine each, the
      next m come on top in the opposite order, 3m-1 everywhere. */
  function TightGreedy(m: nat, n: nat): (loads: seq<nat>)
    requires m >= 1 && n <= 2 * m
    ensures |loads| == m
  {
    if n <= m then seq(m, k requires 0 <= k < m => if k < n then 2 * m - 1 - k / 2 else 0)
    else seq(m, k requires 0 <= k < m => if k < 2 * m - n then 2 * m - 1 - k / 2 else 3 * m - 1)
  }

  lemma {:induction false} TightGreedyLoads(m: nat, n: nat)
    requires m >= 1 && n <= 2 * m
    ensures multiset(Loads(TightCosts(m)[..n], Plan(TightCosts(m)[..n], m), m)) == multiset(TightGreedy(m, n))
  {
    hide TightCosts, TightGreedy, Plan, Load, Loads, LeastLoaded;
    var costs := TightCosts(m);
    if n == 0 {
      TightGreedyStart(m);
      assert costs[..0] == [];
    } else {
      TightGreedyLoads(m, n - 1);
      var j := if n <= m then n - 1 else 2 * m - n;
      TightGreedyStep(m, n, j);
      GreedyGrowsLeast(costs[..n - 1], costs[n - 1], m, TightGreedy(m, n - 1), j);
      assert costs[..n - 1] + [costs[n - 1]] == costs[..n];
    }
  }

  lemma TightGreedyStart(m: nat)
    requires m >= 1
    ensures Loads([], Plan([], m), m) == TightGreedy(m, 0)
  {
  }

  lemma TightGreedyStep(m: nat, n: nat, j: nat)
    requires m >= 1 && 1 <= n <= 2 * m && j == if n <= m then n - 1 else 2 * m - n
    ensures var before := TightGreedy(m, n - 1);
            && (forall k :: 0 <= k < m ==> before[j] <= before[k])
            && before[j := before[j] + TightCosts(m)[n - 1]] == TightGreedy(m, n)
  {
  }

  /** On every number of machines there are jobs that reach the bound: greedily 4m-1, at best 3m. */
  lemma FourThirdsIsTight(m: nat)
    requires m >= 1
    ensures var costs, best := TightCosts(m), TightPlan(m);
            && Descending(costs) && IsPlan(best, |costs|, m) && Fits(costs, best, m, 3 * m)
            && exists k: nat :: k < m && Load(costs, Plan(costs, m), k) == 4 * m - 1
  {
    forall k: nat | k < m ensures Load(TightCosts(m), TightPlan(m), k) <= 3 * m { TightPlanFits(m, k); }
    TightGreedyEnds(m);
  }

  lemma TightPlanFits(m: nat, k: nat)
    requires m >= 1 && k < m
    ensures Load(TightCosts(m), TightPlan(m), k) <= 3 * m
  {
    var costs, plan := TightCosts(m), TightPlan(m);
    assert costs[..2 * m + 1] == costs && plan[..2 * m + 1] == plan;
    TightPlanLoad(m, 2 * m + 1, k);
  }

  /** The last job comes on top of 3m-1. */
  lemma TightGreedyEnds(m: nat)
    requires m >= 1
    ensures exists k: nat :: k < m && Load(TightCosts(m), Plan(TightCosts(m), m), k) == 4 * m - 1
  {
    hide Plan, Load, LeastLoaded;
    var costs, loads := TightCosts(m), TightGreedy(m, 2 * m);
    TightGreedyLoads(m, 2 * m);
    GreedyGrowsLeast(costs[..2 * m], m, m, loads, 0);
    assert costs[..2 * m] + [m] == costs;
    var top := Loads(costs, Plan(costs, m), m);
    assert loads[0 := loads[0] + m][0] == 4 * m - 1;
    assert 4 * m - 1 in multiset(top);
    var k :| 0 <= k < m && top[k] == 4 * m - 1;
  }

  // ---- Balance ----

  /** No two machines are further apart than the largest single job. */
  lemma {:induction false} GapAtMostLargestJob(costs: seq<nat>, m: nat, largest: nat, a: nat, b: nat)
    requires m >= 1 && a < m && b < m
    requires forall i :: 0 <= i < |costs| ==> costs[i] <= largest
    ensures Load(costs, Plan(costs, m), a) <= Load(costs, Plan(costs, m), b) + largest
  {
    if |costs| != 0 {
      var last := |costs| - 1;
      GapAtMostLargestJob(costs[..last], m, largest, a, b);
      PlanLoadElsewhere(costs, m, a);
      PlanLoadElsewhere(costs, m, b);
      var loads := Loads(costs[..last], Plan(costs[..last], m), m);
      assert loads[LeastLoaded(loads)] <= loads[b];
    }
  }

  /** Enough work for its largest job keeps the machines within a tenth of each other. */
  lemma {:induction false} WithinTenPercent(costs: seq<nat>, m: nat, largest: nat, a: nat, b: nat)
    requires m >= 1 && a < m && b < m
    requires forall i :: 0 <= i < |costs| ==> costs[i] <= largest
    requires Sum(costs) >= m * (11 * largest)
    ensures 10 * Load(costs, Plan(costs, m), a) <= 11 * Load(costs, Plan(costs, m), b)
  {
    hide Load, Plan, Sum;
    var plan := Plan(costs, m);
    var most := Load(costs, plan, b) + largest;
    forall k: nat | k < m ensures Load(costs, plan, k) <= most { GapAtMostLargestJob(costs, m, largest, k, b); }
    SumLoadsAtMost(costs, plan, m, most);
    LoadsAddUp(costs, plan, m);
    if most < 11 * largest { ScaleStrictly(m, most, 11 * largest); }
    GapAtMostLargestJob(costs, m, largest, a, b);
  }

  lemma ScaleStrictly(m: nat, x: int, y: int)
    requires m >= 1 && x < y
    ensures m * x < m * y
  {
    assert m * y - m * x == m * (y - x);
    Scale(m, 1, y - x);
  }
}
