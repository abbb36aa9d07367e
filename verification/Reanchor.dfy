/**
  Re-anchoring a baseline (internal/application/reanchor.go): carry into a new
  measurement only the debt the stored file already accepted.
*/
module Reanchor {
  import opened Options
  import opened Orders

  datatype Finding = Finding(fingerprint: string, rule: string)

  /** A current edge a report names: its ID and where it is. */
  datatype Edge = Edge(id: string, place: string)

  /** One current finding and the edge identities a re-anchor matches on. */
  datatype FindingKeys = FindingKeys(edge: Edge, keys: seq<string>)

  datatype Direction = HigherIsWorse | LowerIsWorse | NoDirection

  datatype Metric = Metric(name: string, measured: bool, version: string, direction: Direction, value: real)

  datatype StoredMetric = StoredMetric(value: real, version: string)

  datatype State = State(seams: seq<string>, hashes: string)

  datatype Snapshot = Snapshot(accepted: seq<Finding>, state: Option<State>, metrics: map<string, StoredMetric>)

  datatype Stored = Stored(accepted: seq<Finding>, seams: seq<string>, metrics: map<string, StoredMetric>)

  datatype Change = Change(name: string, before: real, after: real)

  datatype Report = Report(kept: nat, dropped: seq<Finding>, notAccepted: seq<Edge>, droppedSeams: seq<string>,
                           newSeams: seq<string>, worsened: seq<Change>, unmeasured: seq<string>, drift: seq<string>)

  function Prints(findings: seq<Finding>): set<string> {
    set f | f in findings :: f.fingerprint
  }

  // ---- Specification ----

  /** The first finding of each stored fingerprint, in the order observed. */
  function Keep(observed: seq<Finding>, stored: set<string>): seq<Finding> {
    if |observed| == 0 then []
    else
      var last := observed[|observed| - 1];
      var before := Keep(observed[..|observed| - 1], stored);
      if last.fingerprint in stored && last.fingerprint !in Prints(before) then before + [last] else before
  }

  function Unmatched(stored: seq<Finding>, matched: set<string>): seq<Finding> {
    if |stored| == 0 then []
    else
      var last := stored[|stored| - 1];
      Unmatched(stored[..|stored| - 1], matched) + if last.fingerprint in matched then [] else [last]
  }

  function KeysOutside(edge: Edge, keys: seq<string>, stored: set<string>): seq<Edge> {
    if |keys| == 0 then []
    else
      var last := keys[|keys| - 1];
      KeysOutside(edge, keys[..|keys| - 1], stored) + if last in stored then [] else [edge.(id := last)]
  }

  function Unaccepted(current: seq<FindingKeys>, stored: set<string>): seq<Edge> {
    if |current| == 0 then []
    else
      var f := current[|current| - 1];
      Unaccepted(current[..|current| - 1], stored) + KeysOutside(f.edge, f.keys, stored)
  }

  /** The members of ids that are in the set, or those that are not. */
  function Pick(ids: seq<string>, s: set<string>, inside: bool): seq<string> {
    if |ids| == 0 then []
    else
      var last := ids[|ids| - 1];
      Pick(ids[..|ids| - 1], s, inside) + if (last in s) == inside then [last] else []
  }

  predicate Worse(d: Direction, before: real, after: real) {
    if d == HigherIsWorse then after > before else after < before
  }

  function Worsened(metrics: seq<Metric>, stored: map<string, StoredMetric>): seq<Change> {
    if |metrics| == 0 then []
    else
      var m := metrics[|metrics| - 1];
      Worsened(metrics[..|metrics| - 1], stored)
      + if m.name in stored && m.measured && stored[m.name].version == m.version && m.direction != NoDirection
           && Worse(m.direction, stored[m.name].value, m.value)
        then [Change(m.name, stored[m.name].value, m.value)] else []
  }

  function Unmeasured(metrics: seq<Metric>, stored: map<string, StoredMetric>): seq<string> {
    if |metrics| == 0 then []
    else
      var m := metrics[|metrics| - 1];
      Unmeasured(metrics[..|metrics| - 1], stored) + if m.name in stored && !m.measured then [m.name] else []
  }

  /** What a re-anchor keeps: the stored debt seen again, and the stored seams that still qualify. */
  function Reanchored(capture: Snapshot, waived: seq<Finding>, stored: Stored): Snapshot {
    Snapshot(Keep(capture.accepted + waived, Prints(stored.accepted)),
             match capture.state
             case None => None
             case Some(st) => Some(st.(seams := Pick(st.seams, SetOf(stored.seams), true))),
             capture.metrics)
  }

  /** What loading the saved file gives the next re-anchor. */
  function StoredFrom(s: Snapshot): Stored {
    Stored(s.accepted, if s.state.Some? then s.state.value.seams else [], s.metrics)
  }

  /** What the report lists; lists that are sorted by a key alone are told up to order. */
  ghost predicate Reports(r: Report, capture: Snapshot, waived: seq<Finding>, current: seq<FindingKeys>,
                          metrics: seq<Metric>, stored: Stored)
  {
    var ids, out := Prints(stored.accepted), Reanchored(capture, waived, stored);
    && r.kept == |out.accepted|
    && multiset(r.dropped) == multiset(Unmatched(stored.accepted, Prints(out.accepted)))
    && multiset(r.notAccepted) == multiset(Unaccepted(current, ids))
    && r.worsened == Worsened(metrics, stored.metrics) && r.unmeasured == Unmeasured(metrics, stored.metrics)
    && match capture.state
       case None => r.droppedSeams == [] && r.newSeams == []
       case Some(st) =>
         && r.droppedSeams == SortBy(Pick(stored.seams, SetOf(st.seams), false), StrLe)
         && r.newSeams == SortBy(Pick(st.seams, SetOf(stored.seams), false), StrLe)
  }

  // ---- The method ----

  predicate ByFingerprint(a: Finding, b: Finding) {
    StrLe(a.fingerprint, b.fingerprint)
  }

  predicate ById(a: Edge, b: Edge) {
    StrLe(a.id, b.id)
  }

  lemma {:induction false} SortByKeys(dropped: seq<Finding>, edges: seq<Edge>)
    ensures Sorted(SortBy(dropped, ByFingerprint), ByFingerprint) && Sorted(SortBy(edges, ById), ById)
  {
    StrLeTotalOrder();
    SortBySorts(dropped, ByFingerprint);
    SortBySorts(edges, ById);
  }

  method Run(capture: Snapshot, waived: seq<Finding>, current: seq<FindingKeys>, metrics: seq<Metric>, stored: Stored,
             drift: seq<string>)
    returns (out: Snapshot, rep: Report)
    ensures out == Reanchored(capture, waived, stored)
    ensures Reports(rep, capture, waived, current, metrics, stored) && rep.drift == drift
    ensures Sorted(rep.dropped, ByFingerprint) && Sorted(rep.notAccepted, ById)
    ensures SavesFile(capture, waived, stored, out) && TellsAll(rep, capture, waived, current, metrics, stored)
  {
    var storedIDs := Prints(stored.accepted);
    var accepted, matched := KeepStored(capture.accepted + waived, storedIDs);
    var notAccepted := ListUnaccepted(current, storedIDs);
    var dropped := ListDropped(stored.accepted, matched);
    var state, droppedSeams, newSeams := None, [], [];
    if capture.state.Some? {
      var kept;
      kept, droppedSeams, newSeams := CompareSeams(capture.state.value.seams, stored.seams);
      state := Some(capture.state.value.(seams := kept));
    }
    var worsened, unmeasured := CompareMetrics(metrics, stored.metrics);
    SortByKeys(dropped, notAccepted);
    out := Snapshot(accepted, state, capture.metrics);
    rep := Report(|accepted|, SortBy(dropped, ByFingerprint), SortBy(notAccepted, ById), droppedSeams, newSeams,
                  worsened, unmeasured, drift);
    FileIsSaved(capture, waived, stored);
    ReportTellsAll(rep, capture, waived, current, metrics, stored);
  }

  method KeepStored(observed: seq<Finding>, stored: set<string>) returns (accepted: seq<Finding>, matched: set<string>)
    ensures accepted == Keep(observed, stored) && matched == Prints(accepted)
  {
    accepted, matched := [], {};
    for i := 0 to |observed|
      invariant accepted == Keep(observed[..i], stored) && matched == Prints(accepted)
    {
      assert observed[..i + 1][..i] == observed[..i];
      if observed[i].fingerprint in stored && observed[i].fingerprint !in matched {
        assert Prints(accepted + [observed[i]]) == Prints(accepted) + {observed[i].fingerprint};
        accepted := accepted + [observed[i]];
        matched := matched + {observed[i].fingerprint};
      }
    }
    assert observed[..|observed|] == observed;
  }

  method ListDropped(stored: seq<Finding>, matched: set<string>) returns (dropped: seq<Finding>)
    ensures dropped == Unmatched(stored, matched)
  {
    dropped := [];
    for i := 0 to |stored|
      invariant dropped == Unmatched(stored[..i], matched)
    {
      assert stored[..i + 1][..i] == stored[..i];
      if stored[i].fingerprint !in matched { dropped := dropped + [stored[i]]; }
    }
    assert stored[..|stored|] == stored;
  }

  /** The current seams that were stored, and what is gone and new, sorted. */
  method CompareSeams(now: seq<string>, stored: seq<string>)
    returns (kept: seq<string>, gone: seq<string>, added: seq<string>)
    ensures kept == Pick(now, SetOf(stored), true)
    ensures gone == SortBy(Pick(stored, SetOf(now), false), StrLe)
    ensures added == SortBy(Pick(now, SetOf(stored), false), StrLe)
  {
    kept, added := Split(now, SetOf(stored));
    var _, missing := Split(stored, SetOf(now));
    gone, added := SortBy(missing, StrLe), SortBy(added, StrLe);
  }

  method ListUnaccepted(current: seq<FindingKeys>, stored: set<string>) returns (edges: seq<Edge>)
    ensures edges == Unaccepted(current, stored)
  {
    edges := [];
    for i := 0 to |current|
      invariant edges == Unaccepted(current[..i], stored)
    {
      assert current[..i + 1][..i] == current[..i];
      var f := current[i];
      for j := 0 to |f.keys|
        invariant edges == Unaccepted(current[..i], stored) + KeysOutside(f.edge, f.keys[..j], stored)
      {
        assert f.keys[..j + 1][..j] == f.keys[..j];
        if f.keys[j] !in stored { edges := edges + [f.edge.(id := f.keys[j])]; }
      }
      assert f.keys[..|f.keys|] == f.keys;
    }
    assert current[..|current|] == current;
  }

  method Split(ids: seq<string>, s: set<string>) returns (inside: seq<string>, outside: seq<string>)
    ensures inside == Pick(ids, s, true) && outside == Pick(ids, s, false)
  {
    inside, outside := [], [];
    for i := 0 to |ids|
      invariant inside == Pick(ids[..i], s, true) && outside == Pick(ids[..i], s, false)
    {
      assert ids[..i + 1][..i] == ids[..i];
      if ids[i] in s { inside := inside + [ids[i]]; } else { outside := outside + [ids[i]]; }
    }
    assert ids[..|ids|] == ids;
  }

  method CompareMetrics(metrics: seq<Metric>, stored: map<string, StoredMetric>)
    returns (worsened: seq<Change>, unmeasured: seq<string>)
    ensures worsened == Worsened(metrics, stored) && unmeasured == Unmeasured(metrics, stored)
  {
    worsened, unmeasured := [], [];
    for i := 0 to |metrics|
      invariant worsened == Worsened(metrics[..i], stored) && unmeasured == Unmeasured(metrics[..i], stored)
    {
      var m := metrics[i];
      assert metrics[..i + 1][..i] == metrics[..i];
      if m.name !in stored {
        continue;
      }
      if !m.measured {
        unmeasured := unmeasured + [m.name];
        continue;
      }
      if stored[m.name].version != m.version || m.direction == NoDirection {
        continue;
      }
      if Worse(m.direction, stored[m.name].value, m.value) {
        worsened := worsened + [Change(m.name, stored[m.name].value, m.value)];
      }
    }
    assert metrics[..|metrics|] == metrics;
  }

  // ---- A ratchet ----

  ghost predicate DistinctPrints(findings: seq<Finding>) {
    forall i, j :: 0 <= i < j < |findings| ==> findings[i].fingerprint != findings[j].fingerprint
  }

  /** A fingerprint is kept exactly when it was stored and is seen again, waived or not, and once. */
  lemma {:induction false} KeepsExactly(observed: seq<Finding>, stored: set<string>)
    ensures Prints(Keep(observed, stored)) == Prints(observed) * stored
    ensures DistinctPrints(Keep(observed, stored))
    ensures forall f :: f in Keep(observed, stored) ==> f in observed
  {
    if |observed| != 0 {
      var last := |observed| - 1;
      assert observed == observed[..last] + [observed[last]];
      KeepsExactly(observed[..last], stored);
      var before := Keep(observed[..last], stored);
      assert Prints(observed) == Prints(observed[..last]) + {observed[last].fingerprint};
      assert Prints(before + [observed[last]]) == Prints(before) + {observed[last].fingerprint};
      forall i | 0 <= i < |before| ensures before[i].fingerprint in Prints(before) { assert before[i] in before; }
    }
  }

  lemma {:induction false} UnmatchedExactly(stored: seq<Finding>, matched: set<string>)
    ensures Prints(Unmatched(stored, matched)) == Prints(stored) - matched
    ensures forall f :: f in Unmatched(stored, matched) <==> f in stored && f.fingerprint !in matched
  {
    if |stored| != 0 {
      var last := |stored| - 1;
      assert stored == stored[..last] + [stored[last]];
      UnmatchedExactly(stored[..last], matched);
    }
  }

  /** The stored debt is split: each fingerprint is either kept or reported as dropped, never both. */
  lemma {:induction false} AcceptedIsPartitioned(capture: Snapshot, waived: seq<Finding>, current: seq<FindingKeys>,
                                                 metrics: seq<Metric>, stored: Stored, r: Report)
    requires Reports(r, capture, waived, current, metrics, stored)
    ensures var kept, dropped := Prints(Reanchored(capture, waived, stored).accepted), Prints(r.dropped);
            kept + dropped == Prints(stored.accepted) && kept * dropped == {}
    ensures forall f :: f in r.dropped <==> f in stored.accepted && f.fingerprint !in Prints(capture.accepted + waived)
  {
    var out := Reanchored(capture, waived, stored);
    var unmatched := Unmatched(stored.accepted, Prints(out.accepted));
    KeepsExactly(capture.accepted + waived, Prints(stored.accepted));
    UnmatchedExactly(stored.accepted, Prints(out.accepted));
    forall f ensures f in r.dropped <==> f in unmatched {
      assert f in multiset(r.dropped) <==> f in multiset(unmatched);
    }
  }

  /** e stands for a key of the finding that was not accepted. */
  ghost predicate Unstored(f: FindingKeys, stored: set<string>, e: Edge) {
    exists k :: k in f.keys && k !in stored && e == f.edge.(id := k)
  }

  /** What is listed as not accepted are exactly the current edges the stored file did not accept. */
  lemma {:induction false} UnacceptedExactly(current: seq<FindingKeys>, stored: set<string>)
    ensures forall e :: e in Unaccepted(current, stored) <==> exists f :: f in current && Unstored(f, stored, e)
  {
    if |current| != 0 {
      var last := |current| - 1;
      var f := current[last];
      assert current == current[..last] + [f];
      UnacceptedExactly(current[..last], stored);
      KeysOutsideExactly(f.edge, f.keys, stored);
      assert forall x :: x in current <==> x in current[..last] || x == f;
    }
  }

  lemma {:induction false} KeysOutsideExactly(edge: Edge, keys: seq<string>, stored: set<string>)
    ensures forall e :: e in KeysOutside(edge, keys, stored) <==> Unstored(FindingKeys(edge, keys), stored, e)
  {
    if |keys| != 0 {
      var last := |keys| - 1;
      assert keys == keys[..last] + [keys[last]];
      KeysOutsideExactly(edge, keys[..last], stored);
      forall e
        ensures Unstored(FindingKeys(edge, keys), stored, e) <==>
                Unstored(FindingKeys(edge, keys[..last]), stored, e)
                || (keys[last] !in stored && e == edge.(id := keys[last]))
      {
        if Unstored(FindingKeys(edge, keys[..last]), stored, e) {
          var k :| k in keys[..last] && k !in stored && e == edge.(id := k);
          assert k in keys;
        }
        assert keys[last] in keys;
      }
    }
  }

  lemma {:induction false} PickExactly(ids: seq<string>, s: set<string>, inside: bool)
    ensures forall x :: x in Pick(ids, s, inside) <==> x in ids && (x in s) == inside
    ensures multiset(Pick(ids, s, true)) + multiset(Pick(ids, s, false)) == multiset(ids)
  {
    if |ids| != 0 {
      var last := |ids| - 1;
      assert ids == ids[..last] + [ids[last]];
      PickExactly(ids[..last], s, inside);
    }
  }

  /** Every current seam is kept or reported as new, with its multiplicity. */
  lemma {:induction false} SeamsArePartitioned(capture: Snapshot, waived: seq<Finding>, current: seq<FindingKeys>,
                                               metrics: seq<Metric>, stored: Stored, r: Report)
    requires Reports(r, capture, waived, current, metrics, stored) && capture.state.Some?
    ensures multiset(Reanchored(capture, waived, stored).state.value.seams) + multiset(r.newSeams)
            == multiset(capture.state.value.seams)
  {
    PickExactly(capture.state.value.seams, SetOf(stored.seams), true);
  }

  /** Every stored seam is kept or reported as dropped, never both. The one caller always captures a
      state. */
  lemma {:induction false} StoredSeamsArePartitioned(capture: Snapshot, waived: seq<Finding>, current: seq<FindingKeys>,
                                                     metrics: seq<Metric>, stored: Stored, r: Report)
    requires Reports(r, capture, waived, current, metrics, stored) && capture.state.Some?
    ensures var kept, dropped := SetOf(Reanchored(capture, waived, stored).state.value.seams), SetOf(r.droppedSeams);
            && kept + dropped == SetOf(stored.seams) && kept * dropped == {}
            && kept == SetOf(capture.state.value.seams) * SetOf(stored.seams)
  {
    hide SetOf, Pick, Keep, Unmatched, Unaccepted, Worsened, Unmeasured, SortBy;
    KeptSeams(capture.state.value.seams, stored.seams);
    GoneSeams(capture.state.value.seams, stored.seams);
  }

  lemma KeptSeams(now: seq<string>, stored: seq<string>)
    ensures SetOf(Pick(now, SetOf(stored), true)) == SetOf(now) * SetOf(stored)
  {
    PickExactly(now, SetOf(stored), true);
  }

  lemma {:induction false} GoneSeams(now: seq<string>, stored: seq<string>)
    ensures SetOf(SortBy(Pick(stored, SetOf(now), false), StrLe)) == SetOf(stored) - SetOf(now)
  {
    PickExactly(stored, SetOf(now), false);
    SortByMembers(Pick(stored, SetOf(now), false), StrLe);
  }

  /** Taken alone, whatever its capture: every stored seam is kept or reported as dropped exactly when the
      capture has a state to keep them in, or there are none: without one they go unreported. */
  lemma {:induction false} StoredSeamsAreAccountedFor(capture: Snapshot, waived: seq<Finding>,
                                                      current: seq<FindingKeys>, metrics: seq<Metric>, stored: Stored,
                                                      r: Report)
    requires Reports(r, capture, waived, current, metrics, stored)
    ensures SetOf(stored.seams) == SetOf(StoredFrom(Reanchored(capture, waived, stored)).seams) + SetOf(r.droppedSeams)
            <==> capture.state.Some? || stored.seams == []
  {
    hide Pick, Keep, Unmatched, Unaccepted, Worsened, Unmeasured, SortBy;
    if capture.state.Some? {
      KeptSeams(capture.state.value.seams, stored.seams);
      GoneSeams(capture.state.value.seams, stored.seams);
    } else if stored.seams != [] {
      assert stored.seams[0] in SetOf(stored.seams);
    }
  }

  /** Which way a rise counts: against the code, for it, or neither. */
  function Weight(d: Direction): real {
    match d case HigherIsWorse => 1.0 case LowerIsWorse => -1.0 case NoDirection => 0.0
  }

  /** Measured both times by one version of the metric, and further the wrong way now. */
  ghost predicate Regressed(m: Metric, stored: map<string, StoredMetric>) {
    && m.measured && m.name in stored && stored[m.name].version == m.version
    && Weight(m.direction) * (m.value - stored[m.name].value) > 0.0
  }

  /** The worsened metrics are those that regressed; a stored one that is not measured now is told apart. */
  lemma {:induction false} MetricsAreCompared(metrics: seq<Metric>, stored: map<string, StoredMetric>)
    ensures forall c :: c in Worsened(metrics, stored) <==>
              exists m :: m in metrics && Regressed(m, stored) && c == Change(m.name, stored[m.name].value, m.value)
    ensures forall name ::
              name in Unmeasured(metrics, stored)
              <==> name in stored && exists m :: m in metrics && m.name == name && !m.measured
  {
    if |metrics| != 0 {
      var last := |metrics| - 1;
      assert metrics == metrics[..last] + [metrics[last]];
      MetricsAreCompared(metrics[..last], stored);
      assert forall m :: m in metrics <==> m in metrics[..last] || m == metrics[last];
    }
  }

  // ---- The file and the report ----

  /** f is the first of the findings with its fingerprint. */
  ghost predicate IsFirst(findings: seq<Finding>, f: Finding) {
    exists i :: 0 <= i < |findings| && findings[i] == f
                && forall j :: 0 <= j < i ==> findings[j].fingerprint != f.fingerprint
  }

  /** ids holds the members of all that are in s, or those that are not, as often as all does. */
  ghost predicate IsPart(ids: seq<string>, all: seq<string>, s: set<string>, inside: bool) {
    forall id :: multiset(ids)[id] == if (id in s) == inside then multiset(all)[id] else 0
  }

  /** The file saved: what the stored file accepted and is seen again, each once; the seams it had of the
      current ones; everything else as captured now. */
  ghost predicate SavesFile(capture: Snapshot, waived: seq<Finding>, stored: Stored, out: Snapshot) {
    var observed := capture.accepted + waived;
    && DistinctPrints(out.accepted)
    && (forall f :: f in out.accepted <==> f.fingerprint in Prints(stored.accepted) && IsFirst(observed, f))
    && out.metrics == capture.metrics
    && (out.state.Some? <==> capture.state.Some?)
    && (out.state.Some? ==>
          && out.state.value.hashes == capture.state.value.hashes
          && IsPart(out.state.value.seams, capture.state.value.seams, SetOf(stored.seams), true))
  }

  /** A finding's edge for each of its keys. */
  function EdgesOf(edge: Edge, keys: seq<string>): seq<Edge> {
    seq(|keys|, j requires 0 <= j < |keys| => edge.(id := keys[j]))
  }

  function AllEdges(current: seq<FindingKeys>): seq<Edge> {
    if |current| == 0 then []
    else
      var f := current[|current| - 1];
      AllEdges(current[..|current| - 1]) + EdgesOf(f.edge, f.keys)
  }

  /** The metric regressed, by this change. */
  ghost predicate RegressedBy(m: Metric, stored: map<string, StoredMetric>, c: Change) {
    Regressed(m, stored) && c == Change(m.name, stored[m.name].value, m.value)
  }

  /** A stored metric of this name is not measured now. */
  ghost predicate NotMeasured(m: Metric, stored: map<string, StoredMetric>, name: string) {
    name in stored && m.name == name && !m.measured
  }

  ghost function WorsePlaces(metrics: seq<Metric>, stored: map<string, StoredMetric>, c: Change): set<nat> {
    set i: nat | i < |metrics| && RegressedBy(metrics[i], stored, c)
  }

  ghost function UnmeasuredPlaces(metrics: seq<Metric>, stored: map<string, StoredMetric>, name: string): set<nat> {
    set i: nat | i < |metrics| && NotMeasured(metrics[i], stored, name)
  }

  /** The report: how much was kept, and of the rest what is gone, what is new, what got worse and what
      is no longer measured. */
  ghost predicate TellsAll(r: Report, capture: Snapshot, waived: seq<Finding>, current: seq<FindingKeys>,
                           metrics: seq<Metric>, stored: Stored)
  {
    var ids, seen := Prints(stored.accepted), Prints(capture.accepted + waived);
    && r.kept == |ids * seen|
    && (forall f :: multiset(r.dropped)[f] == if f.fingerprint in seen then 0 else multiset(stored.accepted)[f])
    && (forall e :: multiset(r.notAccepted)[e] == if e.id in ids then 0 else multiset(AllEdges(current))[e])
    && (forall c :: multiset(r.worsened)[c] == |WorsePlaces(metrics, stored.metrics, c)|)
    && (forall name :: multiset(r.unmeasured)[name] == |UnmeasuredPlaces(metrics, stored.metrics, name)|)
    && (capture.state.None? ==> r.droppedSeams == [] && r.newSeams == [])
    && (capture.state.Some? ==>
          var seams := capture.state.value.seams;
          && IsPart(r.droppedSeams, stored.seams, SetOf(seams), false) && Sorted(r.droppedSeams, StrLe)
          && IsPart(r.newSeams, seams, SetOf(stored.seams), false) && Sorted(r.newSeams, StrLe))
  }

  lemma {:induction false} KeepIsFirst(observed: seq<Finding>, stored: set<string>)
    ensures forall f :: f in Keep(observed, stored) <==> f.fingerprint in stored && IsFirst(observed, f)
  {
    if |observed| != 0 {
      var last := |observed| - 1;
      var before := observed[..last];
      KeepIsFirst(before, stored);
      KeepsExactly(before, stored);
      forall f ensures IsFirst(observed, f) <==>
                       IsFirst(before, f) || (f == observed[last] && f.fingerprint !in Prints(before))
      {
        LastIsFirst(observed, f);
      }
    }
  }

  lemma {:induction false} LastIsFirst(observed: seq<Finding>, f: Finding)
    requires |observed| != 0
    ensures var last := |observed| - 1;
            IsFirst(observed, f) <==>
            IsFirst(observed[..last], f) || (f == observed[last] && f.fingerprint !in Prints(observed[..last]))
  {
    var last := |observed| - 1;
    var before := observed[..last];
    assert observed == before + [observed[last]];
    if i :| 0 <= i < |before| && before[i] == f && forall j :: 0 <= j < i ==> before[j].fingerprint != f.fingerprint {
      assert observed[i] == f;
    }
    if f == observed[last] && f.fingerprint !in Prints(before) {
      forall j | 0 <= j < last ensures observed[j].fingerprint != f.fingerprint { assert before[j] in before; }
    }
    if i :| 0 <= i < |observed| && observed[i] == f
            && forall j :: 0 <= j < i ==> observed[j].fingerprint != f.fingerprint {
      if i < last {
        assert before[i] == f;
      } else {
        forall g | g in before ensures g.fingerprint != f.fingerprint {
          var j :| 0 <= j < |before| && before[j] == g;
          assert observed[j] == g;
        }
      }
    }
  }

  lemma {:induction false} KeptOften(findings: seq<Finding>, stored: set<string>)
    requires DistinctPrints(findings) && Prints(findings) == stored
    ensures |findings| == |stored|
  {
    if |findings| != 0 {
      var last := |findings| - 1;
      var id := findings[last].fingerprint;
      assert findings == findings[..last] + [findings[last]];
      assert id in Prints(findings);
      forall f | f in findings[..last] ensures f.fingerprint != id {
        var i :| 0 <= i < last && findings[i] == f;
      }
      assert Prints(findings[..last]) == stored - {id};
      KeptOften(findings[..last], stored - {id});
    }
  }

  lemma {:induction false} UnmatchedOften(stored: seq<Finding>, matched: set<string>, f: Finding)
    ensures multiset(Unmatched(stored, matched))[f] == if f.fingerprint in matched then 0 else multiset(stored)[f]
  {
    if |stored| != 0 {
      var last := |stored| - 1;
      assert stored == stored[..last] + [stored[last]];
      UnmatchedOften(stored[..last], matched, f);
    }
  }

  lemma {:induction false} PickIsPart(ids: seq<string>, s: set<string>, inside: bool)
    ensures IsPart(Pick(ids, s, inside), ids, s, inside)
  {
    if |ids| != 0 {
      var last := |ids| - 1;
      assert ids == ids[..last] + [ids[last]];
      PickIsPart(ids[..last], s, inside);
    }
  }

  lemma {:induction false} SortedPart(ids: seq<string>, s: set<string>)
    ensures IsPart(SortBy(Pick(ids, s, false), StrLe), ids, s, false)
    ensures Sorted(SortBy(Pick(ids, s, false), StrLe), StrLe)
  {
    hide Pick;
    StrLeTotalOrder();
    PickIsPart(ids, s, false);
    SortBySorts(Pick(ids, s, false), StrLe);
  }

  /** The file of a re-anchor, told from the measurement and the stored file. */
  lemma {:induction false} FileIsSaved(capture: Snapshot, waived: seq<Finding>, stored: Stored)
    ensures SavesFile(capture, waived, stored, Reanchored(capture, waived, stored))
  {
    hide Keep, Pick, IsFirst, IsPart;
    KeepsExactly(capture.accepted + waived, Prints(stored.accepted));
    KeepIsFirst(capture.accepted + waived, Prints(stored.accepted));
    if capture.state.Some? { PickIsPart(capture.state.value.seams, SetOf(stored.seams), true); }
  }

  lemma {:induction false} DroppedOften(r: Report, capture: Snapshot, waived: seq<Finding>, current: seq<FindingKeys>,
                                        metrics: seq<Metric>, stored: Stored)
    requires Reports(r, capture, waived, current, metrics, stored)
    ensures forall f :: multiset(r.dropped)[f] ==
                        if f.fingerprint in Prints(capture.accepted + waived) then 0 else multiset(stored.accepted)[f]
  {
    hide Keep, Pick, Unmatched, Unaccepted, Worsened, Unmeasured, SortBy;
    var observed, ids := capture.accepted + waived, Prints(stored.accepted);
    var kept := Prints(Reanchored(capture, waived, stored).accepted);
    KeepsExactly(observed, ids);
    forall f
      ensures multiset(r.dropped)[f] == if f.fingerprint in Prints(observed) then 0 else multiset(stored.accepted)[f]
    {
      UnmatchedOften(stored.accepted, kept, f);
      if f in multiset(stored.accepted) { assert f in stored.accepted && f.fingerprint in ids; }
    }
  }

  lemma {:induction false} OutsideOften(edge: Edge, keys: seq<string>, stored: set<string>, e: Edge)
    ensures multiset(KeysOutside(edge, keys, stored))[e] ==
            if e.id in stored then 0 else multiset(EdgesOf(edge, keys))[e]
  {
    if |keys| != 0 {
      var last := |keys| - 1;
      OutsideOften(edge, keys[..last], stored, e);
      assert EdgesOf(edge, keys) == EdgesOf(edge, keys[..last]) + [edge.(id := keys[last])];
    }
  }

  lemma {:induction false} UnacceptedOften(current: seq<FindingKeys>, stored: set<string>, e: Edge)
    ensures multiset(Unaccepted(current, stored))[e] == if e.id in stored then 0 else multiset(AllEdges(current))[e]
  {
    hide KeysOutside, EdgesOf;
    if |current| != 0 {
      var last := |current| - 1;
      UnacceptedOften(current[..last], stored, e);
      OutsideOften(current[last].edge, current[last].keys, stored, e);
    }
  }

  lemma WorsePlacesStep(metrics: seq<Metric>, stored: map<string, StoredMetric>, c: Change)
    requires |metrics| != 0
    ensures var last := |metrics| - 1;
            |WorsePlaces(metrics, stored, c)| ==
            |WorsePlaces(metrics[..last], stored, c)| + if RegressedBy(metrics[last], stored, c) then 1 else 0
  {
    hide RegressedBy;
    var last := |metrics| - 1;
    var before := WorsePlaces(metrics[..last], stored, c);
    assert WorsePlaces(metrics, stored, c) == if RegressedBy(metrics[last], stored, c) then before + {last} else before;
  }

  lemma WorsenedStep(metrics: seq<Metric>, stored: map<string, StoredMetric>)
    requires |metrics| != 0
    ensures var last := |metrics| - 1;
            var m := metrics[last];
            Worsened(metrics, stored) == Worsened(metrics[..last], stored)
                                         + if Regressed(m, stored) then [Change(m.name, stored[m.name].value, m.value)]
                                           else []
  {
  }

  lemma {:induction false} WorsenedOften(metrics: seq<Metric>, stored: map<string, StoredMetric>, c: Change)
    ensures multiset(Worsened(metrics, stored))[c] == |WorsePlaces(metrics, stored, c)|
  {
    if |metrics| != 0 {
      hide Worsened, WorsePlaces;
      WorsenedOften(metrics[..|metrics| - 1], stored, c);
      WorsenedStep(metrics, stored);
      WorsePlacesStep(metrics, stored, c);
    }
  }

  lemma UnmeasuredPlacesStep(metrics: seq<Metric>, stored: map<string, StoredMetric>, name: string)
    requires |metrics| != 0
    ensures var last := |metrics| - 1;
            |UnmeasuredPlaces(metrics, stored, name)| ==
            |UnmeasuredPlaces(metrics[..last], stored, name)|
            + if NotMeasured(metrics[last], stored, name) then 1 else 0
  {
    hide NotMeasured;
    var last := |metrics| - 1;
    var before := UnmeasuredPlaces(metrics[..last], stored, name);
    assert UnmeasuredPlaces(metrics, stored, name)
           == if NotMeasured(metrics[last], stored, name) then before + {last} else before;
  }

  lemma {:induction false} UnmeasuredOften(metrics: seq<Metric>, stored: map<string, StoredMetric>, name: string)
    ensures multiset(Unmeasured(metrics, stored))[name] == |UnmeasuredPlaces(metrics, stored, name)|
  {
    if |metrics| != 0 {
      hide UnmeasuredPlaces;
      UnmeasuredOften(metrics[..|metrics| - 1], stored, name);
      UnmeasuredPlacesStep(metrics, stored, name);
    }
  }

  lemma {:induction false} NotAcceptedExactly(r: Report, capture: Snapshot, waived: seq<Finding>,
                                              current: seq<FindingKeys>, metrics: seq<Metric>, stored: Stored)
    requires Reports(r, capture, waived, current, metrics, stored)
    ensures forall e :: e in r.notAccepted <==> exists f :: f in current && Unstored(f, Prints(stored.accepted), e)
  {
    hide Keep, Pick, Unmatched, Unaccepted, Worsened, Unmeasured, SortBy;
    var ids := Prints(stored.accepted);
    UnacceptedExactly(current, ids);
    forall e ensures e in r.notAccepted <==> e in Unaccepted(current, ids) {
      assert e in multiset(r.notAccepted) <==> e in multiset(Unaccepted(current, ids));
    }
  }

  lemma {:induction false} MetricsAreTold(r: Report, capture: Snapshot, waived: seq<Finding>,
                                          current: seq<FindingKeys>, metrics: seq<Metric>, stored: Stored)
    requires Reports(r, capture, waived, current, metrics, stored)
    ensures forall c :: c in r.worsened <==> exists m :: m in metrics && RegressedBy(m, stored.metrics, c)
    ensures forall name :: name in r.unmeasured <==> exists m :: m in metrics && NotMeasured(m, stored.metrics, name)
  {
    hide Keep, Pick, Unmatched, Unaccepted, Worsened, Unmeasured, SortBy, Regressed;
    MetricsAreCompared(metrics, stored.metrics);
  }

  /** The report of a re-anchor, told from the measurement and the stored file. */
  lemma {:induction false} ReportTellsAll(r: Report, capture: Snapshot, waived: seq<Finding>, current: seq<FindingKeys>,
                                          metrics: seq<Metric>, stored: Stored)
    requires Reports(r, capture, waived, current, metrics, stored)
    ensures TellsAll(r, capture, waived, current, metrics, stored)
  {
    hide Keep, Pick, IsPart, Unmatched, Unaccepted, Worsened, Unmeasured, SortBy, Sorted;
    hide AllEdges, WorsePlaces, UnmeasuredPlaces;
    var observed, ids := capture.accepted + waived, Prints(stored.accepted);
    var out := Reanchored(capture, waived, stored);
    KeepsExactly(observed, ids);
    KeptOften(out.accepted, Prints(observed) * ids);
    assert Prints(observed) * ids == ids * Prints(observed);
    DroppedOften(r, capture, waived, current, metrics, stored);
    forall e ensures multiset(r.notAccepted)[e] == if e.id in ids then 0 else multiset(AllEdges(current))[e] {
      UnacceptedOften(current, ids, e);
    }
    forall c ensures multiset(r.worsened)[c] == |WorsePlaces(metrics, stored.metrics, c)| {
      WorsenedOften(metrics, stored.metrics, c);
    }
    forall name ensures multiset(r.unmeasured)[name] == |UnmeasuredPlaces(metrics, stored.metrics, name)| {
      UnmeasuredOften(metrics, stored.metrics, name);
    }
    if capture.state.Some? {
      SortedPart(stored.seams, SetOf(capture.state.value.seams));
      SortedPart(capture.state.value.seams, SetOf(stored.seams));
    }
  }

  // ---- Over many re-anchors ----

  /** One after the other, each on the file the last one saved. */
  ghost predicate Chain(stored: seq<Stored>, captures: seq<Snapshot>, waived: seq<seq<Finding>>) {
    && |stored| == |captures| + 1 && |waived| == |captures|
    && forall i :: 0 <= i < |captures| ==> stored[i + 1] == StoredFrom(Reanchored(captures[i], waived[i], stored[i]))
  }

  /** Accepted debt and qualifying seams only ever shrink; what was dropped never comes back. */
  lemma {:induction false} DebtNeverGrows(stored: seq<Stored>, captures: seq<Snapshot>, waived: seq<seq<Finding>>,
                                          i: nat, j: nat)
    requires Chain(stored, captures, waived) && i <= j < |stored|
    ensures Prints(stored[j].accepted) <= Prints(stored[i].accepted)
    ensures SetOf(stored[j].seams) <= SetOf(stored[i].seams)
    decreases j - i
  {
    if i < j {
      DebtNeverGrows(stored, captures, waived, i, j - 1);
      var before := stored[j - 1];
      KeepsExactly(captures[j - 1].accepted + waived[j - 1], Prints(before.accepted));
      if captures[j - 1].state.Some? { PickExactly(captures[j - 1].state.value.seams, SetOf(before.seams), true); }
    }
  }

  lemma DroppedNeverReturns(stored: seq<Stored>, captures: seq<Snapshot>, waived: seq<seq<Finding>>, i: nat, j: nat,
                            k: nat, x: string)
    requires Chain(stored, captures, waived) && i < j <= k < |stored|
    requires x in Prints(stored[i].accepted) && x !in Prints(stored[j].accepted)
    ensures x !in Prints(stored[k].accepted)
  {
    DebtNeverGrows(stored, captures, waived, j, k);
  }

  lemma {:induction false} KeepAgain(observed: seq<Finding>, stored: set<string>, later: set<string>)
    requires Prints(Keep(observed, stored)) <= later <= stored
    ensures Keep(observed, later) == Keep(observed, stored)
  {
    if |observed| != 0 {
      var last := |observed| - 1;
      var before := Keep(observed[..last], stored);
      if observed[last].fingerprint in stored && observed[last].fingerprint !in Prints(before) {
        assert Prints(before + [observed[last]]) == Prints(before) + {observed[last].fingerprint};
      }
      KeepAgain(observed[..last], stored, later);
    }
  }

  lemma {:induction false} PickAgain(ids: seq<string>, s: set<string>, later: set<string>)
    requires SetOf(Pick(ids, s, true)) <= later <= s
    ensures Pick(ids, later, true) == Pick(ids, s, true)
  {
    if |ids| != 0 {
      var last := |ids| - 1;
      var before := Pick(ids[..last], s, true);
      if ids[last] in s {
        assert ids[last] in before + [ids[last]];
        assert forall x :: x in before ==> x in before + [ids[last]];
      } else {
        assert Pick(ids, s, true) == before;
      }
      PickAgain(ids[..last], s, later);
    }
  }

  /** Re-anchoring on its own output keeps the same file and drops nothing. */
  lemma {:induction false} RepeatChangesNothing(capture: Snapshot, waived: seq<Finding>, current: seq<FindingKeys>,
                                                metrics: seq<Metric>, stored: Stored, r: Report)
    requires Reports(r, capture, waived, current, metrics, StoredFrom(Reanchored(capture, waived, stored)))
    ensures var out := Reanchored(capture, waived, stored);
            Reanchored(capture, waived, StoredFrom(out)) == out && r.dropped == [] && r.droppedSeams == []
  {
    var observed, out := capture.accepted + waived, Reanchored(capture, waived, stored);
    KeepsExactly(observed, Prints(stored.accepted));
    KeepAgain(observed, Prints(stored.accepted), Prints(out.accepted));
    AcceptedIsPartitioned(capture, waived, current, metrics, StoredFrom(out), r);
    assert Prints(r.dropped) == {};
    assert |r.dropped| == 0 || r.dropped[0].fingerprint in Prints(r.dropped);
    if capture.state.Some? {
      var now := capture.state.value.seams;
      PickExactly(now, SetOf(stored.seams), true);
      PickAgain(now, SetOf(stored.seams), SetOf(out.state.value.seams));
      var gone := Pick(out.state.value.seams, SetOf(now), false);
      PickExactly(out.state.value.seams, SetOf(now), false);
      HeadIsMember(gone);
    }
  }
}
