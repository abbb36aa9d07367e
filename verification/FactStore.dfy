/**
  The fact store (internal/factcache/factcache.go): blobs on disk under a size
  cap, evicted oldest first. The disk is a map from paths to files; what the
  filesystem may do to a call is spelled out in a Weather value.
*/
module FactStore {
  import opened Options
  import opened Orders

  /** A file under the facts tree: an entry, or one a crashed write left behind. */
  datatype Path = Entry(analyzer: string, key: string) | Stray(name: string)

  datatype File<+D> = File(data: D, size: nat, mtime: int)

  type Disk<D> = map<Path, File<D>>

  /** What the filesystem lets one call do. */
  datatype Weather = Weather(now: int, readable: bool, touches: bool, removes: bool, writes: bool,
                             undeletable: set<Path>)

  // ---- Sizes ----

  ghost function Total<D>(disk: Disk<D>): nat
    decreases |disk|
  {
    if disk == map[] then 0
    else
      var p :| p in disk;
      SmallerDisk(disk, p);
      disk[p].size + Total(disk - {p})
  }

  lemma SmallerDisk<D>(disk: Disk<D>, p: Path)
    requires p in disk
    ensures |disk - {p}| < |disk|
  {
    assert (disk - {p}).Keys == disk.Keys - {p};
    assert |disk.Keys| == |disk| && |(disk - {p}).Keys| == |disk - {p}|;
  }

  /** Removing a file takes its size off the total, whichever file it is. */
  lemma {:induction false} TotalWithout<D>(disk: Disk<D>, p: Path)
    requires p in disk
    ensures Total(disk) == disk[p].size + Total(disk - {p})
    decreases |disk|
  {
    var q :| q in disk && Total(disk) == disk[q].size + Total(disk - {q});
    if q != p {
      SmallerDisk(disk, q);
      SmallerDisk(disk, p);
      TotalWithout(disk - {q}, p);
      TotalWithout(disk - {p}, q);
      assert disk - {q} - {p} == disk - {p} - {q};
    }
  }

  // ---- Eviction ----

  function MTime<D>(disk: Disk<D>, p: Path): int {
    if p in disk then disk[p].mtime else 0
  }

  function OlderFirst<D>(disk: Disk<D>): (Path, Path) -> bool {
    (p, q) => MTime(disk, p) <= MTime(disk, q)
  }

  /** All files of the disk, each once, oldest first; files of one age in any order. */
  ghost predicate ByAge<D>(disk: Disk<D>, listing: seq<Path>) {
    && NoDup(listing) && (forall p :: p in listing <==> p in disk)
    && Sorted(listing, OlderFirst(disk))
  }

  /** The files left when the first n of the listing were tried for removal. */
  function After<D>(disk: Disk<D>, listing: seq<Path>, n: nat, undeletable: set<Path>): Disk<D>
    requires n <= |listing|
  {
    map p | p in disk && (p !in listing[..n] || p in undeletable) :: disk[p]
  }

  /** Removal tried oldest first, no further than needed to get down to the target. */
  ghost predicate OldestGone<D>(before: Disk<D>, after: Disk<D>, target: nat, undeletable: set<Path>,
                                listing: seq<Path>, n: nat)
  {
    && ByAge(before, listing) && n <= |listing|
    && after == After(before, listing, n, undeletable)
    && (n == |listing| || Total(after) <= target)
    && (forall i :: 0 <= i < n ==> Total(After(before, listing, i, undeletable)) > target)
  }

  ghost predicate Evicted<D>(before: Disk<D>, after: Disk<D>, cap: nat, target: nat, undeletable: set<Path>) {
    if Total(before) <= cap then after == before
    else exists listing, n :: OldestGone(before, after, target, undeletable, listing, n)
  }

  /** After an eviction pass the store is within the target, or only files that cannot be removed are
      left. When every removal succeeds it is within the cap, and within the target when it had to
      evict at all. */
  lemma EvictedWithinCap<D>(before: Disk<D>, after: Disk<D>, cap: nat, target: nat, undeletable: set<Path>)
    requires Evicted(before, after, cap, target, undeletable) && target <= cap
    ensures Total(before) > cap ==> Total(after) <= target || forall p :: p in after ==> p in undeletable
    ensures undeletable == {} ==> Total(after) <= cap && (Total(before) > cap ==> Total(after) <= target)
  {
    if Total(before) > cap {
      var listing, n :| OldestGone(before, after, target, undeletable, listing, n);
      if n == |listing| {
        assert listing[..n] == listing;
        if undeletable == {} { assert after == map[]; }
      }
    }
  }

  /** Nothing newer is evicted while something older that can be removed stays. */
  lemma EvictedOldestFirst<D>(before: Disk<D>, after: Disk<D>, cap: nat, target: nat, undeletable: set<Path>,
                              gone: Path, kept: Path)
    requires Evicted(before, after, cap, target, undeletable)
    requires gone in before && gone !in after && kept in after && kept !in undeletable
    ensures kept in before && before[gone].mtime <= before[kept].mtime
  {
    assert Total(before) > cap;
    var listing, n :| OldestGone(before, after, target, undeletable, listing, n);
    var g :| 0 <= g < n && listing[..n][g] == gone;
    var j :| 0 <= j < |listing| && listing[j] == kept;
    assert listing[..n][g] == listing[g];
    assert forall x :: 0 <= x < n ==> listing[x] in listing[..n];
    assert OlderFirst(before)(listing[g], listing[j]);
  }

  lemma AfterNone<D>(disk: Disk<D>, listing: seq<Path>, undeletable: set<Path>)
    ensures After(disk, listing, 0, undeletable) == disk
  {
  }

  ghost predicate Newest<D>(before: Disk<D>, after: Disk<D>, last: Path) {
    && last in before && last !in after
    && forall p :: p in before && p !in after ==> before[p].mtime <= before[last].mtime
  }

  /** The place in the listing of the last file that was removed: later tries failed. */
  ghost predicate LastGone(listing: seq<Path>, n: nat, undeletable: set<Path>, i: nat)
    requires n <= |listing|
  {
    i < n && listing[i] !in undeletable && forall j :: i < j < n ==> listing[j] in undeletable
  }

  lemma LastRemovedIsNewest<D>(before: Disk<D>, after: Disk<D>, target: nat, undeletable: set<Path>, listing: seq<Path>,
                               n: nat, i: nat)
    requires OldestGone(before, after, target, undeletable, listing, n) && LastGone(listing, n, undeletable, i)
    ensures Newest(before, after, listing[i])
  {
    var last := listing[i];
    assert last in listing && last == listing[..n][i];
    forall p | p in before && p !in after ensures before[p].mtime <= before[last].mtime {
      var j :| 0 <= j < n && listing[..n][j] == p;
      if j < i { assert OlderFirst(before)(listing[j], listing[i]); }
    }
  }

  lemma {:induction false} FailedTriesKeep<D>(disk: Disk<D>, listing: seq<Path>, i: nat, n: nat, undeletable: set<Path>)
    requires ByAge(disk, listing) && i < n <= |listing| && LastGone(listing, n, undeletable, i)
    ensures listing[i] in After(disk, listing, i, undeletable)
    ensures After(disk, listing, n, undeletable) == After(disk, listing, i, undeletable) - {listing[i]}
  {
    if n > i + 1 { FailedTriesKeep(disk, listing, i, n - 1, undeletable); }
    RemoveNext(disk, listing, n - 1, undeletable);
  }

  lemma LastRemovedWasNeeded<D>(before: Disk<D>, after: Disk<D>, target: nat, undeletable: set<Path>,
                                listing: seq<Path>, n: nat, i: nat)
    requires OldestGone(before, after, target, undeletable, listing, n) && LastGone(listing, n, undeletable, i)
    ensures listing[i] in before && Total(after) + before[listing[i]].size > target
  {
    FailedTriesKeep(before, listing, i, n, undeletable);
    TotalWithout(After(before, listing, i, undeletable), listing[i]);
  }

  lemma {:induction false} SomethingLastGone<D>(disk: Disk<D>, listing: seq<Path>, n: nat, undeletable: set<Path>)
    returns (i: nat)
    requires ByAge(disk, listing) && n <= |listing| && After(disk, listing, n, undeletable) != disk
    ensures LastGone(listing, n, undeletable, i)
  {
    if n == 0 {
      AfterNone(disk, listing, undeletable);
      assert false;
    }
    RemoveNext(disk, listing, n - 1, undeletable);
    if listing[n - 1] !in undeletable {
      i := n - 1;
    } else {
      i := SomethingLastGone(disk, listing, n - 1, undeletable);
    }
  }

  /** The evicted files are a minimal set, whichever removals failed: with the newest of them back the
      store is over the target. */
  lemma {:induction false} EvictedNoMoreThanNeeded<D>(before: Disk<D>, after: Disk<D>, cap: nat, target: nat,
                                                      undeletable: set<Path>)
    requires Evicted(before, after, cap, target, undeletable) && after != before
    ensures exists last :: Newest(before, after, last) && Total(after) + before[last].size > target
  {
    var listing, n :| OldestGone(before, after, target, undeletable, listing, n);
    var i := SomethingLastGone(before, listing, n, undeletable);
    LastRemovedIsNewest(before, after, target, undeletable, listing, n, i);
    LastRemovedWasNeeded(before, after, target, undeletable, listing, n, i);
  }

  // ---- The store ----

  function Touch<D>(disk: Disk<D>, p: Path, now: int): Disk<D>
    requires p in disk
  {
    disk[p := disk[p].(mtime := now)]
  }

  /** What Get answers, and the disk it leaves. */
  function Got<D>(disk: Disk<D>, refresh: bool, p: Path, w: Weather): (Disk<D>, Option<D>) {
    if refresh || p !in disk || !w.readable then (disk, None)
    else (if w.touches then Touch(disk, p, w.now) else disk, Some(disk[p].data))
  }

  /** A write that succeeds, then the eviction pass it triggers. */
  ghost predicate WasPut<D>(before: Disk<D>, after: Disk<D>, cap: nat, target: nat, p: Path, data: D, size: nat,
                            w: Weather)
  {
    if w.writes then Evicted(before[p := File(data, size, w.now)], after, cap, target, w.undeletable)
    else after == before
  }

  /** A hit is an entry that is there and can be read, not in refresh mode; it answers what is stored. Of
      the disk only the time of an entry that was hit changes. */
  ghost predicate Gets<D>(before: Disk<D>, after: Disk<D>, refresh: bool, p: Path, w: Weather, data: Option<D>) {
    && (data.Some? <==> !refresh && p in before && w.readable)
    && (data.Some? ==> data.value == before[p].data)
    && after.Keys == before.Keys
    && (forall q :: q in before ==> after[q].data == before[q].data && after[q].size == before[q].size)
    && forall q :: q in before ==>
         after[q].mtime == if q == p && data.Some? && w.touches then w.now else before[q].mtime
  }

  lemma GetAnswers<D>(disk: Disk<D>, refresh: bool, p: Path, w: Weather)
    ensures Gets(disk, Got(disk, refresh, p, w).0, refresh, p, w, Got(disk, refresh, p, w).1)
  {
  }

  /** A write that succeeds is on the disk as written unless eviction takes it, which it does not while all
      fits under the cap; nothing else is added or changed. */
  lemma PutExactly<D>(before: Disk<D>, after: Disk<D>, cap: nat, target: nat, p: Path, data: D, size: nat, w: Weather)
    requires WasPut(before, after, cap, target, p, data, size, w)
    ensures !w.writes ==> after == before
    ensures w.writes && p in after ==> after[p] == File(data, size, w.now)
    ensures w.writes && Total(before[p := File(data, size, w.now)]) <= cap ==> after.Keys == before.Keys + {p}
    ensures forall q :: q in after && q != p ==> q in before && after[q] == before[q]
  {
    if w.writes {
      var put := before[p := File(data, size, w.now)];
      forall q | q in after ensures q in put && after[q] == put[q] {
        EvictedKeeps(put, after, cap, target, w.undeletable, q);
      }
    }
  }

  lemma SameSizesSameTotal<D>(a: Disk<D>, b: Disk<D>)
    requires a.Keys == b.Keys && forall p :: p in a ==> a[p].size == b[p].size
    ensures Total(a) == Total(b)
    decreases |a|
  {
    if a != map[] {
      var p :| p in a;
      TotalWithout(a, p);
      TotalWithout(b, p);
      SmallerDisk(a, p);
      assert (a - {p}).Keys == (b - {p}).Keys;
      SameSizesSameTotal(a - {p}, b - {p});
    } else {
      assert b == map[];
    }
  }

  /** Reading and removing never make the store larger. A write that succeeds leaves it within the cap,
      however large it was, unless only files that cannot be removed are left. */
  lemma CapIsKept<D>(before: Disk<D>, after: Disk<D>, cap: nat, target: nat, refresh: bool, p: Path, data: D, size: nat,
                     w: Weather)
    requires target <= cap
    ensures after == Got(before, refresh, p, w).0 || after == before - {p} ==> Total(after) <= Total(before)
    ensures WasPut(before, after, cap, target, p, data, size, w) && w.writes ==>
              Total(after) <= cap || forall q :: q in after ==> q in w.undeletable
    ensures WasPut(before, after, cap, target, p, data, size, w) && w.undeletable == {} && Total(before) <= cap ==>
              Total(after) <= cap
  {
    if after == Got(before, refresh, p, w).0 {
      SameSizesSameTotal(before, after);
    } else if after == before - {p} {
      if p in before { TotalWithout(before, p); }
    }
    if WasPut(before, after, cap, target, p, data, size, w) && w.writes {
      EvictedWithinCap(before[p := File(data, size, w.now)], after, cap, target, w.undeletable);
    }
  }

  // ---- Least recently used, over a history ----

  /** The calls a store serves, in any number of runs of the program; drops are removals by anybody. */
  datatype Op<D> =
    | Read(path: Path, refresh: bool, weather: Weather)
    | Write(path: Path, data: D, size: nat, weather: Weather)
    | Drop(path: Path)

  ghost predicate Serves<D>(cap: nat, target: nat, before: Disk<D>, op: Op<D>, after: Disk<D>) {
    match op
    case Read(p, refresh, w) => after == Got(before, refresh, p, w).0
    case Write(p, data, size, w) => WasPut(before, after, cap, target, p, data, size, w)
    case Drop(p) => after == before - {p}
  }

  /** disks[i] is the store before call i. */
  ghost predicate History<D>(cap: nat, target: nat, disks: seq<Disk<D>>, ops: seq<Op<D>>) {
    |disks| == |ops| + 1 && forall i :: 0 <= i < |ops| ==> Serves(cap, target, disks[i], ops[i], disks[i + 1])
  }

  /** The call uses p: a hit on it, or a write of it that succeeds. */
  predicate Uses<D>(before: Disk<D>, op: Op<D>, p: Path) {
    match op
    case Read(q, refresh, w) => q == p && !refresh && p in before && w.readable
    case Write(q, _, _, w) => q == p && w.writes
    case Drop(_) => false
  }

  /** The clock moves between calls, past what was on the disk to begin with, and every hit touches. */
  ghost predicate Clocked<D>(disks: seq<Disk<D>>, ops: seq<Op<D>>)
    requires |disks| == |ops| + 1
  {
    && (forall i :: 0 <= i < |ops| && ops[i].Read? ==> ops[i].weather.touches)
    && (forall i, j :: 0 <= i < j < |ops| && !ops[i].Drop? && !ops[j].Drop? ==> ops[i].weather.now < ops[j].weather.now)
    && (forall p, i :: p in disks[0] && 0 <= i < |ops| && !ops[i].Drop? ==> disks[0][p].mtime < ops[i].weather.now)
  }

  /** The last of the first n calls that used p; -1 when none did. */
  function LastUse<D>(disks: seq<Disk<D>>, ops: seq<Op<D>>, n: nat, p: Path): (i: int)
    requires n <= |ops| < |disks|
    ensures -1 <= i < n && (i >= 0 ==> Uses(disks[i], ops[i], p))
  {
    if n == 0 then -1 else if Uses(disks[n - 1], ops[n - 1], p) then n - 1 else LastUse(disks, ops, n - 1, p)
  }

  /** What is left of a pass is as it was. */
  lemma EvictedKeeps<D>(before: Disk<D>, after: Disk<D>, cap: nat, target: nat, undeletable: set<Path>, p: Path)
    requires Evicted(before, after, cap, target, undeletable) && p in after
    ensures p in before && after[p] == before[p]
  {
    if Total(before) > cap {
      var listing, n :| OldestGone(before, after, target, undeletable, listing, n);
    }
  }

  /** The mtime of a file is the time of its last use. */
  lemma {:induction false} MTimeIsLastUse<D>(cap: nat, target: nat, disks: seq<Disk<D>>, ops: seq<Op<D>>, n: nat,
                                             p: Path)
    requires History(cap, target, disks, ops) && Clocked(disks, ops) && n <= |ops| && p in disks[n]
    ensures var i := LastUse(disks, ops, n, p);
            if i >= 0 then !ops[i].Drop? && disks[n][p].mtime == ops[i].weather.now
            else p in disks[0] && disks[n][p].mtime == disks[0][p].mtime
  {
    if n > 0 {
      var op, before := ops[n - 1], disks[n - 1];
      assert Serves(cap, target, before, op, disks[n - 1 + 1]);
      if op.Write? && op.weather.writes {
        EvictedKeeps(before[op.path := File(op.data, op.size, op.weather.now)], disks[n], cap, target,
                     op.weather.undeletable, p);
      }
      if !Uses(before, op, p) { MTimeIsLastUse(cap, target, disks, ops, n - 1, p); }
    }
  }

  /** Used later means touched later. */
  lemma {:induction false} LaterUseIsNewer<D>(cap: nat, target: nat, disks: seq<Disk<D>>, ops: seq<Op<D>>, n: nat,
                                              p: Path, q: Path)
    requires History(cap, target, disks, ops) && Clocked(disks, ops) && n <= |ops| && p in disks[n] && q in disks[n]
    requires LastUse(disks, ops, n, p) < LastUse(disks, ops, n, q)
    ensures disks[n][p].mtime < disks[n][q].mtime
  {
    MTimeIsLastUse(cap, target, disks, ops, n, p);
    MTimeIsLastUse(cap, target, disks, ops, n, q);
  }

  /** Eviction spares what was used last, over any history: what a write evicts was not used after
      anything it leaves that could have been removed. The file just written is left, or nothing else
      that could be removed is. */
  lemma {:induction false} EvictsLeastRecentlyUsed<D>(cap: nat, target: nat, disks: seq<Disk<D>>, ops: seq<Op<D>>,
                                                      n: nat, gone: Path, kept: Path)
    requires History(cap, target, disks, ops) && Clocked(disks, ops) && n < |ops| && ops[n].Write?
    requires ops[n].weather.writes
    requires gone in disks[n] || gone == ops[n].path
    requires gone !in disks[n + 1] && kept in disks[n + 1] && kept !in ops[n].weather.undeletable
    ensures gone != ops[n].path
    ensures LastUse(disks, ops, n, gone) <= LastUse(disks, ops, n + 1, kept)
  {
    var op := ops[n];
    var put := disks[n][op.path := File(op.data, op.size, op.weather.now)];
    assert Serves(cap, target, disks[n], op, disks[n + 1]);
    EvictedOldestFirst(put, disks[n + 1], cap, target, op.weather.undeletable, gone, kept);
    EvictedKeeps(put, disks[n + 1], cap, target, op.weather.undeletable, kept);
    if kept != op.path {
      MTimeIsLastUse(cap, target, disks, ops, n, kept);
      if gone != op.path && LastUse(disks, ops, n, kept) < LastUse(disks, ops, n, gone) {
        LaterUseIsNewer(cap, target, disks, ops, n, kept, gone);
      }
    }
  }

  /** From the write at i up to call j the entry at p is never gone and never written again. */
  ghost predicate Stays<D>(disks: seq<Disk<D>>, ops: seq<Op<D>>, i: nat, j: nat, p: Path)
    requires i < j <= |ops| < |disks|
  {
    && (forall k :: i < k <= j ==> p in disks[k])
    && forall k :: i < k < j && ops[k].Write? && ops[k].path == p ==> !ops[k].weather.writes
  }

  lemma {:induction false} WrittenStays<D>(cap: nat, target: nat, disks: seq<Disk<D>>, ops: seq<Op<D>>, i: nat, j: nat)
    requires History(cap, target, disks, ops) && i < j <= |ops| && ops[i].Write? && ops[i].weather.writes
    requires Stays(disks, ops, i, j, ops[i].path)
    ensures disks[j][ops[i].path].data == ops[i].data
  {
    var p, n := ops[i].path, j - 1;
    var op := ops[n];
    assert p in disks[n + 1];
    assert Serves(cap, target, disks[n], op, disks[n + 1]);
    if i < n { WrittenStays(cap, target, disks, ops, i, n); }
    if op.Write? { PutExactly(disks[n], disks[n + 1], cap, target, op.path, op.data, op.size, op.weather); }
  }

  /** What was written is served: over any history a hit answers what the last write at that entry wrote,
      and while the entry stays every readable read outside refresh mode is a hit. */
  lemma {:induction false} WrittenIsServed<D>(cap: nat, target: nat, disks: seq<Disk<D>>, ops: seq<Op<D>>, i: nat,
                                              j: nat)
    requires History(cap, target, disks, ops) && i < j < |ops| && ops[i].Write? && ops[i].weather.writes
    requires Stays(disks, ops, i, j, ops[i].path) && ops[j].Read? && ops[j].path == ops[i].path
    ensures Uses(disks[j], ops[j], ops[i].path) <==> !ops[j].refresh && ops[j].weather.readable
    ensures Got(disks[j], ops[j].refresh, ops[j].path, ops[j].weather).1 ==
            if Uses(disks[j], ops[j], ops[i].path) then Some(ops[i].data) else None
  {
    WrittenStays(cap, target, disks, ops, i, j);
  }

  class Store<D> {
    const maxBytes: nat
    const evictToBytes: nat
    var refreshMode: bool
    var disk: Disk<D>

    constructor (maxBytes: nat, evictToBytes: nat)
      ensures this.maxBytes == maxBytes && this.evictToBytes == evictToBytes
      ensures !refreshMode && disk == map[]
    {
      this.maxBytes, this.evictToBytes := maxBytes, evictToBytes;
      refreshMode, disk := false, map[];
    }

    method Get(analyzer: string, key: string, w: Weather) returns (data: Option<D>)
      modifies this`disk
      ensures (disk, data) == Got(old(disk), refreshMode, Entry(analyzer, key), w)
      ensures Gets(old(disk), disk, refreshMode, Entry(analyzer, key), w, data)
    {
      if refreshMode {
        return None;
      }
      var path := Entry(analyzer, key);
      if path !in disk || !w.readable {
        return None;
      }
      data := Some(disk[path].data);
      if w.touches { disk := Touch(disk, path, w.now); }
    }

    method Remove(path: Path, w: Weather)
      modifies this`disk
      ensures disk == if w.removes then old(disk) - {path} else old(disk)
    {
      if w.removes { disk := disk - {path}; }
    }

    method Put(analyzer: string, key: string, data: D, size: nat, w: Weather)
      modifies this`disk
      ensures WasPut(old(disk), disk, maxBytes, evictToBytes, Entry(analyzer, key), data, size, w)
    {
      if !w.writes {
        return;
      }
      disk := disk[Entry(analyzer, key) := File(data, size, w.now)];
      Evict(w);
    }

    method Evict(w: Weather)
      modifies this`disk
      ensures Evicted(old(disk), disk, maxBytes, evictToBytes, w.undeletable)
    {
      var entries, total := List();
      if total <= maxBytes {
        return;
      }
      var listing := SortByAge(entries);
      EvictListed(listing, total, w);
    }

    method EvictListed(listing: seq<Path>, size: nat, w: Weather)
      requires ByAge(disk, listing) && size == Total(disk)
      modifies this`disk
      ensures exists n :: OldestGone(old(disk), disk, evictToBytes, w.undeletable, listing, n)
    {
      ghost var before := disk;
      var total: nat := size;
      AfterNone(disk, listing, w.undeletable);
      for i := 0 to |listing|
        invariant Evicting(before, disk, evictToBytes, w.undeletable, listing, i, total)
      {
        if total <= evictToBytes {
          assert OldestGone(before, disk, evictToBytes, w.undeletable, listing, i);
          return;
        }
        EvictNext(before, disk, evictToBytes, w.undeletable, listing, i, total);
        if listing[i] !in w.undeletable {
          total := total - disk[listing[i]].size;
          disk := disk - {listing[i]};
        }
      }
      assert OldestGone(before, disk, evictToBytes, w.undeletable, listing, |listing|);
    }

    /** The walk of the facts tree: its files and their size together. */
    method List() returns (entries: seq<Path>, total: nat)
      ensures NoDup(entries) && (forall p :: p in entries <==> p in disk) && total == Total(disk)
    {
      entries, total := [], 0;
      var rest := disk;
      while rest != map[]
        invariant forall p :: p in rest ==> p in disk && rest[p] == disk[p]
        invariant NoDup(entries) && forall p :: p in entries <==> p in disk && p !in rest
        invariant total + Total(rest) == Total(disk)
        decreases |rest|
      {
        var p :| p in rest;
        TotalWithout(rest, p);
        SmallerDisk(rest, p);
        assert forall q :: q in entries + [p] <==> q in entries || q == p;
        entries, total, rest := entries + [p], total + rest[p].size, rest - {p};
      }
    }

    /** sort.Slice by mtime. It promises no order among files of one age, and none is used. */
    method SortByAge(entries: seq<Path>) returns (listing: seq<Path>)
      requires NoDup(entries) && forall p :: p in entries <==> p in disk
      ensures ByAge(disk, listing)
    {
      listing := SortBy(entries, OlderFirst(disk));
      SortBySorts(entries, OlderFirst(disk));
      SortByMembers(entries, OlderFirst(disk));
      NoDupPermutation(entries, listing);
    }
  }

  /** The first i files were tried, each while the store was over the target. */
  ghost predicate Evicting<D>(before: Disk<D>, now: Disk<D>, target: nat, undeletable: set<Path>, listing: seq<Path>,
                              i: nat, total: nat)
    requires i <= |listing|
  {
    && now == After(before, listing, i, undeletable) && total == Total(now)
    && forall j :: 0 <= j < i ==> Total(After(before, listing, j, undeletable)) > target
  }

  lemma {:induction false} EvictNext<D>(before: Disk<D>, now: Disk<D>, target: nat, undeletable: set<Path>,
                                        listing: seq<Path>, i: nat, total: nat)
    requires ByAge(before, listing) && i < |listing| && total > target
    requires Evicting(before, now, target, undeletable, listing, i, total)
    ensures listing[i] in now && now[listing[i]].size <= total
    ensures if listing[i] in undeletable then Evicting(before, now, target, undeletable, listing, i + 1, total)
            else Evicting(before, now - {listing[i]}, target, undeletable, listing, i + 1, total - now[listing[i]].size)
  {
    RemoveNext(before, listing, i, undeletable);
    TotalWithout(now, listing[i]);
  }

  lemma RemoveNext<D>(disk: Disk<D>, listing: seq<Path>, i: nat, undeletable: set<Path>)
    requires ByAge(disk, listing) && i < |listing|
    ensures listing[i] in After(disk, listing, i, undeletable)
    ensures After(disk, listing, i + 1, undeletable)
            == if listing[i] in undeletable then After(disk, listing, i, undeletable)
               else After(disk, listing, i, undeletable) - {listing[i]}
  {
    assert listing[..i + 1] == listing[..i] + [listing[i]];
    assert listing[i] !in listing[..i];
    assert listing[i] in listing;
  }
}
