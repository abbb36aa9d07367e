/**
  The caching runner (internal/factcache/runner.go): a decorator that serves a
  subprocess result from the fact store or records it there. Entries are kept as
  the JSON they are written as: Encoded stands for the encoding of an entry,
  Garbage for bytes that decode to none.
*/
module CachingRunner {
  import opened Options
  import opened FactStore
  import KeyMaterial

  /** A completed run of the tool. For Stream, stdout is what the consumer read. */
  datatype Output = Output(stdout: string, stderr: string, exitCode: int)

  datatype Result = Ok(out: Output) | Failed

  datatype Blob = Encoded(entry: Output) | Garbage(bytes: string)

  datatype ToolCmd = ToolCmd(name: string, args: seq<string>)

  /** The entry address: the material hashParts is given, standing for its hash. */
  function EntryKey(key: string, entryArgs: Option<seq<string>>, cmd: ToolCmd): string {
    KeyMaterial.EncodeParts([key] + match entryArgs { case Some(args) => args case None => [cmd.name] + cmd.args })
  }

  /** Without EntryArgs, an entry address belongs to one key and one command. */
  lemma EntryKeyDeterminesCommand(key: string, cmd: ToolCmd, key2: string, cmd2: ToolCmd)
    requires EntryKey(key, None, cmd) == EntryKey(key2, None, cmd2)
    requires forall p :: p in [key, cmd.name] + cmd.args + [key2, cmd2.name] + cmd2.args ==> KeyMaterial.NulFree(p)
    ensures key == key2 && cmd == cmd2
  {
    var p, q := [key] + ([cmd.name] + cmd.args), [key2] + ([cmd2.name] + cmd2.args);
    forall x | x in p + q ensures KeyMaterial.NulFree(x) {
      assert x in [key, cmd.name] + cmd.args + [key2, cmd2.name] + cmd2.args;
    }
    KeyMaterial.PartsInjective(p, q);
    assert p[0] == key && q[0] == key2 && p[1] == cmd.name && q[1] == cmd2.name;
    assert p[2..] == cmd.args && q[2..] == cmd2.args;
  }

  /** EntryArgs stand in for the command: with them an address is that of the key and the arguments. */
  lemma EntryArgsReplaceCommand(key: string, args: seq<string>, cmd: ToolCmd, key2: string, args2: seq<string>,
                                cmd2: ToolCmd)
    requires forall p :: p in [key] + args + [key2] + args2 ==> KeyMaterial.NulFree(p)
    ensures EntryKey(key, Some(args), cmd) == EntryKey(key2, Some(args2), cmd2) <==> key == key2 && args == args2
  {
    if EntryKey(key, Some(args), cmd) == EntryKey(key2, Some(args2), cmd2) {
      var p, q := [key] + args, [key2] + args2;
      forall x | x in p + q ensures KeyMaterial.NulFree(x) { assert x in [key] + args + [key2] + args2; }
      KeyMaterial.PartsInjective(p, q);
      assert p[0] == key && q[0] == key2 && p[1..] == args && q[1..] == args2;
    }
  }

  // ---- Reading and recording, on the disk ----

  /** What lookup answers, and the disk it leaves: a corrupted blob is removed, best effort. */
  function LookedUp(disk: Disk<Blob>, refresh: bool, p: Path, w: Weather): (Disk<Blob>, Option<Output>) {
    var got: (Disk<Blob>, Option<Blob>) := Got(disk, refresh, p, w);
    var after := got.0;
    match got.1
    case None => (after, None)
    case Some(Encoded(e)) => (after, Some(e))
    case Some(Garbage(_)) => (if w.removes then after - {p} else after, None)
  }

  /** A completed result is put in the store unless Cacheable vetoes it. */
  ghost predicate WasRecorded(before: Disk<Blob>, after: Disk<Blob>, cap: nat, target: nat, p: Path, veto: bool,
                              out: Output, size: nat, w: Weather)
  {
    if veto then after == before else WasPut(before, after, cap, target, p, Encoded(out), size, w)
  }

  /** One cached call. inner is what the wrapped runner answers if it is asked. */
  ghost predicate Called(before: Disk<Blob>, after: Disk<Blob>, cap: nat, target: nat, refresh: bool, p: Path,
                         inner: Result, veto: bool, size: nat, w: Weather, reply: Result)
  {
    var (looked, hit) := LookedUp(before, refresh, p, w);
    match hit
    case Some(e) => after == looked && reply == Ok(e)
    case None =>
      && reply == inner
      && match inner
         case Failed => after == looked
         case Ok(out) => WasRecorded(looked, after, cap, target, p, veto, out, size, w)
  }

  // ---- What a call answers and leaves ----

  /** The entry a call is served: one that is there, can be read and decodes, not in refresh mode. */
  function Served(before: Disk<Blob>, refresh: bool, p: Path, w: Weather): Option<Output> {
    if !refresh && p in before && w.readable && before[p].data.Encoded? then Some(before[p].data.entry) else None
  }

  /** Nothing was stored: an entry that does not decode is gone if it can be removed, all others are as they
      were but for their times. */
  ghost predicate NothingStored(before: Disk<Blob>, after: Disk<Blob>, refresh: bool, p: Path, w: Weather) {
    && (forall q :: q in after <==>
                      && q in before
                      && !(q == p && !refresh && w.readable && before[q].data.Garbage? && w.removes))
    && forall q :: q in after ==> after[q].data == before[q].data && after[q].size == before[q].size
  }

  /** out was stored at p: it is there unless eviction took it, which it does not while all fits under the
      cap. No other entry was added or changed. */
  ghost predicate WasStored(before: Disk<Blob>, after: Disk<Blob>, cap: nat, p: Path, out: Output, size: nat,
                            w: Weather)
  {
    && (p in after ==> after[p] == File(Encoded(out), size, w.now))
    && (forall q :: q in after && q != p ==> q in before && after[q].data == before[q].data)
    && (Total(before[p := File(Encoded(out), size, w.now)]) <= cap ==> after.Keys == before.Keys + {p})
  }

  /** A served call answers its entry. Another answers what the tool answers, and stores it when the tool
      succeeds, nobody vetoes it and the write succeeds. */
  ghost predicate RunDoes(before: Disk<Blob>, after: Disk<Blob>, cap: nat, refresh: bool, p: Path, inner: Result,
                          veto: bool, size: nat, w: Weather, reply: Result)
  {
    match Served(before, refresh, p, w)
    case Some(e) => reply == Ok(e) && NothingStored(before, after, refresh, p, w)
    case None =>
      && reply == inner
      && if inner.Ok? && !veto && w.writes then WasStored(before, after, cap, p, inner.out, size, w)
         else NothingStored(before, after, refresh, p, w)
  }

  /** The same for a stream: what the consumer read is what is stored, when it did not fail. */
  ghost predicate StreamDoes(before: Disk<Blob>, after: Disk<Blob>, cap: nat, refresh: bool, p: Path, inner: Result,
                             veto: bool, taken: nat, fails: bool, size: nat, w: Weather, reply: Result,
                             consumed: string)
  {
    match Served(before, refresh, p, w)
    case Some(e) =>
      && reply == (if fails then Failed else Ok(e)) && consumed == ReadUpTo(e.stdout, taken)
      && NothingStored(before, after, refresh, p, w)
    case None =>
      && reply == (if fails then Failed else inner)
      && (inner.Ok? ==> consumed == ReadUpTo(inner.out.stdout, taken))
      && if inner.Ok? && !fails && !veto && w.writes
         then WasStored(before, after, cap, p, inner.out.(stdout := consumed), size, w)
         else NothingStored(before, after, refresh, p, w)
  }

  lemma LookupLeaves(before: Disk<Blob>, refresh: bool, p: Path, w: Weather)
    ensures NothingStored(before, LookedUp(before, refresh, p, w).0, refresh, p, w)
    ensures LookedUp(before, refresh, p, w).1 == Served(before, refresh, p, w)
  {
  }

  lemma {:induction false} StoredAfterLookup(before: Disk<Blob>, after: Disk<Blob>, cap: nat, target: nat,
                                             refresh: bool, p: Path, out: Output, size: nat, w: Weather)
    requires w.writes && WasPut(LookedUp(before, refresh, p, w).0, after, cap, target, p, Encoded(out), size, w)
    ensures WasStored(before, after, cap, p, out, size, w)
  {
    hide WasPut, LookedUp;
    var looked := LookedUp(before, refresh, p, w).0;
    LookupLeaves(before, refresh, p, w);
    PutExactly(looked, after, cap, target, p, Encoded(out), size, w);
    var file := File(Encoded(out), size, w.now);
    SameSizesSameTotal(looked[p := file], before[p := file]);
  }

  lemma {:induction false} CallAnswers(before: Disk<Blob>, after: Disk<Blob>, cap: nat, target: nat, refresh: bool,
                                       p: Path, inner: Result, veto: bool, size: nat, w: Weather, reply: Result)
    requires Called(before, after, cap, target, refresh, p, inner, veto, size, w, reply)
    ensures RunDoes(before, after, cap, refresh, p, inner, veto, size, w, reply)
  {
    hide LookedUp, WasStored, NothingStored, Evicted;
    LookupLeaves(before, refresh, p, w);
    if Served(before, refresh, p, w).None? && inner.Ok? && !veto && w.writes {
      StoredAfterLookup(before, after, cap, target, refresh, p, inner.out, size, w);
    }
  }

  lemma {:induction false} StreamAnswers(before: Disk<Blob>, after: Disk<Blob>, cap: nat, target: nat, refresh: bool,
                                         p: Path, inner: Result, veto: bool, taken: nat, fails: bool, size: nat,
                                         w: Weather, reply: Result, consumed: string)
    requires Streamed(before, after, cap, target, refresh, p, inner, veto, taken, fails, size, w, reply, consumed)
    ensures StreamDoes(before, after, cap, refresh, p, inner, veto, taken, fails, size, w, reply, consumed)
  {
    hide LookedUp, WasStored, NothingStored, Evicted;
    LookupLeaves(before, refresh, p, w);
    if Served(before, refresh, p, w).None? && inner.Ok? && !fails && !veto && w.writes {
      StoredAfterLookup(before, after, cap, target, refresh, p, inner.out.(stdout := consumed), size, w);
    }
  }

  // ---- The runner ----

  class Runner {
    const store: Store?<Blob>
    const analyzer: string
    const key: string
    const entryArgs: Option<seq<string>>
    const cacheable: Output -> bool

    constructor (store: Store?<Blob>, analyzer: string, key: string, entryArgs: Option<seq<string>>,
                 cacheable: Output -> bool)
      ensures this.store == store && this.analyzer == analyzer && this.key == key
      ensures this.entryArgs == entryArgs && this.cacheable == cacheable
    {
      this.store, this.analyzer, this.key, this.entryArgs, this.cacheable := store, analyzer, key, entryArgs, cacheable;
    }

    function At(cmd: ToolCmd): Path {
      Entry(analyzer, EntryKey(key, entryArgs, cmd))
    }

    method Lookup(cmd: ToolCmd, w: Weather) returns (hit: Option<Output>)
      modifies if store == null then {} else {store}
      ensures store == null ==> hit.None?
      ensures store != null ==> store.refreshMode == old(store.refreshMode)
      ensures store != null ==> (store.disk, hit) == LookedUp(old(store.disk), store.refreshMode, At(cmd), w)
    {
      if store == null || store.refreshMode {
        return None;
      }
      var data := store.Get(analyzer, EntryKey(key, entryArgs, cmd), w);
      if data.None? {
        return None;
      }
      match data.value {
        case Encoded(e) => hit := Some(e);
        case Garbage(_) =>
          store.Remove(At(cmd), w);
          hit := None;
      }
    }

    method Record(cmd: ToolCmd, out: Output, size: nat, w: Weather)
      modifies if store == null then {} else {store}
      ensures store != null ==> store.refreshMode == old(store.refreshMode)
      ensures store != null ==>
        WasRecorded(old(store.disk), store.disk, store.maxBytes, store.evictToBytes, At(cmd), !cacheable(out), out,
                    size, w)
    {
      if store == null || !cacheable(out) {
        return;
      }
      store.Put(analyzer, EntryKey(key, entryArgs, cmd), Encoded(out), size, w);
    }

    method Run(cmd: ToolCmd, inner: Result, size: nat, w: Weather) returns (reply: Result)
      modifies if store == null then {} else {store}
      ensures store == null ==> reply == inner
      ensures store != null ==> store.refreshMode == old(store.refreshMode)
      ensures store != null ==>
        Called(old(store.disk), store.disk, store.maxBytes, store.evictToBytes, store.refreshMode, At(cmd), inner,
               inner.Ok? && !cacheable(inner.out), size, w, reply)
    {
      var hit := Lookup(cmd, w);
      if hit.Some? {
        return Ok(hit.value);
      }
      if inner.Failed? {
        return inner;
      }
      Record(cmd, inner.out, size, w);
      reply := inner;
    }

    /** Stream with a consumer that reads up to taken bytes of stdout, live or cached, and then fails or
        not. The tee keeps what the consumer read; Output.Stdout of a stream is empty, so Cacheable
        sees no stdout. consumed is what reached the consumer. */
    method Stream(cmd: ToolCmd, inner: Result, taken: nat, fails: bool, size: nat, w: Weather)
      returns (reply: Result, consumed: string)
      modifies if store == null then {} else {store}
      ensures store != null ==> store.refreshMode == old(store.refreshMode)
      ensures store == null ==> consumed == Tee(inner, taken)
      ensures store == null ==> reply == if fails then Failed else inner
      ensures store != null ==>
        Streamed(old(store.disk), store.disk, store.maxBytes, store.evictToBytes, store.refreshMode, At(cmd), inner,
                 inner.Ok? && !cacheable(inner.out.(stdout := "")), taken, fails, size, w, reply, consumed)
    {
      var hit := Lookup(cmd, w);
      if hit.Some? {
        consumed := ReadUpTo(hit.value.stdout, taken);
        reply := if fails then Failed else Ok(hit.value);
        return;
      }
      consumed := Tee(inner, taken);
      if inner.Failed? || fails {
        return Failed, consumed;
      }
      if cacheable(inner.out.(stdout := "")) {
        StoreStream(cmd, inner.out.(stdout := consumed), size, w);
      }
      reply := inner;
    }

    method StoreStream(cmd: ToolCmd, out: Output, size: nat, w: Weather)
      modifies if store == null then {} else {store}
      ensures store != null ==> store.refreshMode == old(store.refreshMode)
      ensures store != null ==>
        WasPut(old(store.disk), store.disk, store.maxBytes, store.evictToBytes, At(cmd), Encoded(out), size, w)
    {
      if store != null {
        store.Put(analyzer, EntryKey(key, entryArgs, cmd), Encoded(out), size, w);
      }
    }
  }

  /** What a consumer that stops after taken bytes reads. */
  function ReadUpTo(stdout: string, taken: nat): string {
    if taken <= |stdout| then stdout[..taken] else stdout
  }

  /** What it reads off the live stdout of a run that succeeds. */
  function Tee(inner: Result, taken: nat): string {
    if inner.Ok? then ReadUpTo(inner.out.stdout, taken) else ""
  }

  ghost predicate Streamed(before: Disk<Blob>, after: Disk<Blob>, cap: nat, target: nat, refresh: bool, p: Path,
                           inner: Result, veto: bool, taken: nat, fails: bool, size: nat, w: Weather, reply: Result,
                           consumed: string)
  {
    var (looked, hit) := LookedUp(before, refresh, p, w);
    match hit
    case Some(e) =>
      after == looked && consumed == ReadUpTo(e.stdout, taken) && reply == (if fails then Failed else Ok(e))
    case None =>
      && consumed == Tee(inner, taken)
      && reply == (if fails then Failed else inner)
      && if reply.Failed? then after == looked
         else WasRecorded(looked, after, cap, target, p, veto, inner.out.(stdout := consumed), size, w)
  }

  // ---- Transparency ----

  /** truth answers what the uncached tool prints for an analyzer and entry address. Every
      entry that decodes holds it. */
  ghost predicate Sound(disk: Disk<Blob>, truth: (string, string) -> Output) {
    forall p :: p in disk && p.Entry? && disk[p].data.Encoded? ==> disk[p].data.entry == truth(p.analyzer, p.key)
  }

  /** The events a store lives through. */
  datatype Event =
    | Run(path: Path, refresh: bool, inner: Result, veto: bool, size: nat, weather: Weather)
    | Stream(path: Path, refresh: bool, inner: Result, veto: bool, size: nat, weather: Weather, taken: nat, fails: bool)
    | Lose(paths: set<Path>)
    | Corrupt(path: Path, bytes: string, size: nat)
    | Age(path: Path, now: int)

  datatype Reply = NoReply | Replied(result: Result, consumed: string)

  ghost predicate Step(cap: nat, target: nat, before: Disk<Blob>, ev: Event, after: Disk<Blob>, reply: Reply) {
    match ev
    case Run(p, refresh, inner, veto, size, w) =>
      reply.Replied? && Called(before, after, cap, target, refresh, p, inner, veto, size, w, reply.result)
    case Stream(p, refresh, inner, veto, size, w, taken, fails) =>
      && reply.Replied?
      && Streamed(before, after, cap, target, refresh, p, inner, veto, taken, fails, size, w,
                  reply.result, reply.consumed)
    case Lose(paths) => reply.NoReply? && after == before - paths
    case Corrupt(p, bytes, size) => reply.NoReply? && after == before[p := File(Garbage(bytes), size, 0)]
    case Age(p, now) => reply.NoReply? && after == if p in before then Touch(before, p, now) else before
  }

  /** The tool answers by analyzer and entry address alone, and a consumer that succeeds has
      drained stdout, as the toolrun contract asks. */
  ghost predicate Honest(ev: Event, truth: (string, string) -> Output) {
    match ev
    case Run(p, _, inner, _, _, _) => p.Entry? && (inner.Ok? ==> inner.out == truth(p.analyzer, p.key))
    case Stream(p, _, inner, _, _, _, taken, fails) =>
      && p.Entry? && (inner.Ok? ==> inner.out == truth(p.analyzer, p.key))
      && (!fails ==> taken >= |truth(p.analyzer, p.key).stdout|)
    case _ => true
  }

  /** A call that succeeds gives what the tool itself would have given, to the last byte. */
  ghost predicate Transparent(ev: Event, reply: Reply, truth: (string, string) -> Output) {
    match ev
    case Run(p, _, _, _, _, _) =>
      p.Entry? && reply.Replied? && (reply.result.Ok? ==> reply.result.out == truth(p.analyzer, p.key))
    case Stream(p, _, _, _, _, _, _, _) =>
      && p.Entry? && reply.Replied?
      && (reply.result.Ok? ==>
            reply.result.out == truth(p.analyzer, p.key) && reply.consumed == reply.result.out.stdout)
    case _ => true
  }

  lemma PutKeepsSound(before: Disk<Blob>, after: Disk<Blob>, cap: nat, target: nat, p: Path, out: Output, size: nat,
                      w: Weather, truth: (string, string) -> Output)
    requires Sound(before, truth) && p.Entry? && out == truth(p.analyzer, p.key)
    requires WasPut(before, after, cap, target, p, Encoded(out), size, w)
    ensures Sound(after, truth)
  {
    if w.writes {
      var put := before[p := File(Encoded(out), size, w.now)];
      assert Sound(put, truth);
      if Total(put) > cap {
        var listing, n :| OldestGone(put, after, target, w.undeletable, listing, n);
      }
    }
  }

  lemma LookupKeepsSound(disk: Disk<Blob>, refresh: bool, p: Path, w: Weather, truth: (string, string) -> Output)
    requires Sound(disk, truth) && p.Entry?
    ensures Sound(LookedUp(disk, refresh, p, w).0, truth)
    ensures LookedUp(disk, refresh, p, w).1.Some? ==> LookedUp(disk, refresh, p, w).1.value == truth(p.analyzer, p.key)
  {
  }

  lemma StepIsTransparent(cap: nat, target: nat, before: Disk<Blob>, ev: Event, after: Disk<Blob>, reply: Reply,
                          truth: (string, string) -> Output)
    requires Sound(before, truth) && Honest(ev, truth) && Step(cap, target, before, ev, after, reply)
    ensures Sound(after, truth) && Transparent(ev, reply, truth)
  {
    match ev
    case Run(p, refresh, inner, veto, size, w) =>
      LookupKeepsSound(before, refresh, p, w, truth);
      var (looked, hit) := LookedUp(before, refresh, p, w);
      if hit.None? && inner.Ok? && !veto { PutKeepsSound(looked, after, cap, target, p, inner.out, size, w, truth); }
    case Stream(p, refresh, inner, veto, size, w, taken, fails) =>
      LookupKeepsSound(before, refresh, p, w, truth);
      var (looked, hit) := LookedUp(before, refresh, p, w);
      if hit.None? && reply.result.Ok? {
        assert Tee(inner, taken) == inner.out.stdout;
        if !veto { PutKeepsSound(looked, after, cap, target, p, inner.out, size, w, truth); }
      }
    case _ =>
  }

  /** A run of the store: disks[i] is the disk before event i. */
  ghost predicate History(cap: nat, target: nat, disks: seq<Disk<Blob>>, events: seq<Event>, replies: seq<Reply>) {
    && |disks| == |events| + 1 && |replies| == |events|
    && forall i :: 0 <= i < |events| ==> Step(cap, target, disks[i], events[i], disks[i + 1], replies[i])
  }

  /** Caching never changes an answer: over any history of runs and streams of any runners on
      one store, with entries lost, corrupted, aged and evicted at any point, every call that
      succeeds gives the uncached result. */
  lemma {:induction false} CachingIsTransparent(cap: nat, target: nat, disks: seq<Disk<Blob>>, events: seq<Event>,
                                                replies: seq<Reply>, truth: (string, string) -> Output, n: nat)
    requires History(cap, target, disks, events, replies) && n <= |events|
    requires Sound(disks[0], truth)
    requires forall i :: 0 <= i < |events| ==> Honest(events[i], truth)
    ensures Sound(disks[n], truth)
    ensures forall i :: 0 <= i < n ==> Transparent(events[i], replies[i], truth)
  {
    if n > 0 {
      CachingIsTransparent(cap, target, disks, events, replies, truth, n - 1);
      StepIsTransparent(cap, target, disks[n - 1], events[n - 1], disks[n], replies[n - 1], truth);
    }
  }

  /** The event stores out at p. */
  ghost predicate Records(before: Disk<Blob>, ev: Event, reply: Reply, p: Path, out: Output) {
    match ev
    case Run(q, refresh, inner, veto, _, w) =>
      && q == p && Served(before, refresh, q, w).None? && w.writes && !veto && inner == Ok(out)
    case Stream(q, refresh, inner, veto, _, w, _, fails) =>
      && q == p && Served(before, refresh, q, w).None? && w.writes && !veto && inner.Ok? && !fails
      && reply.Replied? && out == inner.out.(stdout := reply.consumed)
    case _ => false
  }

  /** A call at p in refresh mode or that cannot read, or bytes of somebody else. */
  ghost predicate Disturbs(ev: Event, p: Path) {
    match ev
    case Run(q, refresh, _, _, _, w) => q == p && (refresh || !w.readable)
    case Stream(q, refresh, _, _, _, w, _, _) => q == p && (refresh || !w.readable)
    case Corrupt(q, _, _) => q == p
    case _ => false
  }

  /** After event i the entry at p is never gone up to event j, and no event between disturbs it. */
  ghost predicate StaysAt(disks: seq<Disk<Blob>>, events: seq<Event>, i: nat, j: nat, p: Path)
    requires i < j <= |events| < |disks|
  {
    (forall k :: i < k <= j ==> p in disks[k]) && forall k :: i < k < j ==> !Disturbs(events[k], p)
  }

  lemma {:induction false} RecordsLeave(cap: nat, target: nat, before: Disk<Blob>, ev: Event, after: Disk<Blob>,
                                        reply: Reply, p: Path, out: Output)
    requires Step(cap, target, before, ev, after, reply) && Records(before, ev, reply, p, out)
    ensures p in after ==> after[p].data == Encoded(out)
  {
    hide Called, Streamed, Served, NothingStored;
    match ev
    case Run(q, refresh, inner, veto, size, w) =>
      CallAnswers(before, after, cap, target, refresh, q, inner, veto, size, w, reply.result);
    case Stream(q, refresh, inner, veto, size, w, taken, fails) =>
      StreamAnswers(before, after, cap, target, refresh, q, inner, veto, taken, fails, size, w, reply.result,
                    reply.consumed);
    case _ =>
  }

  /** An entry that is not disturbed is left as it is, or evicted or lost. */
  lemma {:induction false} UndisturbedStays(cap: nat, target: nat, before: Disk<Blob>, ev: Event, after: Disk<Blob>,
                                            reply: Reply, p: Path)
    requires Step(cap, target, before, ev, after, reply) && !Disturbs(ev, p)
    requires p in before && before[p].data.Encoded? && p in after
    ensures after[p].data == before[p].data
  {
    hide Called, Streamed;
    match ev
    case Run(q, refresh, inner, veto, size, w) =>
      CallAnswers(before, after, cap, target, refresh, q, inner, veto, size, w, reply.result);
    case Stream(q, refresh, inner, veto, size, w, taken, fails) =>
      StreamAnswers(before, after, cap, target, refresh, q, inner, veto, taken, fails, size, w, reply.result,
                    reply.consumed);
    case _ =>
  }

  lemma {:induction false} RecordedStays(cap: nat, target: nat, disks: seq<Disk<Blob>>, events: seq<Event>,
                                         replies: seq<Reply>, i: nat, j: nat, p: Path, out: Output)
    requires History(cap, target, disks, events, replies) && i < j <= |events|
    requires Records(disks[i], events[i], replies[i], p, out) && StaysAt(disks, events, i, j, p)
    ensures disks[j][p].data == Encoded(out)
  {
    hide Step, Records, Disturbs;
    var n := j - 1;
    assert Step(cap, target, disks[n], events[n], disks[n + 1], replies[n]);
    assert p in disks[n + 1];
    if i < n {
      RecordedStays(cap, target, disks, events, replies, i, n, p, out);
      UndisturbedStays(cap, target, disks[n], events[n], disks[j], replies[n], p);
    } else {
      RecordsLeave(cap, target, disks[n], events[n], disks[j], replies[n], p, out);
    }
  }

  /** What was recorded is served: while the entry stays undisturbed, every run or stream at its address
      that may read it answers the recorded output, whatever the tool would answer now. */
  lemma {:induction false} RecordedIsServed(cap: nat, target: nat, disks: seq<Disk<Blob>>, events: seq<Event>,
                                            replies: seq<Reply>, i: nat, j: nat, p: Path, out: Output)
    requires History(cap, target, disks, events, replies) && i < j < |events|
    requires Records(disks[i], events[i], replies[i], p, out) && StaysAt(disks, events, i, j, p)
    ensures events[j].Run? && events[j].path == p && !Disturbs(events[j], p) ==>
              replies[j].Replied? && replies[j].result == Ok(out)
    ensures events[j].Stream? && events[j].path == p && !Disturbs(events[j], p) ==>
              replies[j] == Replied(if events[j].fails then Failed else Ok(out), ReadUpTo(out.stdout, events[j].taken))
  {
    hide Called, Streamed, NothingStored, WasStored, Records;
    RecordedStays(cap, target, disks, events, replies, i, j, p, out);
    assert Step(cap, target, disks[j], events[j], disks[j + 1], replies[j]);
    match events[j]
    case Run(q, refresh, inner, veto, size, w) =>
      CallAnswers(disks[j], disks[j + 1], cap, target, refresh, q, inner, veto, size, w, replies[j].result);
    case Stream(q, refresh, inner, veto, size, w, taken, fails) =>
      StreamAnswers(disks[j], disks[j + 1], cap, target, refresh, q, inner, veto, taken, fails, size, w,
                    replies[j].result, replies[j].consumed);
    case _ =>
  }

  /** The drain contract is what this rests on: a stream that misses on a sound store, and whose
      result is written and stays, leaves a sound store exactly when its consumer read stdout to the
      end. */
  lemma DrainingIsNeeded(cap: nat, target: nat, before: Disk<Blob>, after: Disk<Blob>, p: Path, refresh: bool,
                         out: Output, size: nat, w: Weather, taken: nat, reply: Reply,
                         truth: (string, string) -> Output)
    requires p.Entry? && out == truth(p.analyzer, p.key) && Sound(before, truth)
    requires LookedUp(before, refresh, p, w).1.None?
    requires Step(cap, target, before, Stream(p, refresh, Ok(out), false, size, w, taken, false), after, reply)
    ensures Sound(after, truth) <==> taken >= |out.stdout| || !w.writes || p !in after
  {
    var looked := LookedUp(before, refresh, p, w).0;
    LookupKeepsSound(before, refresh, p, w, truth);
    var recorded := out.(stdout := ReadUpTo(out.stdout, taken));
    if w.writes {
      RecordedOrGone(looked, after, cap, target, p, recorded, size, w);
      if taken >= |out.stdout| || p !in after {
        RestStaysSound(looked, after, cap, target, p, recorded, size, w, truth);
      }
      if taken < |out.stdout| { assert |recorded.stdout| < |out.stdout|; }
    }
  }

  lemma RecordedOrGone(before: Disk<Blob>, after: Disk<Blob>, cap: nat, target: nat, p: Path, out: Output, size: nat,
                       w: Weather)
    requires w.writes && WasPut(before, after, cap, target, p, Encoded(out), size, w)
    ensures p in after ==> after[p].data == Encoded(out)
    ensures forall q :: q in after && q != p ==> q in before && after[q] == before[q]
  {
    var put := before[p := File(Encoded(out), size, w.now)];
    if Total(put) > cap {
      var listing, n :| OldestGone(put, after, target, w.undeletable, listing, n);
    }
  }

  lemma RestStaysSound(before: Disk<Blob>, after: Disk<Blob>, cap: nat, target: nat, p: Path, out: Output, size: nat,
                       w: Weather, truth: (string, string) -> Output)
    requires Sound(before, truth) && p.Entry? && w.writes
    requires WasPut(before, after, cap, target, p, Encoded(out), size, w)
    requires out == truth(p.analyzer, p.key) || p !in after
    ensures Sound(after, truth)
  {
    RecordedOrGone(before, after, cap, target, p, out, size, w);
  }
}
