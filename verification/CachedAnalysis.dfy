/**
  A cached analysis from its inputs to its answer (internal/factcache): the address a
  result is stored at is made of hashes of the inputs, and nothing else tells two calls
  apart. What must hold of the hash, of the names and of the tool for this to be enough.
*/
module CachedAnalysis {
  import opened Options
  import opened Orders
  import opened KeyMaterial
  import opened FactStore
  import opened CachingRunner

  /** A call of the tool wrapped for an analyzer: its version, the config slice as JSON, the listed
      inputs with their contents and the command. */
  datatype Call = Call(analyzer: string, version: string, config: string, files: map<string, string>, cmd: ToolCmd)

  // ---- Hex digests ----

  function Digit(n: nat): (d: char)
    requires n < 16
    ensures d != NUL
  {
    if n < 10 then '0' + n as char else 'a' + (n - 10) as char
  }

  function Hex(bytes: string): string {
    if |bytes| == 0 then ""
    else
      var b := bytes[0] as int;
      [Digit(b / 16 % 16), Digit(b % 16)] + Hex(bytes[1..])
  }

  ghost predicate IsBytes(s: string) {
    forall i :: 0 <= i < |s| ==> s[i] as int < 256
  }

  lemma DigitsDiffer(x: nat, y: nat)
    requires x < 256 && y < 256 && Digit(x / 16 % 16) == Digit(y / 16 % 16) && Digit(x % 16) == Digit(y % 16)
    ensures x == y
  {
    assert x / 16 % 16 == y / 16 % 16 && x % 16 == y % 16;
  }

  lemma HexFirst(s: string)
    requires |s| != 0
    ensures var h, b := Hex(s), s[0] as int;
            |h| >= 2 && h[0] == Digit(b / 16 % 16) && h[1] == Digit(b % 16) && h[2..] == Hex(s[1..])
  {
  }

  lemma {:induction false} HexInjective(a: string, b: string)
    requires IsBytes(a) && IsBytes(b) && Hex(a) == Hex(b)
    ensures a == b
  {
    hide Digit;
    if |a| != 0 && |b| != 0 {
      HexFirst(a);
      HexFirst(b);
      DigitsDiffer(a[0] as int, b[0] as int);
      HexInjective(a[1..], b[1..]);
      assert a == [a[0]] + a[1..] && b == [b[0]] + b[1..];
    }
  }

  lemma {:induction false} HexNulFree(bytes: string)
    ensures NulFree(Hex(bytes))
  {
    if |bytes| != 0 { HexNulFree(bytes[1..]); }
  }

  // ---- Addresses ----

  function Read(files: map<string, string>): string -> Option<string> {
    p => if p in files then Some(files[p]) else None
  }

  /** What HashTree hashes. */
  ghost function TreeMaterial(files: map<string, string>, sha: string -> string): string {
    EncodeTree(Entries(SortedSet(files.Keys), Read(files), sha))
  }

  function HexHash(material: string, sha: string -> string): string {
    Hex(sha(material))
  }

  /** What Key hashes. */
  ghost function MaterialOf(c: Call, sha: string -> string): string {
    KeyMaterialOf(c.analyzer, c.version, HexHash(c.config, sha), HexHash(TreeMaterial(c.files, sha), sha))
  }

  ghost function Address(c: Call, sha: string -> string): (p: Path)
    ensures p.Entry?
  {
    Entry(c.analyzer, EntryKey(HexHash(MaterialOf(c, sha), sha), None, c.cmd))
  }

  /** All that is hashed for a call. */
  ghost function Texts(c: Call, sha: string -> string): set<string> {
    {c.config, TreeMaterial(c.files, sha), MaterialOf(c, sha)} + c.files.Values
  }

  /** Digests are 32 bytes, and no two of these texts share one. */
  ghost predicate Separates(sha: string -> string, texts: set<string>) {
    && (forall t :: |sha(t)| == DIGEST_BYTES && IsBytes(sha(t)))
    && forall s, t :: s in texts && t in texts && sha(s) == sha(t) ==> s == t
  }

  /** Names without NUL, all that systems allow. A version may hold some. */
  ghost predicate WellNamed(c: Call) {
    && NulFree(c.analyzer) && NulFree(c.cmd.name)
    && (forall a :: a in c.cmd.args ==> NulFree(a))
    && forall p :: p in c.files ==> NulFree(p)
  }

  lemma HashesDiffer(s: string, t: string, sha: string -> string, texts: set<string>)
    requires Separates(sha, texts) && s in texts && t in texts && HexHash(s, sha) == HexHash(t, sha)
    ensures s == t
  {
    hide Hex;
    HexInjective(sha(s), sha(t));
  }

  /** One tree material, one set of files with their contents. */
  lemma TreeDeterminesFiles(a: map<string, string>, b: map<string, string>, sha: string -> string, texts: set<string>)
    requires Separates(sha, texts) && a.Values <= texts && b.Values <= texts
    requires (forall p :: p in a ==> NulFree(p)) && (forall p :: p in b ==> NulFree(p))
    requires TreeMaterial(a, sha) == TreeMaterial(b, sha)
    ensures a == b
  {
    hide EncodeTree, Entries;
    var pa, pb := SortedSet(a.Keys), SortedSet(b.Keys);
    EntriesDetermine(pa, pb, Read(a), Read(b), sha);
    forall p ensures p in a <==> p in b { assert p in pa <==> p in pb; }
    forall p | p in a ensures a[p] == b[p] {
      assert p in pa && a[p] in texts && b[p] in texts;
    }
  }

  /** What lies at an address is of one call: no two calls share an address. */
  lemma {:induction false} AddressDeterminesCall(a: Call, b: Call, sha: string -> string, texts: set<string>)
    requires WellNamed(a) && WellNamed(b)
    requires Separates(sha, texts) && Texts(a, sha) <= texts && Texts(b, sha) <= texts
    requires Address(a, sha) == Address(b, sha)
    ensures a == b
  {
    hide Hex, EntryKey, TreeMaterial, KeyMaterialOf;
    var ma, mb := MaterialOf(a, sha), MaterialOf(b, sha);
    assert ma in texts && mb in texts;
    assert a.config in texts && b.config in texts;
    assert TreeMaterial(a.files, sha) in texts && TreeMaterial(b.files, sha) in texts;
    forall s ensures NulFree(HexHash(s, sha)) { HexNulFree(sha(s)); }
    EntryKeyDeterminesCommand(HexHash(ma, sha), a.cmd, HexHash(mb, sha), b.cmd);
    HashesDiffer(ma, mb, sha, texts);
    KeyDeterminesComponents(a.analyzer, a.version, HexHash(a.config, sha), HexHash(TreeMaterial(a.files, sha), sha),
                            b.analyzer, b.version, HexHash(b.config, sha), HexHash(TreeMaterial(b.files, sha), sha));
    HashesDiffer(a.config, b.config, sha, texts);
    HashesDiffer(TreeMaterial(a.files, sha), TreeMaterial(b.files, sha), sha, texts);
    TreeDeterminesFiles(a.files, b.files, sha, texts);
  }

  /** HashTree on a listing of the files, in any order, hashes this material. */
  lemma ListingHashesTree(files: map<string, string>, listing: seq<string>, sha: string -> string, r: HashResult)
    requires NoDup(listing) && forall p :: p in listing <==> p in files
    requires HashOf(SortBy(listing, StrLe), Read(files), sha, r) && r.Hashed?
    ensures r.material == TreeMaterial(files, sha)
  {
    var sorted := SortedSet(files.Keys);
    StrLeTotalOrder();
    SortBySorts(listing, StrLe);
    SameMembersPermute(listing, sorted);
    SortedUnique(SortBy(listing, StrLe), sorted, StrLe);
  }

  // ---- Whole histories ----

  /** A call event asks for c, and the tool answers c by what c says alone. A consumer that succeeds
      has drained stdout. */
  ghost predicate Asks(ev: Event, c: Call, tool: Call -> Output, sha: string -> string) {
    match ev
    case Run(p, _, inner, _, _, _) => p == Address(c, sha) && (inner.Ok? ==> inner.out == tool(c))
    case Stream(p, _, inner, _, _, _, taken, fails) =>
      && p == Address(c, sha) && (inner.Ok? ==> inner.out == tool(c))
      && (!fails ==> taken >= |tool(c).stdout|)
    case _ => true
  }

  /** A call that succeeds gives what the tool prints for c, to the last byte. */
  ghost predicate Answers(ev: Event, reply: Reply, out: Output) {
    match ev
    case Run(_, _, _, _, _, _) => reply.Replied? && (reply.result.Ok? ==> reply.result.out == out)
    case Stream(_, _, _, _, _, _, _, _) =>
      reply.Replied? && (reply.result.Ok? ==> reply.result.out == out && reply.consumed == out.stdout)
    case _ => true
  }

  /** Calls that can be told apart by their addresses. */
  ghost predicate ToldApart(calls: seq<Call>, sha: string -> string) {
    && (forall c :: c in calls ==> WellNamed(c))
    && Separates(sha, AllTexts(calls, sha))
  }

  ghost function AllTexts(calls: seq<Call>, sha: string -> string): set<string> {
    set i, t | 0 <= i < |calls| && t in Texts(calls[i], sha) :: t
  }

  lemma AllTextsHold(calls: seq<Call>, sha: string -> string, c: Call)
    requires c in calls
    ensures Texts(c, sha) <= AllTexts(calls, sha)
  {
  }

  /** The output that belongs to an address. */
  ghost function TruthAt(calls: seq<Call>, tool: Call -> Output, sha: string -> string, p: Path): Output {
    if c :| c in calls && Address(c, sha) == p then tool(c) else Output("", "", 0)
  }

  ghost function Truth(calls: seq<Call>, tool: Call -> Output, sha: string -> string): (string, string) -> Output {
    (analyzer, key) => TruthAt(calls, tool, sha, Entry(analyzer, key))
  }

  lemma TruthOfCall(calls: seq<Call>, tool: Call -> Output, sha: string -> string, i: nat)
    requires ToldApart(calls, sha) && i < |calls|
    ensures TruthAt(calls, tool, sha, Address(calls[i], sha)) == tool(calls[i])
  {
    hide Address, Texts, WellNamed;
    var p := Address(calls[i], sha);
    assert calls[i] in calls;
    var c :| c in calls && Address(c, sha) == p && TruthAt(calls, tool, sha, p) == tool(c);
    AllTextsHold(calls, sha, calls[i]);
    AllTextsHold(calls, sha, c);
    AddressDeterminesCall(calls[i], c, sha, AllTexts(calls, sha));
  }

  /** From an empty store on, over any history: a tool that answers by analyzer, version, config slice,
      listed contents and command gives, cached, what it gives uncached, in every call that succeeds. */
  lemma {:induction false} CachedAnswersAreTheTools(cap: nat, target: nat, disks: seq<Disk<Blob>>, events: seq<Event>,
                                                    replies: seq<Reply>, calls: seq<Call>, tool: Call -> Output,
                                                    sha: string -> string)
    requires CachingRunner.History(cap, target, disks, events, replies) && disks[0] == map[]
    requires |calls| == |events| && ToldApart(calls, sha)
    requires forall i :: 0 <= i < |events| ==> Asks(events[i], calls[i], tool, sha)
    ensures forall i :: 0 <= i < |events| ==> Answers(events[i], replies[i], tool(calls[i]))
  {
    hide Address, ToldApart, Step, TruthAt;
    var truth := Truth(calls, tool, sha);
    forall i | 0 <= i < |events| ensures Honest(events[i], truth) { TruthOfCall(calls, tool, sha, i); }
    CachingIsTransparent(cap, target, disks, events, replies, truth, |events|);
    forall i | 0 <= i < |events| ensures Answers(events[i], replies[i], tool(calls[i])) {
      TruthOfCall(calls, tool, sha, i);
      assert Transparent(events[i], replies[i], truth);
    }
  }
}
