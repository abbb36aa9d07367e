/**
  Cache keys (internal/factcache/key.go) up to the hash: the bytes fed to sha256.
  A Go string is a byte sequence, so a char here stands for one byte. SHA-256 is
  a parameter of which only the digest length is used: what is proved is that the
  bytes it is given tell their sources apart.
*/
module KeyMaterial {
  import opened Options
  import opened Orders

  const NUL: char := '\0'
  const SCHEMA_VERSION := "4"
  const DIGEST_BYTES: nat := 32
  const MAX_INPUT_BYTES: nat := 0x200_0000 // 32 MiB

  predicate NulFree(s: string) {
    NUL !in s
  }

  // ---- NUL-terminated parts ----

  /** What hashParts writes: every part, each followed by a NUL. */
  function EncodeParts(parts: seq<string>): string {
    if |parts| == 0 then "" else parts[0] + [NUL] + EncodeParts(parts[1..])
  }

  method HashParts(parts: seq<string>) returns (material: string)
    ensures material == EncodeParts(parts)
  {
    material := "";
    assert parts[0..] == parts;
    for i := 0 to |parts|
      invariant EncodeParts(parts) == material + EncodeParts(parts[i..])
    {
      assert parts[i..] == [parts[i]] + parts[i + 1..];
      var before := material;
      material := material + parts[i];
      material := material + [NUL];
      assert material == before + (parts[i] + [NUL]);
      assert before + (parts[i] + [NUL] + EncodeParts(parts[i + 1..])) == material + EncodeParts(parts[i + 1..]);
    }
    assert material + EncodeParts(parts[|parts|..]) == material;
  }

  /** The parts read back: a part ends at the first NUL. */
  function DecodeParts(bytes: string): (parts: seq<string>)
    ensures forall p :: p in parts ==> NulFree(p)
  {
    if NUL !in bytes then []
    else
      var i := FirstNul(bytes);
      [bytes[..i]] + DecodeParts(bytes[i + 1..])
  }

  function FirstNul(s: string): (i: nat)
    requires NUL in s
    ensures i < |s| && s[i] == NUL && NulFree(s[..i])
    ensures forall j :: 0 <= j < i ==> s[j] != NUL
  {
    if s[0] == NUL then 0
    else
      assert s == [s[0]] + s[1..];
      var i := 1 + FirstNul(s[1..]);
      assert s[..i] == [s[0]] + s[1..][..i - 1];
      i
  }

  /** The first NUL of p, NUL, rest stands right after a NUL-free p. */
  lemma FirstNulAfter(p: string, rest: string)
    requires NulFree(p)
    ensures var s := p + [NUL] + rest;
            NUL in s && FirstNul(s) == |p| && s[..|p|] == p && s[|p| + 1..] == rest
  {
    var s := p + [NUL] + rest;
    assert s[|p|] == NUL;
    assert forall j :: 0 <= j < |p| ==> s[j] == p[j] && p[j] != NUL;
  }

  lemma DecodeFirst(p: string, rest: string)
    requires NulFree(p)
    ensures DecodeParts(p + [NUL] + rest) == [p] + DecodeParts(rest)
  {
    FirstNulAfter(p, rest);
  }

  /** Reading back what was written gives the parts, when no part holds a NUL. */
  lemma {:induction false} DecodeEncode(parts: seq<string>)
    requires forall p :: p in parts ==> NulFree(p)
    ensures DecodeParts(EncodeParts(parts)) == parts
  {
    if |parts| != 0 {
      assert parts[0] in parts;
      DecodeFirst(parts[0], EncodeParts(parts[1..]));
      DecodeEncode(parts[1..]);
      assert parts == [parts[0]] + parts[1..];
    }
  }

  lemma SameAfterNul(p: string, r: string, s: string)
    ensures p + [NUL] + r == p + [NUL] + s <==> r == s
  {
    assert (p + [NUL] + r)[|p| + 1..] == r && (p + [NUL] + s)[|p| + 1..] == s;
  }

  lemma EncodeFirst(p: string, parts: seq<string>)
    ensures EncodeParts([p] + parts) == p + [NUL] + EncodeParts(parts)
  {
    assert ([p] + parts)[1..] == parts;
  }

  predicate EndsInNul(bytes: string) {
    bytes == "" || bytes[|bytes| - 1] == NUL
  }

  lemma AroundNul(bytes: string, i: nat)
    requires i < |bytes| && bytes[i] == NUL
    ensures bytes == bytes[..i] + [NUL] + bytes[i + 1..]
    ensures EndsInNul(bytes) <==> EndsInNul(bytes[i + 1..])
  {
    if i + 1 < |bytes| { assert bytes[i + 1..][|bytes| - i - 2] == bytes[|bytes| - 1]; }
  }

  lemma NoNulAtAll(bytes: string)
    requires NUL !in bytes
    ensures DecodeParts(bytes) == [] && (EndsInNul(bytes) <==> bytes == "")
  {
    if bytes != "" { assert bytes[|bytes| - 1] in bytes; }
  }

  lemma EncodeDecodeStep(bytes: string, i: nat)
    requires NUL in bytes && i == FirstNul(bytes)
    ensures EncodeParts(DecodeParts(bytes)) == bytes <==> EncodeParts(DecodeParts(bytes[i + 1..])) == bytes[i + 1..]
  {
    AroundNul(bytes, i);
    EncodeFirst(bytes[..i], DecodeParts(bytes[i + 1..]));
    SameAfterNul(bytes[..i], EncodeParts(DecodeParts(bytes[i + 1..])), bytes[i + 1..]);
  }

  /** Writing what was read gives the bytes back exactly when they are empty or end in NUL. */
  lemma {:induction false} EncodeDecode(bytes: string)
    ensures EncodeParts(DecodeParts(bytes)) == bytes <==> EndsInNul(bytes)
    decreases |bytes|
  {
    if NUL in bytes {
      var i := FirstNul(bytes);
      EncodeDecodeStep(bytes, i);
      AroundNul(bytes, i);
      EncodeDecode(bytes[i + 1..]);
    } else {
      NoNulAtAll(bytes);
    }
  }

  /** The material of NUL-free parts determines them, their number included. */
  lemma {:induction false} PartsInjective(a: seq<string>, b: seq<string>)
    requires forall p :: p in a + b ==> NulFree(p)
    requires EncodeParts(a) == EncodeParts(b)
    ensures a == b
  {
    assert forall p :: p in a ==> p in a + b;
    assert forall p :: p in b ==> p in a + b;
    DecodeEncode(a);
    DecodeEncode(b);
  }

  /** A part with a NUL in it is taken for two. */
  lemma NulIsAmbiguous(p: string, q: string)
    ensures EncodeParts([p + [NUL] + q]) == EncodeParts([p, q]) && [p + [NUL] + q] != [p, q]
  {
    assert [p, q][1..] == [q];
    assert EncodeParts([q]) == q + [NUL] + EncodeParts([]);
    assert EncodeParts([p, q]) == p + [NUL] + (q + [NUL]);
  }

  function KeyMaterialOf(analyzer: string, toolVersion: string, configSliceHash: string, inputTreeHash: string): string
  {
    EncodeParts([SCHEMA_VERSION, analyzer, toolVersion, configSliceHash, inputTreeHash])
  }

  lemma {:induction false} EncodeAppend(a: seq<string>, b: seq<string>)
    ensures EncodeParts(a + b) == EncodeParts(a) + EncodeParts(b)
  {
    if |a| == 0 {
      assert a + b == b;
    } else {
      assert (a + b)[1..] == a[1..] + b;
      EncodeAppend(a[1..], b);
    }
  }

  /** The parts one part stands for, when it holds NULs. */
  function Split(part: string): (parts: seq<string>)
    ensures forall p :: p in parts ==> NulFree(p)
  {
    DecodeParts(part + [NUL])
  }

  lemma SplitPart(part: string)
    ensures EncodeParts(Split(part)) == part + [NUL]
  {
    EncodeDecode(part + [NUL]);
  }

  lemma MaterialInParts(a: string, v: string, c: string, t: string)
    ensures KeyMaterialOf(a, v, c, t) == EncodeParts([SCHEMA_VERSION, a] + Split(v) + [c, t])
  {
    var front, back := [SCHEMA_VERSION, a], [c, t];
    SplitPart(v);
    EncodeAppend(front + Split(v), back);
    EncodeAppend(front, Split(v));
    assert [SCHEMA_VERSION, a, v, c, t] == front + ([v] + back);
    EncodeAppend(front, [v] + back);
    EncodeFirst(v, back);
  }

  /** Two invocations share key material only when they agree on every component. The tool version may
      hold NULs, as that of a SCIP indexer does: no other part may, so their places are known. */
  lemma {:induction false} KeyDeterminesComponents(a: string, v: string, c: string, t: string, a2: string, v2: string,
                                                   c2: string, t2: string)
    requires NulFree(a) && NulFree(c) && NulFree(t)
    requires NulFree(a2) && NulFree(c2) && NulFree(t2)
    requires KeyMaterialOf(a, v, c, t) == KeyMaterialOf(a2, v2, c2, t2)
    ensures a == a2 && v == v2 && c == c2 && t == t2
  {
    var x, y := Split(v), Split(v2);
    var p, q := [SCHEMA_VERSION, a] + x + [c, t], [SCHEMA_VERSION, a2] + y + [c2, t2];
    MaterialInParts(a, v, c, t);
    MaterialInParts(a2, v2, c2, t2);
    PartsInjective(p, q);
    assert |p| == |x| + 4 && |q| == |y| + 4;
    assert p[1] == a && q[1] == a2 && p[2..|p| - 2] == x && q[2..|q| - 2] == y;
    assert p[|p| - 2..] == [c, t] && q[|q| - 2..] == [c2, t2];
    SplitPart(v);
    SplitPart(v2);
    assert (v + [NUL])[..|v|] == v && (v2 + [NUL])[..|v2|] == v2;
  }

  /** The material reads back as the schema version and the components, in this order. */
  lemma {:induction false} KeyReadsBack(a: string, v: string, c: string, t: string)
    requires NulFree(a) && NulFree(c) && NulFree(t)
    ensures DecodeParts(KeyMaterialOf(a, v, c, t)) == ["4", a] + Split(v) + [c, t]
  {
    MaterialInParts(a, v, c, t);
    DecodeEncode([SCHEMA_VERSION, a] + Split(v) + [c, t]);
  }

  // ---- The input tree ----

  /** A path and the digest of the file's content. */
  datatype TreeEntry = TreeEntry(path: string, digest: string)

  function EncodeTree(entries: seq<TreeEntry>): string {
    if |entries| == 0 then ""
    else
      var last := entries[|entries| - 1];
      EncodeTree(entries[..|entries| - 1]) + last.path + [NUL] + last.digest + [NUL]
  }

  function EncodeTreeFront(entries: seq<TreeEntry>): string {
    if |entries| == 0 then ""
    else entries[0].path + [NUL] + entries[0].digest + [NUL] + EncodeTreeFront(entries[1..])
  }

  lemma {:induction false} TreeFromEitherEnd(entries: seq<TreeEntry>)
    ensures EncodeTree(entries) == EncodeTreeFront(entries)
  {
    if |entries| != 0 {
      var last := |entries| - 1;
      TreeFromEitherEnd(entries[..last]);
      FrontSnoc(entries[..last], entries[last]);
      assert entries == entries[..last] + [entries[last]];
    }
  }

  lemma {:induction false} FrontSnoc(entries: seq<TreeEntry>, e: TreeEntry)
    ensures EncodeTreeFront(entries + [e]) == EncodeTreeFront(entries) + e.path + [NUL] + e.digest + [NUL]
  {
    if |entries| != 0 {
      FrontSnoc(entries[1..], e);
      assert (entries + [e])[1..] == entries[1..] + [e];
    }
  }

  ghost predicate WellFormed(entries: seq<TreeEntry>) {
    forall e :: e in entries ==> NulFree(e.path) && |e.digest| == DIGEST_BYTES
  }

  /** The tree material determines the paths and digests, whatever bytes a digest holds. */
  lemma {:induction false} TreeFrontInjective(a: seq<TreeEntry>, b: seq<TreeEntry>)
    requires WellFormed(a) && WellFormed(b) && EncodeTreeFront(a) == EncodeTreeFront(b)
    ensures a == b
  {
    if |a| != 0 && |b| != 0 {
      var x, y := a[0], b[0];
      assert x in a && y in b;
      var restA, restB := EncodeTreeFront(a[1..]), EncodeTreeFront(b[1..]);
      assert EncodeTreeFront(a) == x.path + [NUL] + (x.digest + ([NUL] + restA));
      assert EncodeTreeFront(b) == y.path + [NUL] + (y.digest + ([NUL] + restB));
      FirstNulAfter(x.path, x.digest + ([NUL] + restA));
      FirstNulAfter(y.path, y.digest + ([NUL] + restB));
      SameLengthPrefix(x.digest, y.digest, [NUL] + restA, [NUL] + restB);
      assert ([NUL] + restA)[1..] == restA && ([NUL] + restB)[1..] == restB;
      TreeFrontInjective(a[1..], b[1..]);
      assert a == [x] + a[1..] && b == [y] + b[1..];
    }
  }

  lemma SameLengthPrefix(p: string, q: string, r: string, s: string)
    requires |p| == |q| && p + r == q + s
    ensures p == q && r == s
  {
    assert (p + r)[..|p|] == p && (q + s)[..|q|] == q;
    assert (p + r)[|p|..] == r && (q + s)[|q|..] == s;
  }

  lemma TreeInjective(a: seq<TreeEntry>, b: seq<TreeEntry>)
    requires WellFormed(a) && WellFormed(b) && EncodeTree(a) == EncodeTree(b)
    ensures a == b
  {
    TreeFromEitherEnd(a);
    TreeFromEitherEnd(b);
    TreeFrontInjective(a, b);
  }

  // ---- HashTree ----

  datatype HashResult = Hashed(material: string) | Unreadable | OverBudget

  function Sizes(paths: seq<string>, read: string -> Option<string>): nat {
    if |paths| == 0 then 0
    else
      var last := |paths| - 1;
      Sizes(paths[..last], read) + match read(paths[last]) { case Some(c) => |c| case None => 0 }
  }

  function Entries(paths: seq<string>, read: string -> Option<string>, sha: string -> string): (r: seq<TreeEntry>)
    ensures |r| == |paths|
  {
    seq(|paths|, i requires 0 <= i < |paths| =>
      TreeEntry(paths[i], match read(paths[i]) { case Some(c) => sha(c) case None => "" }))
  }

  ghost predicate Readable(paths: seq<string>, read: string -> Option<string>) {
    forall p :: p in paths ==> read(p).Some?
  }

  /** The outcome of HashTree on the inputs in the order it reads them. */
  ghost predicate HashOf(sorted: seq<string>, read: string -> Option<string>, sha: string -> string, r: HashResult) {
    && (r.Hashed? <==> Readable(sorted, read) && Sizes(sorted, read) <= MAX_INPUT_BYTES)
    && (r.Hashed? ==> r.material == EncodeTree(Entries(sorted, read, sha)))
  }

  /** The inputs before i are read and fit the budget. */
  ghost predicate FineBefore(sorted: seq<string>, read: string -> Option<string>, i: nat)
    requires i <= |sorted|
  {
    Readable(sorted[..i], read) && Sizes(sorted[..i], read) <= MAX_INPUT_BYTES
  }

  /** The error names what went wrong first: an input that cannot be read, or one past the budget. */
  ghost predicate FailsFirst(sorted: seq<string>, read: string -> Option<string>, r: HashResult) {
    && (r.Unreadable? <==> exists i :: 0 <= i < |sorted| && FineBefore(sorted, read, i) && read(sorted[i]).None?)
    && (r.OverBudget? <==> exists i :: 0 <= i < |sorted| && FineBefore(sorted, read, i) && read(sorted[i]).Some?
                                       && Sizes(sorted[..i + 1], read) > MAX_INPUT_BYTES)
  }

  /** read answers what a path holds, or None when opening or reading it fails. */
  method HashTree(relPaths: seq<string>, read: string -> Option<string>, sha: string -> string) returns (r: HashResult)
    ensures HashOf(SortBy(relPaths, StrLe), read, sha, r) && FailsFirst(SortBy(relPaths, StrLe), read, r)
  {
    r := HashSorted(SortBy(relPaths, StrLe), read, sha);
  }

  method HashSorted(sorted: seq<string>, read: string -> Option<string>, sha: string -> string) returns (r: HashResult)
    ensures HashOf(sorted, read, sha, r) && FailsFirst(sorted, read, r)
  {
    var material := "";
    var remaining: int := MAX_INPUT_BYTES;
    for i := 0 to |sorted|
      invariant Readable(sorted[..i], read)
      invariant remaining == MAX_INPUT_BYTES - Sizes(sorted[..i], read) >= 0
      invariant material == EncodeTree(Entries(sorted[..i], read, sha))
    {
      StepOne(sorted, read, sha, i);
      match read(sorted[i]) {
        case None =>
          FailsAt(sorted, read, Unreadable, i);
          return Unreadable;
        case Some(content) =>
          // A limited reader stops one byte past the budget.
          var n := if |content| < remaining + 1 then |content| else remaining + 1;
          remaining := remaining - n;
          if remaining < 0 {
            SizesGrow(sorted, read, i + 1);
            FailsAt(sorted, read, OverBudget, i);
            return OverBudget;
          }
          material := material + sorted[i] + [NUL] + sha(content) + [NUL];
      }
    }
    assert sorted[..|sorted|] == sorted;
    FailsNowhere(sorted, read, material);
    r := Hashed(material);
  }

  lemma MemberOfPrefix(sorted: seq<string>, i: nat, j: nat)
    requires i < j <= |sorted|
    ensures sorted[i] in sorted[..j]
  {
    assert sorted[..j][i] == sorted[i];
  }

  /** Of two inputs that are fine up to them and no further, neither comes before the other. */
  lemma OneFailure(sorted: seq<string>, read: string -> Option<string>, i: nat, j: nat)
    requires i < |sorted| && j < |sorted| && FineBefore(sorted, read, i) && FineBefore(sorted, read, j)
    requires read(sorted[i]).None? || Sizes(sorted[..i + 1], read) > MAX_INPUT_BYTES
    ensures j <= i
  {
    if i < j {
      MemberOfPrefix(sorted, i, j);
      assert sorted[..j][..i + 1] == sorted[..i + 1];
      SizesGrow(sorted[..j], read, i + 1);
    }
  }

  lemma FailsAt(sorted: seq<string>, read: string -> Option<string>, r: HashResult, i: nat)
    requires i < |sorted| && FineBefore(sorted, read, i)
    requires if read(sorted[i]).None? then r == Unreadable
             else r == OverBudget && Sizes(sorted[..i + 1], read) > MAX_INPUT_BYTES
    ensures FailsFirst(sorted, read, r)
  {
    forall j | 0 <= j < |sorted| && FineBefore(sorted, read, j)
      && (read(sorted[j]).None? || Sizes(sorted[..j + 1], read) > MAX_INPUT_BYTES)
      ensures j == i
    {
      OneFailure(sorted, read, i, j);
      OneFailure(sorted, read, j, i);
    }
  }

  lemma {:induction false} FailsNowhere(sorted: seq<string>, read: string -> Option<string>, material: string)
    requires Readable(sorted, read) && Sizes(sorted, read) <= MAX_INPUT_BYTES
    ensures FailsFirst(sorted, read, Hashed(material))
  {
    forall i | 0 <= i < |sorted| ensures read(sorted[i]).Some? && Sizes(sorted[..i + 1], read) <= MAX_INPUT_BYTES {
      assert sorted[i] in sorted;
      SizesGrow(sorted, read, i + 1);
    }
  }

  lemma StepOne(sorted: seq<string>, read: string -> Option<string>, sha: string -> string, i: nat)
    requires i < |sorted|
    ensures read(sorted[i]).None? ==> !Readable(sorted, read)
    ensures read(sorted[i]).Some? && Readable(sorted[..i], read) ==> Readable(sorted[..i + 1], read)
    ensures read(sorted[i]).Some? ==>
              && Sizes(sorted[..i + 1], read) == Sizes(sorted[..i], read) + |read(sorted[i]).value|
              && EncodeTree(Entries(sorted[..i + 1], read, sha))
                 == EncodeTree(Entries(sorted[..i], read, sha)) + sorted[i] + [NUL] + sha(read(sorted[i]).value) + [NUL]
  {
    assert sorted[..i + 1][..i] == sorted[..i] && sorted[..i + 1] == sorted[..i] + [sorted[i]];
    assert sorted[i] in sorted;
    assert Entries(sorted[..i + 1], read, sha)[..i] == Entries(sorted[..i], read, sha);
  }

  lemma {:induction false} SizesGrow(paths: seq<string>, read: string -> Option<string>, i: nat)
    requires i <= |paths|
    ensures Sizes(paths[..i], read) <= Sizes(paths, read)
  {
    if i < |paths| {
      SizesGrow(paths[..|paths| - 1], read, i);
      assert paths[..|paths| - 1][..i] == paths[..i];
    } else {
      assert paths[..i] == paths;
    }
  }

  /** HashTree succeeds exactly on readable inputs within the budget, however they are ordered. */
  lemma {:induction false} HashedExactly(relPaths: seq<string>, read: string -> Option<string>, sha: string -> string,
                                         r: HashResult)
    requires HashOf(SortBy(relPaths, StrLe), read, sha, r)
    ensures r.Hashed? <==> Readable(relPaths, read) && Sizes(relPaths, read) <= MAX_INPUT_BYTES
  {
    SortByMembers(relPaths, StrLe);
    SizesOrderFree(relPaths, SortBy(relPaths, StrLe), read);
  }

  lemma Without(b: seq<string>, i: nat)
    requires i < |b|
    ensures multiset(b[..i] + b[i + 1..]) == multiset(b) - multiset{b[i]}
  {
    assert b == b[..i] + [b[i]] + b[i + 1..];
  }

  lemma {:induction false} SizesOrderFree(a: seq<string>, b: seq<string>, read: string -> Option<string>)
    requires multiset(a) == multiset(b)
    ensures Sizes(a, read) == Sizes(b, read)
    decreases |a|
  {
    assert |multiset(a)| == |a| && |multiset(b)| == |b|;
    if |a| != 0 {
      var last := |a| - 1;
      assert a[last] in multiset(b);
      var i :| 0 <= i < |b| && b[i] == a[last];
      Without(a, last);
      Without(b, i);
      assert a[..last] + a[last + 1..] == a[..last];
      SizesOrderFree(a[..last], b[..i] + b[i + 1..], read);
      SizesWithout(b, i, read);
    }
  }

  lemma {:induction false} SizesWithout(b: seq<string>, i: nat, read: string -> Option<string>)
    requires i < |b|
    ensures Sizes(b, read) == Sizes(b[..i] + b[i + 1..], read) + match read(b[i]) { case Some(c) => |c| case None => 0 }
  {
    var last := |b| - 1;
    if i < last {
      SizesWithout(b[..last], i, read);
      assert (b[..i] + b[i + 1..])[..last - 1] == b[..last][..i] + b[..last][i + 1..];
    } else {
      assert b[..i] + b[i + 1..] == b[..last];
    }
  }

  /** The order the inputs are listed in does not matter. */
  lemma {:induction false} HashIgnoresOrder(a: seq<string>, b: seq<string>, read: string -> Option<string>,
                                            sha: string -> string, r: HashResult)
    requires multiset(a) == multiset(b)
    ensures HashOf(SortBy(a, StrLe), read, sha, r) <==> HashOf(SortBy(b, StrLe), read, sha, r)
  {
    StrLeTotalOrder();
    SortByOrderFree(a, b, StrLe);
  }

  lemma EntriesDetermine(a: seq<string>, b: seq<string>, readA: string -> Option<string>,
                         readB: string -> Option<string>, sha: string -> string)
    requires Readable(a, readA) && Readable(b, readB)
    requires EncodeTree(Entries(a, readA, sha)) == EncodeTree(Entries(b, readB, sha))
    requires (forall p :: p in a ==> NulFree(p)) && (forall p :: p in b ==> NulFree(p))
    requires forall c :: |sha(c)| == DIGEST_BYTES
    ensures a == b && forall p :: p in a ==> sha(readA(p).value) == sha(readB(p).value)
  {
    var ea, eb := Entries(a, readA, sha), Entries(b, readB, sha);
    forall i | 0 <= i < |a| ensures NulFree(ea[i].path) && |ea[i].digest| == DIGEST_BYTES { assert a[i] in a; }
    forall i | 0 <= i < |b| ensures NulFree(eb[i].path) && |eb[i].digest| == DIGEST_BYTES { assert b[i] in b; }
    TreeInjective(ea, eb);
    forall i | 0 <= i < |a| ensures a[i] == b[i] && sha(readA(a[i]).value) == sha(readB(a[i]).value) {
      assert ea[i] == eb[i] && a[i] in a && b[i] in b;
    }
  }

  /** Two trees hash the same bytes only when they hold the same paths with the same digests. */
  lemma {:induction false} HashDeterminesTree(a: seq<string>, b: seq<string>, readA: string -> Option<string>,
                                              readB: string -> Option<string>, sha: string -> string, material: string)
    requires HashOf(SortBy(a, StrLe), readA, sha, Hashed(material))
    requires HashOf(SortBy(b, StrLe), readB, sha, Hashed(material))
    requires (forall p :: p in a ==> NulFree(p)) && (forall p :: p in b ==> NulFree(p))
    requires forall c :: |sha(c)| == DIGEST_BYTES
    ensures multiset(a) == multiset(b)
    ensures forall p :: p in a ==> readA(p).Some? && readB(p).Some? && sha(readA(p).value) == sha(readB(p).value)
  {
    SortByMembers(a, StrLe);
    SortByMembers(b, StrLe);
    EntriesDetermine(SortBy(a, StrLe), SortBy(b, StrLe), readA, readB, sha);
  }
}
