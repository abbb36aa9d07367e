/**
  Total orders and sorting. The sources sort through their standard libraries
  (Go sort.Strings, slices.Sort, Python sorted); SortBy stands for those calls.
  A sorted permutation under a total order is unique, which is what makes every
  sorted result independent of the order its input came in.
*/
module Orders {

  /** Any two elements compare; distinct elements may tie. */
  ghost predicate TotalPreorder<T(!new)>(le: (T, T) -> bool) {
    && (forall x, y :: le(x, y) || le(y, x))
    && (forall x, y, z :: le(x, y) && le(y, z) ==> le(x, z))
  }

  ghost predicate TotalOrder<T(!new)>(le: (T, T) -> bool) {
    TotalPreorder(le) && forall x, y :: le(x, y) && le(y, x) ==> x == y
  }

  ghost predicate Sorted<T>(s: seq<T>, le: (T, T) -> bool) {
    forall i, j :: 0 <= i < j < |s| ==> le(s[i], s[j])
  }

  ghost predicate NoDup<T>(s: seq<T>) {
    forall i, j :: 0 <= i < j < |s| ==> s[i] != s[j]
  }

  function SetOf<T(==)>(s: seq<T>): set<T> {
    set x | x in s
  }

  function Insert<T>(x: T, s: seq<T>, le: (T, T) -> bool): (r: seq<T>)
    ensures multiset(r) == multiset(s) + multiset{x}
  {
    if |s| == 0 then [x]
    else if le(x, s[0]) then [x] + s
    else
      assert s == [s[0]] + s[1..];
      [s[0]] + Insert(x, s[1..], le)
  }

  function SortBy<T>(s: seq<T>, le: (T, T) -> bool): (r: seq<T>)
    ensures multiset(r) == multiset(s)
    ensures |r| == |s|
  {
    if |s| == 0 then []
    else
      assert s == [s[0]] + s[1..];
      var r := Insert(s[0], SortBy(s[1..], le), le);
      assert |multiset(r)| == |multiset(s)|;
      r
  }

  lemma {:induction false} InsertKeepsSorted<T(!new)>(x: T, s: seq<T>, le: (T, T) -> bool)
    requires TotalPreorder(le) && Sorted(s, le)
    ensures Sorted(Insert(x, s, le), le)
  {
    if |s| == 0 {
    } else if le(x, s[0]) {
      assert forall i :: 0 <= i < |s| ==> le(x, s[i]);
    } else {
      InsertKeepsSorted(x, s[1..], le);
      var tail := Insert(x, s[1..], le);
      forall i | 0 <= i < |tail| ensures le(s[0], tail[i]) {
        assert tail[i] in multiset(tail);
        assert tail[i] == x || tail[i] in s[1..];
      }
    }
  }

  lemma {:induction false} SortBySorts<T(!new)>(s: seq<T>, le: (T, T) -> bool)
    requires TotalPreorder(le)
    ensures Sorted(SortBy(s, le), le)
  {
    if |s| != 0 {
      SortBySorts(s[1..], le);
      InsertKeepsSorted(s[0], SortBy(s[1..], le), le);
    }
  }

  lemma SortedHead<T(!new)>(a: seq<T>, b: seq<T>, le: (T, T) -> bool)
    requires Sorted(a, le) && |a| > 0 && |b| > 0 && multiset(a) == multiset(b)
    ensures a[0] == b[0] || le(a[0], b[0])
  {
    assert b[0] in multiset(a);
    var i :| 0 <= i < |a| && a[i] == b[0];
  }

  lemma SameHead<T(!new)>(a: seq<T>, b: seq<T>, le: (T, T) -> bool)
    requires TotalOrder(le) && Sorted(a, le) && Sorted(b, le)
    requires |a| > 0 && |b| > 0 && multiset(a) == multiset(b)
    ensures a[0] == b[0]
  {
    SortedHead(a, b, le);
    SortedHead(b, a, le);
  }

  lemma MultisetTail<T>(a: seq<T>)
    requires |a| > 0
    ensures multiset(a[1..]) == multiset(a) - multiset{a[0]}
  {
    assert a == [a[0]] + a[1..];
  }

  /** Two sorted permutations of one another are the same sequence. */
  lemma {:induction false} SortedUnique<T(!new)>(a: seq<T>, b: seq<T>, le: (T, T) -> bool)
    requires TotalOrder(le) && Sorted(a, le) && Sorted(b, le)
    requires multiset(a) == multiset(b)
    ensures a == b
  {
    hide *;
    SameLength(a, b);
    if |a| != 0 {
      SameHead(a, b, le);
      SameTails(a, b);
      SortedTail(a, le);
      SortedTail(b, le);
      SortedUnique(a[1..], b[1..], le);
      Rejoin(a, b);
    }
  }

  lemma SameLength<T>(a: seq<T>, b: seq<T>)
    requires multiset(a) == multiset(b)
    ensures |a| == |b|
  {
    assert |multiset(a)| == |a| && |multiset(b)| == |b|;
  }

  lemma SameTails<T>(a: seq<T>, b: seq<T>)
    requires |a| > 0 && |b| > 0 && a[0] == b[0] && multiset(a) == multiset(b)
    ensures multiset(a[1..]) == multiset(b[1..])
  {
    MultisetTail(a);
    MultisetTail(b);
  }

  lemma Rejoin<T>(a: seq<T>, b: seq<T>)
    requires |a| > 0 && |b| > 0 && a[0] == b[0] && a[1..] == b[1..]
    ensures a == b
  {
    assert a == [a[0]] + a[1..] && b == [b[0]] + b[1..];
  }

  lemma SortedTail<T>(a: seq<T>, le: (T, T) -> bool)
    requires Sorted(a, le) && |a| > 0
    ensures Sorted(a[1..], le)
  {
  }

  /** Sorting forgets the order of its input. */
  lemma {:induction false} SortByOrderFree<T(!new)>(a: seq<T>, b: seq<T>, le: (T, T) -> bool)
    requires TotalOrder(le) && multiset(a) == multiset(b)
    ensures SortBy(a, le) == SortBy(b, le)
  {
    SortBySorts(a, le);
    SortBySorts(b, le);
    SortedUnique(SortBy(a, le), SortBy(b, le), le);
  }

  /** Members survive sorting, in both directions. */
  lemma SortByMembers<T>(s: seq<T>, le: (T, T) -> bool)
    ensures forall x :: x in SortBy(s, le) <==> x in s
  {
    forall x ensures x in SortBy(s, le) <==> x in s {
      assert x in multiset(SortBy(s, le)) <==> x in multiset(s);
    }
  }

  /** A sequence without repeats has none in any permutation. */
  lemma NoDupPermutation<T>(a: seq<T>, b: seq<T>)
    requires multiset(a) == multiset(b) && NoDup(a)
    ensures NoDup(b)
  {
    forall i, j | 0 <= i < j < |b| ensures b[i] != b[j] {
      if b[i] == b[j] {
        assert b == b[..i] + [b[i]] + b[i + 1..j] + [b[j]] + b[j + 1..];
        assert multiset(b)[b[i]] >= 2;
        NoDupCount(a, b[i]);
      }
    }
  }

  lemma {:induction false} NoDupCount<T>(a: seq<T>, x: T)
    requires NoDup(a)
    ensures multiset(a)[x] <= 1
  {
    if |a| != 0 {
      assert a == [a[0]] + a[1..];
      NoDupCount(a[1..], x);
      if a[0] == x {
        assert x !in a[1..];
        assert x !in multiset(a[1..]);
      }
    }
  }

  /** Repeat-free sequences with the same members are permutations of one another. */
  lemma SameMembersPermute<T(!new)>(a: seq<T>, b: seq<T>)
    requires NoDup(a) && NoDup(b) && forall x :: x in a <==> x in b
    ensures multiset(a) == multiset(b)
  {
    forall x ensures multiset(a)[x] == multiset(b)[x] {
      NoDupCount(a, x);
      NoDupCount(b, x);
      assert x in a <==> x in multiset(a);
      assert x in b <==> x in multiset(b);
    }
  }

  lemma {:induction false} NoDupAtMost<T>(s: seq<T>, all: set<T>)
    requires NoDup(s) && forall x :: x in s ==> x in all
    ensures |s| <= |all|
  {
    if |s| != 0 {
      var last := |s| - 1;
      assert forall x :: x in s[..last] ==> x in all - {s[last]};
      NoDupAtMost(s[..last], all - {s[last]});
    }
  }

  lemma HeadIsMember<T>(s: seq<T>)
    ensures |s| == 0 || s[0] in s
  {
  }

  /** Lexicographic order on code points: Go and Python order strings this way. */
  predicate StrLe(a: string, b: string) {
    |a| == 0 || (|b| != 0 && (a[0] < b[0] || (a[0] == b[0] && StrLe(a[1..], b[1..]))))
  }

  lemma {:induction false} StrLeTotalOrder()
    ensures TotalOrder(StrLe)
  {
    forall x, y ensures StrLe(x, y) || StrLe(y, x) { StrLeTotal(x, y); }
    forall x, y | StrLe(x, y) && StrLe(y, x) ensures x == y { StrLeAntisymmetric(x, y); }
    forall x, y, z | StrLe(x, y) && StrLe(y, z) ensures StrLe(x, z) { StrLeTransitive(x, y, z); }
  }

  lemma {:induction false} StrLeTotal(x: string, y: string)
    ensures StrLe(x, y) || StrLe(y, x)
  {
    if |x| != 0 && |y| != 0 && x[0] == y[0] { StrLeTotal(x[1..], y[1..]); }
  }

  lemma {:induction false} StrLeAntisymmetric(x: string, y: string)
    requires StrLe(x, y) && StrLe(y, x)
    ensures x == y
  {
    if |x| != 0 && |y| != 0 {
      StrLeAntisymmetric(x[1..], y[1..]);
      assert x == [x[0]] + x[1..] && y == [y[0]] + y[1..];
    }
  }

  lemma {:induction false} StrLeTransitive(x: string, y: string, z: string)
    requires StrLe(x, y) && StrLe(y, z)
    ensures StrLe(x, z)
  {
    if |x| != 0 && x[0] == y[0] && y[0] == z[0] { StrLeTransitive(x[1..], y[1..], z[1..]); }
  }

  /** The strings of a set, each once, in order: sorted map keys. */
  ghost function SortedSet(names: set<string>): (s: seq<string>)
    ensures NoDup(s) && Sorted(s, StrLe) && forall a :: a in s <==> a in names
  {
    SortedSetExists(names);
    var s :| NoDup(s) && Sorted(s, StrLe) && forall a :: a in s <==> a in names;
    s
  }

  lemma {:induction false} Enumeration(names: set<string>) returns (s: seq<string>)
    ensures NoDup(s) && forall a :: a in s <==> a in names
  {
    s := [];
    if names != {} {
      var a :| a in names;
      var rest := Enumeration(names - {a});
      s := rest + [a];
    }
  }

  lemma SortedSetExists(names: set<string>)
    ensures exists s :: NoDup(s) && Sorted(s, StrLe) && forall a :: a in s <==> a in names
  {
    var s := Enumeration(names);
    StrLeTotalOrder();
    SortBySorts(s, StrLe);
    SortByMembers(s, StrLe);
    NoDupPermutation(s, SortBy(s, StrLe));
  }

  /** Sorting the keys of a map, which Go hands out in no particular order. */
  method SortedNames(names: set<string>) returns (sorted: seq<string>)
    ensures sorted == SortedSet(names)
  {
    var found: seq<string> := [];
    var rest := names;
    while rest != {}
      invariant rest <= names && NoDup(found)
      invariant forall a :: a in found <==> a in names - rest
    {
      var a :| a in rest;
      rest := rest - {a};
      assert forall b :: b in found + [a] <==> b in found || b == a;
      found := found + [a];
    }
    StrLeTotalOrder();
    SortBySorts(found, StrLe);
    SortByMembers(found, StrLe);
    NoDupPermutation(found, SortBy(found, StrLe));
    sorted := SortBy(found, StrLe);
    SameMembersPermute(sorted, SortedSet(names));
    SortedUnique(sorted, SortedSet(names), StrLe);
  }
}
