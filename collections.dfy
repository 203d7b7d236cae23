/**
 * Sequence helpers shared by the table operations: list comprehensions with
 * a condition, order-keeping duplicate removal (`.unique()`) and the
 * duplicate-group query (`group_by(...).agg(count).filter(count > 1)`).
 */
module Collections {

  /** No element occurs twice. */
  predicate NoDup<T(==)>(s: seq<T>) {
    forall i, j :: 0 <= i < j < |s| ==> s[i] != s[j]
  }

  /** `a` is obtained from `b` by deleting elements, keeping the order of the rest. */
  predicate SubSeq<T(==)>(a: seq<T>, b: seq<T>)
    decreases |b|
  {
    if a == [] then true
    else if b == [] then false
    else if a[0] == b[0] then SubSeq(a[1..], b[1..])
    else SubSeq(a, b[1..])
  }

  /** The elements of `s` that satisfy `p`, in order: `[x for x in s if p(x)]`. */
  function Keep<T(==,!new)>(s: seq<T>, p: T -> bool): (r: seq<T>)
    ensures forall x :: x in r <==> x in s && p(x)
    ensures SubSeq(r, s)
    ensures NoDup(s) ==> NoDup(r)
    ensures |r| <= |s|
  {
    if s == [] then []
    else
      var rest := Keep(s[1..], p);
      if p(s[0]) then
        assert ([s[0]] + rest)[1..] == rest;
        [s[0]] + rest
      else
        assert rest != [] ==> rest[0] in rest && rest[0] != s[0];
        rest
  }

  /** Keeping everything that satisfies `p` from a sequence whose elements all do changes nothing. */
  lemma {:induction false} KeepAll<T(!new)>(s: seq<T>, p: T -> bool)
    requires forall x :: x in s ==> p(x)
    ensures Keep(s, p) == s
  {
    if s != [] {
      KeepAll(s[1..], p);
    }
  }

  /** Filtering a concatenation filters both parts. */
  lemma {:induction false} KeepConcat<T(!new)>(a: seq<T>, b: seq<T>, p: T -> bool)
    ensures Keep(a + b, p) == Keep(a, p) + Keep(b, p)
  {
    if a == [] {
      assert a + b == b;
    } else {
      assert (a + b)[1..] == a[1..] + b;
      KeepConcat(a[1..], b, p);
    }
  }

  /** Filtering twice is filtering once by both conditions. */
  lemma {:induction false} KeepKeep<T(!new)>(s: seq<T>, p: T -> bool, q: T -> bool, pq: T -> bool)
    requires forall x :: pq(x) == (p(x) && q(x))
    ensures Keep(Keep(s, p), q) == Keep(s, pq)
  {
    if s != [] {
      KeepKeep(s[1..], p, q, pq);
    }
  }

  /** Two conditions that agree on the elements of `s` keep the same elements. */
  lemma {:induction false} KeepCongruent<T(!new)>(s: seq<T>, p: T -> bool, q: T -> bool)
    requires forall x :: x in s ==> p(x) == q(x)
    ensures Keep(s, p) == Keep(s, q)
  {
    if s != [] {
      KeepCongruent(s[1..], p, q);
    }
  }

  /** Concatenating two repeat-free sequences with no common element has no repeats. */
  lemma NoDupConcat<T>(a: seq<T>, b: seq<T>)
    requires NoDup(a) && NoDup(b)
    requires forall x :: x in a ==> x !in b
    ensures NoDup(a + b)
  {
    forall i, j | 0 <= i < j < |a + b| ensures (a + b)[i] != (a + b)[j] {
      if i < |a| && j >= |a| {
        assert (a + b)[i] in a && (a + b)[j] in b;
      }
    }
  }

  /**
   * The distinct elements of `s`, each at the place of its first occurrence:
   * `unique(keep="first")` on a one-column view.
   */
  function Distinct<T(==,!new)>(s: seq<T>): (r: seq<T>)
    ensures |r| <= |s|
  {
    if s == [] then []
    else
      var d := Distinct(s[..|s| - 1]);
      var x := s[|s| - 1];
      if x in d then d else d + [x]
  }

  /** Distinct keeps exactly the elements of `s`, each once. */
  lemma {:induction false} DistinctSpec<T(!new)>(s: seq<T>)
    ensures NoDup(Distinct(s))
    ensures forall x :: x in Distinct(s) <==> x in s
  {
    if s != [] {
      var init := s[..|s| - 1];
      var x := s[|s| - 1];
      DistinctSpec(init);
      assert forall y :: y in s <==> y in init || y == x;
      var d := Distinct(init);
      if x !in d {
        NoDupConcat(d, [x]);
      }
    }
  }

  /** Distinct is the identity on a sequence without repeats. */
  lemma {:induction false} DistinctOfNoDup<T(!new)>(s: seq<T>)
    requires NoDup(s)
    ensures Distinct(s) == s
  {
    if s != [] {
      var init := s[..|s| - 1];
      assert NoDup(init);
      DistinctOfNoDup(init);
      assert s[|s| - 1] !in init;
      assert init + [s[|s| - 1]] == s;
    }
  }

  /** One row of a duplicate report: a value and how often it occurs. */
  datatype Group<T> = Group(value: T, occurrences: nat)

  /** The values of a list of groups. */
  function GroupValues<T>(g: seq<Group<T>>): (r: seq<T>)
    ensures |r| == |g|
    ensures forall i :: 0 <= i < |g| ==> r[i] == g[i].value
  {
    if g == [] then [] else GroupValues(g[..|g| - 1]) + [g[|g| - 1].value]
  }

  /** For each element of `d` that occurs in `s` more than once, its group. */
  function GroupsOf<T(==,!new)>(d: seq<T>, s: seq<T>): (g: seq<Group<T>>)
    ensures |g| <= |d|
  {
    if d == [] then []
    else
      var init := GroupsOf(d[..|d| - 1], s);
      var x := d[|d| - 1];
      if multiset(s)[x] > 1 then init + [Group(x, multiset(s)[x])] else init
  }

  /** The groups name exactly the elements of `d` occurring in `s` more than once, each with its count. */
  lemma {:induction false} GroupsOfSpec<T(!new)>(d: seq<T>, s: seq<T>)
    ensures forall i :: 0 <= i < |GroupsOf(d, s)| ==>
      GroupsOf(d, s)[i].value in d && GroupsOf(d, s)[i].occurrences == multiset(s)[GroupsOf(d, s)[i].value] > 1
    ensures forall x :: x in GroupValues(GroupsOf(d, s)) <==> x in d && multiset(s)[x] > 1
  {
    if d != [] {
      var init := d[..|d| - 1];
      var x := d[|d| - 1];
      GroupsOfSpec(init, s);
      assert forall y :: y in d <==> y in init || y == x;
      var gi := GroupsOf(init, s);
      if multiset(s)[x] > 1 {
        assert GroupValues(gi + [Group(x, multiset(s)[x])]) == GroupValues(gi) + [x];
      }
    }
  }

  /** Groups of distinct elements name distinct values. */
  lemma {:induction false} GroupsOfNoDup<T(!new)>(d: seq<T>, s: seq<T>)
    requires NoDup(d)
    ensures NoDup(GroupValues(GroupsOf(d, s)))
  {
    if d != [] {
      var init := d[..|d| - 1];
      var x := d[|d| - 1];
      GroupsOfNoDup(init, s);
      GroupsOfSpec(init, s);
      assert x !in init;
      var vs := GroupValues(GroupsOf(init, s));
      if multiset(s)[x] > 1 {
        assert GroupValues(GroupsOf(d, s)) == vs + [x];
      }
    }
  }

  /** Each element is smaller than the next. */
  predicate Increasing(c: seq<int>) {
    forall k :: 0 < k < |c| ==> c[k - 1] < c[k]
  }

  /** In an increasing sequence an earlier element is smaller than a later one. */
  lemma {:induction false} IncreasingLess(c: seq<int>, i: nat, j: nat)
    requires Increasing(c) && i < j < |c|
    ensures c[i] < c[j]
  {
    if i < j - 1 {
      IncreasingLess(c, i, j - 1);
    }
  }

  /** An increasing sequence has no repeats. */
  lemma IncreasingNoDup(c: seq<int>)
    requires Increasing(c)
    ensures NoDup(c)
  {
    forall i, j | 0 <= i < j < |c| ensures c[i] != c[j] {
      IncreasingLess(c, i, j);
    }
  }

  /** A value strictly between two neighbours of an increasing sequence, or above its last element, is not in it. */
  lemma IncreasingGap(c: seq<int>, k: nat, x: int)
    requires Increasing(c) && k < |c|
    requires c[k] < x && (k + 1 < |c| ==> x < c[k + 1])
    ensures x !in c
  {
    forall i | 0 <= i < |c| ensures c[i] != x {
      if i < k {
        IncreasingLess(c, i, k);
      }
      if i > k + 1 {
        IncreasingLess(c, k + 1, i);
      }
    }
  }

  /** No element of `a` is in `b`. */
  predicate Disjoint<T(==)>(a: seq<T>, b: seq<T>) {
    forall x :: x in a ==> x !in b
  }

  /** The first `n` parts, one after the other. */
  function ConcatUpTo<T>(parts: seq<seq<T>>, n: nat): (r: seq<T>)
    requires n <= |parts|
    ensures n == 0 ==> r == []
  {
    if n == 0 then [] else ConcatUpTo(parts, n - 1) + parts[n - 1]
  }

  /** Every element of a concatenation comes from one of its parts. */
  lemma {:induction false} ConcatOrigin<T>(parts: seq<seq<T>>, n: nat, x: T) returns (j: nat)
    requires n <= |parts| && x in ConcatUpTo(parts, n)
    ensures j < n && x in parts[j]
  {
    if x in parts[n - 1] {
      j := n - 1;
    } else {
      j := ConcatOrigin(parts, n - 1, x);
    }
  }

  /** Every element of a part is in the concatenation. */
  lemma {:induction false} ConcatHas<T>(parts: seq<seq<T>>, n: nat, j: nat, x: T)
    requires j < n <= |parts| && x in parts[j]
    ensures x in ConcatUpTo(parts, n)
  {
    if j < n - 1 {
      ConcatHas(parts, n - 1, j, x);
    }
  }

  /** Parts without repeats that share no element concatenate to a sequence without repeats. */
  lemma {:induction false} ConcatNoDup<T>(parts: seq<seq<T>>, n: nat)
    requires n <= |parts|
    requires forall j :: 0 <= j < n ==> NoDup(parts[j])
    requires forall j, k :: 0 <= j < k < n ==> Disjoint(parts[j], parts[k])
    ensures NoDup(ConcatUpTo(parts, n))
  {
    if n > 0 {
      ConcatNoDup(parts, n - 1);
      var pre := ConcatUpTo(parts, n - 1);
      forall x | x in pre ensures x !in parts[n - 1] {
        var j := ConcatOrigin(parts, n - 1, x);
        assert Disjoint(parts[j], parts[n - 1]);
      }
      NoDupConcat(pre, parts[n - 1]);
    }
  }

  /**
   * The duplicate-group query: every value occurring more than once, with its
   * count, each value reported once.
   */
  function DuplicateGroups<T(==,!new)>(s: seq<T>): (g: seq<Group<T>>)
    ensures |g| <= |s|
  {
    GroupsOf(Distinct(s), s)
  }

  /** The duplicate groups name exactly the repeated values, each once, with its count. */
  lemma DuplicateGroupsSpec<T(!new)>(s: seq<T>)
    ensures forall x :: x in GroupValues(DuplicateGroups(s)) <==> multiset(s)[x] > 1
    ensures forall i :: 0 <= i < |DuplicateGroups(s)| ==>
      DuplicateGroups(s)[i].occurrences == multiset(s)[DuplicateGroups(s)[i].value] > 1
    ensures NoDup(GroupValues(DuplicateGroups(s)))
  {
    DistinctSpec(s);
    GroupsOfSpec(Distinct(s), s);
    GroupsOfNoDup(Distinct(s), s);
  }

  /** Sum of the `occurrences` column of a report. */
  function SumOccurrences<T>(g: seq<Group<T>>): nat {
    if g == [] then 0 else SumOccurrences(g[..|g| - 1]) + g[|g| - 1].occurrences
  }

  /** Sum of the occurrences minus the number of groups: the duplicates beyond each first copy. */
  function TotalDuplicateEntries<T>(g: seq<Group<T>>): int {
    SumOccurrences(g) - |g|
  }

  /** Sum over `d` of (occurrences in `s` minus one). */
  function Excess<T(==,!new)>(d: seq<T>, s: seq<T>): int {
    if d == [] then 0 else Excess(d[..|d| - 1], s) + multiset(s)[d[|d| - 1]] - 1
  }

  lemma {:induction false} GroupsExcess<T(!new)>(d: seq<T>, s: seq<T>)
    requires forall x :: x in d ==> x in s
    ensures TotalDuplicateEntries(GroupsOf(d, s)) == Excess(d, s)
  {
    if d != [] {
      var init := d[..|d| - 1];
      assert forall x :: x in init ==> x in d;
      GroupsExcess(init, s);
      assert d[|d| - 1] in d;
    }
  }

  lemma {:induction false} ExcessAppend<T(!new)>(d: seq<T>, s: seq<T>, y: T)
    requires NoDup(d)
    ensures Excess(d, s + [y]) == Excess(d, s) + (if y in d then 1 else 0)
  {
    if d != [] {
      var init := d[..|d| - 1];
      assert NoDup(init);
      ExcessAppend(init, s, y);
      assert multiset(s + [y]) == multiset(s) + multiset{y};
      assert y in d <==> y in init || y == d[|d| - 1];
      assert y in init ==> y != d[|d| - 1];
    }
  }

  lemma {:induction false} DistinctExcess<T(!new)>(s: seq<T>)
    ensures Excess(Distinct(s), s) == |s| - |Distinct(s)|
  {
    if s != [] {
      var init := s[..|s| - 1];
      var y := s[|s| - 1];
      assert s == init + [y];
      var d := Distinct(init);
      DistinctExcess(init);
      DistinctSpec(init);
      ExcessAppend(d, init, y);
      if y !in d {
        assert (d + [y])[..|d + [y]| - 1] == d;
        assert multiset(init)[y] == 0;
        assert multiset(s) == multiset(init) + multiset{y};
      }
    }
  }

  /**
   * The count the duplicate report logs (sum of occurrences minus the number
   * of groups) equals the number of rows `.unique()` removes.
   */
  lemma DuplicateEntriesEqualRowsRemoved<T(!new)>(s: seq<T>)
    ensures TotalDuplicateEntries(DuplicateGroups(s)) == |s| - |Distinct(s)|
  {
    DistinctSpec(s);
    GroupsExcess(Distinct(s), s);
    DistinctExcess(s);
  }
}
