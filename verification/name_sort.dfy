/**
  The name sort behind the "Name" column header: a stable sort (as
  `Array.prototype.sort` is) driven by the component's comparator, whose
  sign depends on the current sort direction.
 */
module NameSort {
  import opened Text
  import opened Users

  datatype SortDirection = Asc | Desc

  /** The direction after a click on the header: the other one. */
  function Flip(d: SortDirection): (e: SortDirection)
    ensures e != d
  {
    if d == Asc then Desc else Asc
  }

  /** Flipping twice gives back the original direction. */
  lemma FlipInvolution(d: SortDirection)
    ensures Flip(Flip(d)) == d
  {
  }

  /** The comparator passed to `sort`: positive when `a` must come after
      `b`, negative when before, zero when the names are equal. */
  function Compare(dir: SortDirection, a: User, b: User): (c: int)
    ensures -1 <= c <= 1
    ensures c == 0 <==> a.name == b.name
  {
    LessTrichotomy(a.name, b.name);
    LessIrreflexive(a.name);
    if Less(b.name, a.name) then (if dir == Asc then 1 else -1)
    else if Less(a.name, b.name) then (if dir == Asc then -1 else 1)
    else 0
  }

  /** The comparator is consistent: antisymmetric, zero exactly on equal
      names, and "not after" is transitive. */
  lemma CompareConsistent(dir: SortDirection, a: User, b: User, c: User)
    ensures Compare(dir, a, b) == -Compare(dir, b, a)
    ensures Compare(dir, a, b) == 0 <==> a.name == b.name
    ensures Compare(dir, a, b) <= 0 && Compare(dir, b, c) <= 0 ==> Compare(dir, a, c) <= 0
  {
    LessTrichotomy(a.name, b.name);
    LessTrichotomy(b.name, c.name);
    LessTrichotomy(a.name, c.name);
    LessIrreflexive(a.name);
    if Less(a.name, b.name) && Less(b.name, c.name) {
      LessTransitive(a.name, b.name, c.name);
    }
    if Less(c.name, b.name) && Less(b.name, a.name) {
      LessTransitive(c.name, b.name, a.name);
    }
  }

  /** Adjacent elements are in comparator order. */
  predicate Sorted(dir: SortDirection, s: seq<User>) {
    forall i :: 0 < i < |s| ==> Compare(dir, s[i - 1], s[i]) <= 0
  }

  /** One step of a stable insertion sort: `x`, which came before every
      element of `t` in the input, goes in front of the first element it
      does not have to follow. */
  function Insert(dir: SortDirection, x: User, t: seq<User>): (r: seq<User>)
    ensures |r| == |t| + 1
    ensures multiset(r) == multiset(t) + multiset{x}
    ensures r[0] == x || (t != [] && r[0] == t[0])
  {
    if t == [] then [x]
    else if Compare(dir, x, t[0]) > 0 then
      assert t == [t[0]] + t[1..];
      [t[0]] + Insert(dir, x, t[1..])
    else [x] + t
  }

  lemma {:induction false} InsertKeepsSorted(dir: SortDirection, x: User, t: seq<User>)
    requires Sorted(dir, t)
    ensures Sorted(dir, Insert(dir, x, t))
  {
    if t != [] && Compare(dir, x, t[0]) > 0 {
      InsertKeepsSorted(dir, x, t[1..]);
      CompareConsistent(dir, x, t[0], t[0]);
    }
  }

  /** `[...filteredUsers].sort(comparator)`: a permutation of the input,
      sorted by the comparator. */
  function SortByName(dir: SortDirection, s: seq<User>): (r: seq<User>)
    ensures |r| == |s|
    ensures multiset(r) == multiset(s)
    ensures Sorted(dir, r)
  {
    if s == [] then []
    else
      assert s == [s[0]] + s[1..];
      InsertKeepsSorted(dir, s[0], SortByName(dir, s[1..]));
      Insert(dir, s[0], SortByName(dir, s[1..]))
  }

  /** In a sorted list every pair, not only adjacent ones, is in comparator order. */
  lemma {:induction false} SortedPairwise(dir: SortDirection, s: seq<User>, i: int, j: int)
    requires Sorted(dir, s)
    requires 0 <= i < j < |s|
    ensures Compare(dir, s[i], s[j]) <= 0
    decreases j - i
  {
    if i + 1 < j {
      SortedPairwise(dir, s, i + 1, j);
      CompareConsistent(dir, s[i], s[i + 1], s[j]);
    }
  }

  /** Sorting ascending makes names non-decreasing; sorting descending
      makes them non-increasing. */
  lemma SortOrdersNames(dir: SortDirection, s: seq<User>, i: int, j: int)
    requires 0 <= i < j < |s|
    ensures dir == Asc ==> !Less(SortByName(dir, s)[j].name, SortByName(dir, s)[i].name)
    ensures dir == Desc ==> !Less(SortByName(dir, s)[i].name, SortByName(dir, s)[j].name)
  {
    var r := SortByName(dir, s);
    SortedPairwise(dir, r, i, j);
    LessTrichotomy(r[i].name, r[j].name);
  }

  /** The users of `s` whose name is `n`, in order. */
  function WithName(s: seq<User>, n: string): (r: seq<User>)
    ensures |r| <= |s|
  {
    if s == [] then []
    else if s[0].name == n then [s[0]] + WithName(s[1..], n)
    else WithName(s[1..], n)
  }

  lemma {:induction false} InsertStable(dir: SortDirection, x: User, t: seq<User>, n: string)
    ensures WithName(Insert(dir, x, t), n) == WithName([x] + t, n)
  {
    if t != [] && Compare(dir, x, t[0]) > 0 {
      CompareConsistent(dir, x, t[0], t[0]);
      InsertStable(dir, x, t[1..], n);
      assert ([x] + t)[1..] == t;
      assert ([x] + t[1..])[1..] == t[1..];
      assert ([t[0]] + Insert(dir, x, t[1..]))[1..] == Insert(dir, x, t[1..]);
    }
  }

  /** The sort is stable: users with equal names keep their relative order. */
  lemma {:induction false} SortStable(dir: SortDirection, s: seq<User>, n: string)
    ensures WithName(SortByName(dir, s), n) == WithName(s, n)
  {
    if s != [] {
      SortStable(dir, s[1..], n);
      InsertStable(dir, s[0], SortByName(dir, s[1..]), n);
      assert ([s[0]] + SortByName(dir, s[1..]))[1..] == SortByName(dir, s[1..]);
    }
  }

  /** Sorting a list already sorted in the same direction leaves it unchanged. */
  lemma {:induction false} SortOfSortedIsIdentity(dir: SortDirection, s: seq<User>)
    requires Sorted(dir, s)
    ensures SortByName(dir, s) == s
  {
    if s != [] {
      SortOfSortedIsIdentity(dir, s[1..]);
      assert s == [s[0]] + s[1..];
    }
  }
}
