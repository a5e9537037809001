/** List operations the grid stores perform on their position pools. */
module Lists {

  /** No value occurs twice. */
  ghost predicate Distinct<T(!new)>(s: seq<T>) {
    forall v :: multiset(s)[v] <= 1
  }

  /** No two positions hold the same value. */
  predicate NoDuplicates<T(==)>(s: seq<T>) {
    forall i, j :: 0 <= i < j < |s| ==> s[i] != s[j]
  }

  lemma DistinctNoDuplicates<T(!new)>(s: seq<T>)
    requires Distinct(s)
    ensures NoDuplicates(s)
  {
    forall i, j | 0 <= i < j < |s|
      ensures s[i] != s[j]
    {
      DistinctIndices(s, i, j);
    }
  }

  lemma DistinctIndices<T(!new)>(s: seq<T>, i: int, j: int)
    requires Distinct(s) && 0 <= i < j < |s|
    ensures s[i] != s[j]
  {
    var a, b, c := s[..i], s[i + 1..j], s[j + 1..];
    assert s == a + [s[i]] + b + [s[j]] + c;
    assert multiset(s) == multiset(a) + multiset{s[i]} + multiset(b) + multiset{s[j]} + multiset(c);
    assert multiset(s)[s[j]] >= multiset{s[i]}[s[j]] + 1;
  }

  /** Two duplicate-free lists with no common value concatenate to a duplicate-free list. */
  lemma DisjointConcat<T(!new)>(a: seq<T>, b: seq<T>)
    requires Distinct(a) && Distinct(b)
    requires forall v :: v in b ==> v !in a
    ensures Distinct(a + b)
  {
    assert multiset(a + b) == multiset(a) + multiset(b);
    forall v ensures multiset(a + b)[v] <= 1 {
      if v in b {
        assert multiset(a)[v] == 0;
      }
    }
  }

  /** Random.Range(i, n) draws for every pass i of a Fisher–Yates shuffle of n elements. */
  predicate ValidPicks(n: int, picks: seq<int>) {
    |picks| == n && forall i :: 0 <= i < n ==> i <= picks[i] < n
  }

  /** One pass of ShuffleList: elements i and j trade places (nothing happens when i == j). */
  function Swap<T>(s: seq<T>, i: int, j: int): (r: seq<T>)
    requires 0 <= i < |s| && 0 <= j < |s|
    ensures |r| == |s|
    ensures r[i] == s[j] && r[j] == s[i]
    ensures forall k :: 0 <= k < |s| && k != i && k != j ==> r[k] == s[k]
  {
    s[i := s[j]][j := s[i]]
  }

  /** The list after the passes i, i+1, ... of ShuffleList with the draws `picks`. */
  function Shuffled<T>(s: seq<T>, picks: seq<int>, i: nat): (r: seq<T>)
    requires ValidPicks(|s|, picks) && i <= |s|
    ensures |r| == |s|
    decreases |s| - i
  {
    if i == |s| then s else Shuffled(Swap(s, i, picks[i]), picks, i + 1)
  }

  /** Whatever the draws, the shuffle only reorders: the result is a permutation of the list. */
  lemma {:induction false} ShuffledPermutation<T>(s: seq<T>, picks: seq<int>, i: nat)
    requires ValidPicks(|s|, picks) && i <= |s|
    ensures |Shuffled(s, picks, i)| == |s| && multiset(Shuffled(s, picks, i)) == multiset(s)
    decreases |s| - i
  {
    if i < |s| {
      ShuffledPermutation(Swap(s, i, picks[i]), picks, i + 1);
      assert multiset(Swap(s, i, picks[i])) == multiset(s);
    }
  }

  /** ShuffleList: an in-place Fisher–Yates shuffle of a local list; the result is a permutation. */
  method ShuffleList<T>(list: seq<T>, picks: seq<int>) returns (r: seq<T>)
    requires ValidPicks(|list|, picks)
    ensures r == Shuffled(list, picks, 0)
    ensures |r| == |list| && multiset(r) == multiset(list)
  {
    r := list;
    var i := 0;
    while i < |r|
      invariant |r| == |list| && 0 <= i <= |r|
      invariant Shuffled(r, picks, i) == Shuffled(list, picks, 0)
    {
      var temp := r[i];
      var randomIndex := picks[i];
      r := r[i := r[randomIndex]];
      r := r[randomIndex := temp];
      i := i + 1;
    }
    ShuffledPermutation(list, picks, 0);
  }

  /** List<T>.Remove: drops the first element equal to v, if there is one. */
  function RemoveFirst<T(==)>(s: seq<T>, v: T): (r: seq<T>)
    ensures |r| == if v in s then |s| - 1 else |s|
  {
    if s == [] then []
    else if s[0] == v then s[1..]
    else [s[0]] + RemoveFirst(s[1..], v)
  }

  /** Remove takes out one copy of v, and changes nothing when v is absent. */
  lemma {:induction false} RemoveFirstCount<T>(s: seq<T>, v: T)
    ensures multiset(RemoveFirst(s, v)) == multiset(s) - multiset{v}
    ensures v !in s ==> RemoveFirst(s, v) == s
  {
    if s != [] {
      assert s == [s[0]] + s[1..];
      if s[0] != v {
        RemoveFirstCount(s[1..], v);
      }
    }
  }

  /** Successive List<T>.Remove calls, one per element of `vs`, in order. */
  function RemoveEach<T(==)>(s: seq<T>, vs: seq<T>): seq<T> {
    if vs == [] then s
    else RemoveFirst(RemoveEach(s, vs[..|vs| - 1]), vs[|vs| - 1])
  }

  /** The Remove calls together take out one copy of each element of vs. */
  lemma {:induction false} RemoveEachCount<T>(s: seq<T>, vs: seq<T>)
    ensures multiset(RemoveEach(s, vs)) == multiset(s) - multiset(vs)
  {
    if vs != [] {
      var n := |vs| - 1;
      assert vs == vs[..n] + [vs[n]];
      RemoveEachCount(s, vs[..n]);
      RemoveFirstCount(RemoveEach(s, vs[..n]), vs[n]);
    }
  }

  /** Taking a duplicate-free vs out of a duplicate-free s leaves exactly the elements of s not in vs, once each. */
  lemma RemoveEachDistinct<T(!new)>(s: seq<T>, vs: seq<T>)
    requires Distinct(s) && Distinct(vs)
    ensures Distinct(RemoveEach(s, vs))
    ensures forall v :: v in RemoveEach(s, vs) <==> v in s && v !in vs
  {
    var r := RemoveEach(s, vs);
    RemoveEachCount(s, vs);
    forall v
      ensures multiset(r)[v] <= 1
      ensures v in r <==> v in s && v !in vs
    {
      assert multiset(r)[v] == if multiset(s)[v] <= multiset(vs)[v] then 0 else multiset(s)[v] - multiset(vs)[v];
      assert v in s <==> multiset(s)[v] == 1;
      assert v in vs <==> multiset(vs)[v] == 1;
    }
  }

  lemma RemoveEachSnoc<T>(s: seq<T>, vs: seq<T>, v: T)
    ensures RemoveEach(s, vs + [v]) == RemoveFirst(RemoveEach(s, vs), v)
  {
    assert (vs + [v])[..|vs|] == vs;
  }
}
