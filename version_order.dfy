/**
 * The ordering of version strings and the newest-first sort of a search
 * result's versions. Maven's `ComparableVersion` is not part of this model:
 * its `compareTo` is a parameter `cmp`, of which only the facts of a total
 * preorder are assumed, as a precondition.
 */
module VersionOrder {

  /** `cmp(a, b)` is negative, zero or positive as `a` is older than, equal to or newer than `b`. */
  type Comparator = (string, string) -> int

  /** `a` is not newer than `b`: `compareTo` is not positive. */
  predicate NotNewer(cmp: Comparator, a: string, b: string) {
    cmp(a, b) <= 0
  }

  /** The facts `ComparableVersion.compareTo` is relied upon for: any two versions are
      comparable, and "not newer than" is transitive. The quantifiers are stated over
      `NotNewer`, so that they are used only where a proof names it. */
  ghost predicate IsTotalPreorder(cmp: Comparator) {
    && (forall a, b :: NotNewer(cmp, a, b) || NotNewer(cmp, b, a))
    && (forall a, b, c :: NotNewer(cmp, a, b) && NotNewer(cmp, b, c) ==> NotNewer(cmp, a, c))
  }

  lemma Transitive(cmp: Comparator, a: string, b: string, c: string)
    requires IsTotalPreorder(cmp)
    requires cmp(a, b) <= 0 && cmp(b, c) <= 0
    ensures cmp(a, c) <= 0
  {
    assert NotNewer(cmp, a, b) && NotNewer(cmp, b, c);
  }

  lemma Total(cmp: Comparator, a: string, b: string)
    requires IsTotalPreorder(cmp)
    ensures cmp(a, b) <= 0 || cmp(b, a) <= 0
  {
    assert NotNewer(cmp, a, b) || NotNewer(cmp, b, a);
  }

  /** One published coordinate of a search result (`MavenCoordinate`). */
  datatype Coordinate = Coordinate(groupId: string, artifactId: string, version: string)

  /** No version is newer than one before it. */
  ghost predicate SortedNewestFirst(cmp: Comparator, s: seq<Coordinate>) {
    forall i, j :: 0 <= i < j < |s| ==> cmp(s[j].version, s[i].version) <= 0
  }

  /** The index of the first newest version of `s`, scanning from the left and
      moving only to a strictly newer one. */
  function LatestIndex(cmp: Comparator, s: seq<Coordinate>): (k: nat)
    requires |s| > 0
    ensures k < |s|
    decreases |s|
  {
    if |s| == 1 then 0
    else
      var m := LatestIndex(cmp, s[..|s| - 1]);
      if cmp(s[|s| - 1].version, s[m].version) > 0 then |s| - 1 else m
  }

  /** The version at `LatestIndex` is at least as new as every version of `s`,
      and strictly newer than every version before it: it is the first newest. */
  lemma {:induction false} LatestIndexIsFirstNewest(cmp: Comparator, s: seq<Coordinate>)
    requires IsTotalPreorder(cmp)
    requires |s| > 0
    ensures forall j :: 0 <= j < |s| ==> cmp(s[j].version, s[LatestIndex(cmp, s)].version) <= 0
    ensures forall j :: 0 <= j < LatestIndex(cmp, s) ==> cmp(s[LatestIndex(cmp, s)].version, s[j].version) > 0
  {
    if |s| > 1 {
      var p := s[..|s| - 1];
      var m := LatestIndex(cmp, p);
      LatestIndexIsFirstNewest(cmp, p);
      var last := s[|s| - 1].version;
      if cmp(last, s[m].version) > 0 {
        Total(cmp, last, s[m].version);
        forall j | 0 <= j < |s|
          ensures cmp(s[j].version, last) <= 0
        {
          if j < |s| - 1 {
            assert s[j] == p[j];
            Transitive(cmp, s[j].version, s[m].version, last);
          } else {
            Total(cmp, last, last);
          }
        }
        forall j | 0 <= j < |s| - 1
          ensures cmp(last, s[j].version) > 0
        {
          assert s[j] == p[j];
          if cmp(last, s[j].version) <= 0 {
            Transitive(cmp, last, s[j].version, s[m].version);
          }
        }
      } else {
        forall j | 0 <= j < m
          ensures cmp(s[m].version, s[j].version) > 0
        {
          assert s[j] == p[j];
        }
        forall j | 0 <= j < |s| - 1
          ensures cmp(s[j].version, s[m].version) <= 0
        {
          assert s[j] == p[j];
        }
      }
    } else {
      Total(cmp, s[0].version, s[0].version);
    }
  }

  /**
   * Sorts `a` in place, newest first, as `Arrays.sort` does with the comparator
   * `(i1, i2) -> compare(v2, v1)`. The result is sorted, a permutation of the
   * input, and (the sort being stable) starts with the input's first newest version.
   */
  method SortNewestFirst(cmp: Comparator, a: array<Coordinate>)
    requires IsTotalPreorder(cmp)
    modifies a
    ensures SortedNewestFirst(cmp, a[..])
    ensures multiset(a[..]) == multiset(old(a[..]))
    ensures a.Length > 0 ==> a[0] == old(a[..])[LatestIndex(cmp, old(a[..]))]
  {
    ghost var s := a[..];
    if a.Length == 0 {
      return;
    }
    assert s[..1] == [s[0]];
    var i := 1;
    while i < a.Length
      invariant 1 <= i <= a.Length
      invariant SortedNewestFirst(cmp, a[..i])
      invariant a[i..] == s[i..]
      invariant multiset(a[..]) == multiset(s)
      invariant a[0] == s[LatestIndex(cmp, s[..i])]
    {
      assert a[i] == s[i];
      assert s[..i + 1][..i] == s[..i];
      Insert(cmp, a, i);
      i := i + 1;
    }
    assert a[..i] == a[..];
    assert s[..i] == s;
  }

  /** Moves `a[i]` left past every strictly older version, so that `a[..i + 1]` becomes
      sorted; the element that ends at index 0 is the newer of the old `a[0]` and `a[i]`,
      the old one winning a tie. */
  method Insert(cmp: Comparator, a: array<Coordinate>, i: nat)
    requires IsTotalPreorder(cmp)
    requires 0 < i < a.Length
    requires SortedNewestFirst(cmp, a[..i])
    modifies a
    ensures SortedNewestFirst(cmp, a[..i + 1])
    ensures a[i + 1..] == old(a[i + 1..])
    ensures multiset(a[..]) == multiset(old(a[..]))
    ensures a[0] == if cmp(old(a[i]).version, old(a[0]).version) > 0 then old(a[i]) else old(a[0])
  {
    ghost var top := a[0];
    var x := a[i];
    var j := i;
    while j > 0 && cmp(x.version, a[j - 1].version) > 0
      invariant 0 <= j <= i
      invariant a[j] == x
      invariant a[i + 1..] == old(a[i + 1..])
      invariant multiset(a[..]) == multiset(old(a[..]))
      invariant OrderedApart(cmp, a[..], i + 1, j)
      invariant NewerThanAfter(cmp, a[..], i + 1, j)
      invariant j > 0 ==> a[0] == top
      invariant j == 0 ==> cmp(x.version, top.version) > 0
    {
      ghost var before := a[..];
      a[j - 1], a[j] := a[j], a[j - 1];
      assert a[..] == before[j - 1 := before[j]][j := before[j - 1]];
      InsertStep(cmp, old(a[..]), before, a[..], i, j, top);
      j := j - 1;
    }
    InsertDone(cmp, a[..], i, j, top);
  }

  /** One iteration of the insertion loop: the inserted element moves one place left,
      and every loop invariant is kept. */
  lemma InsertStep(cmp: Comparator, o: seq<Coordinate>, t: seq<Coordinate>, u: seq<Coordinate>,
                   i: nat, j: nat, top: Coordinate)
    requires 0 < j <= i < |t| == |u| == |o|
    requires u == t[j - 1 := t[j]][j := t[j - 1]]
    requires cmp(t[j].version, t[j - 1].version) > 0
    requires t[i + 1..] == o[i + 1..]
    requires multiset(t) == multiset(o)
    requires OrderedApart(cmp, t, i + 1, j)
    requires NewerThanAfter(cmp, t, i + 1, j)
    requires t[0] == top
    ensures u[j - 1] == t[j]
    ensures u[i + 1..] == o[i + 1..]
    ensures multiset(u) == multiset(o)
    ensures OrderedApart(cmp, u, i + 1, j - 1)
    ensures NewerThanAfter(cmp, u, i + 1, j - 1)
    ensures j - 1 > 0 ==> u[0] == top
    ensures j - 1 == 0 ==> cmp(t[j].version, top.version) > 0
  {
    assert u[i + 1..] == t[i + 1..];
    SwapKeepsElements(t, j - 1, j);
    SwapKeepsOrder(cmp, t, u, i, j);
  }

  /** After the insertion loop: the prefix is sorted and index 0 holds the newer of the
      old first element and the inserted one. */
  lemma InsertDone(cmp: Comparator, t: seq<Coordinate>, i: nat, j: nat, top: Coordinate)
    requires IsTotalPreorder(cmp)
    requires j <= i < |t|
    requires OrderedApart(cmp, t, i + 1, j)
    requires NewerThanAfter(cmp, t, i + 1, j)
    requires j > 0 ==> cmp(t[j].version, t[j - 1].version) <= 0
    requires j > 0 ==> t[0] == top
    ensures SortedNewestFirst(cmp, t[..i + 1])
    ensures j > 0 ==> cmp(t[j].version, top.version) <= 0
  {
    var p := t[..i + 1];
    assert OrderedApart(cmp, p, |p|, j);
    assert NewerThanAfter(cmp, p, |p|, j);
    InsertedPrefixSorted(cmp, p, j);
    if j > 1 {
      assert cmp(t[j - 1].version, t[0].version) <= 0;
      Transitive(cmp, t[j].version, t[j - 1].version, top.version);
    }
  }

  /** All pairs among the first `n` elements that do not involve index `j` are ordered. */
  ghost predicate OrderedApart(cmp: Comparator, t: seq<Coordinate>, n: nat, j: nat)
    requires n <= |t|
  {
    forall k, l :: 0 <= k < l < n && k != j && l != j ==> cmp(t[l].version, t[k].version) <= 0
  }

  /** The element at `j` is strictly newer than every later one among the first `n`. */
  ghost predicate NewerThanAfter(cmp: Comparator, t: seq<Coordinate>, n: nat, j: nat)
    requires j < n <= |t|
  {
    forall l :: j < l < n ==> cmp(t[j].version, t[l].version) > 0
  }

  lemma SwapKeepsElements(t: seq<Coordinate>, p: nat, q: nat)
    requires p < q < |t|
    ensures multiset(t[p := t[q]][q := t[p]]) == multiset(t)
  {
    var u := t[p := t[q]];
    assert multiset(u) == multiset(t) - multiset{t[p]} + multiset{t[q]};
    assert multiset(u[q := t[p]]) == multiset(u) - multiset{u[q]} + multiset{t[p]};
  }

  /** One step of an insertion: swapping the inserted element at `j` with its strictly
      older left neighbour keeps every pair that does not involve it ordered. */
  lemma SwapKeepsOrder(cmp: Comparator, t: seq<Coordinate>, u: seq<Coordinate>, i: nat, j: nat)
    requires 0 < j <= i < |t| == |u|
    requires u == t[j - 1 := t[j]][j := t[j - 1]]
    requires cmp(t[j].version, t[j - 1].version) > 0
    requires OrderedApart(cmp, t, i + 1, j)
    requires NewerThanAfter(cmp, t, i + 1, j)
    ensures OrderedApart(cmp, u, i + 1, j - 1)
    ensures NewerThanAfter(cmp, u, i + 1, j - 1)
  {
  }

  /** Closing step of one insertion: the element at `j` is newer than all after it and not
      newer than the one before it, and all other pairs are ordered. */
  lemma InsertedPrefixSorted(cmp: Comparator, t: seq<Coordinate>, j: nat)
    requires IsTotalPreorder(cmp)
    requires j < |t|
    requires OrderedApart(cmp, t, |t|, j)
    requires NewerThanAfter(cmp, t, |t|, j)
    requires j > 0 ==> cmp(t[j].version, t[j - 1].version) <= 0
    ensures SortedNewestFirst(cmp, t)
  {
    forall k, l | 0 <= k < l < |t|
      ensures cmp(t[l].version, t[k].version) <= 0
    {
      if l == j && k < j - 1 {
        Transitive(cmp, t[j].version, t[j - 1].version, t[k].version);
      } else if k == j {
        Total(cmp, t[l].version, t[k].version);
      }
    }
  }
}
