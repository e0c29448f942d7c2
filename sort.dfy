/** The name-ordered view of the cluster list: the comparator
    `(a, b) => (a.name > b.name ? 1 : -1)` and `Array.prototype.sort`
    applied with it, in place, to the flagged list. */
module ClusterSort {
  import opened NameOrder
  import opened Clusters

  /** The comparator. It never answers 0, so for two equal names it says
      "before" both ways round. */
  function CompareByName(a: Cluster, b: Cluster): (r: int)
    ensures r == 1 || r == -1
  {
    if Less(b.name, a.name) then 1 else -1
  }

  /** On distinct names the comparator is antisymmetric, and it puts the
      smaller name first. */
  lemma CompareByNameDistinct(a: Cluster, b: Cluster)
    requires a.name != b.name
    ensures CompareByName(a, b) == -CompareByName(b, a)
    ensures CompareByName(a, b) == -1 <==> Less(a.name, b.name)
  {
    LessTotal(a.name, b.name);
    LessAsymmetric(a.name, b.name);
  }

  /** On equal names it is inconsistent: each compares before the other. */
  lemma CompareByNameEqual(a: Cluster, b: Cluster)
    requires a.name == b.name
    ensures CompareByName(a, b) == -1 && CompareByName(b, a) == -1
  {
    LessIrreflexive(a.name);
  }

  /** Non-decreasing by name. */
  predicate SortedByName(s: seq<Cluster>) {
    forall i, j :: 0 <= i < j < |s| ==> LessEq(s[i].name, s[j].name)
  }

  /** `v` is what sorting `s` by name may produce: the order among equal
      names is left open, as the comparator leaves it. */
  predicate IsNameSorted(v: seq<Cluster>, s: seq<Cluster>) {
    SortedByName(v) && multiset(v) == multiset(s)
  }

  /** Sorts `a` in place by name: an insertion sort that grows a sorted
      prefix one element at a time. */
  method SortByName(a: array<Cluster>)
    modifies a
    ensures SortedByName(a[..])
    ensures multiset(a[..]) == multiset(old(a[..]))
  {
    var i := 0;
    while i < a.Length
      invariant 0 <= i <= a.Length
      invariant forall k, l :: 0 <= k < l < i ==> LessEq(a[k].name, a[l].name)
      invariant multiset(a[..]) == multiset(old(a[..]))
    {
      InsertLast(a, i);
      i := i + 1;
    }
  }

  /** Moves `a[i]` left while the comparator puts its left neighbour after
      it, so that a sorted `a[..i]` becomes a sorted `a[..i + 1]`. */
  method InsertLast(a: array<Cluster>, i: nat)
    requires i < a.Length
    requires forall k, l :: 0 <= k < l < i ==> LessEq(a[k].name, a[l].name)
    modifies a
    ensures forall k, l :: 0 <= k < l <= i ==> LessEq(a[k].name, a[l].name)
    ensures multiset(a[..]) == multiset(old(a[..]))
  {
    var j := i;
    while 0 < j && CompareByName(a[j - 1], a[j]) > 0
      invariant 0 <= j <= i
      invariant forall k, l :: 0 <= k < l <= i && k != j && l != j ==> LessEq(a[k].name, a[l].name)
      invariant forall l :: j < l <= i ==> Less(a[j].name, a[l].name)
      invariant multiset(a[..]) == multiset(old(a[..]))
    {
      a[j - 1], a[j] := a[j], a[j - 1];
      j := j - 1;
    }
    InsertedSorted(a[..], i, j);
  }

  /** Where the inner loop of the insertion stops, `s[..i + 1]` is sorted. */
  lemma InsertedSorted(s: seq<Cluster>, i: nat, j: nat)
    requires j <= i < |s|
    requires forall k, l :: 0 <= k < l <= i && k != j && l != j ==> LessEq(s[k].name, s[l].name)
    requires forall l :: j < l <= i ==> Less(s[j].name, s[l].name)
    requires 0 < j ==> LessEq(s[j - 1].name, s[j].name)
    ensures forall k, l :: 0 <= k < l <= i ==> LessEq(s[k].name, s[l].name)
  {
    forall k, l | 0 <= k < l <= i ensures LessEq(s[k].name, s[l].name) {
      if k == j {
        LessImpliesLessEq(s[k].name, s[l].name);
      } else if l == j && k < j - 1 {
        LessEqTransitive(s[k].name, s[j - 1].name, s[j].name);
      }
    }
  }

  /** The names of a list, in order. */
  function Names(s: seq<Cluster>): (r: seq<string>)
    ensures |r| == |s| && forall i :: 0 <= i < |s| ==> r[i] == s[i].name
  {
    seq(|s|, i requires 0 <= i < |s| => s[i].name)
  }

  lemma NamesConcat(s: seq<Cluster>, t: seq<Cluster>)
    ensures Names(s + t) == Names(s) + Names(t)
  {
  }

  /** Permuting a list permutes its names. */
  lemma {:induction false} NamesPermutation(s: seq<Cluster>, t: seq<Cluster>)
    requires multiset(s) == multiset(t)
    ensures multiset(Names(s)) == multiset(Names(t))
    decreases |s|
  {
    if s != [] {
      assert s[0] in multiset(t);
      var j :| 0 <= j < |t| && t[j] == s[0];
      var rest := t[..j] + t[j + 1..];
      assert t == t[..j] + [t[j]] + t[j + 1..];
      assert s == [s[0]] + s[1..];
      assert multiset(s) == multiset{s[0]} + multiset(s[1..]);
      assert multiset(t) == multiset(t[..j]) + multiset{t[j]} + multiset(t[j + 1..]);
      assert multiset(rest) == multiset(t[..j]) + multiset(t[j + 1..]);
      assert multiset(s[1..]) == multiset(s) - multiset{s[0]};
      assert multiset(rest) == multiset(t) - multiset{t[j]};
      NamesPermutation(s[1..], rest);
      NamesConcat([s[0]], s[1..]);
      NamesConcat(t[..j] + [t[j]], t[j + 1..]);
      NamesConcat(t[..j], [t[j]]);
      NamesConcat(t[..j], t[j + 1..]);
    }
  }

  /** Non-decreasing, for a sequence of names. */
  predicate SortedStrings(x: seq<string>) {
    forall i, j :: 0 <= i < j < |x| ==> LessEq(x[i], x[j])
  }

  lemma SortedStringsTail(x: seq<string>)
    requires x != [] && SortedStrings(x)
    ensures SortedStrings(x[1..])
  {
    forall i, j | 0 <= i < j < |x[1..]| ensures LessEq(x[1..][i], x[1..][j]) {
      assert x[1..][i] == x[i + 1] && x[1..][j] == x[j + 1];
    }
  }

  /** Two sorted sequences with the same elements start alike. */
  lemma SortedStringsHead(x: seq<string>, y: seq<string>)
    requires x != [] && SortedStrings(x) && SortedStrings(y) && multiset(x) == multiset(y)
    ensures y != [] && x[0] == y[0]
  {
    assert x[0] in multiset(y);
    var j :| 0 <= j < |y| && y[j] == x[0];
    assert y[0] in multiset(x);
    var k :| 0 <= k < |x| && x[k] == y[0];
    LessIrreflexive(x[0]);
    LessIrreflexive(y[0]);
    assert LessEq(y[0], x[0]) && LessEq(x[0], y[0]);
    LessTotal(x[0], y[0]);
  }

  /** Two sorted sequences of strings with the same elements are equal. */
  lemma {:induction false} SortedNamesUnique(x: seq<string>, y: seq<string>)
    requires SortedStrings(x) && SortedStrings(y)
    requires multiset(x) == multiset(y)
    ensures x == y
    decreases |x|
  {
    if x == [] {
      assert |multiset(y)| == 0;
    } else {
      SortedStringsHead(x, y);
      SortedStringsTail(x);
      SortedStringsTail(y);
      assert x == [x[0]] + x[1..] && y == [y[0]] + y[1..];
      assert multiset(x[1..]) == multiset(x) - multiset{x[0]};
      assert multiset(y[1..]) == multiset(y) - multiset{y[0]};
      SortedNamesUnique(x[1..], y[1..]);
    }
  }

  /** Sorting by name decides the order of the names: two results can differ
      only in how clusters that share a name are arranged. */
  lemma NameSortedViewsAgree(v: seq<Cluster>, w: seq<Cluster>, s: seq<Cluster>)
    requires IsNameSorted(v, s) && IsNameSorted(w, s)
    ensures Names(v) == Names(w)
  {
    NamesPermutation(v, w);
    SortedNamesUnique(Names(v), Names(w));
  }

  /** The filter of delete keeps a sorted list sorted. */
  lemma {:induction false} WithoutNameSorted(s: seq<Cluster>, name: string)
    requires SortedByName(s)
    ensures SortedByName(WithoutName(s, name))
  {
    if s != [] {
      var rest := WithoutName(s[1..], name);
      assert SortedByName(s[1..]) by {
        forall i, j | 0 <= i < j < |s[1..]| ensures LessEq(s[1..][i].name, s[1..][j].name) {
          assert s[1..][i] == s[i + 1] && s[1..][j] == s[j + 1];
        }
      }
      WithoutNameSorted(s[1..], name);
      if s[0].name != name {
        forall j | 0 <= j < |rest| ensures LessEq(s[0].name, rest[j].name) {
          assert rest[j] in s[1..];
          var m :| 0 <= m < |s[1..]| && s[1..][m] == rest[j];
          assert s[m + 1] == rest[j];
        }
        var r := [s[0]] + rest;
        forall i, j | 0 <= i < j < |r| ensures LessEq(r[i].name, r[j].name) {
          if i > 0 {
            assert r[i] == rest[i - 1] && r[j] == rest[j - 1];
          } else {
            assert r[j] == rest[j - 1];
          }
        }
      }
    }
  }

  /** The default list is already in name order. */
  lemma DefaultClustersSorted(apiUrl: string -> string)
    ensures SortedByName(DefaultClusters(apiUrl))
  {
    var d := DefaultClusters(apiUrl);
    assert Less(d[0].name, d[1].name);
    assert Less(d[1].name, d[2].name);
    LessTransitive(d[0].name, d[1].name, d[2].name);
    LessImpliesLessEq(d[0].name, d[1].name);
    LessImpliesLessEq(d[1].name, d[2].name);
    LessImpliesLessEq(d[0].name, d[2].name);
  }
}
