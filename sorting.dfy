/** sort.Slice(x, less) for the slices JoinFile sorts: Go runs its
    insertion sort on slices of at most twelve elements. The comparator is
    a parameter, as it is in Go. */
module Sorting {

  type Comparator = (string, string) -> bool

  /** One pass of the inner loop: `x` moves left past every element it is
      less than and stops at the first one it is not less than. */
  function Insert(less: Comparator, sorted: seq<string>, x: string): (r: seq<string>)
    ensures multiset(r) == multiset(sorted) + multiset{x}
  {
    if sorted == [] then [x]
    else if less(x, sorted[|sorted| - 1]) then
      assert sorted == sorted[..|sorted| - 1] + [sorted[|sorted| - 1]];
      Insert(less, sorted[..|sorted| - 1], x) + [sorted[|sorted| - 1]]
    else sorted + [x]
  }

  /** What the insertion sort leaves in the slice. */
  function InsertionSorted(less: Comparator, s: seq<string>): (r: seq<string>)
    ensures multiset(r) == multiset(s) && |r| == |s|
  {
    if s == [] then []
    else
      assert s == s[..|s| - 1] + [s[|s| - 1]];
      Insert(less, InsertionSorted(less, s[..|s| - 1]), s[|s| - 1])
  }

  /** Go's insertionSort(data, 0, n): for each i the element at i is
      swapped leftwards while it is less than its left neighbour. */
  method SortSlice(a: array<string>, less: Comparator)
    modifies a
    ensures a[..] == InsertionSorted(less, old(a[..]))
  {
    ghost var orig := a[..];
    if a.Length > 0 {
      assert a[..] == InsertionSorted(less, orig[..1]) + orig[1..] by {
        assert orig[..1] == [orig[0]] && orig == [orig[0]] + orig[1..];
      }
    }
    var i := 1;
    while i < a.Length
      invariant 1 <= i && (a.Length == 0 || i <= a.Length)
      invariant a.Length > 0 ==> a[..] == InsertionSorted(less, orig[..i]) + orig[i..]
    {
      OuterStep(less, orig, i, a[..]);
      SinkLeft(a, less, i);
      i := i + 1;
    }
    if a.Length > 0 {
      assert orig[..a.Length] == orig && orig[a.Length..] == [];
    }
  }

  /** One iteration of the outer loop, on the array's contents `cur`. */
  lemma OuterStep(less: Comparator, orig: seq<string>, i: nat, cur: seq<string>)
    requires i < |orig| && cur == InsertionSorted(less, orig[..i]) + orig[i..]
    ensures |cur| == |orig| && cur[..i] == InsertionSorted(less, orig[..i]) && cur[i] == orig[i] && cur[i + 1..] == orig[i + 1..]
    ensures Insert(less, cur[..i], cur[i]) + cur[i + 1..] == InsertionSorted(less, orig[..i + 1]) + orig[i + 1..]
  {
    InsertionSortedStep(less, orig, i);
  }

  /** The inner loop of insertionSort for index i: the element at i moves
      left by swaps while it is less than its left neighbour. */
  method SinkLeft(a: array<string>, less: Comparator, i: nat)
    requires i < a.Length
    modifies a
    ensures a[..] == Insert(less, old(a[..i]), old(a[i])) + old(a[i + 1..])
  {
    ghost var sorted := a[..i];
    ghost var x := a[i];
    ghost var tail := a[i + 1..];
    assert sorted[..i] == sorted && sorted[i..] == [];
    assert a[..] == sorted[..i] + [x] + sorted[i..] + tail;
    var j := i;
    while j > 0 && less(a[j], a[j - 1])
      invariant 0 <= j <= i
      invariant a[..] == sorted[..j] + [x] + sorted[j..] + tail
      invariant Insert(less, sorted, x) == Insert(less, sorted[..j], x) + sorted[j..]
    {
      ghost var before := a[..];
      Shifted(sorted, x, tail, j);
      InsertMoves(less, sorted, x, j);
      var moving := a[j];
      a[j] := a[j - 1];
      a[j - 1] := moving;
      assert a[..] == before[j := before[j - 1]][j - 1 := moving];
      j := j - 1;
    }
    Shifted(sorted, x, tail, j);
    SinkStops(less, sorted, x, j);
  }

  /** Where the inner loop stops, `x` sits where Insert puts it. */
  lemma SinkStops(less: Comparator, sorted: seq<string>, x: string, j: nat)
    requires j <= |sorted| && (j == 0 || !less(x, sorted[j - 1]))
    requires Insert(less, sorted, x) == Insert(less, sorted[..j], x) + sorted[j..]
    ensures Insert(less, sorted, x) == sorted[..j] + [x] + sorted[j..]
  {
    assert j > 0 ==> sorted[..j][j - 1] == sorted[j - 1];
    InsertStops(less, sorted[..j], x);
  }

  /** The array during the inner loop: the sorted prefix with `x` placed at
      position j, and how one swap moves it to j - 1. */
  lemma Shifted(sorted: seq<string>, x: string, tail: seq<string>, j: nat)
    requires j <= |sorted|
    ensures var s := sorted[..j] + [x] + sorted[j..] + tail;
      |s| == |sorted| + 1 + |tail| && s[j] == x &&
      (j > 0 ==> s[j - 1] == sorted[j - 1] && s[j := s[j - 1]][j - 1 := x] == sorted[..j - 1] + [x] + sorted[j - 1..] + tail) &&
      s[..|sorted| + 1] == sorted[..j] + [x] + sorted[j..] && s[|sorted| + 1..] == tail
  {
    var s := sorted[..j] + [x] + sorted[j..] + tail;
    if j > 0 {
      var s' := sorted[..j - 1] + [x] + sorted[j - 1..] + tail;
      var u := s[j := s[j - 1]][j - 1 := x];
      assert |u| == |s'|;
      forall k | 0 <= k < |s'| ensures u[k] == s'[k] {
      }
    }
  }

  lemma InsertionSortedStep(less: Comparator, s: seq<string>, k: nat)
    requires k < |s|
    ensures InsertionSorted(less, s[..k + 1]) == Insert(less, InsertionSorted(less, s[..k]), s[k])
  {
    assert s[..k + 1][..k] == s[..k];
  }

  /** One swap of the inner loop, in terms of the insertion it computes. */
  lemma InsertMoves(less: Comparator, sorted: seq<string>, x: string, j: nat)
    requires 0 < j <= |sorted| && less(x, sorted[j - 1])
    ensures Insert(less, sorted[..j], x) + sorted[j..] == Insert(less, sorted[..j - 1], x) + sorted[j - 1..]
  {
    assert sorted[..j][..j - 1] == sorted[..j - 1];
    assert sorted[j - 1..] == [sorted[j - 1]] + sorted[j..];
  }

  lemma InsertStops(less: Comparator, p: seq<string>, x: string)
    requires p == [] || !less(x, p[|p| - 1])
    ensures Insert(less, p, x) == p + [x]
  {
  }

  /** No element is less than one before it. */
  predicate Sorted(less: Comparator, s: seq<string>) {
    forall i, j :: 0 <= i < j < |s| ==> !less(s[j], s[i])
  }

  /** `less` is a strict total order on `names`. */
  predicate StrictTotalOn(less: Comparator, names: set<string>) {
    (forall a :: a in names ==> !less(a, a)) &&
    (forall a, b, c :: a in names && b in names && c in names && less(a, b) && less(b, c) ==> less(a, c)) &&
    (forall a, b :: a in names && b in names && a != b ==> less(a, b) || less(b, a))
  }

  lemma StrictTotalOnSubset(less: Comparator, small: set<string>, big: set<string>)
    requires small <= big && StrictTotalOn(less, big)
    ensures StrictTotalOn(less, small)
  {
  }

  lemma ElementsOfInsert(less: Comparator, p: seq<string>, x: string, e: string)
    requires e in Insert(less, p, x)
    ensures e == x || e in p
  {
    assert e in multiset(Insert(less, p, x));
  }

  lemma {:induction false} InsertKeepsSorted(less: Comparator, p: seq<string>, x: string)
    requires Sorted(less, p) && StrictTotalOn(less, set e | e in p + [x])
    ensures Sorted(less, Insert(less, p, x))
    decreases |p|
  {
    var names := set e | e in p + [x];
    if p != [] {
      var last := p[|p| - 1];
      var init := p[..|p| - 1];
      assert last in names && x in names;
      if less(x, last) {
        assert (set e | e in init + [x]) <= names;
        StrictTotalOnSubset(less, (set e | e in init + [x]), names);
        InsertKeepsSorted(less, init, x);
        var q := Insert(less, init, x);
        assert !less(last, x);
        forall e | e in q ensures !less(last, e) {
          ElementsOfInsert(less, init, x, e);
          if e != x {
            var k :| 0 <= k < |init| && init[k] == e;
            assert p[k] == e;
          }
        }
        var r := q + [last];
        forall i, j | 0 <= i < j < |r| ensures !less(r[j], r[i]) {
          assert r[i] == q[i];
          if j < |q| {
            assert r[j] == q[j];
          }
        }
      } else {
        forall k | 0 <= k < |p| ensures !less(x, p[k]) {
          if k < |p| - 1 {
            assert p[k] in names && !less(last, p[k]);
          }
        }
        var r := p + [x];
        forall i, j | 0 <= i < j < |r| ensures !less(r[j], r[i]) {
          assert r[i] == p[i];
          if j < |p| {
            assert r[j] == p[j];
          }
        }
      }
    }
  }

  lemma SameElements(s: seq<string>, t: seq<string>)
    requires multiset(s) == multiset(t)
    ensures (set e | e in s) == (set e | e in t)
  {
    forall e ensures e in s <==> e in t {
      assert e in s <==> e in multiset(s);
      assert e in t <==> e in multiset(t);
    }
  }

  /** When `less` totally orders the names, the insertion sort leaves them
      in ascending order. */
  lemma {:induction false} InsertionSortedIsSorted(less: Comparator, s: seq<string>)
    requires StrictTotalOn(less, set e | e in s)
    ensures Sorted(less, InsertionSorted(less, s))
    decreases |s|
  {
    if s != [] {
      var init := s[..|s| - 1];
      var x := s[|s| - 1];
      assert s == init + [x];
      assert (set e | e in init) <= (set e | e in s);
      StrictTotalOnSubset(less, (set e | e in init), (set e | e in s));
      InsertionSortedIsSorted(less, init);
      var p := InsertionSorted(less, init);
      SameElements(p + [x], s);
      InsertKeepsSorted(less, p, x);
    }
  }

  /** Three names given in descending order come out ascending. */
  lemma SortsReversedTriple(less: Comparator, a: string, b: string, c: string)
    requires less(b, a) && less(c, a) && less(c, b)
    ensures InsertionSorted(less, [a, b, c]) == [c, b, a]
  {
    TripleSlices(a, b, c);
    InsertionSortedStep(less, [a, b, c], 2);
    InsertionSortedStep(less, [a, b, c], 1);
    InsertionSortedStep(less, [a, b, c], 0);
    InsertPastTwo(less, b, a, c);
  }

  lemma TripleSlices(a: string, b: string, c: string)
    ensures [a, b, c][..3] == [a, b, c] && [a, b, c][..2] == [a, b] && [a, b, c][..1] == [a] && [a, b, c][..0] == []
  {
  }

  lemma InsertPastTwo(less: Comparator, b: string, a: string, c: string)
    requires less(c, a) && less(c, b) && less(b, a)
    ensures Insert(less, Insert(less, [a], b), c) == [c, b, a]
  {
    InsertBeforeOne(less, a, b);
    assert [b, a][..1] == [b] && [b, a][1] == a;
    InsertBeforeOne(less, b, c);
    assert [c, b] + [a] == [c, b, a];
  }

  lemma InsertBeforeOne(less: Comparator, a: string, x: string)
    requires less(x, a)
    ensures Insert(less, [a], x) == [x, a]
  {
    assert [a][..0] == [];
  }
}
