/** The planned segments put back together: whatever order the completed
    part files arrive in, the comparator puts them in index order, and
    copying them one after another rebuilds the resource. */
module Reassembly {
  import opened Common
  import opened FileSystem
  import opened Parts
  import Joiner
  import Sorting
  import Http

  /** The paths of the part files calculateParts plans, in index order. */
  function PlannedPaths(folder: string, file: string, n: nat): (r: seq<string>)
    ensures |r| == n
  {
    seq(n, k requires 0 <= k < n => PartPath(folder, file, k))
  }

  /** The plan names its parts by the planned paths. */
  lemma PlanPaths(connections: int, length: int, url: string, file: string, folder: string)
    requires connections >= 1 && length >= 0
    ensures forall k :: 0 <= k < connections ==>
      Plan(connections, length, url, file, folder)[k].path == PlannedPaths(folder, file, connections)[k]
  {
  }

  /** The part number of a path, or -1 when it has none. */
  function Number(p: string): int {
    if Joiner.PartNumber(p).Some? then Joiner.PartNumber(p).value else -1
  }

  predicate Distinct(s: seq<string>) {
    forall i, j :: 0 <= i < j < |s| ==> s[i] != s[j]
  }

  /** A planned path names its own index. */
  lemma PlannedPathNumber(folder: string, file: string, n: nat, k: nat)
    requires '/' !in file && k < n
    ensures Joiner.PartNumber(PlannedPaths(folder, file, n)[k]) == Some(k)
  {
    Joiner.PartNumberOfPartPath(folder, file, k);
  }

  /** A planned path is the path of the index it carries. */
  lemma InPlannedPaths(folder: string, file: string, n: nat, x: string)
    requires '/' !in file && x in PlannedPaths(folder, file, n)
    ensures Joiner.PartNumber(x).Some? && 0 <= Number(x) < n && PlannedPaths(folder, file, n)[Number(x)] == x
  {
    var paths := PlannedPaths(folder, file, n);
    var m :| 0 <= m < n && paths[m] == x;
    PlannedPathNumber(folder, file, n, m);
  }

  lemma PlannedPathsDistinct(folder: string, file: string, n: nat)
    requires '/' !in file
    ensures Distinct(PlannedPaths(folder, file, n))
  {
    var paths := PlannedPaths(folder, file, n);
    forall i, j | 0 <= i < j < n ensures paths[i] != paths[j] {
      PlannedPathNumber(folder, file, n, i);
      PlannedPathNumber(folder, file, n, j);
    }
  }

  /** The comparator is a strict total order on the planned paths. */
  lemma PlannedPathsTotal(folder: string, file: string, n: nat)
    requires '/' !in file
    ensures Sorting.StrictTotalOn(Joiner.Less, set e | e in PlannedPaths(folder, file, n))
  {
    var names := set e | e in PlannedPaths(folder, file, n);
    forall a | a in names ensures Joiner.PartNumber(a).Some? && Joiner.PartNumber(a) == Some(Number(a)) {
      InPlannedPaths(folder, file, n, a);
    }
    forall a, b | a in names && b in names && a != b ensures Joiner.PartNumber(a) != Joiner.PartNumber(b) {
      InPlannedPaths(folder, file, n, a);
      InPlannedPaths(folder, file, n, b);
    }
    Joiner.NumberedNamesTotal(names);
  }

  lemma {:induction false} CountAtMostOne(t: seq<string>, x: string)
    requires Distinct(t)
    ensures multiset(t)[x] <= 1
    decreases |t|
  {
    if t != [] {
      var init := t[..|t| - 1];
      assert t == init + [t[|t| - 1]];
      assert Distinct(init);
      CountAtMostOne(init, x);
      if x == t[|t| - 1] {
        assert x !in init;
      }
    }
  }

  /** A sequence with the elements of a duplicate-free one has
      no duplicates either. */
  lemma DistinctPermutation(s: seq<string>, t: seq<string>)
    requires Distinct(t) && multiset(s) == multiset(t)
    ensures Distinct(s)
  {
    forall i, j | 0 <= i < j < |s| ensures s[i] != s[j] {
      if s[i] == s[j] {
        assert s == s[..j] + s[j..];
        assert s[i] in s[..j] && s[j] in s[j..];
        assert multiset(s)[s[i]] == multiset(s[..j])[s[i]] + multiset(s[j..])[s[i]];
        CountAtMostOne(t, s[i]);
        assert false;
      }
    }
  }

  lemma {:induction false} AtLeastIndex(a: seq<int>, k: nat)
    requires k < |a| && (forall i :: 0 <= i < |a| ==> 0 <= a[i]) && (forall i :: 0 < i < |a| ==> a[i - 1] < a[i])
    ensures k <= a[k]
  {
    if k > 0 {
      AtLeastIndex(a, k - 1);
    }
  }

  lemma {:induction false} AtMostIndex(a: seq<int>, k: nat)
    requires k < |a| && (forall i :: 0 <= i < |a| ==> a[i] < |a|) && (forall i :: 0 < i < |a| ==> a[i - 1] < a[i])
    ensures a[k] <= k
    decreases |a| - k
  {
    if k < |a| - 1 {
      AtMostIndex(a, k + 1);
    }
  }

  /** Strictly increasing numbers in [0, n), n of them, are 0, 1, ..., n-1. */
  lemma IncreasingIsIdentity(a: seq<int>)
    requires forall i :: 0 <= i < |a| ==> 0 <= a[i] < |a|
    requires forall i :: 0 < i < |a| ==> a[i - 1] < a[i]
    ensures forall k :: 0 <= k < |a| ==> a[k] == k
  {
    forall k | 0 <= k < |a| ensures a[k] == k {
      AtLeastIndex(a, k);
      AtMostIndex(a, k);
    }
  }

  /** In a sorted sequence without duplicates over a strict total order
      each element is less than the next. */
  lemma SortedStrictly(r: seq<string>)
    requires Sorting.Sorted(Joiner.Less, r) && Distinct(r)
    requires Sorting.StrictTotalOn(Joiner.Less, set e | e in r)
    ensures forall i :: 0 < i < |r| ==> Joiner.Less(r[i - 1], r[i])
  {
    forall i | 0 < i < |r| ensures Joiner.Less(r[i - 1], r[i]) {
      assert r[i - 1] in r && r[i] in r;
    }
  }

  /** Whatever order the part files arrive in, sorting them with the
      comparator gives the planned paths in index order. */
  lemma SortRestoresPlanOrder(folder: string, file: string, n: nat, s: seq<string>)
    requires '/' !in file && multiset(s) == multiset(PlannedPaths(folder, file, n))
    ensures Sorting.InsertionSorted(Joiner.Less, s) == PlannedPaths(folder, file, n)
  {
    var r := Sorting.InsertionSorted(Joiner.Less, s);
    SortedPlannedPaths(folder, file, n, s);
    IndexOrder(folder, file, n, r);
  }

  /** The sorted files are planned paths, each less than the next. */
  lemma SortedPlannedPaths(folder: string, file: string, n: nat, s: seq<string>)
    requires '/' !in file && multiset(s) == multiset(PlannedPaths(folder, file, n))
    ensures var r := Sorting.InsertionSorted(Joiner.Less, s);
      |r| == n && (forall k :: 0 <= k < n ==> r[k] in PlannedPaths(folder, file, n)) &&
      forall i :: 0 < i < |r| ==> Joiner.Less(r[i - 1], r[i])
  {
    var paths := PlannedPaths(folder, file, n);
    var r := Sorting.InsertionSorted(Joiner.Less, s);
    PlannedPathsTotal(folder, file, n);
    PlannedPathsDistinct(folder, file, n);
    Sorting.SameElements(s, paths);
    Sorting.InsertionSortedIsSorted(Joiner.Less, s);
    DistinctPermutation(r, paths);
    Sorting.SameElements(r, paths);
    SortedStrictly(r);
    assert |multiset(r)| == |multiset(paths)|;
    forall k | 0 <= k < |r| ensures r[k] in paths {
      assert r[k] in multiset(r);
    }
  }

  /** Planned paths, n of them, each less than the next, are the planned
      paths in index order. */
  lemma IndexOrder(folder: string, file: string, n: nat, r: seq<string>)
    requires '/' !in file && |r| == n && forall k :: 0 <= k < n ==> r[k] in PlannedPaths(folder, file, n)
    requires forall i :: 0 < i < |r| ==> Joiner.Less(r[i - 1], r[i])
    ensures r == PlannedPaths(folder, file, n)
  {
    var paths := PlannedPaths(folder, file, n);
    forall k | 0 <= k < n ensures Joiner.PartNumber(r[k]).Some? && 0 <= Number(r[k]) < n && paths[Number(r[k])] == r[k] {
      InPlannedPaths(folder, file, n, r[k]);
    }
    NumbersIncrease(r);
    NumberedInOrder(Number, paths, r);
  }

  /** Along names that carry part numbers, each less than the next, the
      numbers increase. */
  lemma NumbersIncrease(r: seq<string>)
    requires forall k :: 0 <= k < |r| ==> Joiner.PartNumber(r[k]).Some?
    requires forall i :: 0 < i < |r| ==> Joiner.Less(r[i - 1], r[i])
    ensures forall i :: 0 < i < |r| ==> Number(r[i - 1]) < Number(r[i])
  {
    forall i | 0 < i < |r| ensures Number(r[i - 1]) < Number(r[i]) {
      assert Joiner.Less(r[i - 1], r[i]);
    }
  }

  /** Names whose numbers increase and index `paths`, as many as `paths`
      holds, are `paths` itself. */
  lemma NumberedInOrder(number: string -> int, paths: seq<string>, r: seq<string>)
    requires |r| == |paths|
    requires forall k :: 0 <= k < |r| ==> 0 <= number(r[k]) < |r| && paths[number(r[k])] == r[k]
    requires forall i :: 0 < i < |r| ==> number(r[i - 1]) < number(r[i])
    ensures r == paths
  {
    var nums := seq(|r|, k requires 0 <= k < |r| => number(r[k]));
    IncreasingIsIdentity(nums);
    forall k | 0 <= k < |r| ensures r[k] == paths[k] {
      assert nums[k] == number(r[k]) == k;
    }
  }

  /** Each file of `order` holds the bytes of the matching part's range of
      `resource`. */
  predicate HoldsSegments(order: seq<string>, parts: seq<Part>, fs: FS, resource: Bytes) {
    |order| == |parts| &&
    forall k :: 0 <= k < |order| ==>
      order[k] in fs && 0 <= parts[k].rangeFrom <= parts[k].rangeTo + 1 <= |resource| &&
      fs[order[k]] == resource[parts[k].rangeFrom..parts[k].rangeTo + 1]
  }

  /** Copying the files of contiguous segments that start at byte 0 gives
      the resource up to the last segment's end. */
  lemma {:induction false} ConcatenationOfSegments(order: seq<string>, parts: seq<Part>, fs: FS, resource: Bytes)
    requires HoldsSegments(order, parts, fs, resource) && |parts| >= 1 && Contiguous(parts) && parts[0].rangeFrom == 0
    ensures Joiner.AllExist(order, fs)
    ensures Joiner.Concatenation(order, fs) == resource[..parts[|parts| - 1].rangeTo + 1]
    decreases |order|
  {
    var last := |order| - 1;
    assert order[..last + 1] == order;
    if last == 0 {
      assert Joiner.Concatenation(order, fs) == Joiner.Concatenation([], fs) + fs[order[0]];
    } else {
      var init, front := order[..last], parts[..last];
      assert HoldsSegments(init, front, fs, resource) by {
        forall k | 0 <= k < last ensures init[k] == order[k] && front[k] == parts[k] { }
      }
      assert Contiguous(front) by {
        forall j | 0 < j < last ensures front[j].rangeFrom == front[j - 1].rangeTo + 1 { }
      }
      ConcatenationOfSegments(init, front, fs, resource);
      assert front[last - 1].rangeTo + 1 == parts[last].rangeFrom;
    }
  }

  /** The plan's segments lie inside a resource of the planned length. */
  lemma PlanWithinResource(connections: int, url: string, file: string, folder: string, resource: Bytes)
    requires connections >= 1
    ensures var r := Plan(connections, |resource|, url, file, folder);
      forall k :: 0 <= k < |r| ==> 0 <= r[k].rangeFrom <= r[k].rangeTo + 1 <= |resource|
  {
    var r := Plan(connections, |resource|, url, file, folder);
    PlanContiguous(connections, |resource|, url, file, folder);
    PlanNonNegativeSizes(connections, |resource|, url, file, folder);
    forall k | 0 <= k < |r| ensures 0 <= r[k].rangeFrom <= r[k].rangeTo + 1 <= |resource| {
      if k > 0 {
        ContiguousOrdered(r, 0, k);
      }
      if k < |r| - 1 {
        ContiguousOrdered(r, k, |r| - 1);
      }
    }
  }

  /** With the part files in place, joining the planned paths in index
      order writes the resource into a fresh output file. */
  lemma JoinRebuildsResource(connections: int, url: string, file: string, folder: string, resource: Bytes, fs: FS, out: string)
    requires connections >= 1 && out !in fs
    requires HoldsSegments(PlannedPaths(folder, file, connections), Plan(connections, |resource|, url, file, folder), fs, resource)
    ensures Joiner.JoinInto(PlannedPaths(folder, file, connections), fs, out) == Joiner.Joined(fs[out := resource])
  {
    PlanContiguous(connections, |resource|, url, file, folder);
    JoinSegments(PlannedPaths(folder, file, connections), Plan(connections, |resource|, url, file, folder), fs, resource, out);
  }

  /** Joining the files of contiguous segments that cover the resource
      into a fresh output file writes the resource there. */
  lemma JoinSegments(order: seq<string>, parts: seq<Part>, fs: FS, resource: Bytes, out: string)
    requires HoldsSegments(order, parts, fs, resource) && |parts| >= 1 && Contiguous(parts)
    requires parts[0].rangeFrom == 0 && parts[|parts| - 1].rangeTo + 1 == |resource| && out !in fs
    ensures Joiner.JoinInto(order, fs, out) == Joiner.Joined(fs[out := resource])
  {
    ConcatenationOfSegments(order, parts, fs, resource);
    assert resource[..|resource|] == resource;
    Joiner.JoinFreshOutput(order, fs, out);
  }

  /** The end of a download whose segments all completed: Done after the
      completed files, in any order, with no checkpoint. The parts are
      joined into the output file, which then holds the resource, and the
      work folder is removed; only a single empty part is left unjoined. */
  lemma DownloadReassembles(d: Http.Downloader, resource: Bytes, quiet: seq<Http.Message>, rest: seq<Http.Message>, fs: FS)
    requires '/' !in d.file && d.totalParts >= 1 && d.length == |resource|
    requires d.parts == Plan(d.totalParts, d.length, d.url, d.file, d.folder)
    requires Http.Quiet(quiet) && Http.StatesOf(quiet) == []
    requires multiset(Http.FilesOf(quiet)) == multiset(PlannedPaths(d.folder, d.file, d.totalParts))
    requires HoldsSegments(PlannedPaths(d.folder, d.file, d.totalParts), d.parts, fs, resource)
    requires d.file !in fs && !InTree(d.file, d.folder)
    ensures var r := Http.Finish(d, fs, Http.Decide(quiet + [Http.DoneMsg] + rest, Http.EMPTY_TALLY, d.resumable));
      r.Finished? &&
      (d.totalParts == 1 && |resource| == 0 ==> d.file !in r.disk) &&
      (d.totalParts > 1 || |resource| > 0 ==> d.file in r.disk && r.disk[d.file] == resource)
  {
    Http.DecideAtDone(quiet, rest, d.resumable);
    JoinPlannedFiles(d, resource, Http.FilesOf(quiet), fs);
  }

  /** The join branch of Start for the completed files of the plan, in any
      order. */
  lemma JoinPlannedFiles(d: Http.Downloader, resource: Bytes, files: seq<string>, fs: FS)
    requires '/' !in d.file && d.totalParts >= 1 && d.length == |resource|
    requires d.parts == Plan(d.totalParts, d.length, d.url, d.file, d.folder)
    requires multiset(files) == multiset(PlannedPaths(d.folder, d.file, d.totalParts))
    requires HoldsSegments(PlannedPaths(d.folder, d.file, d.totalParts), d.parts, fs, resource)
    requires d.file !in fs && !InTree(d.file, d.folder)
    ensures var r := Http.Finish(d, fs, Http.Join(files));
      r.Finished? &&
      (d.totalParts == 1 && |resource| == 0 ==> d.file !in r.disk) &&
      (d.totalParts > 1 || |resource| > 0 ==> d.file in r.disk && r.disk[d.file] == resource)
  {
    var paths := PlannedPaths(d.folder, d.file, d.totalParts);
    SameSize(files, paths);
    if d.totalParts == 1 && |resource| == 0 {
      assert fs[paths[0]] == resource[0..0] == [];
      Http.SingleEmptyFileNotJoined(d, paths[0], fs);
    } else {
      JoinPlannedNonEmpty(d, resource, files, fs);
    }
  }

  /** Unless the plan is a single empty part, the files are joined and the
      output holds the resource. */
  lemma JoinPlannedNonEmpty(d: Http.Downloader, resource: Bytes, files: seq<string>, fs: FS)
    requires '/' !in d.file && d.totalParts >= 1 && d.length == |resource| && (d.totalParts > 1 || |resource| > 0)
    requires d.parts == Plan(d.totalParts, d.length, d.url, d.file, d.folder)
    requires multiset(files) == multiset(PlannedPaths(d.folder, d.file, d.totalParts))
    requires HoldsSegments(PlannedPaths(d.folder, d.file, d.totalParts), d.parts, fs, resource)
    requires d.file !in fs
    ensures Http.Finish(d, fs, Http.Join(files)) == Http.Finished(RemoveAll(fs[d.file := resource], d.folder))
  {
    var paths := PlannedPaths(d.folder, d.file, d.totalParts);
    SameSize(files, paths);
    assert Joiner.IsJoinable(files, fs) == Ok(true) by {
      if d.totalParts == 1 {
        assert |fs[paths[0]]| == |resource| > 0;
      }
    }
    SortRestoresPlanOrder(d.folder, d.file, d.totalParts, files);
    JoinRebuildsResource(d.totalParts, d.url, d.file, d.folder, resource, fs, d.file);
  }

  /** Sequences with the same elements have the same length, and a single
      element is determined by them. */
  lemma SameSize(s: seq<string>, t: seq<string>)
    requires multiset(s) == multiset(t)
    ensures |s| == |t|
    ensures |t| == 1 ==> s == t
  {
    assert |multiset(s)| == |multiset(t)|;
    if |t| == 1 {
      assert s[0] in multiset(t);
      assert s == [s[0]];
    }
  }
}
