/** joiner.go: ordering the part files by the number after ".part",
    concatenating them into the output file, and the rule that a single
    empty file is not worth joining. */
module Joiner {
  import opened Common
  import opened Text
  import opened Decimal
  import FilePath
  import opened FileSystem
  import opened Parts
  import Sorting

  // ---------------------------------------------------------------------
  // The comparator

  /** The last of the pieces strings.Split cuts a base name into at
      ".part", when there are at least two. */
  function LastPiece(base: string): (r: Option<string>)
    ensures r.Some? <==> IndexOf(base, PART_SEPARATOR).Some?
  {
    var pieces := Split(base, PART_SEPARATOR);
    if |pieces| < 2 then None else Some(pieces[|pieces| - 1])
  }

  /** The text after the last ".part" of the base name of `path`. */
  function Suffix(path: string): (r: Option<string>)
    ensures r.Some? <==> IndexOf(FilePath.Base(path), PART_SEPARATOR).Some?
    ensures r.Some? ==> IndexOf(r.value, PART_SEPARATOR).None?
  {
    SplitLast(FilePath.Base(path), PART_SEPARATOR);
    LastPiece(FilePath.Base(path))
  }

  /** The text strconv.Atoi accepts here: decimal digits, optionally after
      a minus sign. */
  predicate IsIntegerText(t: string) {
    (t != [] && AllDigits(t)) || (|t| >= 2 && t[0] == '-' && AllDigits(t[1..]))
  }

  /** The part number strconv.Atoi reads from the suffix, if any. */
  function PartNumber(path: string): (r: Option<int>)
    ensures Suffix(path).None? ==> r.None?
    ensures r.Some? <==>
      Suffix(path).Some? && IsIntegerText(Suffix(path).value)
  {
    match Suffix(path)
    case None => None
    case Some(t) => ParseInt(t)
  }

  /** The less function JoinFile hands to sort.Slice: numeric order of the
      part numbers, falling back to `<` on the full paths when a base name
      has no ".part" or a suffix does not parse. */
  predicate Less(a: string, b: string): (r: bool)
    ensures PartNumber(a).Some? && PartNumber(b).Some? ==> (r <==> PartNumber(a).value < PartNumber(b).value)
    ensures PartNumber(a).None? || PartNumber(b).None? ==> (r <==> LexLess(a, b))
  {
    var sa := Suffix(a);
    var sb := Suffix(b);
    if sa.None? || sb.None? then LexLess(a, b)
    else
      var na := ParseInt(sa.value);
      var nb := ParseInt(sb.value);
      if na.None? || nb.None? then LexLess(a, b)
      else na.value < nb.value
  }

  /** A name whose base name has no ".part" is compared byte-wise,
      whatever it is compared with. */
  lemma LessWithoutSeparator(a: string, b: string)
    requires IndexOf(FilePath.Base(a), PART_SEPARATOR).None?
    ensures Less(a, b) <==> LexLess(a, b)
    ensures Less(b, a) <==> LexLess(b, a)
  {
  }

  /** No name sorts before itself. */
  lemma LessIrreflexive(a: string)
    ensures !Less(a, a)
  {
    LexLessIrreflexive(a);
  }

  lemma ParseIntOfNatToString(n: nat)
    ensures ParseInt(NatToString(n)) == Some(n)
  {
    ParseNatRoundTrip(n);
  }

  /** The last piece of a name `a + ".part" + d` is `d` when `d` holds no '.'. */
  lemma LastPieceOfName(a: string, d: string)
    requires '.' !in d
    ensures LastPiece(a + PART_SEPARATOR + d) == Some(d)
  {
    SplitLastPiece(a, PART_SEPARATOR, d);
  }

  lemma NoSlashInName(file: string, d: string)
    requires '/' !in file && '/' !in d
    ensures '/' !in file + PART_SEPARATOR + d
  {
    var name := file + PART_SEPARATOR + d;
    assert forall k :: 0 <= k < |name| ==> name[k] in file || name[k] in PART_SEPARATOR || name[k] in d;
  }

  lemma DigitsHaveNoDotOrSlash(s: string)
    requires AllDigits(s)
    ensures '.' !in s && '/' !in s
  {
    assert forall k :: 0 <= k < |s| ==> IsDigit(s[k]);
  }

  /** The base name of a planned part file joined to any folder is its own
      name, and it splits on ".part" with the index as last piece: the
      comparator reads back the index the planner wrote. */
  lemma PartNumberOfPartPath(folder: string, file: string, i: nat)
    requires '/' !in file
    ensures PartNumber(PartPath(folder, file, i)) == Some(i)
  {
    var digits := NatToString(i);
    var name := PartFileName(file, i);
    DigitsHaveNoDotOrSlash(digits);
    NoSlashInName(file, digits);
    FilePath.BaseOfJoin(folder, name);
    LastPieceOfName(file, digits);
    ParseIntOfNatToString(i);
  }

  /** Planned part files of one download sort by index, so part 2 comes
      before part 10. */
  lemma PartPathsOrder(folder: string, file: string, i: nat, j: nat)
    requires '/' !in file
    ensures Less(PartPath(folder, file, i), PartPath(folder, file, j)) <==> i < j
  {
    PartNumberOfPartPath(folder, file, i);
    PartNumberOfPartPath(folder, file, j);
  }

  /** With numbered and unnumbered names mixed the comparator is not a
      strict weak order: f.part9 < f.part10 by number, while f.part10 <
      f.part1z and f.part1z < f.part9 byte-wise, so the order sort.Slice
      leaves such a list in depends on the sorting algorithm. */
  lemma MixedNamesCycle(file: string)
    requires '/' !in file
    ensures var odd := file + PART_SEPARATOR + "1z";
      Less(PartFileName(file, 9), PartFileName(file, 10)) &&
      Less(PartFileName(file, 10), odd) && Less(odd, PartFileName(file, 9))
  {
    PartPathsOrder("", file, 9, 10);
    assert PartPath("", file, 9) == PartFileName(file, 9) && PartPath("", file, 10) == PartFileName(file, 10);
    OddNameUnnumbered(file);
    TenBeforeOdd(file);
    OddBeforeNine(file);
  }

  lemma OddNameUnnumbered(file: string)
    requires '/' !in file
    ensures PartNumber(file + PART_SEPARATOR + "1z").None?
  {
    var odd := file + PART_SEPARATOR + "1z";
    NoSlashInName(file, "1z");
    FilePath.BaseOfJoin("", odd);
    assert FilePath.Join("", odd) == odd;
    LastPieceOfName(file, "1z");
    assert !IsDigit("1z"[1]);
  }

  lemma TenBeforeOdd(file: string)
    requires '/' !in file
    ensures Less(PartFileName(file, 10), file + PART_SEPARATOR + "1z")
  {
    OddNameUnnumbered(file);
    var prefix := file + PART_SEPARATOR;
    assert NatToString(10) == "10";
    assert PartFileName(file, 10) == prefix + "10";
    assert LexLess("10", "1z") by {
      assert "10"[1..] == "0" && "1z"[1..] == "z";
    }
    LexLessCommonPrefix(prefix, "10", "1z");
  }

  lemma OddBeforeNine(file: string)
    requires '/' !in file
    ensures Less(file + PART_SEPARATOR + "1z", PartFileName(file, 9))
  {
    OddNameUnnumbered(file);
    var prefix := file + PART_SEPARATOR;
    assert NatToString(9) == "9";
    assert PartFileName(file, 9) == prefix + "9";
    assert LexLess("1z", "9");
    LexLessCommonPrefix(prefix, "1z", "9");
  }

  /** Names that all carry part numbers, distinct for distinct names, are
      totally ordered by the comparator. */
  lemma NumberedNamesTotal(names: set<string>)
    requires forall a :: a in names ==> PartNumber(a).Some?
    requires forall a, b :: a in names && b in names && a != b ==> PartNumber(a) != PartNumber(b)
    ensures Sorting.StrictTotalOn(Less, names)
  {
    forall a, b | a in names && b in names
      ensures Less(a, b) <==> PartNumber(a).value < PartNumber(b).value
    {
    }
  }

  /** Names none of which carries a part number are ordered byte-wise, which
      is a strict total order. */
  lemma UnnumberedNamesTotal(names: set<string>)
    requires forall a :: a in names ==> PartNumber(a).None?
    ensures Sorting.StrictTotalOn(Less, names)
  {
    forall a | a in names ensures !Less(a, a) {
      LessIrreflexive(a);
    }
    forall a, b, c | a in names && b in names && c in names && Less(a, b) && Less(b, c)
      ensures Less(a, c)
    {
      LexLessTransitive(a, b, c);
    }
    forall a, b | a in names && b in names && a != b
      ensures Less(a, b) || Less(b, a)
    {
      LexLessTotal(a, b);
    }
  }

  /** Part files 10, 2 and 1 of a download are joined as 1, 2, 10. */
  lemma SortExample(folder: string, file: string)
    requires '/' !in file
    ensures var p1, p2, p10 := PartPath(folder, file, 1), PartPath(folder, file, 2), PartPath(folder, file, 10);
      Sorting.InsertionSorted(Less, [p10, p2, p1]) == [p1, p2, p10]
  {
    var p1, p2, p10 := PartPath(folder, file, 1), PartPath(folder, file, 2), PartPath(folder, file, 10);
    PartPathsOrder(folder, file, 2, 10);
    PartPathsOrder(folder, file, 1, 10);
    PartPathsOrder(folder, file, 1, 2);
    Sorting.SortsReversedTriple(Less, p10, p2, p1);
  }

  // ---------------------------------------------------------------------
  // isJoinable

  /** isJoinable: a list of exactly one file whose size is 0 is not
      joined; os.Stat failing on that one file ends the run. */
  function IsJoinable(files: seq<string>, fs: FS): (r: Result<bool>)
    ensures r.Abort? <==> |files| == 1 && files[0] !in fs
    ensures r == Ok(false) <==> |files| == 1 && files[0] in fs && fs[files[0]] == []
    ensures r.Abort? ==> r.failure == MissingFile(files[0])
  {
    if |files| == 1 then
      if files[0] !in fs then Abort(MissingFile(files[0]))
      else Ok(|fs[files[0]]| != 0)
    else Ok(true)
  }

  // ---------------------------------------------------------------------
  // JoinFile

  /** The position of the first file in `order` that does not exist. */
  function FirstMissing(order: seq<string>, fs: FS): (r: Option<nat>)
    ensures r.None? <==> forall k :: 0 <= k < |order| ==> order[k] in fs
    ensures r.Some? ==> r.value < |order| && order[r.value] !in fs && forall k :: 0 <= k < r.value ==> order[k] in fs
  {
    if order == [] then None
    else if order[0] !in fs then Some(0)
    else
      match FirstMissing(order[1..], fs)
      case None => None
      case Some(k) => Some(k + 1)
  }

  predicate AllExist(order: seq<string>, fs: FS) {
    forall k :: 0 <= k < |order| ==> order[k] in fs
  }

  /** The bytes of the files of `order`, one after another. */
  function Concatenation(order: seq<string>, fs: FS): Bytes
    requires AllExist(order, fs)
  {
    if order == [] then [] else Concatenation(order[..|order| - 1], fs) + fs[order[|order| - 1]]
  }

  /** How a join ends: the disk afterwards, and the failure when a file to
      copy was missing. Either way the output file exists. */
  datatype JoinOutcome = Joined(disk: FS) | JoinFailed(disk: FS, failure: Failure)

  /** The disk after copying the files of `order` into `out`, which is
      opened without O_TRUNC: its old bytes are overwritten from offset 0
      and whatever lies beyond the copied bytes survives. The copy stops at
      the first missing file. */
  function JoinInto(order: seq<string>, fs: FS, out: string): (r: JoinOutcome)
    ensures r.Joined? <==> AllExist(order, fs)
    ensures r.JoinFailed? ==>
      exists k :: 0 <= k < |order| && order[k] !in fs && r.failure == MissingFile(order[k]) && AllExist(order[..k], fs)
    ensures out in r.disk
    ensures forall q :: q != out ==> (q in r.disk <==> q in fs) && (q in fs ==> r.disk[q] == fs[q])
  {
    match FirstMissing(order, fs)
    case None => Joined(fs[out := Overwrite(Existing(fs, out), Concatenation(order, fs))])
    case Some(k) =>
      assert AllExist(order[..k], fs);
      JoinFailed(fs[out := Overwrite(Existing(fs, out), Concatenation(order[..k], fs))], MissingFile(order[k]))
  }

  /** JoinFile: sort the files with the comparator, then copy each one's
      bytes, in that order, to the output file. */
  method JoinFile(files: array<string>, fs: FS, out: string) returns (r: JoinOutcome)
    requires forall k :: 0 <= k < files.Length ==> files[k] != out
    modifies files
    ensures files[..] == Sorting.InsertionSorted(Less, old(files[..]))
    ensures r == JoinInto(files[..], fs, out)
  {
    ghost var unsorted := files[..];
    Sorting.SortSlice(files, Less);
    var order := files[..];
    forall k | 0 <= k < |order| ensures order[k] != out {
      assert order[k] in multiset(unsorted);
    }
    r := CopyAll(order, fs, out);
  }

  /** The loop of JoinFile over the sorted names: each file is copied to
      the output at the current offset; a file that cannot be opened ends
      the join. */
  method CopyAll(order: seq<string>, fs: FS, out: string) returns (r: JoinOutcome)
    requires forall k :: 0 <= k < |order| ==> order[k] != out
    ensures r == JoinInto(order, fs, out)
  {
    var original := Existing(fs, out);
    var disk := fs[out := original];
    var written: Bytes := [];
    var i := 0;
    while i < |order|
      invariant 0 <= i <= |order|
      invariant AllExist(order[..i], fs)
      invariant written == Concatenation(order[..i], fs)
      invariant disk == fs[out := Overwrite(original, written)]
    {
      var f := order[i];
      if f !in disk {
        CopyStops(order, fs, i);
        return JoinFailed(disk, MissingFile(f));
      }
      assert order[..i + 1][..i] == order[..i];
      written := written + disk[f];
      disk := disk[out := Overwrite(original, written)];
      i := i + 1;
    }
    assert order == order[..|order|];
    return Joined(disk);
  }

  lemma CopyStops(order: seq<string>, fs: FS, i: nat)
    requires i < |order| && AllExist(order[..i], fs) && order[i] !in fs
    ensures FirstMissing(order, fs) == Some(i)
  {
    assert forall k :: 0 <= k < i ==> order[..i][k] == order[k];
  }

  /** The number of bytes the files of `order` hold together. */
  function TotalSize(order: seq<string>, fs: FS): nat
    requires AllExist(order, fs)
  {
    if order == [] then 0 else TotalSize(order[..|order| - 1], fs) + |fs[order[|order| - 1]]|
  }

  /** Where the bytes of file k start in the output. */
  function Offset(order: seq<string>, fs: FS, k: nat): nat
    requires k <= |order| && AllExist(order, fs)
  {
    assert AllExist(order[..k], fs);
    TotalSize(order[..k], fs)
  }

  lemma {:induction false} ConcatenationSize(order: seq<string>, fs: FS)
    requires AllExist(order, fs)
    ensures |Concatenation(order, fs)| == TotalSize(order, fs)
    decreases |order|
  {
    if order != [] {
      ConcatenationSize(order[..|order| - 1], fs);
    }
  }

  /** Each file's bytes sit in the concatenation at its offset. */
  lemma {:induction false} ConcatenationPlaces(order: seq<string>, fs: FS, k: nat)
    requires AllExist(order, fs) && k < |order|
    ensures Offset(order, fs, k) + |fs[order[k]]| == Offset(order, fs, k + 1) <= |Concatenation(order, fs)|
    ensures Concatenation(order, fs)[Offset(order, fs, k)..Offset(order, fs, k + 1)] == fs[order[k]]
    decreases |order|
  {
    if k == |order| - 1 {
      PlaceOfLast(order, fs);
    } else {
      var init := order[..|order| - 1];
      assert AllExist(init, fs);
      ConcatenationPlaces(init, fs, k);
      PlaceBeforeLast(order, fs, k);
    }
  }

  /** The last file's bytes end the concatenation. */
  lemma PlaceOfLast(order: seq<string>, fs: FS)
    requires AllExist(order, fs) && |order| >= 1
    ensures var k := |order| - 1;
      Offset(order, fs, k) + |fs[order[k]]| == Offset(order, fs, k + 1) <= |Concatenation(order, fs)| &&
      Concatenation(order, fs)[Offset(order, fs, k)..Offset(order, fs, k + 1)] == fs[order[k]]
  {
    var n := |order|;
    var init := order[..n - 1];
    ConcatenationSize(order, fs);
    ConcatenationSize(init, fs);
    assert order[..n] == order;
  }

  /** A file before the last one sits where it sits in the concatenation
      of the files without the last. */
  lemma PlaceBeforeLast(order: seq<string>, fs: FS, k: nat)
    requires AllExist(order, fs) && k + 1 < |order|
    requires var init := order[..|order| - 1];
      AllExist(init, fs) &&
      Offset(init, fs, k) + |fs[init[k]]| == Offset(init, fs, k + 1) <= |Concatenation(init, fs)| &&
      Concatenation(init, fs)[Offset(init, fs, k)..Offset(init, fs, k + 1)] == fs[init[k]]
    ensures Offset(order, fs, k) + |fs[order[k]]| == Offset(order, fs, k + 1) <= |Concatenation(order, fs)|
    ensures Concatenation(order, fs)[Offset(order, fs, k)..Offset(order, fs, k + 1)] == fs[order[k]]
  {
    var n := |order|;
    var init := order[..n - 1];
    assert init[..k] == order[..k] && init[..k + 1] == order[..k + 1] && init[k] == order[k];
    assert Offset(init, fs, k) == Offset(order, fs, k);
    assert Offset(init, fs, k + 1) == Offset(order, fs, k + 1);
    var c := Concatenation(order, fs);
    assert c == Concatenation(init, fs) + fs[order[n - 1]];
  }

  /** When every file exists the join succeeds: the output starts with the
      files' bytes in order, as many bytes as the files hold together, and
      keeps its old bytes beyond them; no other path changes. */
  lemma JoinWritesConcatenation(order: seq<string>, fs: FS, out: string)
    requires AllExist(order, fs)
    ensures JoinInto(order, fs, out).Joined?
    ensures var disk := JoinInto(order, fs, out).disk;
      out in disk && |disk[out]| >= TotalSize(order, fs) &&
      disk[out][..TotalSize(order, fs)] == Concatenation(order, fs) &&
      (forall k :: |Concatenation(order, fs)| <= k < |Existing(fs, out)| ==> disk[out][k] == Existing(fs, out)[k]) &&
      (forall p :: p != out ==> (p in disk <==> p in fs) && (p in fs ==> disk[p] == fs[p]))
  {
    ConcatenationSize(order, fs);
  }

  /** An output file that did not exist before holds exactly the files'
      bytes in order. */
  lemma JoinFreshOutput(order: seq<string>, fs: FS, out: string)
    requires AllExist(order, fs) && out !in fs
    ensures JoinInto(order, fs, out) == Joined(fs[out := Concatenation(order, fs)])
  {
  }

  /** A missing file stops the copy there: the output holds the bytes of
      the files before it, and the failure names it. */
  lemma JoinStopsAtMissing(order: seq<string>, fs: FS, out: string, k: nat)
    requires k < |order| && AllExist(order[..k], fs) && order[k] !in fs
    ensures JoinInto(order, fs, out) ==
      JoinFailed(fs[out := Overwrite(Existing(fs, out), Concatenation(order[..k], fs))], MissingFile(order[k]))
  {
    CopyStops(order, fs, k);
  }
}
