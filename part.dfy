/** The range planner of part.go: `length` bytes split into `connections`
    inclusive byte ranges, each fetched into its own part file. */
module Parts {
  import opened Common
  import opened Decimal
  import FilePath

  /** One segment of the download: where it comes from, the file that holds
      its bytes and the inclusive range [rangeFrom, rangeTo] it covers. */
  datatype Part = Part(url: string, path: string, rangeFrom: int, rangeTo: int)

  /** The text between the target file name and the part index. */
  const PART_SEPARATOR: string := ".part"

  /** expectedBytes: the size of an inclusive range; 0 for [k, k-1]. */
  function ExpectedBytes(p: Part): (r: int)
    ensures r > 0 <==> p.rangeFrom <= p.rangeTo
    ensures r == 0 <==> p.rangeTo == p.rangeFrom - 1
  {
    p.rangeTo - p.rangeFrom + 1
  }

  /** fmt.Sprintf("%s.part%d", file, i). */
  function PartFileName(file: string, i: nat): string {
    file + PART_SEPARATOR + NatToString(i)
  }

  /** The name is the file name, ".part", and digits that read back as
      the index. */
  lemma PartFileNameIndex(file: string, i: nat)
    ensures var name := PartFileName(file, i);
      |name| > |file| + |PART_SEPARATOR| && name[..|file| + |PART_SEPARATOR|] == file + PART_SEPARATOR &&
      ParseNat(name[|file| + |PART_SEPARATOR|..]) == Some(i)
  {
    assert PartFileName(file, i)[|file| + |PART_SEPARATOR|..] == NatToString(i);
    ParseNatRoundTrip(i);
  }

  /** The part file of index `i` inside the work folder. */
  function PartPath(folder: string, file: string, i: nat): (r: string)
    ensures var name := PartFileName(file, i); |r| >= |name| && r[|r| - |name|..] == name
  {
    FilePath.Join(folder, PartFileName(file, i))
  }

  /** The first byte of part `i`: (length / connections) * i. */
  function RangeStart(connections: int, length: int, i: nat): (r: int)
    requires connections >= 1
    ensures i == 0 ==> r == 0
  {
    (length / connections) * i
  }

  /** The last byte of part `i`: just before the next part's first byte,
      except for the last part, which ends at the last byte of the resource. */
  function RangeEnd(connections: int, length: int, i: nat): (r: int)
    requires connections >= 1
    ensures i < connections - 1 ==> r == RangeStart(connections, length, i + 1) - 1
    ensures i >= connections - 1 ==> r == length - 1
  {
    if i < connections - 1 then (length / connections) * (i + 1) - 1 else length - 1
  }

  /** Iteration `i` of the loop in calculateParts. */
  function PlannedPart(connections: int, length: int, url: string, file: string, folder: string, i: nat): (r: Part)
    requires i < connections
    ensures r.url == url && r.path == PartPath(folder, file, i)
  {
    Part(url, PartPath(folder, file, i), RangeStart(connections, length, i), RangeEnd(connections, length, i))
  }

  /** A planned part lies inside the resource: it starts within it and
      ends at most at its last byte, never before the byte it starts at
      less one. */
  lemma PlannedPartWithin(connections: int, length: int, url: string, file: string, folder: string, i: nat)
    requires length >= 0 && i < connections
    ensures var p := PlannedPart(connections, length, url, file, folder, i);
      0 <= p.rangeFrom <= p.rangeTo + 1 <= length
  {
    RangeSize(connections, length, i);
    RangeStartWithin(connections, length, i + 1);
  }

  /** Every first byte up to the one after the last part lies within the
      resource. */
  lemma RangeStartWithin(connections: int, length: int, i: nat)
    requires connections >= 1 && length >= 0 && i <= connections
    ensures 0 <= RangeStart(connections, length, i) <= length
  {
    var chunk := length / connections;
    DivisionRemainder(length, connections);
    assert chunk * i <= chunk * connections by {
      MultiplyMonotone(chunk, i, connections);
    }
  }

  lemma MultiplyMonotone(c: nat, i: nat, n: nat)
    requires i <= n
    ensures c * i <= c * n
  {
  }

  /** The parts of the first `k` iterations, in index order. */
  function PlanUpTo(connections: int, length: int, url: string, file: string, folder: string, k: nat): (r: seq<Part>)
    requires k <= connections
    ensures |r| == k
    ensures forall j :: 0 <= j < k ==> r[j] == PlannedPart(connections, length, url, file, folder, j)
  {
    if k == 0 then [] else PlanUpTo(connections, length, url, file, folder, k - 1) + [PlannedPart(connections, length, url, file, folder, k - 1)]
  }

  /** Neighbouring parts meet: each starts right after the previous one ends. */
  predicate Contiguous(s: seq<Part>) {
    forall j :: 0 < j < |s| ==> s[j].rangeFrom == s[j - 1].rangeTo + 1
  }

  /** The whole plan calculateParts returns. With no connections the loop
      does not run and the plan is empty. */
  function Plan(connections: int, length: int, url: string, file: string, folder: string): (r: seq<Part>)
    requires length >= 0
    ensures connections <= 0 ==> r == []
    ensures connections >= 1 ==> |r| == connections && r[0].rangeFrom == 0 && r[connections - 1].rangeTo == length - 1
    ensures forall j :: 0 <= j < |r| ==> r[j].url == url && r[j].path == FilePath.Join(folder, file + ".part" + NatToString(j))
  {
    if connections <= 0 then [] else PlanUpTo(connections, length, url, file, folder, connections)
  }

  lemma DivisionRemainder(n: int, d: int)
    requires n >= 0 && d >= 1
    ensures 0 <= n / d && (n / d) * d <= n && n - (n / d) * d == n % d
  {
  }

  /** The size of part `i` in terms of the chunk length / connections. */
  lemma RangeSize(connections: int, length: int, i: nat)
    requires connections >= 1 && length >= 0 && i < connections
    ensures i < connections - 1 ==> RangeEnd(connections, length, i) - RangeStart(connections, length, i) + 1 == length / connections
    ensures i == connections - 1 ==>
      RangeEnd(connections, length, i) - RangeStart(connections, length, i) + 1 == length - (length / connections) * (connections - 1)
    ensures RangeEnd(connections, length, i) - RangeStart(connections, length, i) + 1 >= length / connections >= 0
  {
    var chunk := length / connections;
    DivisionRemainder(length, connections);
    assert chunk * (i + 1) == chunk * i + chunk;
    assert chunk * connections == chunk * (connections - 1) + chunk;
  }

  lemma PlanPartAt(connections: int, length: int, url: string, file: string, folder: string, j: nat)
    requires connections >= 1 && length >= 0 && j < connections
    ensures Plan(connections, length, url, file, folder)[j].rangeFrom == RangeStart(connections, length, j)
    ensures Plan(connections, length, url, file, folder)[j].rangeTo == RangeEnd(connections, length, j)
  {
    assert Plan(connections, length, url, file, folder)[j] == PlannedPart(connections, length, url, file, folder, j);
  }

  /** Each part of a plan starts right after the previous one ends. */
  lemma PlanContiguous(connections: int, length: int, url: string, file: string, folder: string)
    requires length >= 0
    ensures Contiguous(Plan(connections, length, url, file, folder))
  {
    var r := Plan(connections, length, url, file, folder);
    forall j | 0 < j < |r| ensures r[j].rangeFrom == r[j - 1].rangeTo + 1 {
      PlanPartAt(connections, length, url, file, folder, j);
      PlanPartAt(connections, length, url, file, folder, j - 1);
    }
  }

  /** Every part but the last has length/connections bytes; the last one
      takes the remainder as well and is never shorter. */
  lemma PlanSizes(connections: int, length: int, url: string, file: string, folder: string)
    requires connections >= 1 && length >= 0
    ensures var r := Plan(connections, length, url, file, folder);
      (forall j :: 0 <= j < connections - 1 ==> ExpectedBytes(r[j]) == length / connections) &&
      ExpectedBytes(r[connections - 1]) == length - (length / connections) * (connections - 1) &&
      ExpectedBytes(r[connections - 1]) >= length / connections
  {
    var r := Plan(connections, length, url, file, folder);
    forall j | 0 <= j < connections - 1 ensures ExpectedBytes(r[j]) == length / connections {
      PlanPartAt(connections, length, url, file, folder, j);
      RangeSize(connections, length, j);
    }
    PlanPartAt(connections, length, url, file, folder, connections - 1);
    RangeSize(connections, length, connections - 1);
  }

  /** No part of a plan has a negative size. */
  lemma PlanNonNegativeSizes(connections: int, length: int, url: string, file: string, folder: string)
    requires length >= 0
    ensures NonNegativeSizes(Plan(connections, length, url, file, folder))
  {
    var r := Plan(connections, length, url, file, folder);
    forall j | 0 <= j < |r| ensures ExpectedBytes(r[j]) >= 0 {
      PlanPartAt(connections, length, url, file, folder, j);
      RangeSize(connections, length, j);
    }
  }

  /** calculateParts: one part per loop index, appended in index order.
      Creating the work folder on each iteration is file-system work that
      is not modelled. */
  method CalculateParts(connections: int, length: int, url: string, file: string, folder: string)
    returns (parts: seq<Part>)
    requires length >= 0
    ensures parts == Plan(connections, length, url, file, folder)
  {
    parts := [];
    var i := 0;
    while i < connections
      invariant 0 <= i && (connections >= 0 ==> i <= connections)
      invariant connections > 0 ==> parts == PlanUpTo(connections, length, url, file, folder, i)
      invariant connections <= 0 ==> parts == []
    {
      var fromBytes := (length / connections) * i;
      var toBytes: int;
      if i < connections - 1 {
        toBytes := (length / connections) * (i + 1) - 1;
      } else {
        toBytes := length - 1;
      }
      var filename := PartFileName(file, i);
      var path := FilePath.Join(folder, filename);
      IterationPart(connections, length, url, file, folder, i);
      parts := parts + [Part(url, path, fromBytes, toBytes)];
      i := i + 1;
    }
  }

  /** What iteration `i` of the loop appends is the planned part `i`. */
  lemma IterationPart(connections: int, length: int, url: string, file: string, folder: string, i: nat)
    requires i < connections
    ensures Part(url, FilePath.Join(folder, PartFileName(file, i)), (length / connections) * i,
                 if i < connections - 1 then (length / connections) * (i + 1) - 1 else length - 1)
         == PlannedPart(connections, length, url, file, folder, i)
  {
  }

  /** The number of bytes a sequence of parts asks for. */
  function TotalBytes(s: seq<Part>): int {
    if s == [] then 0 else TotalBytes(s[..|s| - 1]) + ExpectedBytes(s[|s| - 1])
  }

  /** The sizes of contiguous parts add up to the span they cover. */
  lemma {:induction false} TotalBytesOfContiguous(s: seq<Part>)
    requires |s| >= 1 && Contiguous(s)
    ensures TotalBytes(s) == s[|s| - 1].rangeTo - s[0].rangeFrom + 1
    decreases |s|
  {
    if |s| > 1 {
      var init := s[..|s| - 1];
      assert Contiguous(init) by {
        forall j | 0 < j < |init| ensures init[j].rangeFrom == init[j - 1].rangeTo + 1 {
          assert init[j] == s[j] && init[j - 1] == s[j - 1];
        }
      }
      TotalBytesOfContiguous(init);
    }
  }

  /** The part sizes of a plan sum to the length of the resource. */
  lemma PlanTotalBytes(connections: int, length: int, url: string, file: string, folder: string)
    requires connections >= 1 && length >= 0
    ensures TotalBytes(Plan(connections, length, url, file, folder)) == length
  {
    PlanContiguous(connections, length, url, file, folder);
    TotalBytesOfContiguous(Plan(connections, length, url, file, folder));
  }

  /** A part whose range is [k, k-1] or longer. */
  predicate NonNegativeSizes(s: seq<Part>) {
    forall j :: 0 <= j < |s| ==> ExpectedBytes(s[j]) >= 0
  }

  /** In contiguous parts of non-negative size an earlier part ends before
      a later part begins. */
  lemma {:induction false} ContiguousOrdered(s: seq<Part>, j: nat, k: nat)
    requires Contiguous(s) && NonNegativeSizes(s) && j < k < |s|
    ensures s[j].rangeTo < s[k].rangeFrom
    decreases k - j
  {
    if j + 1 < k {
      ContiguousOrdered(s, j + 1, k);
      assert s[j + 1].rangeFrom == s[j].rangeTo + 1;
    }
  }

  /** Contiguous parts cover every byte between the first byte of the first
      part and the last byte of the last one. */
  lemma {:induction false} ContiguousCovers(s: seq<Part>, b: int) returns (j: nat)
    requires |s| >= 1 && Contiguous(s) && s[0].rangeFrom <= b <= s[|s| - 1].rangeTo
    ensures j < |s| && s[j].rangeFrom <= b <= s[j].rangeTo
    decreases |s|
  {
    if b >= s[|s| - 1].rangeFrom {
      j := |s| - 1;
    } else {
      var init := s[..|s| - 1];
      assert Contiguous(init) by {
        forall i | 0 < i < |init| ensures init[i].rangeFrom == init[i - 1].rangeTo + 1 {
          assert init[i] == s[i] && init[i - 1] == s[i - 1];
        }
      }
      j := ContiguousCovers(init, b);
    }
  }

  /** Every byte of the resource lies in exactly one part of the plan. */
  lemma PlanCoversOnce(connections: int, length: int, url: string, file: string, folder: string, b: int)
    returns (j: nat)
    requires connections >= 1 && length >= 0 && 0 <= b < length
    ensures j < connections
    ensures var r := Plan(connections, length, url, file, folder);
      r[j].rangeFrom <= b <= r[j].rangeTo &&
      forall k :: 0 <= k < connections && r[k].rangeFrom <= b <= r[k].rangeTo ==> k == j
  {
    var r := Plan(connections, length, url, file, folder);
    PlanContiguous(connections, length, url, file, folder);
    PlanNonNegativeSizes(connections, length, url, file, folder);
    j := ContiguousCovers(r, b);
    forall k | 0 <= k < connections && r[k].rangeFrom <= b <= r[k].rangeTo
      ensures k == j
    {
      if k < j {
        ContiguousOrdered(r, k, j);
      } else if j < k {
        ContiguousOrdered(r, j, k);
      }
    }
  }

  /** When there are fewer bytes than connections every part but the last
      is the empty range [0, -1] and the last one takes the whole resource. */
  lemma PlanShortResource(connections: int, length: int, url: string, file: string, folder: string)
    requires 0 <= length < connections
    ensures var r := Plan(connections, length, url, file, folder);
      (forall j :: 0 <= j < connections - 1 ==> r[j].rangeFrom == 0 && r[j].rangeTo == -1) &&
      r[connections - 1].rangeFrom == 0 && r[connections - 1].rangeTo == length - 1
  {
    var r := Plan(connections, length, url, file, folder);
    forall j | 0 <= j < connections
      ensures r[j].rangeFrom == 0 && (j < connections - 1 ==> r[j].rangeTo == -1)
    {
      PlanPartAt(connections, length, url, file, folder, j);
      ShortResourceBounds(connections, length, j);
    }
  }

  lemma ShortResourceBounds(connections: int, length: int, j: nat)
    requires 0 <= length < connections && j < connections
    ensures RangeStart(connections, length, j) == 0
    ensures j < connections - 1 ==> RangeEnd(connections, length, j) == -1
  {
    assert length / connections == 0;
  }
}
