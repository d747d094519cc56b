# falcon: segmented HTTP download, modelled in Dafny

falcon downloads one remote resource by splitting it into byte ranges. It
fetches the ranges concurrently into part files inside a work folder and then
joins the part files into the output file. An interrupted resumable download
saves the remaining ranges as a checkpoint, and the next run continues from
that checkpoint.

This project models that engine on values:

- **Range plan.** `calculateParts` in `cmd/falcon/part.go` becomes the
  imperative method `Parts.CalculateParts`. It is proved equal to the
  specification function `Parts.Plan`.
- **Per-segment rules.** These come from `cmd/falcon/http.go`:
  - the Range header;
  - how the part file is opened (append or truncate);
  - the three ways a segment ends: checkpoint, error, or completed file;
  - the checkpoint itself.
- **Configuration.** `NewHttpDownloader` turns the probe's two headers and
  any supplied parts into the downloader's configuration.
- **Start loop.** The select loop of `Start` is a `while` loop over the
  sequence of messages the goroutines send.
- **Joiner.** From `cmd/falcon/joiner.go`:
  - the comparator handed to `sort.Slice`;
  - `sort.Slice` itself, as Go's insertion sort on an array;
  - `isJoinable`;
  - `JoinFile`, which copies the sorted files into the output one after
    another.
- **The disk** is a map from path to byte sequence.
- **Library functions** are modelled for what the core needs:
  - `filepath.Join` and `filepath.Base` (Unix);
  - `strings.Index` and `strings.Split`;
  - `strconv.Atoi` / `ParseInt` on decimal digits;
  - `fmt`'s `%d`;
  - Go's byte-wise `<` on strings.

Two modules relate several runs and operations:

- **`Resume`** repeats the runs of one segment. With the corrected
  checkpoint, an interrupted run followed by resumed runs ends with
  byte-exact content. With the checkpoint as `http.go` builds it, the same
  runs lose bytes (see Findings).
- **`Reassembly`** proves three things:
  - part files arriving in any order are sorted back into index order;
  - the contiguous segments rebuild the resource;
  - a fresh download whose planned segments all completed, into an output
    file that did not yet exist, leaves the resource there.

Two behaviours of the code matter for the proofs:

- **`JoinFile` does not truncate the output.** It opens the output with
  `O_CREATE|O_WRONLY` and no `O_TRUNC` (joiner.go:66). An existing longer
  output therefore keeps its tail beyond the copied bytes (`FileSystem.Overwrite`).
- **A missing `Content-Length` alone does not clear `resumable`.** Only a
  missing `Accept-Ranges` does (http.go:62-72).

## Model

| member | source | states |
|---|---|---|
| Parts.CalculateParts | cmd/falcon/part.go:19-47 | the loop builds exactly the plan: `parts == Plan(connections, length, url, file, folder)` |
| Parts.IterationPart | cmd/falcon/part.go:22-44 | the part iteration i appends is the planned part i |
| Parts.ExpectedBytes | cmd/falcon/http.go:169-171 | positive exactly for a range whose first byte is at most its last, 0 exactly for the empty range [k, k-1] |
| Parts.PartFileNameIndex | cmd/falcon/part.go:41 | the part file name is the file name, ".part", and digits that read back as the index |
| Parts.PartPath | cmd/falcon/part.go:41-42 | the part path ends with the part file name |
| Parts.RangeStart | cmd/falcon/part.go:22 | the first part starts at byte 0 |
| Parts.RangeStartWithin | cmd/falcon/part.go:22 | every first byte up to index `connections` lies between 0 and the length |
| Parts.RangeEnd | cmd/falcon/part.go:25-31 | a non-last part ends just before the next part starts; the last part ends at length-1 |
| Parts.PlannedPart | cmd/falcon/part.go:41-44 | iteration i's part names the URL and the path of index i |
| Parts.PlannedPartWithin | cmd/falcon/part.go:22-31 | a planned part starts inside the resource and ends, at most, at its last byte, never before its first byte less one |
| Parts.Plan | cmd/falcon/part.go:19-47 | no part when connections <= 0; otherwise one part per connection, the first starting at byte 0 and the last ending at length-1, each naming the URL and `folder/file.part<i>` |
| Parts.PlanUpTo | cmd/falcon/part.go:21-45 | after k iterations the plan holds the k parts of indices 0..k-1, each equal to the planned part of its index |
| Parts.RangeSize | cmd/falcon/part.go:22-31 | each non-last part holds length/connections bytes, the last one that many plus the remainder, none a negative count |
| Parts.PlanPartAt | cmd/falcon/part.go:22-31 | part j starts at (length/connections)*j and ends at (length/connections)*(j+1)-1, or at length-1 for the last part |
| Parts.PlanContiguous | cmd/falcon/part.go:22-31 | every part starts right after the previous one ends |
| Parts.PlanSizes | cmd/falcon/http.go:169-171 | expectedBytes of every non-last part is length/connections and of the last part length/connections plus length mod connections |
| Parts.PlanNonNegativeSizes | cmd/falcon/http.go:169-171 | no planned part expects a negative number of bytes |
| Parts.TotalBytesOfContiguous | cmd/falcon/part.go:22-31 | the expected bytes of contiguous parts add up to the span from the first byte to the last |
| Parts.PlanTotalBytes | cmd/falcon/part.go:22-31 | the parts' expected bytes add up to the resource length |
| Parts.ContiguousOrdered | cmd/falcon/part.go:22-31 | in contiguous parts of non-negative size an earlier part ends before a later part begins |
| Parts.ContiguousCovers | cmd/falcon/part.go:22-31 | every byte between the first and the last lies in some part |
| Parts.PlanCoversOnce | cmd/falcon/part.go:22-31 | every byte of the resource lies in exactly one planned part |
| Parts.PlanShortResource | cmd/falcon/part.go:22-31 | with fewer bytes than connections all parts but the last are empty ranges [0,-1] and the last is the whole resource |
| Parts.ShortResourceBounds | cmd/falcon/part.go:22-31 | with fewer bytes than connections every part starts at 0 and each non-last part ends at -1 |
| Decimal.NatToString | cmd/falcon/part.go:41 | `%d` of a natural number is a non-empty run of digits with no leading zero |
| Decimal.IntToString | cmd/falcon/http.go:150 | `%d` of an integer starts with '-' exactly when the integer is negative |
| Decimal.ParseNat | cmd/falcon/http.go:76 | parsing succeeds exactly on a non-empty run of digits |
| Decimal.ParseInt | cmd/falcon/joiner.go:46-47 | parsing succeeds exactly on digits with an optional leading '-' |
| Decimal.DigitsValueOfNatToString | cmd/falcon/part.go:41 | the digits `%d` prints have the printed number as their value |
| Decimal.ParseNatRoundTrip | cmd/falcon/http.go:76 | parsing the decimal text of n gives n back |
| Decimal.ParseIntRoundTrip | cmd/falcon/joiner.go:46-47 | parsing the decimal text of any integer gives it back |
| Decimal.NatToStringInjective | cmd/falcon/part.go:41 | different indices print as different text, so part file names differ |
| Text.IndexFrom | cmd/falcon/joiner.go:38-39 | a found position holds an occurrence at or after the start |
| Text.IndexFromFirst | cmd/falcon/joiner.go:38-39 | the search finds an occurrence whenever one exists, and none later than it |
| Text.IndexOf | cmd/falcon/joiner.go:38-39 | a found position holds an occurrence of the separator |
| Text.IndexOfFirst | cmd/falcon/joiner.go:38-39 | no occurrence lies before the found position, and nothing is found exactly when the separator occurs nowhere |
| Text.Split | cmd/falcon/joiner.go:38-41 | at least one piece, and a single piece exactly when the separator does not occur |
| Text.SplitLast | cmd/falcon/joiner.go:38-46 | the last piece holds no occurrence of the separator |
| Text.SplitJoinRoundTrip | cmd/falcon/joiner.go:38-39 | joining the pieces with the separator restores the string |
| Text.SplitLastPieceAt | cmd/falcon/joiner.go:38-46 | with an occurrence followed by text free of the separator's first character, the last piece is the text after that occurrence |
| Text.SplitLastPiece | cmd/falcon/joiner.go:38-46 | for `a + ".part" + d` with no '.' in d the last piece is d, whatever a holds |
| Text.NoOverlap | cmd/falcon/joiner.go:38-39 | occurrences of a separator whose first character does not recur in it never overlap |
| Text.LexLess | cmd/falcon/joiner.go:43 | `a < b` implies the strings differ, and a proper prefix is less than the longer string |
| Text.LexLessIrreflexive | cmd/falcon/joiner.go:43 | no string is `<` itself |
| Text.LexLessAsymmetric | cmd/falcon/joiner.go:43 | `a < b` excludes `b < a` |
| Text.LexLessTransitive | cmd/falcon/joiner.go:43 | `<` on strings is transitive |
| Text.LexLessTotal | cmd/falcon/joiner.go:43 | of two different strings one is `<` the other |
| Text.LexLessCommonPrefix | cmd/falcon/joiner.go:51 | a shared prefix does not change the order of two strings |
| FilePath.Join | cmd/falcon/part.go:42 | the joined path ends with the file name |
| FilePath.TrimTrailingSeparators | cmd/falcon/joiner.go:34-35 | the result is a prefix of the path that does not end in '/', and every character removed is a '/' |
| FilePath.LastElement | cmd/falcon/joiner.go:34-35 | the result is a suffix of the path without '/' |
| FilePath.Base | cmd/falcon/joiner.go:34-35 | the base name is never empty |
| FilePath.LastElementOfSuffix | cmd/falcon/joiner.go:34-35 | the last element of a directory prefix followed by a plain name is that name |
| FilePath.BaseOfJoin | cmd/falcon/part.go:42 | the base name of `Join(folder, name)` is name |
| FileSystem.Overwrite | cmd/falcon/joiner.go:66-77 | writing from offset 0 without O_TRUNC leaves the written bytes first, keeps the old bytes beyond them, and has the larger of the two lengths |
| FileSystem.Existing | cmd/falcon/http.go:160-166 | the bytes of an existing file, none for a missing one |
| FileSystem.SizeOrZero | cmd/falcon/http.go:202-204 | the size of the file when `os.Stat` succeeds, 0 when it fails |
| FileSystem.RemoveAll | cmd/falcon/http.go:258 | exactly the paths in the folder's tree disappear and every other file keeps its bytes; an empty folder name removes nothing |
| Joiner.LastPiece | cmd/falcon/joiner.go:38-41 | a suffix exists exactly when the base name contains ".part" |
| Joiner.Suffix | cmd/falcon/joiner.go:34-41 | a suffix exists exactly when the base name contains ".part", and it contains no further ".part" |
| Joiner.PartNumber | cmd/falcon/joiner.go:46-49 | no number without a suffix; a number exactly when the suffix is digits with an optional leading '-' |
| Joiner.Less | cmd/falcon/joiner.go:32-55 | the comparator compares part numbers when both names carry one and compares the paths byte-wise otherwise |
| Joiner.LessWithoutSeparator | cmd/falcon/joiner.go:41-43 | a name whose base name has no ".part" is compared byte-wise with any other name, in both directions |
| Joiner.LessIrreflexive | cmd/falcon/joiner.go:32-55 | no name sorts before itself |
| Joiner.PartNumberOfPartPath | cmd/falcon/joiner.go:34-47 | the part number read back from `folder/file.part<i>` is i |
| Joiner.PartPathsOrder | cmd/falcon/joiner.go:32-55 | part i sorts before part j exactly when i < j, so part 2 precedes part 10 |
| Joiner.MixedNamesCycle | cmd/falcon/joiner.go:41-54 | with a name whose suffix does not parse the comparator is not transitive: file.part9 < file.part10 < file.part1z < file.part9 |
| Joiner.OddNameUnnumbered | cmd/falcon/joiner.go:46-51 | a suffix such as "1z" has no part number |
| Joiner.NumberedNamesTotal | cmd/falcon/joiner.go:32-55 | on names with distinct part numbers the comparator is a strict total order |
| Joiner.UnnumberedNamesTotal | cmd/falcon/joiner.go:41-51 | on names without part numbers the comparator is the strict total order `<` |
| Joiner.SortExample | cmd/falcon/joiner.go:30-32 | part10, part2, part1 sort to part1, part2, part10 |
| Joiner.IsJoinable | cmd/falcon/joiner.go:17-26 | false exactly for a single empty file; a single missing file is a failure naming it; everything else is joinable |
| Joiner.FirstMissing | cmd/falcon/joiner.go:72-75 | the index of the first path that does not exist, or none when all exist |
| Joiner.JoinInto | cmd/falcon/joiner.go:66-93 | the join succeeds exactly when every file exists; a failure names a missing file before which all files exist; the output exists afterwards and no other path changes |
| Joiner.JoinFile | cmd/falcon/joiner.go:29-82 | the array ends up as the insertion sort of its old contents, and the disk is the join of the files in that order |
| Joiner.CopyAll | cmd/falcon/joiner.go:72-77 | the loop's disk is the specification join of the files in order |
| Joiner.CopyStops | cmd/falcon/joiner.go:72-75 | the copy stops at the first missing file |
| Joiner.ConcatenationSize | cmd/falcon/joiner.go:72-77 | the output bytes number the files' sizes added up |
| Joiner.ConcatenationPlaces | cmd/falcon/joiner.go:72-77 | each file's bytes appear at its offset, right after the files before it |
| Joiner.JoinWritesConcatenation | cmd/falcon/joiner.go:66-77 | when every file exists the output starts with their bytes in order and keeps older bytes beyond them, and no other path changes |
| Joiner.JoinFreshOutput | cmd/falcon/joiner.go:66-77 | a new output holds exactly the files' bytes in order |
| Joiner.JoinStopsAtMissing | cmd/falcon/joiner.go:84-90 | a missing file fails the join; the output holds the bytes of the files before it |
| Sorting.Insert | cmd/falcon/joiner.go:32-55 | one inner pass keeps the elements and adds the element moved |
| Sorting.InsertionSorted | cmd/falcon/joiner.go:32-55 | the sorted slice is a permutation of the input |
| Sorting.SortSlice | cmd/falcon/joiner.go:32-55 | the array afterwards is the insertion sort of its old contents |
| Sorting.SinkLeft | cmd/falcon/joiner.go:32-55 | the element at i moves left past every element it is less than and no further |
| Sorting.InsertKeepsSorted | cmd/falcon/joiner.go:32-55 | under a strict total order inserting into a sorted prefix keeps it sorted |
| Sorting.InsertionSortedIsSorted | cmd/falcon/joiner.go:32-55 | under a strict total order the result is sorted |
| Sorting.SameElements | cmd/falcon/joiner.go:32-55 | a permutation has the same set of elements |
| Sorting.SortsReversedTriple | cmd/falcon/joiner.go:32-55 | three names in descending order come out ascending |
| Http.Configure | cmd/falcon/http.go:59-91 | the run ends exactly when a Content-Length is present and either does not parse or, with Accept-Ranges present, the connection count is negative; the failure names the text that did not parse; a configuration keeps the URL and is resumable exactly when Accept-Ranges is present |
| Http.NewHttpDownloader | cmd/falcon/http.go:50-91 | the configuration built step by step is exactly `Configure` of the headers and parts |
| Http.ConfigureFallbacks | cmd/falcon/http.go:59-91 | a Content-Length that does not parse aborts, and so does a negative connection count that reaches `make`; no Content-Length means length 1 and one connection; a present Content-Length is the length, with or without Accept-Ranges; no Accept-Ranges means one connection and not resumable; otherwise the request is kept; supplied parts replace the plan |
| Http.FallbackIsOneSegment | cmd/falcon/http.go:62-72 | with a header missing and no supplied parts the plan is one segment covering the resource, byte 0 only without Content-Length |
| Http.RangeHeader | cmd/falcon/http.go:150 | the value starts with "bytes=" and has room for two numbers and the dash |
| Http.ParseRangeHeader | cmd/falcon/http.go:150 | a value that reads back starts with "bytes=" and has a non-negative first byte |
| Http.RangeHeaderRoundTrip | cmd/falcon/http.go:150 | the Range header value read back gives the part's first and last byte |
| Http.ModeFor | cmd/falcon/http.go:160-165 | append exactly when the part file exists, truncate otherwise |
| Http.OpenPartFile | cmd/falcon/http.go:160-166 | after opening, the part file exists with the bytes it had (none if it was missing), and no other path changes |
| Http.OpenThenWrite | cmd/falcon/http.go:160-166 | bytes written after opening follow whatever the part file already held; no other file changes |
| Http.CheckpointAsWritten | cmd/falcon/http.go:202-205 | the checkpoint names the downloader's URL, keeps the path and last byte, and moves the first byte on by the whole size of the part file |
| Http.SegmentOutcome | cmd/falcon/http.go:199-220 | the path is reported exactly when the copy moved the expected number of bytes; a checkpoint exactly on the signal, its first byte moved on by the whole size of the part file; a size mismatch or copy error otherwise |
| Http.CheckpointRemainder | cmd/falcon/http.go:202-205 | the checkpoint as written keeps the path and last byte; what it leaves to fetch shrinks by the whole size of the part file |
| Http.Checkpoint | cmd/falcon/http.go:202-205 | corrected half of the finding: the first byte moves on by the bytes appended since the file was opened, and agrees with the checkpoint as written when the file was empty then |
| Http.CorrectedSegmentOutcome | cmd/falcon/http.go:199-220 | corrected half of the finding: the program's outcome except that the checkpoint counts only the bytes this run appended |
| Http.CorrectedCheckpointRemainder | cmd/falcon/http.go:202-205 | corrected half of the finding: what the corrected checkpoint leaves to fetch shrinks by exactly the bytes this run appended |
| Http.Decide | cmd/falcon/http.go:234-262 | checkpoints are saved only for a resumable download, and a failure is one of the errors received |
| Http.WaitingMeansQuiet | cmd/falcon/http.go:234-262 | the loop is still waiting only if neither Done nor a non-nil error arrived |
| Http.Finish | cmd/falcon/http.go:243-260 | the run blocks exactly while waiting; a save keeps the disk and names the URL and the checkpoints; a failure keeps the disk; a finished run joined and left no path of the work folder |
| Http.Start | cmd/falcon/http.go:224-263 | the loop ends as the decision over the messages says: saved checkpoints, aborted, or joined and cleaned |
| Http.JoinAndClean | cmd/falcon/http.go:251-260 | join when isJoinable says so, then remove the work folder |
| Http.DecideAfterQuiet | cmd/falcon/http.go:234-242 | files and checkpoints are gathered in arrival order, and any checkpoint marks the run interrupted |
| Http.DecideAtDone | cmd/falcon/http.go:243-257 | on Done: save exactly the checkpoints if one arrived and the run is resumable, join the completed files otherwise |
| Http.DecideAtError | cmd/falcon/http.go:238-239 | a non-nil error ends the run with that error |
| Http.InterruptedResumableSaves | cmd/falcon/http.go:244-249 | an interrupted resumable run saves its checkpoints and leaves the disk untouched |
| Http.NotResumableJoins | cmd/falcon/http.go:243-257 | a run that is not resumable joins on Done, interrupted or not |
| Http.SingleEmptyFileNotJoined | cmd/falcon/http.go:252-258 | a single empty part is not joined; no output file appears and the folder is removed |
| Http.SizeMismatchAborts | cmd/falcon/http.go:211-215 | a copy of the wrong length aborts the run with a size-mismatch error |
| Resume.RunSegment | cmd/falcon/http.go:181-220 | with the corrected checkpoint, the part file afterwards holds its old bytes followed by the bytes received, no other file changes, and the checkpoint on the signal starts right after the bytes received |
| Resume.RunSegmentAsWritten | cmd/falcon/http.go:181-220 | as `http.go` has it: the same disk, and the checkpoint on the signal starts as many bytes after the part's first byte as the part file then holds, old and received together; without a signal the message is the path for the expected count and an error otherwise |
| Resume.FreshSegmentRemains | cmd/falcon/http.go:160-166 | before the first run the whole segment remains |
| Resume.InterruptKeepsRemainder | cmd/falcon/http.go:199-206 | with the corrected checkpoint an interrupted run leaves a checkpoint w bytes further on, and the part file holds exactly the bytes before it |
| Resume.CompletionHoldsSegment | cmd/falcon/http.go:211-219 | the run that receives the rest reports the part file, which then holds the whole segment |
| Resume.AsWrittenAgreesOnFirstRun | cmd/falcon/http.go:202-205 | on a first run the source's checkpoint and the corrected one agree |
| Resume.AsWrittenSkipsBytes | cmd/falcon/http.go:202-205 | after a resumed run is interrupted, the source's checkpoint starts as many bytes too late as earlier runs wrote |
| Resume.AsWrittenLosesBytes | cmd/falcon/http.go:202-205 | the three runs of the finding: the checkpoint asks for bytes 80-99 and the run is reported complete with 70 of 100 bytes |
| Resume.CorrectedKeepsBytes | cmd/falcon/http.go:202-205 | the same three runs with the corrected checkpoint leave all 100 bytes |
| Reassembly.PlanPaths | cmd/falcon/part.go:41-44 | the plan names its parts by the planned paths, in index order |
| Reassembly.PlannedPathsTotal | cmd/falcon/joiner.go:32-55 | the comparator is a strict total order on the planned paths |
| Reassembly.SortRestoresPlanOrder | cmd/falcon/joiner.go:32-55 | whatever order the part files arrive in, sorting them gives the planned paths in index order |
| Reassembly.ConcatenationOfSegments | cmd/falcon/joiner.go:72-77 | copying files that hold contiguous segments from byte 0 gives the resource up to the last segment's end |
| Reassembly.PlanWithinResource | cmd/falcon/part.go:22-31 | every planned segment lies inside the resource |
| Reassembly.JoinRebuildsResource | cmd/falcon/joiner.go:66-77 | joining the planned part files in index order writes the resource into a fresh output |
| Reassembly.JoinPlannedFiles | cmd/falcon/http.go:251-260 | the join branch for the completed plan leaves the resource in the output, except for a single empty part |
| Reassembly.DownloadReassembles | cmd/falcon/http.go:243-260 | for a fresh plan and an output file that did not yet exist, Done after all planned files, in any order, with no checkpoint: the output holds the resource, or for a single empty part does not exist |

## Left out

- **Network.** The probe request, the ranged GETs and `io.Copy` are not
  modelled. The probe's answer is the `Header` parameter. Each segment's end
  is a `CopyEvent` parameter, and the bytes that arrived are the `data`
  parameter.
- **Goroutines and channels.** The `WaitGroup` and the channels are not
  modelled, and neither is the interleaving of messages. `Start` reads the
  messages as one given sequence. Which goroutine receives the interrupt
  signal is part of that sequence; Go delivers one signal to whichever
  goroutine wins the race.
- **Other I/O.** Progress bars, terminal output, host and IP printing, URL
  validation and `signal.Notify` are not modelled.
- **Left as parameters or not modelled.** `CreateFolderIfNotExist` is not
  modelled. `FilenameFromURL` becomes the stored `file` and
  `GetValidFolderPath` the stored `folder`; both are parameters. Their
  sources are not part of this model.
- **`HandleError` is not part of this model.** A non-nil error is taken to end
  the run (`Aborted`), and a nil error is ignored.
- **Checkpoint store.** `State.Save` is not part of this model. A saved run is
  `Saved(State(url, parts), disk)`.
- **Errors not modelled:**
  - errors from `http.NewRequest` and from `os.OpenFile` on a part file or on
    the output;
  - the `os.RemoveAll` error.
  These are outside a disk modelled as a map.
- Http.NewHttpDownloader: a Content-Length with a sign ("+5", "-5") aborts
  here, while `strconv.ParseInt` accepts it. A negative length would then
  reach `calculateParts`.
- **Width of integers.** Parts.CalculateParts and Http.Configure use unbounded
  integers, so int64 overflow of lengths and offsets is not modelled.
- Sorting.SortSlice: models Go's insertion sort, which `sort.Slice` uses for
  slices of at most twelve elements. Longer slices go through pdqsort, whose
  order for a comparator that is not a strict weak order (see
  Joiner.MixedNamesCycle) can differ.
- Resume.InterruptKeepsRemainder: bytes that `io.Copy` (http.go:190-197)
  writes after the `os.Stat` at http.go:202 are not modelled. The copy
  goroutine keeps writing until the deferred `f.Close` (http.go:183) runs
  after the checkpoint is sent, so the file can end up longer than the
  checkpoint says.
- Http.Configure: `make` with a negative buffer size (http.go:91) is a
  run-time panic, not an error passed to `HandleError`. It is modelled as
  the failure `NegativeBufferSize`.
- Decimal.ParseInt: the optional '+' sign `strconv.Atoi` accepts is not modelled.
- FilePath.Join: the lexical clean-up (`filepath.Clean`) is not modelled. Paths
  are Unix paths, and characters stand for bytes.
- Joiner.JoinFile: requires that the output is not one of the part files.
  Go would read and write the same file, which a disk modelled as a map
  cannot express.
- Http.Start: requires the same of the completed files it joins, for the
  same reason.
- Joiner.IsJoinable: a single file that does not exist makes `os.Stat`
  fail. That is modelled as a `MissingFile` failure; the nil dereference
  that would follow in Go is not modelled.

## Findings

| source | as written | input that shows it | evidently intended | confidence | as-written member | corrected member |
|---|---|---|---|---|---|---|
| cmd/falcon/http.go:202-205 | the checkpoint's first byte is the part's first byte plus the whole size of the part file, which on a resumed run already holds the earlier runs' bytes | segment [0,99]: 30 bytes then interrupt gives checkpoint 30; the resumed run appends 20 then is interrupted, so the file holds 50 and the checkpoint says 80 instead of 50; the third run fetches bytes 80-99, its 20 bytes equal the expected count, and the part is reported complete with bytes 50-79 missing | advance the first byte by the bytes this run appended (size now minus size when the file was opened) | not executed | Resume.AsWrittenLosesBytes | Resume.InterruptKeepsRemainder |
