/** http.go: the downloader's configuration from the probe's headers, the
    per-segment rules (range header, open mode, outcome, checkpoint) and
    the loop of Start that gathers the segments' messages. */
module Http {
  import opened Common
  import opened Decimal
  import opened Text
  import opened FileSystem
  import opened Parts
  import Joiner
  import Sorting

  // ---------------------------------------------------------------------
  // NewHttpDownloader

  /** The two headers of the probe response the downloader reads; a
      missing header reads as "" (http.Header.Get). */
  datatype Header = Header(contentLength: string, acceptRanges: string)

  /** The fields of HttpDownloader the core uses. `file` stands for
      FilenameFromURL(url) and `folder` for GetValidFolderPath(url). */
  datatype Downloader = Downloader(
    url: string, file: string, folder: string,
    totalParts: int, length: int, parts: seq<Part>, resumable: bool)

  /** What NewHttpDownloader builds: a missing Content-Length reads as "1"
      and forces one connection; a missing Accept-Ranges forces one
      connection and clears `resumable`; supplied parts replace the plan.
      A Content-Length strconv cannot parse ends the run, and a negative
      number of connections makes the channels' make panic. */
  function Configure(url: string, connections: int, parts: seq<Part>, header: Header, file: string, folder: string)
    : (r: Result<Downloader>)
    ensures r.Abort? <==>
      header.contentLength != "" && (!AllDigits(header.contentLength) || (header.acceptRanges != "" && connections < 0))
    ensures r.Abort? && !AllDigits(header.contentLength) ==> r.failure == InvalidContentLength(header.contentLength)
    ensures r.Abort? && AllDigits(header.contentLength) ==> r.failure == NegativeBufferSize(connections)
    ensures r.Ok? ==> r.value.url == url && r.value.totalParts >= 0 && (r.value.resumable <==> header.acceptRanges != "")
  {
    var text := if header.contentLength == "" then "1" else header.contentLength;
    var conns := if header.contentLength == "" || header.acceptRanges == "" then 1 else connections;
    match ParseNat(text)
    case None => Abort(InvalidContentLength(text))
    case Some(length) =>
      if conns < 0 then Abort(NegativeBufferSize(conns))
      else
        Ok(Downloader(url, file, folder, conns, length,
                      if |parts| == 0 then Plan(conns, length, url, file, folder) else parts,
                      header.acceptRanges != ""))
  }

  /** NewHttpDownloader, with the probe's answer given as `header`. */
  method NewHttpDownloader(url: string, connections: int, parts: seq<Part>, header: Header, file: string, folder: string)
    returns (r: Result<Downloader>)
    ensures r == Configure(url, connections, parts, header, file, folder)
  {
    var resumable := true;
    var conns := connections;
    var contentLength := header.contentLength;
    var acceptRange := header.acceptRanges;
    if contentLength == "" {
      contentLength := "1";
      conns := 1;
    }
    if acceptRange == "" {
      conns := 1;
      resumable := false;
    }
    var length := ParseNat(contentLength);
    if length.None? {
      return Abort(InvalidContentLength(contentLength));
    }
    var planned: seq<Part>;
    if |parts| == 0 {
      planned := CalculateParts(conns, length.value, url, file, folder);
    } else {
      planned := parts;
    }
    if conns < 0 {
      return Abort(NegativeBufferSize(conns));
    }
    return Ok(Downloader(url, file, folder, conns, length.value, planned, resumable));
  }

  /** The header rules, one by one. */
  lemma ConfigureFallbacks(url: string, connections: int, parts: seq<Part>, header: Header, file: string, folder: string)
    ensures var r := Configure(url, connections, parts, header, file, folder);
      (r.Abort? <==>
         header.contentLength != "" && (!AllDigits(header.contentLength) || (header.acceptRanges != "" && connections < 0))) &&
      (r.Ok? ==>
        r.value.url == url &&
        (r.value.resumable <==> header.acceptRanges != "") &&
        (header.contentLength == "" ==> r.value.totalParts == 1 && r.value.length == 1) &&
        (header.acceptRanges == "" ==> r.value.totalParts == 1) &&
        (header.contentLength != "" ==> r.value.length == DigitsValue(header.contentLength)) &&
        (header.contentLength != "" && header.acceptRanges != "" ==> r.value.totalParts == connections) &&
        (|parts| > 0 ==> r.value.parts == parts) &&
        (|parts| == 0 ==> r.value.parts == Plan(r.value.totalParts, r.value.length, url, file, folder)))
  {
    OneParses();
  }

  lemma OneParses()
    ensures ParseNat("1") == Some(1)
  {
    assert NatToString(1) == "1";
    ParseNatRoundTrip(1);
  }

  /** Without a usable Content-Length or Accept-Ranges header and with no
      supplied parts the download is one segment covering the whole
      resource; without Content-Length that segment asks for byte 0 only. */
  lemma FallbackIsOneSegment(url: string, connections: int, header: Header, file: string, folder: string)
    requires header.contentLength == "" || header.acceptRanges == ""
    requires Configure(url, connections, [], header, file, folder).Ok?
    ensures var d := Configure(url, connections, [], header, file, folder).value;
      |d.parts| == 1 && d.parts[0].rangeFrom == 0 && d.parts[0].rangeTo == d.length - 1 &&
      d.parts[0].path == PartPath(folder, file, 0) &&
      (header.contentLength == "" ==> d.parts[0].rangeTo == 0)
  {
    OneParses();
    var d := Configure(url, connections, [], header, file, folder).value;
    assert d.totalParts == 1;
  }

  // ---------------------------------------------------------------------
  // newRangeRequest

  /** The value of the Range header: fmt.Sprintf("bytes=%d-%d", from, to). */
  function RangeHeader(p: Part): (r: string)
    ensures |r| >= 9 && r[..6] == "bytes="
  {
    "bytes=" + IntToString(p.rangeFrom) + "-" + IntToString(p.rangeTo)
  }

  /** Reading a Range value back: "bytes=", a non-negative first byte, '-'
      and a last byte (which is -1 for an empty range). */
  function ParseRangeHeader(s: string): (r: Option<(int, int)>)
    ensures r.Some? ==> |s| >= 6 && s[..6] == "bytes=" && r.value.0 >= 0
  {
    if |s| < 6 || s[..6] != "bytes=" then None
    else
      var rest := s[6..];
      match IndexOf(rest, "-")
      case None => None
      case Some(i) =>
        match (ParseNat(rest[..i]), ParseInt(rest[i + 1..]))
        case (Some(from), Some(to)) => Some((from, to))
        case _ => None
  }

  lemma NoDashInDigits(s: string, k: nat)
    requires AllDigits(s) && k < |s|
    ensures s[k] != '-'
  {
    assert IsDigit(s[k]);
  }

  /** The first '-' after a run of digits is the one that follows them. */
  lemma FirstDash(from: string, to: string)
    requires AllDigits(from)
    ensures IndexOf(from + "-" + to, "-") == Some(|from|)
  {
    var rest := from + "-" + to;
    assert rest[|from|..|from| + 1] == "-";
    IndexFromFirst(rest, "-", 0, |from|);
    var i := IndexOf(rest, "-").value;
    if i < |from| {
      assert rest[i..i + 1] == "-";
      assert rest[i] == from[i];
      NoDashInDigits(from, i);
    }
  }

  lemma RangeParts(from: string, to: string)
    ensures var rest := from + "-" + to;
      rest[..|from|] == from && rest[|from| + 1..] == to
  {
  }

  /** The header carries both bounds: reading it back gives them again. */
  lemma RangeHeaderRoundTrip(p: Part)
    requires p.rangeFrom >= 0
    ensures ParseRangeHeader(RangeHeader(p)) == Some((p.rangeFrom, p.rangeTo))
  {
    var from := NatToString(p.rangeFrom);
    var to := IntToString(p.rangeTo);
    var s := RangeHeader(p);
    assert s == "bytes=" + (from + "-" + to);
    assert s[..6] == "bytes=" && s[6..] == from + "-" + to;
    FirstDash(from, to);
    RangeParts(from, to);
    ParseNatRoundTrip(p.rangeFrom);
    ParseIntRoundTrip(p.rangeTo);
  }

  // ---------------------------------------------------------------------
  // openPartFile

  datatype OpenMode = Append | Truncate

  /** os.Stat succeeding selects O_APPEND, failing selects O_TRUNC. */
  function ModeFor(fs: FS, path: string): (m: OpenMode)
    ensures m == Append <==> path in fs
  {
    if path in fs then Append else Truncate
  }

  /** The disk once the part file is open: an existing file keeps its
      bytes, a missing one is created empty. */
  function OpenPartFile(fs: FS, part: Part): (r: FS)
    ensures part.path in r && r[part.path] == Existing(fs, part.path)
    ensures forall q :: q != part.path ==> (q in r <==> q in fs) && (q in fs ==> r[q] == fs[q])
  {
    match ModeFor(fs, part.path)
    case Append => fs
    case Truncate => fs[part.path := []]
  }

  /** Bytes written after opening land after what the file already held. */
  lemma OpenThenWrite(fs: FS, part: Part, data: Bytes)
    ensures var ready := OpenPartFile(fs, part);
      part.path in ready && ready[part.path] == Existing(fs, part.path) &&
      ready[part.path := ready[part.path] + data][part.path] == Existing(fs, part.path) + data &&
      forall q :: q != part.path ==> (q in ready <==> q in fs) && (q in fs ==> ready[q] == fs[q])
  {
  }

  // ---------------------------------------------------------------------
  // downloadPart

  /** How the select in downloadPart ends: the interrupt signal, io.Copy
      failing, or io.Copy finishing with a byte count. */
  datatype CopyEvent = Signalled | CopyFailed(reason: string) | Copied(count: int)

  /** What the goroutines send to Start. An ErrorMsg with None is a nil
      error, which HandleError ignores. */
  datatype Message = FileMsg(path: string) | ErrorMsg(err: Option<Failure>) | StateMsg(part: Part) | DoneMsg

  /** The checkpoint as http.go builds it: the part's own first byte plus
      the whole size of the part file. */
  function CheckpointAsWritten(d: Downloader, part: Part, fs: FS): (c: Part)
    ensures c.url == d.url && c.path == part.path && c.rangeTo == part.rangeTo
    ensures c.rangeFrom == part.rangeFrom + |Existing(fs, part.path)|
  {
    Part(d.url, part.path, SizeOrZero(fs, part.path) + part.rangeFrom, part.rangeTo)
  }

  /** The checkpoint counting only the bytes this run appended: the file
      held `sizeAtOpen` bytes when it was ready. */
  function Checkpoint(d: Downloader, part: Part, sizeAtOpen: nat, fs: FS): (c: Part)
    ensures c.url == d.url && c.path == part.path && c.rangeTo == part.rangeTo
    ensures c.rangeFrom == part.rangeFrom + (|Existing(fs, part.path)| - sizeAtOpen)
    ensures sizeAtOpen == 0 ==> c == CheckpointAsWritten(d, part, fs)
  {
    Part(d.url, part.path, part.rangeFrom + (SizeOrZero(fs, part.path) - sizeAtOpen), part.rangeTo)
  }

  /** The message a segment's goroutine ends with, as downloadPart sends
      it: a checkpoint on the signal, the copy error, a size-mismatch
      error when io.Copy moved other than the expected number of bytes,
      the part's path otherwise. */
  function SegmentOutcome(d: Downloader, i: int, part: Part, ev: CopyEvent, fs: FS): (m: Message)
    ensures m.FileMsg? <==> ev.Copied? && ev.count == ExpectedBytes(part)
    ensures m.FileMsg? ==> m.path == part.path
    ensures m.StateMsg? <==> ev.Signalled?
    ensures m.StateMsg? ==>
      m.part.url == d.url && m.part.path == part.path && m.part.rangeTo == part.rangeTo &&
      m.part.rangeFrom == part.rangeFrom + |Existing(fs, part.path)|
    ensures ev.Copied? && ev.count != ExpectedBytes(part) ==>
      m == ErrorMsg(Some(SizeMismatch(i, ExpectedBytes(part), ev.count)))
    ensures ev.CopyFailed? ==> m == ErrorMsg(Some(TransferFailed(ev.reason)))
  {
    match ev
    case Signalled => StateMsg(CheckpointAsWritten(d, part, fs))
    case CopyFailed(reason) => ErrorMsg(Some(TransferFailed(reason)))
    case Copied(count) =>
      if count != ExpectedBytes(part) then ErrorMsg(Some(SizeMismatch(i, ExpectedBytes(part), count)))
      else FileMsg(part.path)
  }

  /** The same message with the corrected checkpoint on the signal: the
      part resumes after the bytes this run appended, not after the whole
      file. Every other outcome is the program's. */
  function CorrectedSegmentOutcome(d: Downloader, i: int, part: Part, sizeAtOpen: nat, ev: CopyEvent, fs: FS): (m: Message)
    ensures m.StateMsg? <==> ev.Signalled?
    ensures m.StateMsg? ==>
      m.part.url == d.url && m.part.path == part.path && m.part.rangeTo == part.rangeTo &&
      m.part.rangeFrom == part.rangeFrom + (|Existing(fs, part.path)| - sizeAtOpen)
    ensures !ev.Signalled? ==> m == SegmentOutcome(d, i, part, ev, fs)
    ensures sizeAtOpen == 0 ==> m == SegmentOutcome(d, i, part, ev, fs)
  {
    if ev.Signalled? then StateMsg(Checkpoint(d, part, sizeAtOpen, fs))
    else SegmentOutcome(d, i, part, ev, fs)
  }

  /** The checkpoint http.go sends keeps the part's path and last byte,
      names the downloader's URL and moves the first byte on by the whole
      size of the part file; what is left to ask for shrinks by as much. */
  lemma CheckpointRemainder(d: Downloader, part: Part, fs: FS)
    requires part.path in fs
    ensures var c := CheckpointAsWritten(d, part, fs);
      c.url == d.url && c.path == part.path && c.rangeTo == part.rangeTo &&
      c.rangeFrom - part.rangeFrom == |fs[part.path]| &&
      ExpectedBytes(c) == ExpectedBytes(part) - |fs[part.path]|
  {
  }

  /** The corrected checkpoint moves the first byte on by exactly the bytes
      appended since the file was opened. */
  lemma CorrectedCheckpointRemainder(d: Downloader, part: Part, sizeAtOpen: nat, fs: FS)
    requires part.path in fs && sizeAtOpen <= |fs[part.path]|
    ensures var c := Checkpoint(d, part, sizeAtOpen, fs);
      c.url == d.url && c.path == part.path && c.rangeTo == part.rangeTo &&
      c.rangeFrom - part.rangeFrom == |fs[part.path]| - sizeAtOpen &&
      ExpectedBytes(c) == ExpectedBytes(part) - (|fs[part.path]| - sizeAtOpen)
  {
  }

  // ---------------------------------------------------------------------
  // Start

  /** What the loop of Start has gathered: completed files, checkpoint
      parts, and whether any checkpoint arrived. */
  datatype Tally = Tally(files: seq<string>, parts: seq<Part>, interrupted: bool)

  const EMPTY_TALLY := Tally([], [], false)

  /** Where the messages lead. `Waiting` when they run out before Done. */
  datatype Decision = Save(parts: seq<Part>) | Join(files: seq<string>) | Fail(failure: Failure) | Waiting(tally: Tally)

  /** The loop of Start over the messages, as a function. */
  function Decide(msgs: seq<Message>, t: Tally, resumable: bool): (r: Decision)
    ensures r.Save? ==> resumable
    ensures r.Fail? ==> ErrorMsg(Some(r.failure)) in msgs
  {
    if msgs == [] then Waiting(t)
    else
      match msgs[0]
      case FileMsg(f) => Decide(msgs[1..], t.(files := t.files + [f]), resumable)
      case ErrorMsg(e) => if e.Some? then Fail(e.value) else Decide(msgs[1..], t, resumable)
      case StateMsg(p) => Decide(msgs[1..], t.(parts := t.parts + [p], interrupted := true), resumable)
      case DoneMsg => if t.interrupted && resumable then Save(t.parts) else Join(t.files)
  }

  /** The checkpoint State.Save would write. */
  datatype State = State(url: string, parts: seq<Part>)

  /** How a run ends. A run whose messages end before Done is still
      waiting in the select. */
  datatype Outcome =
    | Saved(state: State, disk: FS)
    | Finished(disk: FS)
    | Aborted(failure: Failure, disk: FS)
    | Blocked(tally: Tally)

  /** What happens on Done (or an error, or no more messages). */
  function Finish(d: Downloader, fs: FS, decision: Decision): (r: Outcome)
    ensures r.Blocked? <==> decision.Waiting?
    ensures decision.Save? ==> r == Saved(State(d.url, decision.parts), fs)
    ensures decision.Fail? ==> r == Aborted(decision.failure, fs)
    ensures r.Finished? ==> decision.Join? && forall p :: p in r.disk ==> !InTree(p, d.folder)
  {
    match decision
    case Waiting(t) => Blocked(t)
    case Fail(e) => Aborted(e, fs)
    case Save(parts) => Saved(State(d.url, parts), fs)
    case Join(files) =>
      match Joiner.IsJoinable(files, fs)
      case Abort(e) => Aborted(e, fs)
      case Ok(joinable) =>
        if !joinable then Finished(RemoveAll(fs, d.folder))
        else
          match Joiner.JoinInto(Sorting.InsertionSorted(Joiner.Less, files), fs, d.file)
          case JoinFailed(disk, e) => Aborted(e, disk)
          case Joined(disk) => Finished(RemoveAll(disk, d.folder))
  }

  /** The output is not one of the part files. */
  predicate OutputNotAPart(msgs: seq<Message>, out: string) {
    forall k :: 0 <= k < |msgs| && msgs[k].FileMsg? ==> msgs[k].path != out
  }

  /** Start: the select loop over the messages, then the save or the join
      and the removal of the work folder. */
  method Start(d: Downloader, msgs: seq<Message>, fs: FS) returns (r: Outcome)
    requires OutputNotAPart(msgs, d.file)
    ensures r == Finish(d, fs, Decide(msgs, EMPTY_TALLY, d.resumable))
  {
    var files: seq<string> := [];
    var parts: seq<Part> := [];
    var interrupted := false;
    var i := 0;
    while i < |msgs|
      invariant 0 <= i <= |msgs|
      invariant Decide(msgs, EMPTY_TALLY, d.resumable) == Decide(msgs[i..], Tally(files, parts, interrupted), d.resumable)
      invariant forall k :: 0 <= k < |files| ==> files[k] != d.file
    {
      assert msgs[i..][1..] == msgs[i + 1..];
      match msgs[i] {
        case FileMsg(f) =>
          files := files + [f];
        case ErrorMsg(e) =>
          if e.Some? {
            return Aborted(e.value, fs);
          }
        case StateMsg(p) =>
          parts := parts + [p];
          interrupted := true;
        case DoneMsg =>
          if interrupted && d.resumable {
            return Saved(State(d.url, parts), fs);
          }
          r := JoinAndClean(d, files, fs);
          return;
      }
      i := i + 1;
    }
    return Blocked(Tally(files, parts, interrupted));
  }

  /** The join branch of Start: join when isJoinable says so, then remove
      the work folder. */
  method JoinAndClean(d: Downloader, files: seq<string>, fs: FS) returns (r: Outcome)
    requires forall k :: 0 <= k < |files| ==> files[k] != d.file
    ensures r == Finish(d, fs, Join(files))
  {
    var joinable := Joiner.IsJoinable(files, fs);
    if joinable.Abort? {
      return Aborted(joinable.failure, fs);
    }
    var disk := fs;
    if joinable.value {
      var names := new string[|files|](k requires 0 <= k < |files| => files[k]);
      assert names[..] == files;
      var joined := Joiner.JoinFile(names, fs, d.file);
      if joined.JoinFailed? {
        return Aborted(joined.failure, joined.disk);
      }
      disk := joined.disk;
    }
    return Finished(RemoveAll(disk, d.folder));
  }

  // ---------------------------------------------------------------------
  // What Start decides

  /** Messages that neither end the loop nor abort it. */
  predicate Quiet(msgs: seq<Message>) {
    forall k :: 0 <= k < |msgs| ==> !msgs[k].DoneMsg? && !(msgs[k].ErrorMsg? && msgs[k].err.Some?)
  }

  /** The paths of the completed segments, in arrival order. */
  function FilesOf(msgs: seq<Message>): seq<string> {
    if msgs == [] then []
    else (if msgs[0].FileMsg? then [msgs[0].path] else []) + FilesOf(msgs[1..])
  }

  /** The checkpoint parts, in arrival order. */
  function StatesOf(msgs: seq<Message>): seq<Part> {
    if msgs == [] then []
    else (if msgs[0].StateMsg? then [msgs[0].part] else []) + StatesOf(msgs[1..])
  }

  /** The loop is still waiting only when no message ended it: neither
      Done nor a non-nil error arrived. */
  lemma {:induction false} WaitingMeansQuiet(msgs: seq<Message>, t: Tally, resumable: bool)
    requires Decide(msgs, t, resumable).Waiting?
    ensures Quiet(msgs)
    decreases |msgs|
  {
    if msgs != [] {
      WaitingMeansQuiet(msgs[1..], Gather(t, msgs[0]), resumable);
      forall k | 0 < k < |msgs| ensures !msgs[k].DoneMsg? && !(msgs[k].ErrorMsg? && msgs[k].err.Some?) {
        assert msgs[k] == msgs[1..][k - 1];
      }
    }
  }

  /** Quiet messages only add to the tally: files and checkpoints in
      arrival order, and the interrupted flag once a checkpoint came. */
  lemma {:induction false} DecideAfterQuiet(quiet: seq<Message>, rest: seq<Message>, t: Tally, resumable: bool)
    requires Quiet(quiet)
    ensures Decide(quiet + rest, t, resumable) ==
      Decide(rest, Tally(t.files + FilesOf(quiet), t.parts + StatesOf(quiet), t.interrupted || StatesOf(quiet) != []), resumable)
    decreases |quiet|
  {
    if quiet == [] {
      assert quiet + rest == rest;
      assert t.files + [] == t.files && t.parts + [] == t.parts;
    } else {
      QuietStep(quiet, rest, t, resumable);
      DecideAfterQuiet(quiet[1..], rest, Gather(t, quiet[0]), resumable);
      TallyStep(quiet, t);
    }
  }

  /** How a quiet message changes the tally. */
  function Gather(t: Tally, m: Message): Tally {
    match m
    case FileMsg(f) => t.(files := t.files + [f])
    case StateMsg(p) => t.(parts := t.parts + [p], interrupted := true)
    case _ => t
  }

  lemma QuietStep(quiet: seq<Message>, rest: seq<Message>, t: Tally, resumable: bool)
    requires quiet != [] && Quiet(quiet)
    ensures Quiet(quiet[1..])
    ensures Decide(quiet + rest, t, resumable) == Decide(quiet[1..] + rest, Gather(t, quiet[0]), resumable)
  {
    assert (quiet + rest)[0] == quiet[0];
    assert (quiet + rest)[1..] == quiet[1..] + rest;
    forall k | 0 <= k < |quiet[1..]| ensures !quiet[1..][k].DoneMsg? && !(quiet[1..][k].ErrorMsg? && quiet[1..][k].err.Some?) {
      assert quiet[1..][k] == quiet[k + 1];
    }
  }

  lemma TallyStep(quiet: seq<Message>, t: Tally)
    requires quiet != []
    ensures var g := Gather(t, quiet[0]);
      g.files + FilesOf(quiet[1..]) == t.files + FilesOf(quiet) &&
      g.parts + StatesOf(quiet[1..]) == t.parts + StatesOf(quiet) &&
      (g.interrupted || StatesOf(quiet[1..]) != []) == (t.interrupted || StatesOf(quiet) != [])
  {
    var m := quiet[0];
    var fs := FilesOf(quiet[1..]);
    var ss := StatesOf(quiet[1..]);
    assert FilesOf(quiet) == (if m.FileMsg? then [m.path] else []) + fs;
    assert StatesOf(quiet) == (if m.StateMsg? then [m.part] else []) + ss;
    match m {
      case FileMsg(f) =>
        assert t.files + [f] + fs == t.files + ([f] + fs);
        assert [] + ss == ss;
      case StateMsg(p) =>
        assert t.parts + [p] + ss == t.parts + ([p] + ss);
        assert [] + fs == fs;
      case _ =>
        assert [] + fs == fs && [] + ss == ss;
    }
  }

  /** On Done after quiet messages: save exactly the checkpoints if one
      arrived and the download is resumable, join the completed files
      otherwise; messages after Done are never read. */
  lemma DecideAtDone(quiet: seq<Message>, rest: seq<Message>, resumable: bool)
    requires Quiet(quiet)
    ensures Decide(quiet + [DoneMsg] + rest, EMPTY_TALLY, resumable) ==
      if StatesOf(quiet) != [] && resumable then Save(StatesOf(quiet)) else Join(FilesOf(quiet))
  {
    assert quiet + [DoneMsg] + rest == quiet + ([DoneMsg] + rest);
    DecideAfterQuiet(quiet, [DoneMsg] + rest, EMPTY_TALLY, resumable);
    assert [] + FilesOf(quiet) == FilesOf(quiet) && [] + StatesOf(quiet) == StatesOf(quiet);
  }

  /** A non-nil error before Done ends the run with that error, whatever
      else has arrived. */
  lemma DecideAtError(quiet: seq<Message>, e: Failure, rest: seq<Message>, resumable: bool)
    requires Quiet(quiet)
    ensures Decide(quiet + [ErrorMsg(Some(e))] + rest, EMPTY_TALLY, resumable) == Fail(e)
  {
    assert quiet + [ErrorMsg(Some(e))] + rest == quiet + ([ErrorMsg(Some(e))] + rest);
    DecideAfterQuiet(quiet, [ErrorMsg(Some(e))] + rest, EMPTY_TALLY, resumable);
  }

  /** An interrupted resumable run saves the checkpoints it received and
      leaves the disk as it is: no join, no removal of the work folder. */
  lemma InterruptedResumableSaves(d: Downloader, quiet: seq<Message>, rest: seq<Message>, fs: FS)
    requires Quiet(quiet) && StatesOf(quiet) != [] && d.resumable
    ensures Finish(d, fs, Decide(quiet + [DoneMsg] + rest, EMPTY_TALLY, d.resumable)) ==
      Saved(State(d.url, StatesOf(quiet)), fs)
  {
    DecideAtDone(quiet, rest, d.resumable);
  }

  /** A run that is not resumable joins on Done even when interrupted. */
  lemma NotResumableJoins(d: Downloader, quiet: seq<Message>, rest: seq<Message>, fs: FS)
    requires Quiet(quiet) && !d.resumable
    ensures Finish(d, fs, Decide(quiet + [DoneMsg] + rest, EMPTY_TALLY, d.resumable)) ==
      Finish(d, fs, Join(FilesOf(quiet)))
  {
    DecideAtDone(quiet, rest, d.resumable);
  }

  /** A single completed file that is empty is not joined: the output file
      is not created, and the work folder is removed. */
  lemma SingleEmptyFileNotJoined(d: Downloader, f: string, fs: FS)
    requires f in fs && fs[f] == []
    ensures Finish(d, fs, Join([f])) == Finished(RemoveAll(fs, d.folder))
    ensures d.file !in fs ==> d.file !in Finish(d, fs, Join([f])).disk
  {
  }

  /** A segment whose copy moved the wrong number of bytes, reported before
      Done, aborts the whole run with a size mismatch. */
  lemma SizeMismatchAborts(d: Downloader, quiet: seq<Message>, i: int, part: Part,
                           count: int, rest: seq<Message>, fs: FS)
    requires Quiet(quiet) && count != ExpectedBytes(part)
    ensures var m := SegmentOutcome(d, i, part, Copied(count), fs);
      Finish(d, fs, Decide(quiet + [m] + rest, EMPTY_TALLY, d.resumable)) ==
        Aborted(SizeMismatch(i, ExpectedBytes(part), count), fs)
  {
    DecideAtError(quiet, SizeMismatch(i, ExpectedBytes(part), count), rest, d.resumable);
  }
}
