/** Several runs of one segment: a run that is interrupted leaves a
    checkpoint, the next run resumes from it by appending to the part file,
    and the run that completes leaves the whole segment in the file. The
    remote resource is a fixed byte sequence and the server answers a Range
    request with the requested slice of it. */
module Resume {
  import opened Common
  import opened FileSystem
  import opened Parts
  import opened Http

  /** What one run of downloadPart leaves: its last message and the disk. */
  datatype Run = Run(message: Message, disk: FS)

  /** One run of downloadPart for `part` with the corrected checkpoint:
      openPartFile, then the bytes that arrived before the select ended are
      appended, then the event picks the message. */
  function RunSegment(d: Downloader, i: int, part: Part, data: Bytes, ev: CopyEvent, fs: FS): (r: Run)
    ensures part.path in r.disk && r.disk[part.path] == Existing(fs, part.path) + data
    ensures forall q :: q != part.path ==> (q in r.disk <==> q in fs) && (q in fs ==> r.disk[q] == fs[q])
    ensures r.message.StateMsg? <==> ev.Signalled?
    ensures ev.Signalled? ==> r.message.part.rangeFrom == part.rangeFrom + |data|
    ensures !ev.Signalled? ==> r.message == SegmentOutcome(d, i, part, ev, r.disk)
  {
    var ready := OpenPartFile(fs, part);
    OpenThenWrite(fs, part, data);
    var sizeAtOpen := |ready[part.path]|;
    var disk := ready[part.path := ready[part.path] + data];
    Run(CorrectedSegmentOutcome(d, i, part, sizeAtOpen, ev, disk), disk)
  }

  /** The same run as http.go has it: the checkpoint counts the whole part
      file, including what earlier runs left in it. */
  function RunSegmentAsWritten(d: Downloader, i: int, part: Part, data: Bytes, ev: CopyEvent, fs: FS): (r: Run)
    ensures part.path in r.disk && r.disk[part.path] == Existing(fs, part.path) + data
    ensures forall q :: q != part.path ==> (q in r.disk <==> q in fs) && (q in fs ==> r.disk[q] == fs[q])
    ensures r.message.StateMsg? <==> ev.Signalled?
    ensures ev.Signalled? ==> r.message.part.rangeFrom == part.rangeFrom + |Existing(fs, part.path)| + |data|
    ensures !ev.Signalled? ==> r.message == SegmentOutcome(d, i, part, ev, r.disk)
  {
    var ready := OpenPartFile(fs, part);
    OpenThenWrite(fs, part, data);
    var disk := ready[part.path := ready[part.path] + data];
    Run(SegmentOutcome(d, i, part, ev, disk), disk)
  }

  /** `part` is what remains of the planned segment `orig`, and the part
      file holds exactly the bytes of the resource before it. */
  predicate Remains(resource: Bytes, orig: Part, part: Part, fs: FS) {
    part.path == orig.path && part.rangeTo == orig.rangeTo &&
    0 <= orig.rangeFrom <= part.rangeFrom <= orig.rangeTo + 1 <= |resource| &&
    Existing(fs, part.path) == resource[orig.rangeFrom..part.rangeFrom]
  }

  /** Before the first run nothing is on disk for the segment. */
  lemma FreshSegmentRemains(resource: Bytes, orig: Part, fs: FS)
    requires 0 <= orig.rangeFrom <= orig.rangeTo + 1 <= |resource| && orig.path !in fs
    ensures Remains(resource, orig, orig, fs)
  {
  }

  /** An interrupted run leaves a checkpoint that again describes what
      remains, whatever number of bytes arrived before the signal. */
  lemma InterruptKeepsRemainder(d: Downloader, i: int, resource: Bytes, orig: Part, part: Part, w: nat, fs: FS)
    requires Remains(resource, orig, part, fs) && part.rangeFrom + w <= part.rangeTo + 1
    ensures var run := RunSegment(d, i, part, resource[part.rangeFrom..part.rangeFrom + w], Signalled, fs);
      run.message.StateMsg? && run.message.part.rangeFrom == part.rangeFrom + w &&
      Remains(resource, orig, run.message.part, run.disk)
  {
    var data := resource[part.rangeFrom..part.rangeFrom + w];
    var ready := OpenPartFile(fs, part);
    assert ready[part.path] == resource[orig.rangeFrom..part.rangeFrom];
    var disk := ready[part.path := ready[part.path] + data];
    assert disk[part.path] == resource[orig.rangeFrom..part.rangeFrom + w];
  }

  /** The run that receives the rest of the range reports the part file,
      which then holds the whole segment. */
  lemma CompletionHoldsSegment(d: Downloader, i: int, resource: Bytes, orig: Part, part: Part, fs: FS)
    requires Remains(resource, orig, part, fs)
    ensures var data := resource[part.rangeFrom..part.rangeTo + 1];
      var run := RunSegment(d, i, part, data, Copied(|data|), fs);
      run.message == FileMsg(orig.path) && run.disk[orig.path] == resource[orig.rangeFrom..orig.rangeTo + 1]
  {
    var data := resource[part.rangeFrom..part.rangeTo + 1];
    var ready := OpenPartFile(fs, part);
    assert ready[part.path] == resource[orig.rangeFrom..part.rangeFrom];
    assert ready[part.path] + data == resource[orig.rangeFrom..orig.rangeTo + 1];
  }

  /** On a first run the file starts empty and both checkpoints agree. */
  lemma AsWrittenAgreesOnFirstRun(d: Downloader, part: Part, data: Bytes, fs: FS)
    requires part.path !in fs
    ensures RunSegmentAsWritten(d, 0, part, data, Signalled, fs) == RunSegment(d, 0, part, data, Signalled, fs)
  {
  }

  /** Once a resumed run is interrupted, the checkpoint http.go builds
      counts the bytes of the earlier runs twice: it starts `sizeAtOpen`
      bytes too late, so it no longer describes what remains. */
  lemma AsWrittenSkipsBytes(d: Downloader, i: int, resource: Bytes, orig: Part, part: Part, w: nat, fs: FS)
    requires Remains(resource, orig, part, fs) && part.rangeFrom + w <= part.rangeTo + 1
    requires part.rangeFrom > orig.rangeFrom
    ensures var data := resource[part.rangeFrom..part.rangeFrom + w];
      var run := RunSegmentAsWritten(d, i, part, data, Signalled, fs);
      run.message.StateMsg? &&
      run.message.part.rangeFrom == part.rangeFrom + w + (part.rangeFrom - orig.rangeFrom) &&
      !Remains(resource, orig, run.message.part, run.disk)
  {
    var data := resource[part.rangeFrom..part.rangeFrom + w];
    var ready := OpenPartFile(fs, part);
    assert |ready[part.path]| == part.rangeFrom - orig.rangeFrom;
    var disk := ready[part.path := ready[part.path] + data];
    assert |disk[part.path]| == part.rangeFrom - orig.rangeFrom + w;
  }

  /** A segment [0, 99]: the first run gets 30 bytes before the signal, the
      resumed run 20 more; http.go's checkpoint then asks for bytes 80 to
      99, the third run receives those 20 bytes, counts them as complete and
      reports the part file, which holds 70 bytes instead of 100. */
  lemma AsWrittenLosesBytes(d: Downloader, resource: Bytes, url: string, path: string, fs: FS)
    requires |resource| == 100 && path !in fs
    ensures var orig := Part(url, path, 0, 99);
      var run1 := RunSegmentAsWritten(d, 0, orig, resource[0..30], Signalled, fs);
      run1.message.StateMsg? && run1.message.part.rangeFrom == 30 &&
      var run2 := RunSegmentAsWritten(d, 0, run1.message.part, resource[30..50], Signalled, run1.disk);
      run2.message.StateMsg? && run2.message.part.rangeFrom == 80 &&
      var run3 := RunSegmentAsWritten(d, 0, run2.message.part, resource[80..100], Copied(20), run2.disk);
      run3.message == FileMsg(path) && |run3.disk[path]| == 70
  {
    var orig := Part(url, path, 0, 99);
    var run1 := RunSegmentAsWritten(d, 0, orig, resource[0..30], Signalled, fs);
    assert run1.disk[path] == resource[0..30];
    var run2 := RunSegmentAsWritten(d, 0, run1.message.part, resource[30..50], Signalled, run1.disk);
    assert |run2.disk[path]| == 50;
  }

  /** With the corrected checkpoint the same three runs leave the whole
      segment: bytes 0 to 29, then 30 to 49, then 50 to 99. */
  lemma CorrectedKeepsBytes(d: Downloader, resource: Bytes, url: string, path: string, fs: FS)
    requires |resource| == 100 && path !in fs
    ensures var orig := Part(url, path, 0, 99);
      var run1 := RunSegment(d, 0, orig, resource[0..30], Signalled, fs);
      run1.message.StateMsg? && run1.message.part.rangeFrom == 30 &&
      var run2 := RunSegment(d, 0, run1.message.part, resource[30..50], Signalled, run1.disk);
      run2.message.StateMsg? && run2.message.part.rangeFrom == 50 &&
      var run3 := RunSegment(d, 0, run2.message.part, resource[50..100], Copied(50), run2.disk);
      run3.message == FileMsg(path) && run3.disk[path] == resource
  {
    var orig := Part(url, path, 0, 99);
    FreshSegmentRemains(resource, orig, fs);
    InterruptKeepsRemainder(d, 0, resource, orig, orig, 30, fs);
    var run1 := RunSegment(d, 0, orig, resource[0..30], Signalled, fs);
    InterruptKeepsRemainder(d, 0, resource, orig, run1.message.part, 20, run1.disk);
    var run2 := RunSegment(d, 0, run1.message.part, resource[30..50], Signalled, run1.disk);
    CompletionHoldsSegment(d, 0, resource, orig, run2.message.part, run2.disk);
    assert resource[0..100] == resource;
  }
}
