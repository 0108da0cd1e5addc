/**
 * The merge of one window: decode every file of the list in order, append
 * what decodes, skip what does not, report progress after every file, and
 * export the combined audio once unless it is empty. The decoder and the
 * exporter are parameters; what the merge shows the user is returned as a
 * log of events in the order they are posted.
 */
module Merge {

  /** Decoded audio; its length counts frames. */
  datatype Segment = Segment(frames: seq<int>)

  /** The outcome of decoding one file. */
  datatype Decoded = Audio(segment: Segment) | DecodeError(reason: string)

  datatype Event =
    | NoFilesWarning                        // warning "no files loaded"
    | ProgressReset(maximum: nat)           // determinate bar: maximum := total, value := 0
    | Skipped(path: string, reason: string) // diagnostic for a file that does not decode
    | Progress(value: nat)                  // determinate bar: value := i
    | NoValidFilesError                     // error "no valid MP3 files"
    | ExportStarted                         // indeterminate bar starts
    | ExportCalled(output: string, audio: Segment)
    | ExportStopped                         // indeterminate bar stops
    | MergeDone(output: string)             // success message naming the output

  function Length(a: Segment): nat {
    |a.frames|
  }

  /** `combined += audio`. */
  function Append(a: Segment, b: Segment): (r: Segment)
    ensures Length(r) == Length(a) + Length(b)
  {
    Segment(a.frames + b.frames)
  }

  /** The segments of the files that decode, in list order. */
  function DecodedSegments(files: seq<string>, decode: string -> Decoded): seq<Segment> {
    if files == [] then []
    else
      var init, last := files[..|files| - 1], files[|files| - 1];
      DecodedSegments(init, decode) + (match decode(last) case Audio(a) => [a] case DecodeError(_) => [])
  }

  /** The files that do not decode, in list order. */
  function FailedFiles(files: seq<string>, decode: string -> Decoded): seq<string> {
    if files == [] then []
    else
      var init, last := files[..|files| - 1], files[|files| - 1];
      FailedFiles(init, decode) + (if decode(last).DecodeError? then [last] else [])
  }

  /** The concatenation of segments, starting from the empty segment. */
  function Concat(segments: seq<Segment>): Segment {
    if segments == [] then Segment([])
    else Append(Concat(segments[..|segments| - 1]), segments[|segments| - 1])
  }

  lemma ConcatSnoc(segments: seq<Segment>, a: Segment)
    ensures Concat(segments + [a]) == Append(Concat(segments), a)
  {
    assert (segments + [a])[..|segments|] == segments;
  }

  function TotalLength(segments: seq<Segment>): nat {
    if segments == [] then 0
    else TotalLength(segments[..|segments| - 1]) + Length(segments[|segments| - 1])
  }

  /** The events for the file at 1-based position i: a diagnostic if it fails, then progress i. */
  function FileEvents(path: string, i: nat, decode: string -> Decoded): seq<Event> {
    (match decode(path) case Audio(_) => [] case DecodeError(e) => [Skipped(path, e)]) + [Progress(i)]
  }

  /** The events of the decode loop over files. */
  function DecodeEvents(files: seq<string>, decode: string -> Decoded): seq<Event> {
    if files == [] then []
    else
      var init := files[..|files| - 1];
      DecodeEvents(init, decode) + FileEvents(files[|files| - 1], |files|, decode)
  }

  /** The events after the loop: abort on empty audio, else export and report. */
  function FinishEvents(output: string, combined: Segment, exporter: (string, Segment) -> bool): seq<Event> {
    if Length(combined) == 0 then [NoValidFilesError]
    else
      [ExportStarted, ExportCalled(output, combined)]
      + (if exporter(output, combined) then [ExportStopped, MergeDone(output)] else [])
  }

  /**
   * Every event of a merge of files into output: it starts with the progress
   * reset, holds at least a progress value per file and one closing event,
   * and never the "no files" warning, which only the merge button shows.
   */
  function MergeEvents(files: seq<string>, output: string, decode: string -> Decoded,
                       exporter: (string, Segment) -> bool): (r: seq<Event>)
    ensures |files| + 2 <= |r|
    ensures r[0] == ProgressReset(|files|)
    ensures NoFilesWarning !in r
  {
    DecodeEventsKinds(files, decode);
    [ProgressReset(|files|)] + DecodeEvents(files, decode)
    + FinishEvents(output, Concat(DecodedSegments(files, decode)), exporter)
  }

  /** The decode loop posts at least one event per file, and only progress values and diagnostics. */
  lemma {:induction false} DecodeEventsKinds(files: seq<string>, decode: string -> Decoded)
    ensures |files| <= |DecodeEvents(files, decode)|
    ensures NoFilesWarning !in DecodeEvents(files, decode)
  {
    if files != [] {
      DecodeEventsKinds(files[..|files| - 1], decode);
    }
  }

  /** One more file of the decode loop: its segment, if any, is appended last. */
  lemma DecodeSnoc(done: seq<string>, f: string, decode: string -> Decoded)
    ensures decode(f).Audio? ==>
      Concat(DecodedSegments(done + [f], decode)) == Append(Concat(DecodedSegments(done, decode)), decode(f).segment)
    ensures decode(f).DecodeError? ==>
      Concat(DecodedSegments(done + [f], decode)) == Concat(DecodedSegments(done, decode))
  {
    var p := done + [f];
    assert p[..|p| - 1] == done;
    var segments := DecodedSegments(done, decode);
    if decode(f).Audio? {
      ConcatSnoc(segments, decode(f).segment);
    } else {
      assert segments + [] == segments;
    }
  }

  /** One more file of the decode loop: its diagnostic, if any, then its progress come last. */
  lemma DecodeEventsSnoc(done: seq<string>, f: string, decode: string -> Decoded)
    ensures decode(f).Audio? ==>
      DecodeEvents(done + [f], decode) == DecodeEvents(done, decode) + [Progress(|done| + 1)]
    ensures decode(f).DecodeError? ==>
      DecodeEvents(done + [f], decode) == DecodeEvents(done, decode) + [Skipped(f, decode(f).reason)] + [Progress(|done| + 1)]
  {
    var p := done + [f];
    assert p[..|p| - 1] == done;
    var before := DecodeEvents(done, decode);
    var progress := [Progress(|done| + 1)];
    assert DecodeEvents(p, decode) == before + FileEvents(f, |done| + 1, decode);
    if decode(f).Audio? {
      assert FileEvents(f, |done| + 1, decode) == progress;
    } else {
      var skipped := [Skipped(f, decode(f).reason)];
      assert FileEvents(f, |done| + 1, decode) == skipped + progress;
      assert before + (skipped + progress) == before + skipped + progress;
    }
  }

  /**
   * The decode loop of the worker: `combined` is the concatenation of every
   * segment that decodes, and `events` what the loop posts.
   */
  method DecodeAll(files: seq<string>, decode: string -> Decoded)
    returns (combined: Segment, events: seq<Event>)
    ensures combined == Concat(DecodedSegments(files, decode))
    ensures events == DecodeEvents(files, decode)
  {
    combined := Segment([]);
    events := [];
    ghost var done: seq<string> := [];
    var i := 0;
    while i < |files|
      invariant 0 <= i <= |files| && done == files[..i]
      invariant combined == Concat(DecodedSegments(done, decode))
      invariant events == DecodeEvents(done, decode)
    {
      var f := files[i];
      assert files[..i + 1] == done + [f];
      DecodeSnoc(done, f, decode);
      DecodeEventsSnoc(done, f, decode);
      match decode(f) {
        case Audio(audio) =>
          combined := Append(combined, audio);
        case DecodeError(err) =>
          events := events + [Skipped(f, err)];
      }
      events := events + [Progress(i + 1)];
      done := done + [f];
      i := i + 1;
    }
    assert done == files;
  }

  /**
   * The worker of a merge. `exporter` answers whether writing the file
   * succeeds; when it fails the worker ends with the exception and posts
   * nothing more.
   */
  method MergeFiles(files: seq<string>, output: string, decode: string -> Decoded,
                    exporter: (string, Segment) -> bool)
    returns (events: seq<Event>)
    ensures events == MergeEvents(files, output, decode, exporter)
  {
    var total := |files|;
    events := [ProgressReset(total)];
    var combined, decoding := DecodeAll(files, decode);
    events := events + decoding;
    if Length(combined) == 0 {
      events := events + [NoValidFilesError];
      return;
    }
    events := events + [ExportStarted, ExportCalled(output, combined)];
    if !exporter(output, combined) {
      return;
    }
    events := events + [ExportStopped, MergeDone(output)];
  }

  // ----- What the log says -----

  /** 1, 2, ..., n. */
  function UpTo(n: nat): (r: seq<nat>)
    ensures |r| == n
    ensures forall k :: 0 <= k < n ==> r[k] == k + 1
  {
    if n == 0 then [] else UpTo(n - 1) + [n]
  }

  /** The values of the determinate progress updates, in order. */
  function ProgressValues(events: seq<Event>): seq<nat> {
    if events == [] then []
    else
      var init, last := events[..|events| - 1], events[|events| - 1];
      ProgressValues(init) + (if last.Progress? then [last.value] else [])
  }

  /** The files reported as skipped, in order. */
  function SkippedFiles(events: seq<Event>): seq<string> {
    if events == [] then []
    else
      var init, last := events[..|events| - 1], events[|events| - 1];
      SkippedFiles(init) + (if last.Skipped? then [last.path] else [])
  }

  /** The calls of the exporter, in order. */
  function ExportCalls(events: seq<Event>): seq<Event> {
    if events == [] then []
    else
      var init, last := events[..|events| - 1], events[|events| - 1];
      ExportCalls(init) + (if last.ExportCalled? then [last] else [])
  }

  lemma {:induction false} ProgressValuesAppend(a: seq<Event>, b: seq<Event>)
    ensures ProgressValues(a + b) == ProgressValues(a) + ProgressValues(b)
  {
    if b == [] {
      assert a + b == a;
    } else {
      assert (a + b)[..|a + b| - 1] == a + b[..|b| - 1];
      ProgressValuesAppend(a, b[..|b| - 1]);
    }
  }

  lemma {:induction false} SkippedFilesAppend(a: seq<Event>, b: seq<Event>)
    ensures SkippedFiles(a + b) == SkippedFiles(a) + SkippedFiles(b)
  {
    if b == [] {
      assert a + b == a;
    } else {
      assert (a + b)[..|a + b| - 1] == a + b[..|b| - 1];
      SkippedFilesAppend(a, b[..|b| - 1]);
    }
  }

  lemma {:induction false} ExportCallsAppend(a: seq<Event>, b: seq<Event>)
    ensures ExportCalls(a + b) == ExportCalls(a) + ExportCalls(b)
  {
    if b == [] {
      assert a + b == a;
    } else {
      assert (a + b)[..|a + b| - 1] == a + b[..|b| - 1];
      ExportCallsAppend(a, b[..|b| - 1]);
    }
  }

  /** The decode loop posts progress 1..N, whether or not each file decodes. */
  lemma {:induction false} DecodeProgress(files: seq<string>, decode: string -> Decoded)
    ensures ProgressValues(DecodeEvents(files, decode)) == UpTo(|files|)
    ensures SkippedFiles(DecodeEvents(files, decode)) == FailedFiles(files, decode)
    ensures ExportCalls(DecodeEvents(files, decode)) == []
  {
    if files != [] {
      var init, last := files[..|files| - 1], files[|files| - 1];
      DecodeProgress(init, decode);
      var fe := FileEvents(last, |files|, decode);
      ProgressValuesAppend(DecodeEvents(init, decode), fe);
      SkippedFilesAppend(DecodeEvents(init, decode), fe);
      ExportCallsAppend(DecodeEvents(init, decode), fe);
      var head := match decode(last) case Audio(_) => [] case DecodeError(e) => [Skipped(last, e)];
      ProgressValuesAppend(head, [Progress(|files|)]);
      SkippedFilesAppend(head, [Progress(|files|)]);
      ExportCallsAppend(head, [Progress(|files|)]);
      assert [Progress(|files|)][..0] == [];
      assert head != [] ==> head[..0] == [];
    }
  }

  /** A merge posts exactly N progress updates 1, 2, ..., N in order. */
  lemma MergeProgress(files: seq<string>, output: string, decode: string -> Decoded,
                      exporter: (string, Segment) -> bool)
    ensures ProgressValues(MergeEvents(files, output, decode, exporter)) == UpTo(|files|)
  {
    var reset := [ProgressReset(|files|)];
    var d := DecodeEvents(files, decode);
    var fin := FinishEvents(output, Concat(DecodedSegments(files, decode)), exporter);
    assert ProgressValues(d) == UpTo(|files|) by {
      DecodeProgress(files, decode);
    }
    assert ProgressValues(fin) == [] by {
      FinishHasNoProgress(output, Concat(DecodedSegments(files, decode)), exporter);
    }
    assert ProgressValues(reset) == [] by {
      assert reset[..0] == [];
    }
    ProgressValuesAppend(reset, d);
    ProgressValuesAppend(reset + d, fin);
  }

  /** A merge reports one diagnostic for each file that does not decode, in list order. */
  lemma MergeSkipped(files: seq<string>, output: string, decode: string -> Decoded,
                     exporter: (string, Segment) -> bool)
    ensures SkippedFiles(MergeEvents(files, output, decode, exporter)) == FailedFiles(files, decode)
  {
    var reset := [ProgressReset(|files|)];
    var d := DecodeEvents(files, decode);
    var fin := FinishEvents(output, Concat(DecodedSegments(files, decode)), exporter);
    assert SkippedFiles(d) == FailedFiles(files, decode) by {
      DecodeProgress(files, decode);
    }
    assert SkippedFiles(fin) == [] by {
      FinishHasNoProgress(output, Concat(DecodedSegments(files, decode)), exporter);
    }
    assert SkippedFiles(reset) == [] by {
      assert reset[..0] == [];
    }
    SkippedFilesAppend(reset, d);
    SkippedFilesAppend(reset + d, fin);
  }

  lemma FinishHasNoProgress(output: string, combined: Segment, exporter: (string, Segment) -> bool)
    ensures ProgressValues(FinishEvents(output, combined, exporter)) == []
    ensures SkippedFiles(FinishEvents(output, combined, exporter)) == []
    ensures ExportCalls(FinishEvents(output, combined, exporter)) ==
      if Length(combined) == 0 then [] else [ExportCalled(output, combined)]
  {
    var f := FinishEvents(output, combined, exporter);
    if Length(combined) != 0 {
      var head := [ExportStarted, ExportCalled(output, combined)];
      var tail: seq<Event> := if exporter(output, combined) then [ExportStopped, MergeDone(output)] else [];
      ProgressValuesAppend(head, tail);
      SkippedFilesAppend(head, tail);
      ExportCallsAppend(head, tail);
      assert head[..1] == [ExportStarted] && [ExportStarted][..0] == [];
      assert tail != [] ==> tail[..1] == [ExportStopped] && [ExportStopped][..0] == [];
    }
  }

  /** The combined audio is the in-order concatenation of the decoded segments; its length is their sum. */
  lemma {:induction false} ConcatLength(segments: seq<Segment>)
    ensures Length(Concat(segments)) == TotalLength(segments)
    ensures TotalLength(segments) == 0 <==> forall k :: 0 <= k < |segments| ==> Length(segments[k]) == 0
  {
    if segments != [] {
      var init := segments[..|segments| - 1];
      ConcatLength(init);
      assert forall k :: 0 <= k < |init| ==> init[k] == segments[k];
    }
  }

  /**
   * The exporter is called exactly once, with the output path and the
   * combined audio, when the decoded audio is non-empty, and never otherwise.
   */
  lemma MergeExport(files: seq<string>, output: string, decode: string -> Decoded,
                    exporter: (string, Segment) -> bool)
    ensures var combined := Concat(DecodedSegments(files, decode));
      ExportCalls(MergeEvents(files, output, decode, exporter)) ==
        if TotalLength(DecodedSegments(files, decode)) == 0 then [] else [ExportCalled(output, combined)]
  {
    var reset := [ProgressReset(|files|)];
    var combined := Concat(DecodedSegments(files, decode));
    var d := DecodeEvents(files, decode);
    var fin := FinishEvents(output, combined, exporter);
    assert Length(combined) == TotalLength(DecodedSegments(files, decode)) by {
      ConcatLength(DecodedSegments(files, decode));
    }
    assert ExportCalls(d) == [] by {
      DecodeProgress(files, decode);
    }
    assert ExportCalls(reset) == [] by {
      assert reset[..0] == [];
    }
    FinishHasNoProgress(output, combined, exporter);
    ExportCallsAppend(reset, d);
    ExportCallsAppend(reset + d, fin);
  }

  /** The log ends with the "no valid files" error exactly when no file yields any audio. */
  lemma MergeAbort(files: seq<string>, output: string, decode: string -> Decoded,
                   exporter: (string, Segment) -> bool)
    ensures var events := MergeEvents(files, output, decode, exporter);
      TotalLength(DecodedSegments(files, decode)) == 0 <==> events[|events| - 1] == NoValidFilesError
  {
    var combined := Concat(DecodedSegments(files, decode));
    var fin := FinishEvents(output, combined, exporter);
    var events := MergeEvents(files, output, decode, exporter);
    assert Length(combined) == TotalLength(DecodedSegments(files, decode)) by {
      ConcatLength(DecodedSegments(files, decode));
    }
    assert events[|events| - 1] == fin[|fin| - 1];
  }

  /** Success is reported, naming the output, exactly when there is audio and the export succeeds. */
  lemma MergeSuccess(files: seq<string>, output: string, decode: string -> Decoded,
                     exporter: (string, Segment) -> bool)
    ensures var events := MergeEvents(files, output, decode, exporter);
      var combined := Concat(DecodedSegments(files, decode));
      events[|events| - 1] == MergeDone(output) <==> Length(combined) > 0 && exporter(output, combined)
  {
  }

  /** When every file fails to decode, nothing is exported and the error is reported. */
  lemma {:induction false} AllFailedAborts(files: seq<string>, output: string, decode: string -> Decoded,
                                           exporter: (string, Segment) -> bool)
    requires forall k :: 0 <= k < |files| ==> decode(files[k]).DecodeError?
    ensures DecodedSegments(files, decode) == []
    ensures ExportCalls(MergeEvents(files, output, decode, exporter)) == []
  {
    if files != [] {
      var init := files[..|files| - 1];
      AllFailedAborts(init, output, decode, exporter);
    }
    MergeExport(files, output, decode, exporter);
  }

  /** Each file either decodes or is skipped: the two lists together account for all N files. */
  lemma {:induction false} DecodedOrSkipped(files: seq<string>, decode: string -> Decoded)
    ensures |DecodedSegments(files, decode)| + |FailedFiles(files, decode)| == |files|
  {
    if files != [] {
      DecodedOrSkipped(files[..|files| - 1], decode);
    }
  }
}
