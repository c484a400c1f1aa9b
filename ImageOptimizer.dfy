/**
 * The image optimisation script: every image found is probed; an image
 * with a missing or zero dimension is an error, one larger than 1280 pixels
 * on either side is resized to fit inside 1280 by 1280 and written back,
 * any other is skipped, and a failure on one file is counted and the batch
 * moves on.
 */
module ImageOptimizer {
  import opened Wrappers

  const MaxDimension := 1280

  type Bytes = seq<bv8>

  datatype Fit = Inside

  /** The options passed to the resize. */
  datatype ResizeOptions = ResizeOptions(width: nat, height: nat, fit: Fit, withoutEnlargement: bool)

  const Bound := ResizeOptions(MaxDimension, MaxDimension, Inside, true)

  /** What the image library reports; a dimension may be missing. */
  datatype Metadata = Metadata(width: Option<nat>, height: Option<nat>)

  /** The image library as seen by the script: reading the metadata of a file's
      bytes, and resizing them; `None` is a thrown error. */
  datatype Sharp = Sharp(metadataOf: Bytes -> Option<Metadata>, resize: (Bytes, ResizeOptions) -> Option<Bytes>)

  /** A dimension that is present and not zero, i.e. truthy. */
  predicate Known(d: Option<nat>) {
    d.Some? && d.value != 0
  }

  predicate HasDimensions(m: Metadata) {
    Known(m.width) && Known(m.height)
  }

  predicate Oversized(m: Metadata)
    requires HasDimensions(m)
  {
    m.width.value > MaxDimension || m.height.value > MaxDimension
  }

  /** What happens to one file; `Processed` carries what was written. */
  datatype Outcome = Processed(output: Bytes) | Skipped | Failed

  /** The outcome for one file, given its contents (`None`: it cannot be read)
      and whether writing it succeeds. */
  function OutcomeOf(contents: Option<Bytes>, sharp: Sharp, writable: bool): Outcome {
    if contents.None? then Failed
    else match sharp.metadataOf(contents.value)
      case None => Failed
      case Some(m) =>
        if !HasDimensions(m) then Failed
        else if Oversized(m) then
          match sharp.resize(contents.value, Bound)
          case None => Failed
          case Some(buffer) => if writable then Processed(buffer) else Failed
        else Skipped
  }

  /** A file is resized and written exactly when it can be read, both its
      dimensions are known, one exceeds the limit, and the resize and the
      write succeed; it is skipped exactly when it is readable, its dimensions
      are known and neither exceeds the limit; anything else is an error. */
  lemma OutcomeCases(contents: Option<Bytes>, sharp: Sharp, writable: bool)
    ensures var r := OutcomeOf(contents, sharp, writable);
      && (r.Processed? <==>
            && contents.Some?
            && sharp.metadataOf(contents.value).Some?
            && HasDimensions(sharp.metadataOf(contents.value).value)
            && Oversized(sharp.metadataOf(contents.value).value)
            && sharp.resize(contents.value, Bound).Some?
            && writable)
      && (r.Processed? ==> r.output == sharp.resize(contents.value, Bound).value)
      && (r.Skipped? <==>
            && contents.Some?
            && sharp.metadataOf(contents.value).Some?
            && HasDimensions(sharp.metadataOf(contents.value).value)
            && !Oversized(sharp.metadataOf(contents.value).value))
      && (contents.None? || sharp.metadataOf(contents.value).None? ==> r.Failed?)
      && ((contents.Some? && sharp.metadataOf(contents.value).Some?
           && !HasDimensions(sharp.metadataOf(contents.value).value)) ==> r.Failed?)
  {
  }

  /** An image exactly at the limit on both sides is left alone. */
  lemma AtLimitIsSkipped(contents: Bytes, sharp: Sharp, writable: bool)
    requires sharp.metadataOf(contents) == Some(Metadata(Some(MaxDimension), Some(MaxDimension)))
    ensures OutcomeOf(Some(contents), sharp, writable) == Skipped
  {
  }

  /** One pixel over the limit on one side is enough to resize. */
  lemma OverLimitIsResized(contents: Bytes, sharp: Sharp, out: Bytes)
    requires sharp.metadataOf(contents) == Some(Metadata(Some(MaxDimension + 1), Some(1)))
    requires sharp.resize(contents, Bound) == Some(out)
    ensures OutcomeOf(Some(contents), sharp, true) == Processed(out)
  {
  }

  /** A zero width is an error whatever the height. */
  lemma ZeroWidthIsError(contents: Bytes, sharp: Sharp, writable: bool, height: Option<nat>)
    requires sharp.metadataOf(contents) == Some(Metadata(Some(0), height))
    ensures OutcomeOf(Some(contents), sharp, writable) == Failed
  {
  }

  datatype Tally = Tally(processed: nat, skipped: nat, errors: nat)

  function Total(t: Tally): nat {
    t.processed + t.skipped + t.errors
  }

  /** The files on disk and the counters, between two files of the batch. */
  datatype RunState = RunState(files: map<string, Bytes>, tally: Tally)

  /** A file's contents, `None` when it does not exist. */
  function Contents(files: map<string, Bytes>, path: string): Option<Bytes> {
    if path in files then Some(files[path]) else None
  }

  /** One file of the batch. */
  function Step(s: RunState, file: string, sharp: Sharp, writable: string -> bool): RunState {
    match OutcomeOf(Contents(s.files, file), sharp, writable(file))
    case Processed(out) =>
      RunState(s.files[file := out], s.tally.(processed := s.tally.processed + 1))
    case Skipped =>
      RunState(s.files, s.tally.(skipped := s.tally.skipped + 1))
    case Failed =>
      RunState(s.files, s.tally.(errors := s.tally.errors + 1))
  }

  /** One file moves exactly the counter of its outcome; only a resized file
      is written, with the resized buffer, and no other file changes. */
  lemma StepEffects(s: RunState, file: string, sharp: Sharp, writable: string -> bool)
    ensures var r := Step(s, file, sharp, writable);
            && Total(r.tally) == Total(s.tally) + 1
            && s.tally.processed <= r.tally.processed && s.tally.skipped <= r.tally.skipped
            && s.tally.errors <= r.tally.errors
    ensures var r := Step(s, file, sharp, writable);
            var o := OutcomeOf(Contents(s.files, file), sharp, writable(file));
            && (o.Processed? ==>
                  r.tally.processed == s.tally.processed + 1 && file in r.files && r.files[file] == o.output)
            && (o.Skipped? ==> r.tally.skipped == s.tally.skipped + 1)
            && (o.Failed? ==> r.tally.errors == s.tally.errors + 1)
            && (!o.Processed? ==> r.files == s.files)
    ensures var r := Step(s, file, sharp, writable);
            && r.files.Keys == s.files.Keys
            && forall p :: p in s.files && p != file ==> r.files[p] == s.files[p]
  {
  }

  /** The batch, file after file. */
  function Run(s: RunState, files: seq<string>, sharp: Sharp, writable: string -> bool): RunState
    decreases |files|
  {
    if files == [] then s
    else Step(Run(s, files[..|files| - 1], sharp, writable), files[|files| - 1], sharp, writable)
  }

  /** Every file moves exactly one counter, and counters never go down. */
  lemma {:induction false} RunTally(s: RunState, files: seq<string>, sharp: Sharp, writable: string -> bool)
    ensures var r := Run(s, files, sharp, writable);
            && Total(r.tally) == Total(s.tally) + |files|
            && s.tally.processed <= r.tally.processed
            && s.tally.skipped <= r.tally.skipped
            && s.tally.errors <= r.tally.errors
    decreases |files|
  {
    if files != [] {
      RunTally(s, files[..|files| - 1], sharp, writable);
      StepEffects(Run(s, files[..|files| - 1], sharp, writable), files[|files| - 1], sharp, writable);
    }
  }

  /** Only files of the batch can change, and no file appears or disappears. */
  lemma {:induction false} RunLeavesOthers(s: RunState, files: seq<string>, sharp: Sharp, writable: string -> bool)
    ensures var r := Run(s, files, sharp, writable);
            && r.files.Keys == s.files.Keys
            && forall p :: p in s.files && p !in files ==> r.files[p] == s.files[p]
    decreases |files|
  {
    if files != [] {
      var init := files[..|files| - 1];
      RunLeavesOthers(s, init, sharp, writable);
      StepEffects(Run(s, init, sharp, writable), files[|files| - 1], sharp, writable);
      assert forall p :: p in init ==> p in files;
    }
  }

  /** Nothing is written when no file is over the limit. */
  lemma {:induction false} NothingOversizedWritesNothing(s: RunState, files: seq<string>, sharp: Sharp,
                                                        writable: string -> bool)
    requires forall p :: p in s.files ==> var m := sharp.metadataOf(s.files[p]);
             m.None? || !HasDimensions(m.value) || !Oversized(m.value)
    ensures Run(s, files, sharp, writable).files == s.files
    ensures Run(s, files, sharp, writable).tally.processed == s.tally.processed
    decreases |files|
  {
    if files != [] {
      NothingOversizedWritesNothing(s, files[..|files| - 1], sharp, writable);
      StepEffects(Run(s, files[..|files| - 1], sharp, writable), files[|files| - 1], sharp, writable);
    }
  }

  /** The file system the script writes to. */
  class Disk {
    var files: map<string, Bytes>

    constructor(files: map<string, Bytes>)
      ensures this.files == files
    {
      this.files := files;
    }
  }

  /** `optimizeImages` over the files the glob found, in order. */
  method OptimizeImages(disk: Disk, files: seq<string>, sharp: Sharp, writable: string -> bool)
    returns (tally: Tally)
    modifies disk
    ensures RunState(disk.files, tally) == Run(RunState(old(disk.files), Tally(0, 0, 0)), files, sharp, writable)
    ensures tally.processed + tally.skipped + tally.errors == |files|
    ensures disk.files.Keys == old(disk.files).Keys
    ensures forall p :: p in old(disk.files) && p !in files ==> disk.files[p] == old(disk.files)[p]
  {
    ghost var start := RunState(disk.files, Tally(0, 0, 0));
    var processedCount, skippedCount, errorCount := 0, 0, 0;
    for i := 0 to |files|
      invariant RunState(disk.files, Tally(processedCount, skippedCount, errorCount))
                == Run(start, files[..i], sharp, writable)
    {
      assert files[..i + 1][..i] == files[..i];
      var file := files[i];
      ghost var before := RunState(disk.files, Tally(processedCount, skippedCount, errorCount));
      ghost var outcome := OutcomeOf(Contents(disk.files, file), sharp, writable(file));
      assert Run(start, files[..i + 1], sharp, writable) == Step(before, file, sharp, writable);
      if file !in disk.files {
        assert outcome == Failed;
        errorCount := errorCount + 1;
        continue;
      }
      var metadata := sharp.metadataOf(disk.files[file]);
      if metadata.None? {
        assert outcome == Failed;
        errorCount := errorCount + 1;
        continue;
      }
      if !Known(metadata.value.width) || !Known(metadata.value.height) {
        assert outcome == Failed;
        errorCount := errorCount + 1;
        continue;
      }
      if metadata.value.width.value > MaxDimension || metadata.value.height.value > MaxDimension {
        var buffer := sharp.resize(disk.files[file], Bound);
        if buffer.None? || !writable(file) {
          assert outcome == Failed;
          errorCount := errorCount + 1;
          continue;
        }
        assert outcome == Processed(buffer.value);
        disk.files := disk.files[file := buffer.value];
        processedCount := processedCount + 1;
      } else {
        assert outcome == Skipped;
        skippedCount := skippedCount + 1;
      }
    }
    assert files[..|files|] == files;
    tally := Tally(processedCount, skippedCount, errorCount);
    RunTally(start, files, sharp, writable);
    RunLeavesOthers(start, files, sharp, writable);
  }
}
