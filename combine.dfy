/**
  * The combining script: reading the "Last Update" text from the first
  * lines of a downloaded report, tagging each parsed row with that text and
  * the file's path, and the loop of `main` that gathers the frames of the
  * files not yet processed, collapsing them into one frame every 50 entries.
  *
  * Downloads are not modelled: a file entry carries the text its download
  * URL returns. The CSV reader (`pd.read_csv(..., skiprows=5)`) is the
  * parameter `readCsv`, which gives `None` where it raises.
  */
module Combine {
  import opened Wrappers
  import opened Text
  import opened Timestamps

  /** Only this many leading lines are searched for the marker. */
  const HeaderLines: nat := 5
  /** `all_data` is collapsed once it holds this many frames. */
  const BatchSize: nat := 50

  /** A data-frame row: the parsed cells plus the added Timestamp and SourceFile columns. */
  datatype TaggedRow = TaggedRow(cells: seq<string>, timestamp: Option<string>, sourceFile: string)

  type Frame = seq<TaggedRow>

  /** An entry of the file listing: its name, its path and the text at its download URL. */
  datatype FileEntry = FileEntry(name: string, path: string, content: string)

  /** The text after the marker in the first of `lines` that holds it, stripped. */
  function LastUpdateOf(lines: seq<string>): Option<string> {
    if lines == [] then None
    else if Contains(lines[0], LastUpdateMarker) then
      Some(Strip(SplitAfter(lines[0], LastUpdateMarker).value))
    else
      LastUpdateOf(lines[1..])
  }

  /** There is a result exactly when some line holds the marker. */
  lemma {:induction false} LastUpdateOfSome(lines: seq<string>)
    ensures LastUpdateOf(lines).Some? <==> exists k :: 0 <= k < |lines| && Contains(lines[k], LastUpdateMarker)
  {
    if lines != [] && !Contains(lines[0], LastUpdateMarker) {
      LastUpdateOfSome(lines[1..]);
      assert forall k :: 1 <= k < |lines| ==> lines[k] == lines[1..][k - 1];
    }
  }

  /** What `extract_last_update` returns for a report's text. */
  function LastUpdate(content: string): Option<string> {
    LastUpdateOf(Take(SplitLines(content), HeaderLines))
  }

  /** `extract_last_update`: scan the first five lines, returning at the first marker. */
  method ExtractLastUpdate(content: string) returns (r: Option<string>)
    ensures r == LastUpdate(content)
  {
    var lines := Take(SplitLines(content), HeaderLines);
    var i := 0;
    while i < |lines|
      invariant 0 <= i <= |lines|
      invariant LastUpdateOf(lines[i..]) == LastUpdateOf(lines)
    {
      if Contains(lines[i], LastUpdateMarker) {
        return Some(Strip(SplitAfter(lines[i], LastUpdateMarker).value));
      }
      assert lines[i..][1..] == lines[i + 1..];
      i := i + 1;
    }
    return None;
  }

  /**
    * The first line holding the marker decides: when line `k` holds it and
    * no earlier line does, the result is the stripped text between the first
    * and the second marker of line `k`.
    */
  lemma {:induction false} LastUpdateOfFirst(lines: seq<string>, k: nat)
    requires k < |lines| && Contains(lines[k], LastUpdateMarker)
    requires forall j :: 0 <= j < k ==> !Contains(lines[j], LastUpdateMarker)
    ensures LastUpdateOf(lines) == Some(Strip(SplitAfter(lines[k], LastUpdateMarker).value))
  {
    if k > 0 {
      var rest := lines[1..];
      assert !Contains(lines[0], LastUpdateMarker);
      assert rest[k - 1] == lines[k];
      assert forall j :: 0 <= j < k - 1 ==> rest[j] == lines[j + 1];
      LastUpdateOfFirst(rest, k - 1);
    }
  }

  /**
    * Only the first five lines count: the result is `None` exactly when none
    * of them holds the marker, whatever the later lines hold.
    */
  lemma LastUpdateHeaderOnly(content: string)
    ensures var lines := SplitLines(content);
      LastUpdate(content).None? <==>
      forall k :: 0 <= k < |lines| && k < HeaderLines ==> !Contains(lines[k], LastUpdateMarker)
  {
    var lines := SplitLines(content);
    var head := Take(lines, HeaderLines);
    LastUpdateOfSome(head);
    if LastUpdate(content).Some? {
      var k :| 0 <= k < |head| && Contains(head[k], LastUpdateMarker);
      assert lines[k] == head[k];
    }
  }

  /** The text found in `lines` is stripped and never holds the marker itself. */
  lemma {:induction false} LastUpdateOfStripped(lines: seq<string>)
    requires LastUpdateOf(lines).Some?
    ensures var t := LastUpdateOf(lines).value;
      Strip(t) == t && !Contains(t, LastUpdateMarker)
  {
    if Contains(lines[0], LastUpdateMarker) {
      var piece := SplitAfter(lines[0], LastUpdateMarker).value;
      SplitAfterSpec(lines[0], LastUpdateMarker);
      StripIdempotent(piece);
      StripKeepsAbsence(piece, LastUpdateMarker);
    } else {
      LastUpdateOfStripped(lines[1..]);
    }
  }

  /** The returned text is stripped and never holds the marker itself. */
  lemma LastUpdateStripped(content: string)
    requires LastUpdate(content).Some?
    ensures var t := LastUpdate(content).value;
      Strip(t) == t && !Contains(t, LastUpdateMarker)
  {
    LastUpdateOfStripped(Take(SplitLines(content), HeaderLines));
  }

  /**
    * `process_csv` on a downloaded text: the parsed rows, each tagged with
    * the "Last Update" text (possibly `None`) and the path; `None` when the
    * CSV reader raises.
    */
  function ProcessCsv(content: string, path: string, readCsv: string -> Option<seq<seq<string>>>)
    : Option<Frame>
  {
    match readCsv(content)
    case None => None
    case Some(table) =>
      var ts := LastUpdate(content);
      Some(seq(|table|, k requires 0 <= k < |table| => TaggedRow(table[k], ts, path)))
  }

  /**
    * `process_csv` returns a frame exactly when the CSV reader does; its
    * rows are the reader's rows, in order, each with Timestamp set to the
    * "Last Update" text of the content and SourceFile set to the path.
    */
  lemma ProcessCsvTags(content: string, path: string, readCsv: string -> Option<seq<seq<string>>>)
    ensures ProcessCsv(content, path, readCsv).Some? <==> readCsv(content).Some?
    ensures ProcessCsv(content, path, readCsv).Some? ==>
      var df, table := ProcessCsv(content, path, readCsv).value, readCsv(content).value;
      |df| == |table| && forall k :: 0 <= k < |df| ==>
        df[k].cells == table[k] && df[k].timestamp == LastUpdate(content) && df[k].sourceFile == path
  {
  }

  /** `pd.concat(frames, ignore_index=True)`: the rows of all frames, in order. */
  function Flatten(frames: seq<Frame>): Frame {
    if frames == [] then [] else Flatten(frames[..|frames| - 1]) + frames[|frames| - 1]
  }

  lemma {:induction false} FlattenAppend(a: seq<Frame>, b: seq<Frame>)
    ensures Flatten(a + b) == Flatten(a) + Flatten(b)
    decreases |b|
  {
    if b == [] {
      assert a + b == a;
    } else {
      var b' := b[..|b| - 1];
      assert (a + b)[..|a + b| - 1] == a + b';
      FlattenAppend(a, b');
    }
  }

  /** The files whose name is not yet processed, in listing order: those handed to `process_csv`. */
  function Selected(files: seq<FileEntry>, processed: set<string>): seq<FileEntry> {
    if files == [] then []
    else
      var last := files[|files| - 1];
      Selected(files[..|files| - 1], processed) + (if last.name in processed then [] else [last])
  }

  /**
    * A file is handed to `process_csv` exactly when its name is not in the
    * processed set; the listing order is kept.
    */
  lemma {:induction false} SelectedSkipsProcessed(files: seq<FileEntry>, processed: set<string>)
    ensures forall f :: f in Selected(files, processed) <==> f in files && f.name !in processed
  {
    if files != [] {
      var init := files[..|files| - 1];
      SelectedSkipsProcessed(init, processed);
      assert files == init + [files[|files| - 1]];
    }
  }

  /** With nothing processed yet, as `main` starts, every listed file is handed over. */
  lemma {:induction false} SelectedAllWhenNoneProcessed(files: seq<FileEntry>)
    ensures Selected(files, {}) == files
  {
    if files != [] {
      SelectedAllWhenNoneProcessed(files[..|files| - 1]);
      assert files == files[..|files| - 1] + [files[|files| - 1]];
    }
  }

  /** The frames `process_csv` returns for the selected files, `None` results dropped. */
  function Produced(files: seq<FileEntry>, processed: set<string>,
                    readCsv: string -> Option<seq<seq<string>>>): seq<Frame>
  {
    if files == [] then []
    else
      var last := files[|files| - 1];
      var earlier := Produced(files[..|files| - 1], processed, readCsv);
      if last.name in processed then earlier
      else match ProcessCsv(last.content, last.path, readCsv)
        case None => earlier
        case Some(df) => earlier + [df]
  }

  /**
    * Every gathered row comes from a file whose name was not processed: its
    * SourceFile is that file's path and its Timestamp the "Last Update"
    * text of that file.
    */
  lemma {:induction false} ProducedRowsTagged(files: seq<FileEntry>, processed: set<string>,
                                              readCsv: string -> Option<seq<seq<string>>>)
    ensures forall row :: row in Flatten(Produced(files, processed, readCsv)) ==>
      exists f :: f in files && f.name !in processed
        && row.sourceFile == f.path && row.timestamp == LastUpdate(f.content)
  {
    if files != [] {
      var init := files[..|files| - 1];
      var last := files[|files| - 1];
      ProducedRowsTagged(init, processed, readCsv);
      var earlier := Produced(init, processed, readCsv);
      if last.name !in processed && ProcessCsv(last.content, last.path, readCsv).Some? {
        var df := ProcessCsv(last.content, last.path, readCsv).value;
        ProcessCsvTags(last.content, last.path, readCsv);
        FlattenAppend(earlier, [df]);
        FlattenSingle(df);
        forall row | row in df
          ensures row.sourceFile == last.path && row.timestamp == LastUpdate(last.content)
        {
          var k :| 0 <= k < |df| && df[k] == row;
        }
      }
      forall f | f in init ensures f in files {
        var k :| 0 <= k < |init| && init[k] == f;
        assert files[k] == f;
      }
    }
  }

  function Paths(files: seq<FileEntry>): (r: seq<string>)
    ensures |r| == |files| && forall k :: 0 <= k < |files| ==> r[k] == files[k].path
  {
    if files == [] then [] else Paths(files[..|files| - 1]) + [files[|files| - 1].path]
  }

  /** How many entries `all_data` holds after `k` frames were appended. */
  function BatchLength(k: nat): nat {
    if k == 0 then 0 else (k - 1) % (BatchSize - 1) + 1
  }

  /** How many intermediate writes happened after `k` frames were appended. */
  function BatchWrites(k: nat): nat {
    if k == 0 then 0 else (k - 1) / (BatchSize - 1)
  }

  /** The frame count at which the `j`-th intermediate write happens. */
  function WriteAt(j: nat): nat {
    (BatchSize - 1) * j + BatchSize
  }

  /**
    * Each collapse turns 50 entries into one, so `k` frames are `w` collapses
    * of 49 plus the `n` entries left; with `1 <= n < 50` that pins down `n`
    * and `w` as the closed forms.
    */
  lemma BatchClosedForm(k: nat, w: nat, n: nat)
    requires k == (BatchSize - 1) * w + n
    requires k == 0 ==> n == 0
    requires k > 0 ==> 1 <= n < BatchSize
    ensures n == BatchLength(k) && w == BatchWrites(k)
  {
  }

  /** The `j`-th intermediate write holds the first `WriteAt(j)` frames. */
  ghost predicate WritesMatch(writes: seq<Frame>, produced: seq<Frame>) {
    forall j :: 0 <= j < |writes| ==> WriteAt(j) <= |produced| && writes[j] == Flatten(produced[..WriteAt(j)])
  }

  /**
    * The state of `main`'s loop after the frames `produced` were appended:
    * no row lost or reordered, the frame count split into collapses and
    * remaining entries, the flag set once a frame arrived, and the
    * intermediate writes as `WritesMatch` says.
    */
  ghost predicate Accumulated(allData: seq<Frame>, newFilesFound: bool, writes: seq<Frame>, produced: seq<Frame>) {
    Flatten(allData) == Flatten(produced)
    && |produced| == (BatchSize - 1) * |writes| + |allData|
    && (produced == [] ==> allData == []) && (produced != [] ==> 1 <= |allData| < BatchSize)
    && (newFilesFound <==> produced != [])
    && WritesMatch(writes, produced)
  }

  lemma FlattenSingle(df: Frame)
    ensures Flatten([df]) == df
  {
    assert [df][..0] == [];
  }

  lemma WritesMatchExtend(writes: seq<Frame>, produced: seq<Frame>, df: Frame)
    requires WritesMatch(writes, produced)
    ensures WritesMatch(writes, produced + [df])
  {
    var after := produced + [df];
    forall j | 0 <= j < |writes| ensures WriteAt(j) <= |after| && writes[j] == Flatten(after[..WriteAt(j)]) {
      assert after[..WriteAt(j)] == produced[..WriteAt(j)];
    }
  }

  lemma WritesMatchAppend(writes: seq<Frame>, produced: seq<Frame>)
    requires WritesMatch(writes, produced)
    requires |produced| == WriteAt(|writes|)
    ensures WritesMatch(writes + [Flatten(produced)], produced)
  {
    assert produced[..WriteAt(|writes|)] == produced;
  }

  /** Appending a frame, and collapsing when the list reaches 50 entries, keeps the state. */
  lemma AccumulateFrame(allData: seq<Frame>, newFilesFound: bool, writes: seq<Frame>, produced: seq<Frame>, df: Frame)
    requires Accumulated(allData, newFilesFound, writes, produced)
    ensures |allData| + 1 < BatchSize ==> Accumulated(allData + [df], true, writes, produced + [df])
    ensures |allData| + 1 >= BatchSize ==>
      var combined := Flatten(allData + [df]);
      Accumulated([combined], true, writes + [combined], produced + [df])
  {
    FlattenAppend(allData, [df]);
    FlattenAppend(produced, [df]);
    FlattenSingle(df);
    WritesMatchExtend(writes, produced, df);
    if |allData| + 1 >= BatchSize {
      var combined := Flatten(allData + [df]);
      WritesMatchAppend(writes, produced + [df]);
      FlattenSingle(combined);
    }
  }

  /** One more listed file: how `Produced` and the fetched paths grow. */
  lemma ProducedStep(files: seq<FileEntry>, i: nat, processed: set<string>,
                     readCsv: string -> Option<seq<seq<string>>>)
    requires i < |files|
    ensures var file, prev := files[i], Produced(files[..i], processed, readCsv);
      Produced(files[..i + 1], processed, readCsv)
        == if file.name in processed then prev
           else match ProcessCsv(file.content, file.path, readCsv)
             case None => prev
             case Some(df) => prev + [df]
    ensures Paths(Selected(files[..i + 1], processed))
      == Paths(Selected(files[..i], processed)) + (if files[i].name in processed then [] else [files[i].path])
  {
    assert files[..i + 1][..i] == files[..i];
    var sel := Selected(files[..i], processed);
    if files[i].name !in processed {
      assert Paths(sel + [files[i]])[..|sel|] == Paths(sel);
    }
  }

  /** What the loop state says once every file was visited. */
  lemma AccumulatedResult(allData: seq<Frame>, newFilesFound: bool, writes: seq<Frame>, produced: seq<Frame>)
    requires Accumulated(allData, newFilesFound, writes, produced)
    ensures |allData| == BatchLength(|produced|) && |allData| < BatchSize
    ensures |writes| == BatchWrites(|produced|)
  {
    BatchClosedForm(|produced|, |writes|, |allData|);
  }

  /**
    * The loop of `main` over the listed files. It returns `all_data`, the
    * flag `new_files_found`, the paths passed to `process_csv` and the
    * frames written to the output file by the intermediate batch writes.
    */
  method CombineBatches(files: seq<FileEntry>, processed: set<string>,
                        readCsv: string -> Option<seq<seq<string>>>)
    returns (allData: seq<Frame>, newFilesFound: bool, fetched: seq<string>, writes: seq<Frame>)
    ensures var produced := Produced(files, processed, readCsv);
      Flatten(allData) == Flatten(produced)
      && |allData| == BatchLength(|produced|) && |allData| < BatchSize
      && (newFilesFound <==> produced != [])
      && |writes| == BatchWrites(|produced|)
      && forall j :: 0 <= j < |writes| ==> writes[j] == Flatten(produced[..WriteAt(j)])
    ensures fetched == Paths(Selected(files, processed))
  {
    allData, newFilesFound, fetched, writes := [], false, [], [];
    ghost var produced: seq<Frame> := [];
    var i := 0;
    while i < |files|
      invariant 0 <= i <= |files|
      invariant produced == Produced(files[..i], processed, readCsv)
      invariant Accumulated(allData, newFilesFound, writes, produced)
      invariant fetched == Paths(Selected(files[..i], processed))
    {
      var file := files[i];
      ProducedStep(files, i, processed, readCsv);
      if file.name !in processed {
        fetched := fetched + [file.path];
        var df := ProcessCsv(file.content, file.path, readCsv);
        if df.Some? {
          AccumulateFrame(allData, newFilesFound, writes, produced, df.value);
          produced := produced + [df.value];
          allData := allData + [df.value];
          newFilesFound := true;
          if |allData| >= BatchSize {
            var combined := Flatten(allData);
            writes := writes + [combined];
            allData := [combined];
          }
        }
      }
      i := i + 1;
    }
    assert files[..i] == files;
    AccumulatedResult(allData, newFilesFound, writes, produced);
  }

  /** `whole` starts with `part`. */
  predicate IsPrefix(part: Frame, whole: Frame) {
    |part| <= |whole| && whole[..|part|] == part
  }

  lemma FlattenPrefix(frames: seq<Frame>, n: nat)
    requires n <= |frames|
    ensures IsPrefix(Flatten(frames[..n]), Flatten(frames))
  {
    assert frames == frames[..n] + frames[n..];
    FlattenAppend(frames[..n], frames[n..]);
  }

  /**
    * `main` from the empty processed set to the final write: the frames
    * written to the output file, in order. Without a produced frame nothing
    * is written; otherwise the last write holds every produced row, in order,
    * and each earlier write is a prefix of it.
    */
  method RunCombine(files: seq<FileEntry>, readCsv: string -> Option<seq<seq<string>>>)
    returns (output: seq<Frame>)
    ensures var produced := Produced(files, {}, readCsv);
      (produced == [] <==> output == [])
      && (produced != [] ==> output[|output| - 1] == Flatten(produced))
      && forall j :: 0 <= j < |output| ==> IsPrefix(output[j], Flatten(produced))
  {
    var processed: set<string> := {};
    var allData, newFilesFound, fetched, writes := CombineBatches(files, processed, readCsv);
    ghost var produced := Produced(files, processed, readCsv);
    forall j | 0 <= j < |writes| ensures IsPrefix(writes[j], Flatten(produced)) {
      FlattenPrefix(produced, WriteAt(j));
    }
    if !newFilesFound {
      return writes;
    }
    var finalFrame := Flatten(allData);
    output := writes + [finalFrame];
  }
}
