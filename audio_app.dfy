/** app.py of the audio-replacement app: the checks on the two number
    inputs and the warning they produce, which buttons and notices are
    shown, the reuse of an earlier split, the cached archive download and
    the grid of clip players. Gradio's components and events are not
    modelled; each handler is a function or method on the values it gets. */
module AudioApp {
  import opened Wrappers
  import opened PyBuiltins
  import opened Decimal
  import opened AudioUtils
  import opened AudioChange

  /** The warning text with nothing to warn about. */
  const InitialCaution: string := "# !!!"

  /** The three warnings `caution` can append. */
  const PartsMessage: string := "\n ### Number of parts should be only integer greater or equal 1."
  const ChosenIntegerMessage: string := "\n ### Number of chosen clip should be integer."

  function ChosenRangeMessage(numClips: nat): string
  {
    "\n ### Chosen clip should be less or equal " + NatToString(numClips)
  }

  /** A value of a `gr.Number` input: a Python `int` or `float`. */
  datatype Number = IntNumber(i: int) | FloatNumber(x: real)

  function Value(n: Number): real
  {
    if n.IntNumber? then n.i as real else n.x
  }

  /** The inputs `caution` does not warn about: a whole number of parts of
      at least 1, and a whole chosen clip from 1 to that number. */
  predicate Accepted(numClips: Number, chosenClip: Number)
  {
    numClips.IntNumber? && numClips.i >= 1 && chosenClip.IntNumber? && 1 <= chosenClip.i <= numClips.i
  }

  /** `caution(num_clips, chosen_clip)`: the warning text and whether it is
      shown. The first failing check, in the order parts, range, integer
      chosen clip, appends its message; the warning is shown exactly when
      something was appended, which is exactly when the inputs are not
      accepted. */
  method Caution(numClips: Number, chosenClip: Number) returns (text: string, visible: bool)
    ensures !(numClips.IntNumber? && numClips.i >= 1) ==> text == InitialCaution + PartsMessage
    ensures numClips.IntNumber? && numClips.i >= 1 && !(1.0 <= Value(chosenClip) <= numClips.i as real) ==>
      text == InitialCaution + ChosenRangeMessage(numClips.i)
    ensures (numClips.IntNumber? && numClips.i >= 1 && 1.0 <= Value(chosenClip) <= numClips.i as real
             && chosenClip.FloatNumber?) ==> text == InitialCaution + ChosenIntegerMessage
    ensures text == InitialCaution <==> Accepted(numClips, chosenClip)
    ensures visible <==> !Accepted(numClips, chosenClip)
  {
    var initialLength := |InitialCaution|;
    text := InitialCaution;
    if !numClips.IntNumber? || numClips.i < 1 {
      text := text + PartsMessage;
    } else if Value(chosenClip) < 1.0 || (numClips.i as real) < Value(chosenClip) {
      text := text + ChosenRangeMessage(numClips.i);
    } else if !chosenClip.IntNumber? {
      text := text + ChosenIntegerMessage;
    }
    visible := initialLength < |text|;
  }

  /** `generate_comp_visibility`: the generate button is shown when a
      video is loaded and the warning holds nothing beyond its heading. */
  function GenerateVisible(videoPath: Option<string>, warning: string): (r: bool)
    ensures r <==> videoPath.Some? && warning == InitialCaution
    ensures r ==> videoPath.Some?
    ensures |warning| > |InitialCaution| ==> !r
    ensures videoPath.Some? && warning == InitialCaution ==> r
  {
    videoPath.Some? && warning == InitialCaution
  }

  /** Any appended warning hides the generate button. */
  lemma GenerateHiddenByWarning(videoPath: Option<string>, message: string)
    requires |message| > 0
    ensures !GenerateVisible(videoPath, InitialCaution + message)
  {
    assert |InitialCaution + message| > |InitialCaution|;
  }

  /** The two handlers as the page wires them: the warning `caution`
      produces feeds `generate_comp_visibility`, so the button is shown
      exactly when a video is loaded and the inputs are accepted. */
  method GenerateAfterCaution(videoPath: Option<string>, numClips: Number, chosenClip: Number)
    returns (visible: bool)
    ensures visible <==> videoPath.Some? && Accepted(numClips, chosenClip)
  {
    var warning, _ := Caution(numClips, chosenClip);
    visible := GenerateVisible(videoPath, warning);
  }

  /** The condition in `split_video`: the earlier clips' originals are
      reused when there is an earlier session for the same video and the
      same number of clips; `None` makes `split` cut the video again. */
  function ReusedPaths(videoPath: string, numClips: int, data: ClipSession?): (r: Option<seq<string>>)
    reads data
    ensures r.Some? <==> data != null && data.videoPath == videoPath && data.numClips == numClips
    ensures r.Some? ==> r.value == Originals(data.clips)
  {
    if data != null && videoPath == data.videoPath && numClips == data.numClips then Some(Originals(data.clips))
    else None
  }

  /** `split_video`: a new session, on the earlier clips' originals when
      they can be reused and otherwise on the files a new `ffmpeg` split
      leaves in `dir` (it exits with `returnCode`, and `listing` is the
      directory afterwards). Either way every clip starts unedited. */
  method SplitVideo(videoPath: string, numClips: int, chosenClip: int, prompt: string,
                    guidanceScale: real, numInferenceSteps: int, data: ClipSession?,
                    returnCode: int, dir: string, uniqueName: string, listing: seq<string>)
    returns (r: Result<ClipSession, string>)
    ensures ReusedPaths(videoPath, numClips, data).Some? ==> r.Success? && Originals(r.value.clips) == Originals(data.clips)
    ensures ReusedPaths(videoPath, numClips, data).None? ==>
      (&& (r.Success? <==> returnCode == 0)
       && (r.Success? ==> Originals(r.value.clips) == GetAllPaths(uniqueName, dir, listing)))
    ensures r.Success? ==>
      (&& fresh(r.value)
       && r.value.videoPath == videoPath && r.value.numClips == numClips && r.value.chosenClip == chosenClip
       && r.value.prompt == prompt && r.value.additional == Additional(guidanceScale, numInferenceSteps)
       && r.value.archive.None? && forall i :: 0 <= i < |r.value.clips| ==> r.value.clips[i].edited.None?)
  {
    var paths := ReusedPaths(videoPath, numClips, data);
    var additional := Additional(guidanceScale, numInferenceSteps);
    if paths.None? {
      var split := SplitOnParts(returnCode, dir, uniqueName, listing);
      if split.Failure? {
        return Failure(split.error);
      }
      paths := Some(split.value);
    }
    var session := new ClipSession.Split(videoPath, numClips, chosenClip, prompt, additional, paths.value);
    return Success(session);
  }

  /** `download_archive(data)`: the archive recorded in the session if
      there is one, otherwise a new one (named `uuidName + '.zip'` in
      `dir`, holding `written`) that is then recorded. Only `archive`
      changes. */
  method DownloadArchive(data: ClipSession, dir: string, uuidName: string)
    returns (archive: string, written: Option<seq<string>>)
    modifies data`archive
    ensures old(data.archive).Some? ==> archive == old(data.archive).value && written.None?
    ensures old(data.archive).None? ==>
      archive == PathJoin(dir, uuidName + ".zip") && written == Some(ArchivePaths(data.clips))
    ensures data.archive == Some(archive)
  {
    if data.archive.Some? {
      archive := data.archive.value;
      written := None;
    } else {
      var files;
      archive, files := data.CreateArchive(dir, uuidName);
      assert files == ArchivePaths(data.clips);
      written := Some(files);
    }
    data.archive := Some(archive);
  }

  /** Two downloads in a row give the same archive, and the second writes
      nothing. */
  method DownloadTwice(data: ClipSession, dir: string, firstName: string, secondName: string)
    returns (first: string, second: string, written: Option<seq<string>>)
    modifies data`archive
    ensures first == second && written.None?
  {
    var created;
    first, created := DownloadArchive(data, dir, firstName);
    second, written := DownloadArchive(data, dir, secondName);
  }

  /** `download_visibility(data)`: shown exactly when there is a session. */
  function DownloadVisible(data: ClipSession?): (r: bool)
    ensures r <==> data != null
  {
    data != null
  }

  /** `any(clip['edited'] for clip in data['clips'])`. */
  predicate AnyEdited(clips: seq<Clip>)
  {
    |clips| > 0 && (IsEdited(clips[0]) || AnyEdited(clips[1..]))
  }

  /** The rule at app.py:153: the processing notice is shown exactly while
      no clip has an edited file. */
  function ProcessingNoticeVisible(clips: seq<Clip>): (r: bool)
    ensures r <==> forall i :: 0 <= i < |clips| ==> !IsEdited(clips[i])
  {
    NoneEdited(clips);
    !AnyEdited(clips)
  }

  lemma {:induction false} NoneEdited(clips: seq<Clip>)
    ensures !AnyEdited(clips) <==> forall i :: 0 <= i < |clips| ==> !IsEdited(clips[i])
  {
    if |clips| > 0 {
      NoneEdited(clips[1..]);
      assert forall i :: 1 <= i < |clips| ==> clips[i] == clips[1..][i - 1];
    }
  }

  /** A new split shows the notice; putting a non-empty edited path on any
      clip hides it. */
  lemma NoticeFollowsEdits(paths: seq<string>, clips: seq<Clip>, k: nat, edited: string)
    requires k < |clips| && |edited| > 0
    ensures ProcessingNoticeVisible(FreshClips(paths))
    ensures !ProcessingNoticeVisible(WithEdited(clips, k, edited))
  {
    assert IsEdited(WithEdited(clips, k, edited)[k]);
  }

  /** Rows made of the shown paths of groups of clips concatenate to the
      shown paths of the concatenated groups. */
  lemma {:induction false} ConcatRows(groups: seq<seq<Clip>>, rows: seq<seq<string>>)
    requires |rows| == |groups|
    requires forall k :: 0 <= k < |rows| ==> rows[k] == ArchivePaths(groups[k])
    ensures Concat(rows) == ArchivePaths(Concat(groups))
  {
    var n := |rows|;
    if n > 0 {
      ConcatRows(groups[..n - 1], rows[..n - 1]);
      ArchivePathsAppend(Concat(groups[..n - 1]), groups[n - 1]);
    }
  }

  /** Rows of `width` shown paths cover the shown paths of a prefix of the
      clips, in order. */
  lemma RowsCover(clips: seq<Clip>, count: nat, width: nat, rows: seq<seq<string>>)
    requires |rows| == count
    requires forall k :: 0 <= k < count ==> rows[k] == ArchivePaths(Slice(clips, k * width, k * width + width))
    ensures Concat(rows) == ArchivePaths(clips[..Min(count * width, |clips|)])
  {
    var groups := Chunks(clips, count, width);
    ConcatRows(groups, rows);
    ConcatChunks(clips, count, width);
  }

  /** The inner loop of `update_clips`: one player per clip of the row,
      showing `clip['edited'] or clip['original']`. */
  method RowPlayers(row: seq<Clip>) returns (players: seq<string>)
    ensures players == ArchivePaths(row)
  {
    players := [];
    for j := 0 to |row|
      invariant players == ArchivePaths(row[..j])
    {
      assert row[..j + 1] == row[..j] + [row[j]];
      players := players + [ShownPath(row[j])];
    }
    assert row[..|row|] == row;
  }

  /** `update_clips(data, num_columns)`: for each start in
      `range(0, num_clips, num_columns)`, a row with a player for each
      clip of `clips[start : start + num_columns]`, showing its edited file
      if it has one and its original otherwise. Read row after row, the
      players show the clips in order; when the session holds `num_clips`
      clips, each clip appears exactly once. */
  method UpdateClips(data: ClipSession?, numColumns: int) returns (rows: seq<seq<string>>)
    requires numColumns >= 1
    ensures data == null ==> rows == []
    ensures data != null ==>
      (&& |rows| == |Range(0, data.numClips, numColumns)|
       && (forall k :: 0 <= k < |rows| ==> |rows[k]| <= numColumns)
       && (forall k :: 0 <= k < |rows| ==>
             rows[k] == ArchivePaths(Slice(data.clips, k * numColumns, k * numColumns + numColumns)))
       && Concat(rows) == ArchivePaths(data.clips[..Min(|rows| * numColumns, |data.clips|)]))
    ensures data != null && 0 <= data.numClips == |data.clips| ==> Concat(rows) == ArchivePaths(data.clips)
  {
    rows := [];
    if data == null {
      return;
    }
    var clips := data.clips;
    var starts := Range(0, data.numClips, numColumns);
    for i := 0 to |starts|
      invariant |rows| == i
      invariant forall k :: 0 <= k < i ==> rows[k] == ArchivePaths(Slice(clips, k * numColumns, k * numColumns + numColumns))
    {
      var row := Slice(clips, starts[i], starts[i] + numColumns);
      assert starts[i] == i * numColumns;
      var players := RowPlayers(row);
      rows := rows + [players];
    }
    RowsCover(clips, |rows|, numColumns, rows);
    assert 0 + |starts| * numColumns >= data.numClips;
  }
}
