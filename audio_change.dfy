/** audio_change.py: the record of one editing session (the `data` dict
    the app keeps in its state), the step that puts the generated audio
    on the chosen clip, and the choice of files for the archive. The
    diffusion model, `ffprobe`, `uuid4()` and the zip writer are not
    modelled; their results are parameters. */
module AudioChange {
  import opened Wrappers
  import opened PyBuiltins
  import opened AudioUtils

  /** One entry of `data['clips']`. */
  datatype Clip = Clip(original: string, edited: Option<string>)

  /** `data['additional']`. */
  datatype Additional = Additional(guidanceScale: real, numInferenceSteps: int)

  /** Why `riffusuion_inference` raises. */
  datatype InferenceError =
    | ClipIndexError                   // `data['clips'][chosen_clip - 1]` is out of range
    | ReplaceFailed(message: string)   // `replace_audio` raised RuntimeError

  /** `bool(clip['edited'])`: an edited path that is neither None nor empty. */
  predicate IsEdited(c: Clip)
  {
    c.edited.Some? && |c.edited.value| > 0
  }

  /** `clip['edited'] or clip['original']`. */
  function ShownPath(c: Clip): (r: string)
    ensures r == c.original || (c.edited == Some(r) && |r| > 0)
    ensures |r| == 0 ==> r == c.original
    ensures c.edited.None? ==> r == c.original
    ensures IsEdited(c) ==> r == c.edited.value
    ensures !IsEdited(c) ==> r == c.original
  {
    if IsEdited(c) then c.edited.value else c.original
  }

  /** `[{'original': path, 'edited': None} for path in paths]`. */
  function FreshClips(paths: seq<string>): (r: seq<Clip>)
    ensures Originals(r) == paths
    ensures forall i :: 0 <= i < |r| ==> !IsEdited(r[i])
    ensures forall i :: 0 <= i < |r| ==> r[i].edited.None?
  {
    MapSeq(p => Clip(p, None), paths)
  }

  /** `[clip['original'] for clip in data['clips']]`. */
  function Originals(clips: seq<Clip>): (r: seq<string>)
    ensures |r| == |clips|
    ensures forall i :: 0 <= i < |clips| ==> r[i] == clips[i].original
  {
    seq(|clips|, i requires 0 <= i < |clips| => clips[i].original)
  }

  /** The list `create_archive` passes to `to_archive`. */
  function ArchivePaths(clips: seq<Clip>): (r: seq<string>)
    ensures |r| == |clips|
    ensures forall i :: 0 <= i < |clips| ==> r[i] == clips[i].original || (clips[i].edited == Some(r[i]) && |r[i]| > 0)
    ensures (forall i :: 0 <= i < |clips| ==> !IsEdited(clips[i])) ==> r == Originals(clips)
    ensures forall i :: 0 <= i < |clips| ==>
      (IsEdited(clips[i]) ==> r[i] == clips[i].edited.value) && (!IsEdited(clips[i]) ==> r[i] == clips[i].original)
  {
    MapSeq(ShownPath, clips)
  }

  /** Clip `k` after its new audio has been put on it. */
  function WithEdited(clips: seq<Clip>, k: nat, edited: string): (r: seq<Clip>)
    requires k < |clips|
    ensures |r| == |clips|
    ensures forall i :: 0 <= i < |clips| && i != k ==> r[i] == clips[i]
    ensures r[k].original == clips[k].original && r[k].edited == Some(edited)
  {
    clips[k := Clip(clips[k].original, Some(edited))]
  }

  /** A freshly split session archives exactly the split files, in order. */
  lemma FreshArchive(paths: seq<string>)
    ensures ArchivePaths(FreshClips(paths)) == paths
  {
  }

  /** Editing clip `k` with a non-empty path changes only entry `k` of the
      archive list, to the new path. */
  lemma ArchiveAfterEdit(clips: seq<Clip>, k: nat, edited: string)
    requires k < |clips| && |edited| > 0
    ensures ArchivePaths(WithEdited(clips, k, edited)) == ArchivePaths(clips)[k := edited]
  {
  }

  /** The archive list of a concatenation is the concatenation of the
      archive lists. */
  lemma ArchivePathsAppend(a: seq<Clip>, b: seq<Clip>)
    ensures ArchivePaths(a + b) == ArchivePaths(a) + ArchivePaths(b)
  {
  }

  /** What `riffusuion_inference` does to the clips once the audio has
      been generated: `replace_audio` runs `ffmpeg` on the chosen clip's
      original, which exits with `returnCode`, and the chosen clip's
      `edited` becomes the new file. The chosen clip is read at
      `chosen_clip - 1`, so a chosen clip of 0 wraps round to the last
      clip and one beyond the clips raises IndexError. */
  function EditChosen(clips: seq<Clip>, chosenClip: int, returnCode: int, dir: string, uuidName: string)
    : (r: Result<(seq<Clip>, string), InferenceError>)
    ensures PyIndex(chosenClip - 1, |clips|).None? ==> r == Failure(ClipIndexError)
    ensures PyIndex(chosenClip - 1, |clips|).Some? ==> (r.Success? <==> returnCode == 0)
    ensures PyIndex(chosenClip - 1, |clips|).Some? && returnCode != 0 ==> r == Failure(ReplaceFailed(ReplaceFailedMessage))
    ensures r.Success? ==>
      var k := PyIndex(chosenClip - 1, |clips|).value;
      && r.value.0 == WithEdited(clips, k, r.value.1)
      && r.value.1 == ReplaceAudio(returnCode, clips[k].original, dir, uuidName).value
  {
    match PyIndex(chosenClip - 1, |clips|)
    case None => Failure(ClipIndexError)
    case Some(k) =>
      match ReplaceAudio(returnCode, clips[k].original, dir, uuidName)
      case Failure(message) => Failure(ReplaceFailed(message))
      case Success(path) => Success((WithEdited(clips, k, path), path))
  }

  /** Clip 1 to |clips| is clip `chosenClip - 1`; 0 is the last clip. */
  lemma ChosenPosition(clips: seq<Clip>, chosenClip: int)
    requires |clips| > 0 && 0 <= chosenClip <= |clips|
    ensures PyIndex(chosenClip - 1, |clips|) == Some(if chosenClip == 0 then |clips| - 1 else chosenClip - 1)
  {
  }

  /** The `data` dict of one session. The methods update it in place, as
      the source does. */
  class ClipSession {
    var videoPath: string
    var numClips: int
    var chosenClip: int
    var prompt: string
    var additional: Additional
    var archive: Option<string>
    var clips: seq<Clip>

    /** `split(...)` when the clip paths are known: one unedited clip per
        path, in order, and no archive yet. */
    constructor Split(videoPath: string, numClips: int, chosenClip: int, prompt: string,
                      additional: Additional, paths: seq<string>)
      ensures this.videoPath == videoPath && this.numClips == numClips && this.chosenClip == chosenClip
      ensures this.prompt == prompt && this.additional == additional
      ensures archive.None?
      ensures |clips| == |paths|
      ensures forall i :: 0 <= i < |paths| ==> clips[i] == Clip(paths[i], None)
    {
      this.videoPath := videoPath;
      this.numClips := numClips;
      this.chosenClip := chosenClip;
      this.prompt := prompt;
      this.additional := additional;
      this.archive := None;
      this.clips := FreshClips(paths);
    }

    /** `riffusuion_inference(data)` after the audio has been generated:
        the record's clips become those `EditChosen` gives, and the new
        file's path is returned; on an error nothing changes. Only `clips`
        is ever written. */
    method RiffusionInference(returnCode: int, dir: string, uuidName: string)
      returns (r: Result<string, InferenceError>)
      modifies this`clips
      ensures var e := EditChosen(old(clips), chosenClip, returnCode, dir, uuidName);
        && (e.Success? ==> r == Success(e.value.1) && clips == e.value.0)
        && (e.Failure? ==> r == Failure(e.error) && clips == old(clips))
    {
      var edit := EditChosen(clips, chosenClip, returnCode, dir, uuidName);
      if edit.Failure? {
        return Failure(edit.error);
      }
      clips := edit.value.0;
      return Success(edit.value.1);
    }

    /** `create_archive(data)`: the archive goes to `uuidName + '.zip'` in
        `dir` and holds, for each clip in order, its edited file if it has
        one and its original otherwise. The record is left as it is. */
    method CreateArchive(dir: string, uuidName: string) returns (archivePath: string, files: seq<string>)
      ensures archivePath == PathJoin(dir, uuidName + ".zip")
      ensures |files| == |clips|
      ensures forall i :: 0 <= i < |clips| ==>
        (IsEdited(clips[i]) ==> files[i] == clips[i].edited.value) && (!IsEdited(clips[i]) ==> files[i] == clips[i].original)
    {
      archivePath := PathJoin(dir, uuidName + ".zip");
      files := ArchivePaths(clips);
    }
  }
}
