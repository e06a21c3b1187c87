/** utils.py of the audio-replacement app, without its subprocesses: path
    joining, the sorted filtered directory listing `get_all_paths`, the
    extension slice, the segment name template and the return-code checks
    after `ffmpeg` runs. The directory listing and the return codes are
    parameters; `uuid4()` names are parameters too. */
module AudioUtils {
  import opened Wrappers
  import opened PyBuiltins
  import opened Strings
  import opened Decimal

  /** The RuntimeError messages raised when `ffmpeg` fails. */
  const SplitFailedMessage: string := "Something went wrong during spliting video on parts."
  const ReplaceFailedMessage: string := "Something went wrong during replacing the audio on the video."

  /** `os.path.join(dir, name)` on POSIX: an absolute `name` replaces
      `dir`, otherwise a '/' is put between them unless `dir` is empty or
      already ends in one. */
  function PathJoin(dir: string, name: string): (r: string)
    ensures IsSuffix(name, r)
    ensures |name| > 0 && name[0] == '/' ==> r == name
    ensures !(|name| > 0 && name[0] == '/') ==> IsPrefix(dir, r) && |r| <= |dir| + 1 + |name|
    ensures !(|name| > 0 && name[0] == '/') ==>
      r == (if |dir| == 0 || dir[|dir| - 1] == '/' then dir + name else dir + "/" + name)
  {
    if |name| > 0 && name[0] == '/' then name
    else if |dir| == 0 || dir[|dir| - 1] == '/' then
      assert (dir + name)[|dir|..] == name;
      dir + name
    else
      assert (dir + "/" + name)[|dir| + 1..] == name;
      dir + "/" + name
  }

  /** A joined path contains everything its last component contains. */
  lemma JoinedPathContains(dir: string, name: string, part: string)
    requires Contains(name, part)
    ensures Contains(PathJoin(dir, name), part)
  {
    var r := PathJoin(dir, name);
    var front := r[..|r| - |name|];
    assert r == front + name;
    ContainsIffOccurs(name, part);
    var i :| OccursAt(name, part, i);
    assert OccursAt(r, part, |front| + i) by {
      assert r[|front| + i..|front| + i + |part|] == name[i..i + |part|];
    }
    ContainsIffOccurs(r, part);
  }

  /** The names of a listing that contain `uniqueName`, in listing order. */
  function Matching(listing: seq<string>, uniqueName: string): (r: seq<string>)
    ensures |r| <= |listing|
    ensures forall x :: x in r <==> x in listing && Contains(x, uniqueName)
    ensures forall x :: multiset(r)[x] == (if Contains(x, uniqueName) then multiset(listing)[x] else 0)
  {
    if listing == [] then []
    else
      assert listing == [listing[0]] + listing[1..];
      (if Contains(listing[0], uniqueName) then [listing[0]] else []) + Matching(listing[1..], uniqueName)
  }

  /** `os.path.join(dir, name)` for each name, in order. */
  function JoinAll(dir: string, names: seq<string>): (r: seq<string>)
    ensures |r| == |names|
    ensures forall i :: 0 <= i < |names| ==> r[i] == PathJoin(dir, names[i])
  {
    seq(|names|, i requires 0 <= i < |names| => PathJoin(dir, names[i]))
  }

  /** `get_all_paths(unique_name, dir)` for a directory whose listing is
      `listing`: the matching names joined to `dir`, sorted. */
  function GetAllPaths(uniqueName: string, dir: string, listing: seq<string>): (r: seq<string>)
    ensures SortedStrings(r)
    ensures multiset(r) == multiset(JoinAll(dir, Matching(listing, uniqueName)))
    ensures |r| <= |listing|
  {
    var joined := JoinAll(dir, Matching(listing, uniqueName));
    assert |multiset(SortStrings(joined))| == |multiset(joined)|;
    SortStrings(joined)
  }

  /** Sorting keeps the same members. */
  lemma SortedMembers(xs: seq<string>, p: string)
    ensures p in SortStrings(xs) <==> p in xs
  {
    assert p in SortStrings(xs) <==> p in multiset(SortStrings(xs));
    assert p in xs <==> p in multiset(xs);
  }

  /** The joined paths are the paths of the given names. */
  lemma JoinedMembers(dir: string, names: seq<string>, p: string)
    ensures p in JoinAll(dir, names) <==> exists name :: name in names && p == PathJoin(dir, name)
  {
    var joined := JoinAll(dir, names);
    if exists name :: name in names && p == PathJoin(dir, name) {
      var name :| name in names && p == PathJoin(dir, name);
      var i :| 0 <= i < |names| && names[i] == name;
      assert joined[i] == p;
    }
  }

  /** `get_all_paths` keeps exactly the listed names containing
      `uniqueName`, each joined to `dir`. */
  lemma GetAllPathsMembers(uniqueName: string, dir: string, listing: seq<string>, p: string)
    ensures p in GetAllPaths(uniqueName, dir, listing) <==>
      exists name :: name in listing && Contains(name, uniqueName) && p == PathJoin(dir, name)
  {
    var matching := Matching(listing, uniqueName);
    SortedMembers(JoinAll(dir, matching), p);
    JoinedMembers(dir, matching, p);
  }

  /** Every path `get_all_paths` returns contains `uniqueName`. */
  lemma GetAllPathsContainName(uniqueName: string, dir: string, listing: seq<string>, p: string)
    requires p in GetAllPaths(uniqueName, dir, listing)
    ensures Contains(p, uniqueName)
  {
    GetAllPathsMembers(uniqueName, dir, listing, p);
    var name :| name in listing && Contains(name, uniqueName) && p == PathJoin(dir, name);
    JoinedPathContains(dir, name, uniqueName);
  }

  /** `path[path.rfind('.'):]`: the suffix from the last '.'; with no '.',
      `rfind` gives -1 and the slice is the last character alone. */
  function Extension(path: string): (r: string)
    ensures IsSuffix(r, path)
    ensures '.' in path ==> |r| >= 1 && r[0] == '.' && '.' !in r[1..]
    ensures '.' !in path && |path| > 0 ==> r == [path[|path| - 1]]
    ensures |path| == 0 ==> r == []
  {
    var k := RFind(path, '.');
    assert '.' in path ==> k >= 0;
    SliceFrom(path, k)
  }

  /** `f'{unique_name}_%09d{extension}'` joined to `dir`: the name pattern
      `ffmpeg` numbers the segments with. */
  function PathTemplate(dir: string, uniqueName: string, extension: string): (r: string)
    ensures r == PathJoin(dir, uniqueName + "_%09d" + extension)
    ensures Contains(r, uniqueName)
    ensures IsSuffix("%09d" + extension, r)
  {
    var name := uniqueName + "_%09d" + extension;
    ContainsOwnPrefix(uniqueName, "_%09d" + extension);
    JoinedPathContains(dir, name, uniqueName);
    AppendedSuffix(uniqueName + "_", "%09d" + extension);
    assert (uniqueName + "_") + ("%09d" + extension) == name;
    SuffixTransitive("%09d" + extension, name, PathJoin(dir, name));
    PathJoin(dir, name)
  }

  /** A string contains its own prefix. */
  lemma ContainsOwnPrefix(prefix: string, tail: string)
    ensures Contains(prefix + tail, prefix)
  {
    ContainsInfix([], prefix, tail);
    assert [] + prefix + tail == prefix + tail;
  }

  /** `%09d` for a non-negative number: at least nine digits, padded on the
      left with zeros. */
  function ZeroPad9(k: nat): (r: string)
    ensures AllDigits(r) && |r| >= 9
    ensures |r| == (if |NatToString(k)| >= 9 then |NatToString(k)| else 9)
    ensures IsSuffix(NatToString(k), r) && forall i :: 0 <= i < |r| - |NatToString(k)| ==> r[i] == '0'
  {
    var digits := NatToString(k);
    if |digits| >= 9 then digits else seq(9 - |digits|, _ => '0') + digits
  }

  /** Leading zeros do not change the value of a string of digits. */
  lemma {:induction false} LeadingZeros(zeros: string, digits: string)
    requires forall i :: 0 <= i < |zeros| ==> zeros[i] == '0'
    requires AllDigits(digits)
    ensures AllDigits(zeros + digits) && DigitsValue(zeros + digits) == DigitsValue(digits)
    decreases |digits|
  {
    var s := zeros + digits;
    if |digits| == 0 {
      LeadingZerosOnly(zeros);
      assert s == zeros;
    } else {
      var front := digits[..|digits| - 1];
      LeadingZeros(zeros, front);
      assert s[..|s| - 1] == zeros + front;
      assert s[|s| - 1] == digits[|digits| - 1];
    }
  }

  /** A string of zeros denotes zero. */
  lemma {:induction false} LeadingZerosOnly(zeros: string)
    requires forall i :: 0 <= i < |zeros| ==> zeros[i] == '0'
    ensures AllDigits(zeros) && DigitsValue(zeros) == 0
  {
    if |zeros| > 0 {
      LeadingZerosOnly(zeros[..|zeros| - 1]);
    }
  }

  /** The padded segment number reads back as the number. */
  lemma ZeroPad9RoundTrip(k: nat)
    ensures ParseInt(ZeroPad9(k)) == Some(k)
  {
    ParseNatToString(k);
    var digits := NatToString(k);
    if |digits| < 9 {
      LeadingZeros(seq(9 - |digits|, _ => '0'), digits);
    }
  }

  /** The name `ffmpeg` gives segment `k` when it fills in the template:
      the placeholder `%09d` replaced by the padded number. */
  function SegmentName(uniqueName: string, k: nat, extension: string): string
  {
    uniqueName + "_" + ZeroPad9(k) + extension
  }

  /** Segment `k`'s name is the template's name with the placeholder
      `%09d` replaced by the padded number, and the template's path joins
      that name to the directory. */
  lemma SegmentFillsTemplate(dir: string, uniqueName: string, k: nat, extension: string)
    ensures var name := uniqueName + "_%09d" + extension;
      var at := |uniqueName| + 1;
      && PathTemplate(dir, uniqueName, extension) == PathJoin(dir, name)
      && name[at..at + 4] == "%09d"
      && SegmentName(uniqueName, k, extension) == name[..at] + ZeroPad9(k) + name[at + 4..]
  {
    var name := uniqueName + "_%09d" + extension;
    var at := |uniqueName| + 1;
    assert name[..at] == uniqueName + "_";
    assert name[at..at + 4] == "%09d";
    assert name[at + 4..] == extension;
  }

  /** The template embeds `uniqueName`, so every segment written from it is
      found again by `get_all_paths`. */
  lemma SegmentsAreFound(uniqueName: string, dir: string, listing: seq<string>, k: nat, extension: string)
    requires SegmentName(uniqueName, k, extension) in listing
    ensures PathJoin(dir, SegmentName(uniqueName, k, extension)) in GetAllPaths(uniqueName, dir, listing)
  {
    var tail := "_" + ZeroPad9(k) + extension;
    var name := SegmentName(uniqueName, k, extension);
    ContainsOwnPrefix(uniqueName, tail);
    assert uniqueName + tail == name;
    ListedNameFound(uniqueName, dir, listing, name);
  }

  /** A listed name that contains `uniqueName` is among the paths
      `get_all_paths` returns, joined to `dir`. */
  lemma ListedNameFound(uniqueName: string, dir: string, listing: seq<string>, name: string)
    requires name in listing && Contains(name, uniqueName)
    ensures PathJoin(dir, name) in GetAllPaths(uniqueName, dir, listing)
  {
    GetAllPathsMembers(uniqueName, dir, listing, PathJoin(dir, name));
  }

  /** The end of `async_split_on_parts` once `ffmpeg` has exited with
      `returnCode`: a RuntimeError unless it is 0, otherwise
      `get_all_paths` on the directory as it then lists. */
  function SplitOnParts(returnCode: int, dir: string, uniqueName: string, listing: seq<string>)
    : (r: Result<seq<string>, string>)
    ensures r.Failure? <==> returnCode != 0
    ensures r.Failure? ==> r.error == SplitFailedMessage
    ensures r.Success? ==> r.value == GetAllPaths(uniqueName, dir, listing)
    ensures r.Success? ==>
      SortedStrings(r.value) && forall p :: p in r.value ==> Contains(p, uniqueName)
  {
    if returnCode != 0 then Failure(SplitFailedMessage)
    else
      var paths := GetAllPaths(uniqueName, dir, listing);
      forall p | p in paths ensures Contains(p, uniqueName) {
        GetAllPathsContainName(uniqueName, dir, listing, p);
      }
      Success(paths)
  }

  /** `replace_audio` once `ffmpeg` has exited with `returnCode`: the new
      file `uuidName + extension` in `dir`, or a RuntimeError. */
  function ReplaceAudio(returnCode: int, videoPath: string, dir: string, uuidName: string)
    : (r: Result<string, string>)
    ensures r.Failure? <==> returnCode != 0
    ensures r.Failure? ==> r.error == ReplaceFailedMessage
    ensures r.Success? ==> r.value == PathJoin(dir, uuidName + Extension(videoPath))
    ensures r.Success? ==> IsSuffix(Extension(videoPath), r.value)
  {
    if returnCode != 0 then Failure(ReplaceFailedMessage)
    else
      var extension := Extension(videoPath);
      var name := uuidName + extension;
      var path := PathJoin(dir, name);
      AppendedSuffix(uuidName, extension);
      SuffixTransitive(extension, name, path);
      Success(path)
  }
}
