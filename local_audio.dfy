/**
 * Audio embedded in the document itself: `isLocalAudio`, which tells a
 * `data:` or `blob:` source from a remote one, and the part of
 * `fetchLocalAudio` that names the fetched payload, `getAudioMimeType`
 * followed by the `audio.<ext>` file name.
 */
module LocalAudio {
  import opened Optional
  import opened Strings
  import opened EditorTree

  const DataScheme := "data:"
  const DataAudioPrefix := "data:audio/"
  const Base64Marker := ";base64"
  const BlobPrefix := "blob:"
  /** The type used when neither the payload nor the source names one. */
  const FallbackMimeType := "audio/mp3"

  /** The length of the run of word characters that starts `s`: what a greedy `\w+` takes. */
  function WordRun(s: string): (n: nat)
    ensures n <= |s|
    ensures forall i :: 0 <= i < n ==> IsWordChar(s[i])
    ensures n < |s| ==> !IsWordChar(s[n])
  {
    if s != [] && IsWordChar(s[0]) then 1 + WordRun(s[1..]) else 0
  }

  /**
   * The greedy reading of `data:audio\/\w+` followed by `tail`: the
   * prefix, the longest run of word characters, then `tail`. When `tail`
   * starts with a non-word character, `\w+` cannot give back a character
   * to let it match, so only the longest run needs trying.
   */
  predicate GreedySplit(s: string, tail: string) {
    DataAudioPrefix <= s
    && var n := WordRun(s[|DataAudioPrefix|..]);
    n > 0 && tail <= s[|DataAudioPrefix| + n..]
  }

  /** `src.match(/^data:audio\/\w+;base64,/)` */
  predicate StartsWithDataAudio(src: string) {
    GreedySplit(src, Base64Marker + ",")
  }

  /** `s` splits as `data:audio/`, `n` word characters, then `tail` and anything. */
  ghost predicate SplitsAt(s: string, n: nat, tail: string) {
    var k := |DataAudioPrefix|;
    1 <= n && k + n <= |s| && s[..k] == DataAudioPrefix
    && (forall i :: k <= i < k + n ==> IsWordChar(s[i]))
    && tail <= s[k + n..]
  }

  lemma RunIsMaximal(s: string, n: nat)
    requires n < |s| && !IsWordChar(s[n])
    requires forall i :: 0 <= i < n ==> IsWordChar(s[i])
    ensures WordRun(s) == n
  {
  }

  /** The greedy reading agrees with the regular expression: some split of the input matches. */
  lemma GreedySplitIff(s: string, tail: string)
    requires |tail| > 0 && !IsWordChar(tail[0])
    ensures GreedySplit(s, tail) <==> exists n :: SplitsAt(s, n, tail)
  {
    var k := |DataAudioPrefix|;
    if GreedySplit(s, tail) {
      var n := WordRun(s[k..]);
      forall i | k <= i < k + n ensures IsWordChar(s[i]) {
        assert s[i] == s[k..][i - k];
      }
      assert SplitsAt(s, n, tail);
    }
    if n: nat :| SplitsAt(s, n, tail) {
      var run := s[k..];
      assert run[n] == s[k + n] == tail[0];
      forall i | 0 <= i < n ensures IsWordChar(run[i]) {
        assert run[i] == s[k + i];
      }
      RunIsMaximal(run, n);
      assert s[..k] == DataAudioPrefix;
      assert GreedySplit(s, tail);
    }
  }

  /** The anchored test holds iff `src` splits as `data:audio/`, word characters, `;base64,`. */
  lemma StartsWithDataAudioIff(src: string)
    ensures StartsWithDataAudio(src) <==> exists n :: SplitsAt(src, n, Base64Marker + ",")
  {
    GreedySplitIff(src, Base64Marker + ",");
  }

  /**
   * `isLocalAudio(node)`: an `audio` element whose `src` is present, not
   * empty, and starts with a base64 `data:audio/…` prefix or with `blob:`.
   */
  function IsLocalAudio(node: Node): (local: bool)
    ensures local ==> IsElementNamed(node, "audio") && GetAttribute(node, "src").Some?
  {
    if !IsElementNamed(node, "audio") || GetAttribute(node, "src").None? || GetAttribute(node, "src").value == "" then false
    else
      var src := GetAttribute(node, "src").value;
      StartsWithDataAudio(src) || BlobPrefix <= src
  }

  /** What `isLocalAudio` decides, in terms of the regular expressions' own reading. */
  lemma IsLocalAudioMeaning(node: Node)
    ensures IsLocalAudio(node) <==>
      IsElementNamed(node, "audio") && GetAttribute(node, "src").Some?
      && var src := GetAttribute(node, "src").value;
         (exists n :: SplitsAt(src, n, Base64Marker + ",")) || BlobPrefix <= src
  {
    if GetAttribute(node, "src").Some? {
      StartsWithDataAudioIff(GetAttribute(node, "src").value);
    }
  }

  /**
   * Where `/data:(audio\/\w+);base64/` matches at index `i` of `src`: the
   * length of its `\w+` run; `None` if it does not match there.
   */
  function DataAudioAt(src: string, i: nat): (r: Option<nat>)
    requires i <= |src|
    ensures r.Some? ==> 0 < r.value && i + |DataAudioPrefix| + r.value <= |src|
  {
    var rest := src[i..];
    if DataAudioPrefix <= rest then
      var n := WordRun(rest[|DataAudioPrefix|..]);
      if n > 0 && Base64Marker <= rest[|DataAudioPrefix| + n..] then Some(n) else None
    else None
  }

  /**
   * The unanchored pattern matches at `i` iff `src` splits there as
   * `data:audio/`, word characters, `;base64`; a match reports the length
   * of the longest such run.
   */
  lemma DataAudioAtIff(src: string, i: nat)
    requires i <= |src|
    ensures DataAudioAt(src, i).Some? <==> exists n :: SplitsAt(src[i..], n, Base64Marker)
    ensures DataAudioAt(src, i).Some? ==> SplitsAt(src[i..], DataAudioAt(src, i).value, Base64Marker)
  {
    GreedySplitIff(src[i..], Base64Marker);
    assert DataAudioAt(src, i).Some? <==> GreedySplit(src[i..], Base64Marker);
    if DataAudioAt(src, i).Some? {
      var rest := src[i..];
      var n := DataAudioAt(src, i).value;
      forall j | |DataAudioPrefix| <= j < |DataAudioPrefix| + n ensures IsWordChar(rest[j]) {
        assert rest[j] == rest[|DataAudioPrefix|..][j - |DataAudioPrefix|];
      }
    }
  }

  /** The leftmost index at or after `from` where the pattern matches, with its run length. */
  function FirstDataAudio(src: string, from: nat): (r: Option<(nat, nat)>)
    requires from <= |src|
    decreases |src| - from
    ensures r.Some? ==> from <= r.value.0 <= |src| && DataAudioAt(src, r.value.0) == Some(r.value.1)
  {
    match DataAudioAt(src, from)
    case Some(n) => Some((from, n))
    case None => if from == |src| then None else FirstDataAudio(src, from + 1)
  }

  /** The search finds the leftmost match, and finds none only when there is none. */
  lemma {:induction false} FirstDataAudioIsLeftmost(src: string, from: nat)
    requires from <= |src|
    decreases |src| - from
    ensures var r := FirstDataAudio(src, from);
      r.Some? ==> forall j :: from <= j < r.value.0 ==> DataAudioAt(src, j).None?
    ensures FirstDataAudio(src, from).None? ==> forall j :: from <= j <= |src| ==> DataAudioAt(src, j).None?
  {
    if DataAudioAt(src, from).None? && from < |src| {
      FirstDataAudioIsLeftmost(src, from + 1);
      var r := FirstDataAudio(src, from);
      assert r == FirstDataAudio(src, from + 1);
      if r.Some? {
        forall j | from <= j < r.value.0 ensures DataAudioAt(src, j).None? {
          if j > from {
            assert from + 1 <= j < r.value.0;
          }
        }
      }
    }
  }

  /** A subtype as `getAudioMimeType` can derive it from the source: lower-case word characters. */
  predicate IsLowerWord(s: string) {
    |s| > 0 && forall i :: 0 <= i < |s| ==> IsWordChar(s[i]) && !IsUpperAscii(s[i])
  }

  lemma LoweredCapture(src: string, i: nat, n: nat)
    requires i <= |src|
    requires DataAudioAt(src, i) == Some(n)
    ensures var lowered := LowerAscii(src[i + |DataScheme|..i + |DataAudioPrefix| + n]);
      "audio/" <= lowered && IsLowerWord(lowered[6..])
  {
    var captured := src[i + |DataScheme|..i + |DataAudioPrefix| + n];
    var lowered := LowerAscii(captured);
    assert src[i..][..|DataAudioPrefix|] == DataAudioPrefix;
    forall j | 0 <= j < 6 ensures lowered[j] == "audio/"[j] {
      assert captured[j] == src[i + 5 + j] == src[i..][5 + j] == DataAudioPrefix[5 + j];
    }
    var run := src[i..][|DataAudioPrefix|..];
    assert WordRun(run) == n;
    forall j | 0 <= j < |lowered[6..]| ensures IsWordChar(lowered[6..][j]) && !IsUpperAscii(lowered[6..][j]) {
      assert captured[6 + j] == run[j];
    }
  }

  /**
   * Group 1 of `src.match(/data:(audio\/\w+);base64/)`: the `audio/…`
   * text of the leftmost match, or `None` when nothing matches.
   */
  function DataAudioCapture(src: string): Option<string> {
    match FirstDataAudio(src, 0)
    case Some((i, n)) => Some(src[i + |DataScheme|..i + |DataAudioPrefix| + n])
    case None => None
  }

  /**
   * `getAudioMimeType(blob, src)`: a non-empty blob type as it is; else the
   * `audio/<subtype>` captured at the leftmost `data:…;base64` in `src`
   * (anywhere in it, not only at the start), lower-cased; else `audio/mp3`.
   */
  function AudioMimeType(blobType: string, src: string): (mime: string)
    ensures mime != ""
    ensures blobType != "" ==> mime == blobType
    ensures blobType == "" ==> "audio/" <= mime && IsLowerWord(mime[6..])
    ensures blobType == "" && FirstDataAudio(src, 0).None? ==> mime == FallbackMimeType
    ensures blobType == "" && DataAudioCapture(src).Some? ==> mime == LowerAscii(DataAudioCapture(src).value)
  {
    FirstDataAudioIsLeftmost(src, 0);
    if blobType != "" then blobType
    else match FirstDataAudio(src, 0)
      case Some((i, n)) =>
        LoweredCapture(src, i, n);
        LowerAscii(src[i + |DataScheme|..i + |DataAudioPrefix| + n])
      case None =>
        assert FallbackMimeType[6..] == "mp3";
        FallbackMimeType
  }

  /** `audio.${mimeType.replace('audio/', '')}`: only the first `audio/` is removed. */
  function LocalFileName(mimeType: string): (name: string)
    ensures "audio." <= name
    ensures "audio/" <= mimeType ==> name == "audio." + mimeType[6..]
    ensures IndexOf(mimeType, "audio/").None? ==> name == "audio." + mimeType
    ensures IndexOf(mimeType, "audio/").Some? ==>
      var i := IndexOf(mimeType, "audio/").value;
      name == "audio." + mimeType[..i] + mimeType[i + 6..]
  {
    ReplaceFirstAtStart(mimeType, "audio/", "");
    "audio." + ReplaceFirst(mimeType, "audio/", "")
  }

  /** The name and type that `fetchLocalAudio` gives the file it builds from the fetched blob. */
  datatype LocalFile = LocalFile(name: string, mimeType: string)

  function LocalAudioFile(blobType: string, src: string): (file: LocalFile)
    ensures file.mimeType == AudioMimeType(blobType, src)
    ensures file.name == LocalFileName(file.mimeType)
    ensures blobType == "" ==> file.name == "audio." + file.mimeType[6..] && IsLowerWord(file.name[6..])
    ensures blobType == "" && FirstDataAudio(src, 0).None? ==> file == LocalFile("audio.mp3", "audio/mp3")
  {
    var mimeType := AudioMimeType(blobType, src);
    var name := LocalFileName(mimeType);
    if blobType == "" then
      assert name[6..] == mimeType[6..];
      FallbackFileName();
      LocalFile(name, mimeType)
    else LocalFile(name, mimeType)
  }

  lemma FallbackFileName()
    ensures LocalFileName(FallbackMimeType) == "audio.mp3"
  {
    assert FallbackMimeType[6..] == "mp3";
  }

  lemma UpperCaseDataSourceMatch()
    ensures FirstDataAudio("data:audio/MP3;base64,AA", 0) == Some((0, 3))
  {
    var src := "data:audio/MP3;base64,AA";
    assert src[0..] == src;
    assert src[..11] == DataAudioPrefix;
    assert src[11..] == "MP3;base64,AA";
    RunIsMaximal("MP3;base64,AA", 3);
    assert src[11..][3..] == ";base64,AA";
    assert DataAudioAt(src, 0) == Some(3);
  }

  lemma UpperCaseDataSourceType()
    ensures AudioMimeType("", "data:audio/MP3;base64,AA") == "audio/mp3"
  {
    var src := "data:audio/MP3;base64,AA";
    UpperCaseDataSourceMatch();
    assert src[5..14] == "audio/MP3";
    assert LowerAscii("audio/MP3") == "audio/mp3";
  }

  /** A `data:` source that names its type in capitals, with no type on the blob. */
  lemma UpperCaseDataSourceExample()
    ensures LocalAudioFile("", "data:audio/MP3;base64,AA") == LocalFile("audio.mp3", "audio/mp3")
  {
    UpperCaseDataSourceType();
    FallbackFileName();
  }
}
