/** The files that travel with an audio file in `download`: a cover image named after its
    base name with one of three extensions, tried in order, and a lyrics file `.lrc`. The
    directory is a set of names; `fs.access` succeeding is membership. */
module Sidecar {
  import opened Wrappers
  import opened Text
  import opened FileName

  /** The cover extensions, in the order they are tried. */
  const ImageExts: seq<string> := [".jpg", ".jpeg", ".png"]

  const LyricsExt: string := ".lrc"

  /** The first `base + ext`, for `ext` taken from `exts` in order, that is present in
      `download`; nothing when none is. */
  function FirstExisting(download: set<string>, base: string, exts: seq<string>): (r: Option<string>)
    ensures r.None? <==> forall k :: 0 <= k < |exts| ==> base + exts[k] !in download
    ensures r.Some? ==> exists i :: 0 <= i < |exts| && r.value == base + exts[i] && r.value in download
                                   && forall k :: 0 <= k < i ==> base + exts[k] !in download
  {
    if exts == [] then None
    else if base + exts[0] in download then Some(base + exts[0])
    else
      var r := FirstExisting(download, base, exts[1..]);
      assert forall k :: 1 <= k < |exts| ==> exts[k] == exts[1..][k - 1];
      r
  }

  /** `findLyrics`: the one probe `base.lrc`. */
  function LyricsFile(download: set<string>, base: string): (r: Option<string>)
    ensures r.Some? <==> base + LyricsExt in download
    ensures r.Some? ==> r.value == base + LyricsExt
  {
    FirstExisting(download, base, [LyricsExt])
  }

  /** The MIME type of a cover: PNG when its extension, lower-cased, is `.png`, JPEG for
      everything else. */
  function CoverMime(path: string): string {
    if LowerAscii(Extname(path)) == ".png" then "image/png" else "image/jpeg"
  }

  /** Appending a dotted extension to a non-empty name makes that the name's extension. */
  lemma {:induction false} ExtnameOfAppended(base: string, ext: string)
    requires base != [] && |ext| >= 2 && ext[0] == '.'
    requires forall k :: 0 < k < |ext| ==> ext[k] != '.'
    ensures Extname(base + ext) == ext
  {
    var name := base + ext;
    assert name[|base|] == '.';
    forall k | |base| < k < |name| ensures name[k] != '.' {
      assert name[k] == ext[k - |base|];
    }
    var d := LastDot(name);
    assert d == Some(|base|);
    assert name != "..";
    assert name[|base|..] == ext;
  }

  /** A cover found for a non-empty base name is tagged `image/png` exactly when it was
      found under `.png`. */
  lemma CoverMimeByExt(base: string, i: nat)
    requires base != [] && i < |ImageExts|
    ensures CoverMime(base + ImageExts[i]) == if ImageExts[i] == ".png" then "image/png" else "image/jpeg"
  {
    var ext := ImageExts[i];
    assert LowerAscii(ext) == ext by {
      if i == 0 {
        LowerAsciiKeeps(".jpg");
      } else if i == 1 {
        LowerAsciiKeeps(".jpeg");
      } else {
        LowerAsciiKeeps(".png");
      }
    }
    MimeOfAppended(base, ext);
  }

  /** The MIME type of `base + ext`, for a lower-case dotted extension `ext`. */
  lemma MimeOfAppended(base: string, ext: string)
    requires base != [] && |ext| >= 2 && ext[0] == '.'
    requires forall k :: 0 < k < |ext| ==> ext[k] != '.'
    requires LowerAscii(ext) == ext
    ensures CoverMime(base + ext) == if ext == ".png" then "image/png" else "image/jpeg"
  {
    ExtnameOfAppended(base, ext);
  }
}
