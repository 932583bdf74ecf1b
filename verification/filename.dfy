/** File names as the script handles them: Node's `path.extname` and `path.basename` on a
    name from a directory listing (such a name holds no `/`), the `.mp3` test, and
    `parseFileName`, which splits a base name into artist, title and album. */
module FileName {
  import opened Wrappers
  import opened Text
  import Regex

  /** Index of the last `.` in `name`. */
  function LastDot(name: string): (r: Option<nat>)
    ensures r.Some? ==> r.value < |name| && name[r.value] == '.'
                        && forall k :: r.value < k < |name| ==> name[k] != '.'
    ensures r.None? ==> forall k :: 0 <= k < |name| ==> name[k] != '.'
  {
    if name == [] then None
    else if name[|name| - 1] == '.' then Some(|name| - 1)
    else LastDot(name[..|name| - 1])
  }

  /** `path.extname`: the name from its last `.` on, or `""` when there is no dot, when the
      only dots open the name, and for `..`. */
  function Extname(name: string): (ext: string)
    ensures ext != [] ==> |ext| < |name| && EndsWith(name, ext) && ext[0] == '.'
                          && forall k :: 0 < k < |ext| ==> ext[k] != '.'
    ensures ext == [] <==> name == ".." || forall k :: 0 < k < |name| ==> name[k] != '.'
  {
    if name == ".." then ""
    else
      match LastDot(name)
      case None => ""
      case Some(d) => if d == 0 then "" else name[d..]
  }

  /** `path.basename(name, suffix)`: the name without `suffix` when it ends with it (and
      is not all of it, which gives `""`), otherwise the whole name. */
  function Basename(name: string, suffix: string): (base: string)
    ensures suffix != [] && EndsWith(name, suffix) ==> name == base + suffix
    ensures suffix == [] || !EndsWith(name, suffix) ==> base == name
  {
    if 0 < |suffix| <= |name| then
      if suffix == name then ""
      else if EndsWith(name, suffix) then name[..|name| - |suffix|]
      else name
    else name
  }

  /** The test at the head of `processFile`: the extension, lower-cased, is `.mp3`. */
  predicate IsAudio(name: string) {
    LowerAscii(Extname(name)) == ".mp3"
  }

  /** An audio name is one of at least five characters whose last four, lower-cased, are
      `.mp3`: a name that is only `.mp3` has no extension. */
  lemma AudioNameShape(name: string)
    ensures IsAudio(name) <==> |name| >= 5 && LowerAscii(name[|name| - 4..]) == ".mp3"
  {
    if |name| >= 5 && LowerAscii(name[|name| - 4..]) == ".mp3" {
      var n := |name|;
      var tail := name[n - 4..];
      assert LowerChar(tail[0]) == '.' && LowerChar(tail[1]) == 'm';
      assert LowerChar(tail[2]) == 'p' && LowerChar(tail[3]) == '3';
      assert name[n - 4] == '.' && name[n - 3] != '.' && name[n - 2] != '.' && name[n - 1] != '.';
      var d := LastDot(name);
      assert d == Some(n - 4);
    }
    if IsAudio(name) {
      var ext := Extname(name);
      assert |LowerAscii(ext)| == 4;
    }
  }

  /** The base name used for parsing and for the sidecar files: the extension is stripped
      only when it is literally `.mp3`, so `x.MP3` keeps its extension. */
  function AudioBase(name: string): (base: string)
    requires IsAudio(name)
    ensures base != []
    ensures EndsWith(name, ".mp3") ==> name == base + ".mp3"
    ensures !EndsWith(name, ".mp3") ==> base == name
  {
    AudioNameShape(name);
    Basename(name, LowerAscii(Extname(name)))
  }

  /** Artist, title and album read from a file name; absent parts are `""`. */
  datatype ParsedName = ParsedName(artist: string, title: string, album: string)

  /** `parseFileName`: the three-part pattern first, then the two-part pattern, and
      otherwise the whole base name, untrimmed, as the title. */
  function ParseFileName(base: string): ParsedName {
    match Regex.Match(base, Regex.ThreePart, 0, [])
    case Some(g) =>
      assert |g| == 3 && g[0] in g && g[1] in g && g[2] in g;
      ParsedName(Trim(base[g[0].lo..g[0].hi]), Trim(base[g[1].lo..g[1].hi]), Trim(base[g[2].lo..g[2].hi]))
    case None =>
      match Regex.Match(base, Regex.TwoPart, 0, [])
      case Some(g) =>
        assert |g| == 2 && g[0] in g && g[1] in g;
        ParsedName(Trim(base[g[0].lo..g[0].hi]), Trim(base[g[1].lo..g[1].hi]), "")
      case None => ParsedName("", base, "")
  }

  lemma SliceBounds(s: string, i: nat)
    requires i <= |s|
    ensures s[..i] == s[0..i] && s[i..] == s[i..|s|]
  {
  }

  /** With two or more hyphens, the artist is the trimmed text before the first one, the
      title the trimmed text between the first two, and the album the trimmed rest, later
      hyphens included. Any hyphen counts, with or without whitespace around it. */
  lemma {:induction false} ParseThreeParts(base: string, i: nat, j: nat)
    requires NoLineTerminators(base)
    requires i < j < |base| && base[i] == '-' && base[j] == '-'
    requires forall k :: 0 <= k < j && k != i ==> base[k] != '-'
    ensures ParseFileName(base) == ParsedName(Trim(base[..i]), Trim(base[i + 1..j]), Trim(base[j + 1..]))
  {
    Regex.ThreePartMatches(base, i, j);
    var m := SpaceEnd(base, i + 1);
    ParseOfThreeCaptures(base, [Regex.Span(0, SpaceStart(base, 0, i)), Regex.Span(m, SpaceStart(base, m, j)),
                                Regex.Span(SpaceEnd(base, j + 1), |base|)]);
    HeadTrim(base, i);
    MiddleTrim(base, i, j);
    TailTrim(base, j);
  }

  /** Trimming the text before a separator undoes the `\s*` that precedes it. */
  lemma HeadTrim(base: string, i: nat)
    requires i <= |base|
    ensures Trim(base[0..SpaceStart(base, 0, i)]) == Trim(base[..i])
  {
    TrimSlice(base, 0, 0, SpaceStart(base, 0, i), i);
    SliceBounds(base, i);
  }

  /** Trimming the text between two separators undoes the `\s*` on either side. */
  lemma MiddleTrim(base: string, i: nat, j: nat)
    requires i < j < |base| && base[j] == '-'
    ensures SpaceEnd(base, i + 1) <= j
    ensures var m := SpaceEnd(base, i + 1); Trim(base[m..SpaceStart(base, m, j)]) == Trim(base[i + 1..j])
  {
    var m := SpaceEnd(base, i + 1);
    assert !IsSpace(base[j]);
    var e := SpaceStart(base, m, j);
    TrimSlice(base, i + 1, m, e, j);
    assert Trim(base[i + 1..j]) == Trim(base[m..e]);
  }

  /** Trimming the text after a separator undoes the `\s*` that follows it. */
  lemma TailTrim(base: string, j: nat)
    requires j < |base|
    ensures Trim(base[SpaceEnd(base, j + 1)..|base|]) == Trim(base[j + 1..])
  {
    TrimSlice(base, j + 1, SpaceEnd(base, j + 1), |base|, |base|);
    SliceBounds(base, j + 1);
  }

  /** How the result is read off the captures of the three-part pattern. */
  lemma ParseOfThreeCaptures(base: string, g: seq<Regex.Span>)
    requires |g| == 3 && Regex.Match(base, Regex.ThreePart, 0, []) == Some(g)
    requires g[0].lo <= g[0].hi <= |base| && g[1].lo <= g[1].hi <= |base| && g[2].lo <= g[2].hi <= |base|
    ensures ParseFileName(base)
         == ParsedName(Trim(base[g[0].lo..g[0].hi]), Trim(base[g[1].lo..g[1].hi]), Trim(base[g[2].lo..g[2].hi]))
  {
  }

  /** With exactly one hyphen, artist and title are the trimmed text on either side of it
      and the album is empty. */
  lemma {:induction false} ParseTwoParts(base: string, i: nat)
    requires NoLineTerminators(base)
    requires i < |base| && base[i] == '-'
    requires forall k :: 0 <= k < |base| && k != i ==> base[k] != '-'
    ensures ParseFileName(base) == ParsedName(Trim(base[..i]), Trim(base[i + 1..]), "")
  {
    Regex.ThreePartFails(base, i);
    Regex.TwoPartMatches(base, i);
    var e1 := SpaceStart(base, 0, i);
    var a := SpaceEnd(base, i + 1);
    TrimSlice(base, 0, 0, e1, i);
    TrimSlice(base, i + 1, a, |base|, |base|);
    SliceBounds(base, i);
    SliceBounds(base, e1);
    SliceBounds(base, i + 1);
    SliceBounds(base, a);
  }

  /** Without a hyphen the whole base name, untrimmed, is the title. */
  lemma {:induction false} ParseNoHyphen(base: string)
    requires forall k :: 0 <= k < |base| ==> base[k] != '-'
    ensures ParseFileName(base) == ParsedName("", base, "")
  {
    Regex.ThreePartFails(base, |base|);
    Regex.TwoPartFails(base);
  }

  /** Where the hyphens of `artist - title - album` sit in the joined name. */
  lemma JoinedThreeLayout(artist: string, title: string, album: string)
    requires '-' !in artist && '-' !in title
    requires NoLineTerminators(artist) && NoLineTerminators(title) && NoLineTerminators(album)
    ensures var base := artist + " - " + title + " - " + album;
            var i := |artist| + 1;
            var j := |artist| + |title| + 4;
            && NoLineTerminators(base)
            && i < j < |base| && base[i] == '-' && base[j] == '-'
            && (forall k :: 0 <= k < j && k != i ==> base[k] != '-')
  {
    var base := artist + " - " + title + " - " + album;
    var i := |artist| + 1;
    var j := |artist| + |title| + 4;
    forall k | 0 <= k < |base|
      ensures !IsLineTerminator(base[k]) && (k < j && k != i ==> base[k] != '-')
    {
      if k < |artist| { assert base[k] == artist[k]; }
      else if |artist| + 3 <= k < |artist| + 3 + |title| { assert base[k] == title[k - |artist| - 3]; }
      else if j + 2 <= k { assert base[k] == album[k - j - 2]; }
    }
  }

  /** The three pieces of `artist - title - album`, cut at its hyphens, trim back to the
      trimmed artist, title and album. */
  lemma JoinedThreeTrims(base: string, artist: string, title: string, album: string, i: nat, j: nat)
    requires base == artist + " - " + title + " - " + album
    requires i == |artist| + 1 && j == |artist| + |title| + 4
    ensures j < |base|
    ensures Trim(base[..i]) == Trim(artist) && Trim(base[i + 1..j]) == Trim(title)
    ensures Trim(base[j + 1..]) == Trim(album)
  {
    JoinedThreeSlices(artist, title, album);
    TrimSpaceAfter(artist);
    TrimSpaceAfter(" " + title);
    TrimSpaceBefore(title);
    TrimSpaceBefore(album);
  }

  lemma JoinedThreeSlices(artist: string, title: string, album: string)
    ensures var base := artist + " - " + title + " - " + album;
            var i := |artist| + 1;
            var j := |artist| + |title| + 4;
            base[..i] == artist + " " && base[i + 1..j] == " " + title + " " && base[j + 1..] == " " + album
  {
    var base := artist + " - " + title + " - " + album;
    assert base == (artist + " ") + ("- " + title + " - " + album);
    assert base == (artist + " -") + (" " + title + " ") + ("- " + album);
    var p := artist + " - " + title + " -";
    assert base == p + (" " + album) by {
      assert |base| == |p| + 1 + |album|;
      forall k | 0 <= k < |base| ensures base[k] == (p + (" " + album))[k] {
        if k >= |p| + 1 { assert base[k] == album[k - |p| - 1]; }
      }
    }
  }

  /** Reading back a name written as `artist - title - album`: whatever the album holds,
      the parts come back trimmed, provided artist and title hold no hyphen. */
  lemma {:induction false} ParseJoinedThree(artist: string, title: string, album: string)
    requires '-' !in artist && '-' !in title
    requires NoLineTerminators(artist) && NoLineTerminators(title) && NoLineTerminators(album)
    ensures ParseFileName(artist + " - " + title + " - " + album)
         == ParsedName(Trim(artist), Trim(title), Trim(album))
  {
    var base := artist + " - " + title + " - " + album;
    JoinedThreeLayout(artist, title, album);
    var i, j := |artist| + 1, |artist| + |title| + 4;
    ParseThreeParts(base, i, j);
    JoinedThreeTrims(base, artist, title, album, i, j);
  }

  /** Where the hyphen of `artist - title` sits in the joined name. */
  lemma JoinedTwoLayout(artist: string, title: string)
    requires '-' !in artist && '-' !in title
    requires NoLineTerminators(artist) && NoLineTerminators(title)
    ensures var base := artist + " - " + title;
            var i := |artist| + 1;
            && NoLineTerminators(base)
            && i < |base| && base[i] == '-'
            && (forall k :: 0 <= k < |base| && k != i ==> base[k] != '-')
  {
    var base := artist + " - " + title;
    var i := |artist| + 1;
    forall k | 0 <= k < |base|
      ensures !IsLineTerminator(base[k]) && (k != i ==> base[k] != '-')
    {
      if k < |artist| { assert base[k] == artist[k]; }
      else if |artist| + 3 <= k { assert base[k] == title[k - |artist| - 3]; }
    }
  }

  /** The two pieces of `artist - title` trim back to the trimmed artist and title. */
  lemma JoinedTwoTrims(artist: string, title: string)
    ensures var base := artist + " - " + title;
            var i := |artist| + 1;
            Trim(base[..i]) == Trim(artist) && Trim(base[i + 1..]) == Trim(title)
  {
    var base := artist + " - " + title;
    var i := |artist| + 1;
    assert base[..i] == artist + " ";
    TrimSpaceAfter(artist);
    assert base[i + 1..] == " " + title;
    TrimSpaceBefore(title);
  }

  /** Reading back a name written as `artist - title`: the album is empty. */
  lemma {:induction false} ParseJoinedTwo(artist: string, title: string)
    requires '-' !in artist && '-' !in title
    requires NoLineTerminators(artist) && NoLineTerminators(title)
    ensures ParseFileName(artist + " - " + title) == ParsedName(Trim(artist), Trim(title), "")
  {
    JoinedTwoLayout(artist, title);
    ParseTwoParts(artist + " - " + title, |artist| + 1);
    JoinedTwoTrims(artist, title);
  }

  /** Any hyphen is a separator, spaced or not: a name such as `Jay-Z - Song`, written
      `first-second - title`, parses as artist `first`, title `second` and album `title`,
      all trimmed. */
  lemma {:induction false} HyphenatedArtist(first: string, second: string, title: string)
    requires '-' !in first && '-' !in second
    requires NoLineTerminators(first) && NoLineTerminators(second) && NoLineTerminators(title)
    ensures ParseFileName(first + "-" + second + " - " + title)
         == ParsedName(Trim(first), Trim(second), Trim(title))
  {
    var base := first + "-" + second + " - " + title;
    HyphenatedLayout(first, second, title);
    var i, j := |first|, |first| + |second| + 2;
    ParseThreeParts(base, i, j);
    HyphenatedTrims(base, first, second, title, i, j);
  }

  lemma HyphenatedTrims(base: string, first: string, second: string, title: string, i: nat, j: nat)
    requires base == first + "-" + second + " - " + title
    requires i == |first| && j == |first| + |second| + 2
    ensures j < |base|
    ensures Trim(base[..i]) == Trim(first) && Trim(base[i + 1..j]) == Trim(second)
    ensures Trim(base[j + 1..]) == Trim(title)
  {
    HyphenatedSlices(first, second, title);
    TrimSpaceAfter(second);
    TrimSpaceBefore(title);
  }

  /** Where the hyphens of `first-second - title` sit. */
  lemma HyphenatedLayout(first: string, second: string, title: string)
    requires '-' !in first && '-' !in second
    requires NoLineTerminators(first) && NoLineTerminators(second) && NoLineTerminators(title)
    ensures var base := first + "-" + second + " - " + title;
            var i := |first|;
            var j := |first| + |second| + 2;
            && NoLineTerminators(base)
            && i < j < |base| && base[i] == '-' && base[j] == '-'
            && (forall k :: 0 <= k < j && k != i ==> base[k] != '-')
  {
    var base := first + "-" + second + " - " + title;
    var i := |first|;
    var j := |first| + |second| + 2;
    forall k | 0 <= k < |base|
      ensures !IsLineTerminator(base[k]) && (k < j && k != i ==> base[k] != '-')
    {
      if k < i { assert base[k] == first[k]; }
      else if i < k <= i + |second| { assert base[k] == second[k - i - 1]; }
      else if j + 2 <= k { assert base[k] == title[k - j - 2]; }
    }
  }

  /** The three pieces of `first-second - title`, cut at its first two hyphens. */
  lemma HyphenatedSlices(first: string, second: string, title: string)
    ensures var base := first + "-" + second + " - " + title;
            var i := |first|;
            var j := |first| + |second| + 2;
            base[..i] == first && base[i + 1..j] == second + " " && base[j + 1..] == " " + title
  {
    var base := first + "-" + second + " - " + title;
    assert base == first + ("-" + second + " - " + title);
    assert base == (first + "-") + (second + " ") + ("- " + title);
    var p := first + "-" + second + " -";
    assert base == p + (" " + title) by {
      assert |base| == |p| + 1 + |title|;
      forall k | 0 <= k < |base| ensures base[k] == (p + (" " + title))[k] {
        if k >= |p| + 1 { assert base[k] == title[k - |p| - 1]; }
      }
    }
  }
}
