/** What one pass of the tagger does, as values: the three directories as sets of names,
    the four result lists, and the tag writes issued. `Decide` is the ordered decision
    `processFile` takes for one listed name, `Step` its effect, and `RunAll` the effect of
    the main loop over a whole listing. */
module Pipeline {
  import opened Wrappers
  import opened Text
  import opened FileName
  import opened Catalog
  import opened Sidecar

  /** The `results` object that ends up in `mp3tag-log.json`. */
  datatype Results = Results(done: seq<string>, skipped: seq<string>, failed: seq<string>, skippedExisting: seq<string>)

  /** The names present in `download`, `done` and `skipped`. */
  datatype Dirs = Dirs(download: set<string>, done: set<string>, skipped: set<string>)

  /** The attached picture: MIME type, picture type 3 "front cover", description "cover",
      and the cover file whose bytes are attached. */
  datatype Picture = Picture(mime: string, typeId: int, typeName: string, description: string, imageFile: string)

  /** Unsynchronised lyrics: language and the `.lrc` file whose text is attached. */
  datatype Lyrics = Lyrics(language: string, lyricsFile: string)

  /** The tag object handed to the writer; a field the script never sets is `None`. */
  datatype Tags = Tags(artist: string, title: string, album: string, year: Option<Value>,
                       image: Option<Picture>, lyrics: Option<Lyrics>)

  /** One call of the tag writer: the name in `done` it updates and the tags. */
  datatype TagWrite = TagWrite(target: string, tags: Tags)

  /** What the tag writer did: returned a value of the given truthiness, or threw. */
  datatype WriteResult = Returned(truthy: bool) | Threw

  datatype State = State(dirs: Dirs, results: Results, writes: seq<TagWrite>)

  /** The five ordered outcomes of `processFile`, plus the silent return for names that
      are not audio files; `Tag` carries the tags to write. */
  datatype Disposition = NotAudio | AlreadyDone | NoMatch | NoAssets | Tag(tags: Tags)

  /** The four result lists. */
  datatype List = DoneList | SkippedList | FailedList | ExistingList

  /** The picture frame for a cover, if one was found. */
  function ImageTag(cover: Option<string>): Option<Picture> {
    match cover
    case None => None
    case Some(file) => Some(Picture(CoverMime(file), 3, "front cover", "cover", file))
  }

  /** The lyrics frame for a lyrics file, if one was found. */
  function LyricsTag(lyrics: Option<string>): Option<Lyrics> {
    match lyrics
    case None => None
    case Some(file) => Some(Lyrics("chi", file))
  }

  /** The tags: the parsed names, the catalog year when truthy, the cover when one was
      found and the lyrics when they were found. */
  function TagsFor(parsed: ParsedName, entry: Entry, cover: Option<string>, lyrics: Option<string>): Tags {
    Tags(parsed.artist, parsed.title, parsed.album, YearTag(entry), ImageTag(cover), LyricsTag(lyrics))
  }

  /** The parse of an audio file's name. */
  function Parsed(file: string): ParsedName
    requires IsAudio(file)
  {
    ParseFileName(AudioBase(file))
  }

  /** The decision `processFile` takes for `file`, tested in the script's order. */
  function Decide(dirs: Dirs, catalog: seq<Entry>, file: string): Disposition {
    if !IsAudio(file) then NotAudio
    else if file in dirs.done then AlreadyDone
    else
      var base := AudioBase(file);
      var parsed := ParseFileName(base);
      match Find(catalog, parsed.title, parsed.artist)
      case None => NoMatch
      case Some(entry) =>
        var cover := FirstExisting(dirs.download, base, ImageExts);
        var lyrics := LyricsFile(dirs.download, base);
        if cover.None? && lyrics.None? then NoAssets
        else Tag(TagsFor(parsed, entry, cover, lyrics))
  }

  /** Which list a decision records the file in, given what the writer did. */
  function ListFor(d: Disposition, outcome: WriteResult): Option<List> {
    match d
    case NotAudio => None
    case AlreadyDone => Some(ExistingList)
    case NoMatch => Some(SkippedList)
    case NoAssets => Some(SkippedList)
    case Tag(_) => if outcome == Returned(true) then Some(DoneList) else Some(FailedList)
  }

  function Entries(r: Results, l: List): seq<string> {
    match l
    case DoneList => r.done
    case SkippedList => r.skipped
    case FailedList => r.failed
    case ExistingList => r.skippedExisting
  }

  /** `results[list].push(file)`, or nothing. */
  function Record(r: Results, l: Option<List>, file: string): (r': Results)
    ensures forall l' :: Entries(r', l') == Entries(r, l') + if l == Some(l') then [file] else []
  {
    match l
    case None => r
    case Some(DoneList) => r.(done := r.done + [file])
    case Some(SkippedList) => r.(skipped := r.skipped + [file])
    case Some(FailedList) => r.(failed := r.failed + [file])
    case Some(ExistingList) => r.(skippedExisting := r.skippedExisting + [file])
  }

  /** `fs.rename` from `download` to `skipped`; when the source is gone the error is
      swallowed and nothing moves. */
  function MoveToSkipped(dirs: Dirs, file: string): (r: Dirs)
    ensures r.download == dirs.download - {file} && r.done == dirs.done
    ensures r.skipped == if file in dirs.download then dirs.skipped + {file} else dirs.skipped
  {
    if file in dirs.download then dirs.(download := dirs.download - {file}, skipped := dirs.skipped + {file})
    else
      assert dirs.download - {file} == dirs.download;
      dirs
  }

  /** `fs.copyFile` from `download` to `done`; when the source is gone the error is
      swallowed and nothing is copied. */
  function CopyToDone(dirs: Dirs, file: string): Dirs {
    if file in dirs.download then dirs.(done := dirs.done + {file}) else dirs
  }

  /** What carrying out decision `d` for `file` does, given what the writer did. */
  function Apply(st: State, d: Disposition, file: string, outcome: WriteResult): State {
    var results := Record(st.results, ListFor(d, outcome), file);
    match d
    case NoAssets => State(MoveToSkipped(st.dirs, file), results, st.writes)
    case Tag(tags) => State(CopyToDone(st.dirs, file), results, st.writes + [TagWrite(file, tags)])
    case _ => st.(results := results)
  }

  /** The effect of `processFile(file)`. */
  function Step(st: State, catalog: seq<Entry>, file: string, outcome: WriteResult): State {
    Apply(st, Decide(st.dirs, catalog, file), file, outcome)
  }

  /** The main loop over a listing, one writer outcome per listed name. */
  function RunAll(st: State, catalog: seq<Entry>, listing: seq<string>, outcomes: seq<WriteResult>): State
    requires |outcomes| == |listing|
    decreases |listing|
  {
    if listing == [] then st
    else
      var n := |listing| - 1;
      Step(RunAll(st, catalog, listing[..n], outcomes[..n]), catalog, listing[n], outcomes[n])
  }

  /** The list each listed name was recorded in, in listing order. */
  function Track(st: State, catalog: seq<Entry>, listing: seq<string>, outcomes: seq<WriteResult>): (t: seq<Option<List>>)
    requires |outcomes| == |listing|
    ensures |t| == |listing|
    decreases |listing|
  {
    if listing == [] then []
    else
      var n := |listing| - 1;
      var before := RunAll(st, catalog, listing[..n], outcomes[..n]);
      Track(st, catalog, listing[..n], outcomes[..n]) + [ListFor(Decide(before.dirs, catalog, listing[n]), outcomes[n])]
  }

  /** The names of `listing` whose entry in `track` is `l`, in order. */
  function Picked(listing: seq<string>, track: seq<Option<List>>, l: List): seq<string>
    requires |track| == |listing|
    decreases |listing|
  {
    if listing == [] then []
    else
      var n := |listing| - 1;
      Picked(listing[..n], track[..n], l) + if track[n] == Some(l) then [listing[n]] else []
  }

  // ---------------------------------------------------------------------------------
  // One file
  // ---------------------------------------------------------------------------------

  /** The outcomes of `processFile` and the order in which they are tested: names that
      are not audio are ignored; an audio name already in `done` is skipped as existing
      before anything is parsed; then a catalog miss; then a hit with neither cover nor
      lyrics; otherwise the file is tagged. */
  lemma DecideOrder(dirs: Dirs, catalog: seq<Entry>, file: string)
    ensures Decide(dirs, catalog, file) == NotAudio <==> !IsAudio(file)
    ensures Decide(dirs, catalog, file) == AlreadyDone <==> IsAudio(file) && file in dirs.done
    ensures IsAudio(file) && file !in dirs.done ==>
              var base := AudioBase(file);
              var p := ParseFileName(base);
              && ((Decide(dirs, catalog, file) == NoMatch)
                  <==> forall k :: 0 <= k < |catalog| ==> !IsMatch(catalog[k], p.title, p.artist))
              && ((Decide(dirs, catalog, file) == NoAssets)
                  <==> (exists k :: 0 <= k < |catalog| && IsMatch(catalog[k], p.title, p.artist))
                       && (forall i :: 0 <= i < |ImageExts| ==> base + ImageExts[i] !in dirs.download)
                       && base + LyricsExt !in dirs.download)
  {
    if IsAudio(file) && file !in dirs.done {
      var p := Parsed(file);
      var base := AudioBase(file);
      if Find(catalog, p.title, p.artist).None? {
        assert Decide(dirs, catalog, file) == NoMatch;
      } else if FirstExisting(dirs.download, base, ImageExts).None? && LyricsFile(dirs.download, base).None? {
        DecideNoAssets(dirs, catalog, file);
      } else {
        DecideTagged(dirs, catalog, file);
      }
    }
  }

  /** What a decision to tag is made of: the file is audio and not yet in `done`, the
      catalog has a record for its parsed name, a cover or lyrics file exists, and the
      tags are built from those. */
  lemma DecideTag(dirs: Dirs, catalog: seq<Entry>, file: string)
    requires Decide(dirs, catalog, file).Tag?
    ensures IsAudio(file) && file !in dirs.done
    ensures var base := AudioBase(file);
            var p := ParseFileName(base);
            var cover := FirstExisting(dirs.download, base, ImageExts);
            var lyrics := LyricsFile(dirs.download, base);
            && Find(catalog, p.title, p.artist).Some?
            && (cover.Some? || lyrics.Some?)
            && Decide(dirs, catalog, file).tags == TagsFor(p, Find(catalog, p.title, p.artist).value, cover, lyrics)
  {
  }

  /** The tags written for a file carry the names parsed from its base name, and the
      year of the first catalog record for those names exactly when that year is
      truthy. */
  lemma TaggedNames(dirs: Dirs, catalog: seq<Entry>, file: string)
    requires Decide(dirs, catalog, file).Tag?
    ensures IsAudio(file)
    ensures var t := Decide(dirs, catalog, file).tags;
            var p := ParseFileName(AudioBase(file));
            && t.artist == p.artist && t.title == p.title && t.album == p.album
            && exists i :: 0 <= i < |catalog| && IsMatch(catalog[i], p.title, p.artist)
                           && (forall k :: 0 <= k < i ==> !IsMatch(catalog[k], p.title, p.artist))
                           && (t.year.Some? <==> Truthy(catalog[i].year))
                           && (t.year.Some? ==> t.year.value == catalog[i].year)
  {
    DecideTag(dirs, catalog, file);
    var p := ParseFileName(AudioBase(file));
    var t := Decide(dirs, catalog, file).tags;
    assert t.year == YearTag(Find(catalog, p.title, p.artist).value);
    FoundYear(catalog, p.title, p.artist, t.year);
  }

  /** The year taken from what `find` returned is that of the first matching record. */
  lemma FoundYear(catalog: seq<Entry>, title: string, artist: string, y: Option<Value>)
    requires Find(catalog, title, artist).Some? && y == YearTag(Find(catalog, title, artist).value)
    ensures exists i :: 0 <= i < |catalog| && IsMatch(catalog[i], title, artist)
                        && (forall k :: 0 <= k < i ==> !IsMatch(catalog[k], title, artist))
                        && (y.Some? <==> Truthy(catalog[i].year))
                        && (y.Some? ==> y.value == catalog[i].year)
  {
  }

  /** The first cover found, if any, becomes a picture frame of type 3 "front cover"
      with description "cover", typed PNG exactly when it is the `.png` file. */
  lemma CoverTag(download: set<string>, base: string)
    requires base != []
    ensures var img := ImageTag(FirstExisting(download, base, ImageExts));
            && (img.Some? <==> exists i :: 0 <= i < |ImageExts| && base + ImageExts[i] in download)
            && (img.Some? ==>
                  exists i :: 0 <= i < |ImageExts| && base + ImageExts[i] in download
                              && (forall k :: 0 <= k < i ==> base + ImageExts[k] !in download)
                              && img.value == Picture(if ImageExts[i] == ".png" then "image/png" else "image/jpeg",
                                                      3, "front cover", "cover", base + ImageExts[i]))
  {
    var cover := FirstExisting(download, base, ImageExts);
    var img := ImageTag(cover);
    if base + ImageExts[0] in download {
      CoverAt(download, base, 0);
      CoverWitness(download, base, img, 0);
    } else if base + ImageExts[1] in download {
      CoverAt(download, base, 1);
      CoverWitness(download, base, img, 1);
    } else if base + ImageExts[2] in download {
      CoverAt(download, base, 2);
      CoverWitness(download, base, img, 2);
    } else {
      assert cover == None;
    }
  }

  /** `CoverTag`'s statement for a picture built from the candidate at index `i`. */
  lemma CoverWitness(download: set<string>, base: string, img: Option<Picture>, i: nat)
    requires i < |ImageExts| && base + ImageExts[i] in download
    requires forall k :: 0 <= k < i ==> base + ImageExts[k] !in download
    requires img == Some(Picture(if ImageExts[i] == ".png" then "image/png" else "image/jpeg",
                                 3, "front cover", "cover", base + ImageExts[i]))
    ensures && (img.Some? <==> exists i :: 0 <= i < |ImageExts| && base + ImageExts[i] in download)
            && (img.Some? ==>
                  exists i :: 0 <= i < |ImageExts| && base + ImageExts[i] in download
                              && (forall k :: 0 <= k < i ==> base + ImageExts[k] !in download)
                              && img.value == Picture(if ImageExts[i] == ".png" then "image/png" else "image/jpeg",
                                                      3, "front cover", "cover", base + ImageExts[i]))
  {
  }

  /** The cover found when `base + ImageExts[i]` is the first existing candidate. */
  lemma CoverAt(download: set<string>, base: string, i: nat)
    requires base != [] && i < |ImageExts| && base + ImageExts[i] in download
    requires forall k :: 0 <= k < i ==> base + ImageExts[k] !in download
    ensures ImageTag(FirstExisting(download, base, ImageExts))
         == Some(Picture(if ImageExts[i] == ".png" then "image/png" else "image/jpeg",
                         3, "front cover", "cover", base + ImageExts[i]))
  {
    var cover := FirstExisting(download, base, ImageExts);
    var j :| 0 <= j < |ImageExts| && cover.value == base + ImageExts[j] && cover.value in download
             && forall k :: 0 <= k < j ==> base + ImageExts[k] !in download;
    assert j == i;
    CoverPicture(base, ImageExts[i]);
    CoverMimeByExt(base, i);
  }

  lemma CoverPicture(base: string, ext: string)
    ensures ImageTag(Some(base + ext)) == Some(Picture(CoverMime(base + ext), 3, "front cover", "cover", base + ext))
  {
  }

  lemma TaggedAssets(dirs: Dirs, catalog: seq<Entry>, file: string)
    requires Decide(dirs, catalog, file).Tag?
    ensures IsAudio(file)
    ensures var t := Decide(dirs, catalog, file).tags;
            var base := AudioBase(file);
            && t.image == ImageTag(FirstExisting(dirs.download, base, ImageExts))
            && (t.lyrics.Some? <==> base + LyricsExt in dirs.download)
            && (t.lyrics.Some? ==> t.lyrics.value == Lyrics("chi", base + LyricsExt))
            && (t.image.Some? || t.lyrics.Some?)
  {
    DecideTag(dirs, catalog, file);
  }

  /** What carrying out a decision changes: the name is appended to the one list the
      decision and the writer's outcome select; `download` loses only a file moved to
      `skipped`, `done` gains only a copied file, and a tag write is issued for exactly
      the files that are tagged. */
  lemma ApplyEffect(st: State, d: Disposition, file: string, outcome: WriteResult)
    ensures var r := Apply(st, d, file, outcome);
            forall l :: Entries(r.results, l) == Entries(st.results, l) + if ListFor(d, outcome) == Some(l) then [file] else []
    ensures var r := Apply(st, d, file, outcome);
            && r.dirs.download == (if d == NoAssets then st.dirs.download - {file} else st.dirs.download)
            && r.dirs.skipped == (if d == NoAssets && file in st.dirs.download then st.dirs.skipped + {file} else st.dirs.skipped)
            && r.dirs.done == (if d.Tag? && file in st.dirs.download then st.dirs.done + {file} else st.dirs.done)
            && r.writes == (if d.Tag? then st.writes + [TagWrite(file, d.tags)] else st.writes)
  {
  }

  /** An audio file already in `done` is only recorded in `skippedExisting`. */
  lemma StepAlreadyDone(st: State, catalog: seq<Entry>, file: string, outcome: WriteResult)
    requires IsAudio(file) && file in st.dirs.done
    ensures Step(st, catalog, file, outcome)
         == st.(results := st.results.(skippedExisting := st.results.skippedExisting + [file]))
  {
    assert Decide(st.dirs, catalog, file) == AlreadyDone;
    ApplyListed(st, file, outcome);
  }

  /** An audio file the catalog has no record for is only recorded in `skipped`. */
  lemma StepNoMatch(st: State, catalog: seq<Entry>, file: string, outcome: WriteResult)
    requires IsAudio(file) && file !in st.dirs.done
    requires Find(catalog, Parsed(file).title, Parsed(file).artist).None?
    ensures Step(st, catalog, file, outcome)
         == st.(results := st.results.(skipped := st.results.skipped + [file]))
  {
    assert Decide(st.dirs, catalog, file) == NoMatch;
    ApplyListed(st, file, outcome);
  }

  /** The three outcomes that only record the file, or do nothing at all. */
  lemma ApplyListed(st: State, file: string, outcome: WriteResult)
    ensures Apply(st, NotAudio, file, outcome) == st
    ensures Apply(st, AlreadyDone, file, outcome)
         == st.(results := st.results.(skippedExisting := st.results.skippedExisting + [file]))
    ensures Apply(st, NoMatch, file, outcome)
         == st.(results := st.results.(skipped := st.results.skipped + [file]))
  {
  }

  /** A matched audio file with neither cover nor lyrics is to be moved to `skipped`. */
  lemma DecideNoAssets(dirs: Dirs, catalog: seq<Entry>, file: string)
    requires IsAudio(file) && file !in dirs.done
    requires Find(catalog, Parsed(file).title, Parsed(file).artist).Some?
    requires FirstExisting(dirs.download, AudioBase(file), ImageExts).None?
    requires LyricsFile(dirs.download, AudioBase(file)).None?
    ensures Decide(dirs, catalog, file) == NoAssets
  {
  }

  /** A matched audio file with a cover or lyrics is to be tagged with its parsed names,
      the year of the record found, and the cover and lyrics found. */
  lemma DecideTagged(dirs: Dirs, catalog: seq<Entry>, file: string)
    requires IsAudio(file) && file !in dirs.done
    requires Find(catalog, Parsed(file).title, Parsed(file).artist).Some?
    requires FirstExisting(dirs.download, AudioBase(file), ImageExts).Some?
             || LyricsFile(dirs.download, AudioBase(file)).Some?
    ensures var base := AudioBase(file);
            Decide(dirs, catalog, file)
            == Tag(TagsFor(Parsed(file), Find(catalog, Parsed(file).title, Parsed(file).artist).value,
                           FirstExisting(dirs.download, base, ImageExts), LyricsFile(dirs.download, base)))
  {
  }

  /** A matched audio file with neither cover nor lyrics is moved from `download` to
      `skipped` and recorded in `skipped`; no write is issued. */
  lemma StepNoAssets(st: State, catalog: seq<Entry>, file: string, outcome: WriteResult)
    requires IsAudio(file) && file !in st.dirs.done
    requires Find(catalog, Parsed(file).title, Parsed(file).artist).Some?
    requires FirstExisting(st.dirs.download, AudioBase(file), ImageExts).None?
    requires LyricsFile(st.dirs.download, AudioBase(file)).None?
    ensures var r := Step(st, catalog, file, outcome);
            && r.dirs.download == st.dirs.download - {file}
            && r.dirs.skipped == (if file in st.dirs.download then st.dirs.skipped + {file} else st.dirs.skipped)
            && r.dirs.done == st.dirs.done
            && r.results == st.results.(skipped := st.results.skipped + [file])
            && r.writes == st.writes
  {
    DecideNoAssets(st.dirs, catalog, file);
    assert Step(st, catalog, file, outcome) == Apply(st, NoAssets, file, outcome);
    ApplyMoved(st, file, outcome);
  }

  lemma ApplyMoved(st: State, file: string, outcome: WriteResult)
    ensures Apply(st, NoAssets, file, outcome)
            == State(MoveToSkipped(st.dirs, file), st.results.(skipped := st.results.skipped + [file]), st.writes)
  {
  }

  /** A matched audio file with a cover or lyrics is copied to `done`, one write of its
      tags is issued, and it is recorded as done when the writer returned a truthy value
      and as failed when it returned a falsy one or threw. */
  lemma StepTag(st: State, catalog: seq<Entry>, file: string, outcome: WriteResult)
    requires IsAudio(file) && file !in st.dirs.done
    requires Find(catalog, Parsed(file).title, Parsed(file).artist).Some?
    requires FirstExisting(st.dirs.download, AudioBase(file), ImageExts).Some?
             || LyricsFile(st.dirs.download, AudioBase(file)).Some?
    ensures var r := Step(st, catalog, file, outcome);
            && r.dirs == CopyToDone(st.dirs, file)
            && (file in st.dirs.download ==> file in r.dirs.done)
            && |r.writes| == |st.writes| + 1 && r.writes[..|st.writes|] == st.writes
            && r.writes[|st.writes|].target == file
            && r.results == if outcome == Returned(true) then st.results.(done := st.results.done + [file])
                            else st.results.(failed := st.results.failed + [file])
  {
    var base := AudioBase(file);
    var tags := TagsFor(Parsed(file), Find(catalog, Parsed(file).title, Parsed(file).artist).value,
                        FirstExisting(st.dirs.download, base, ImageExts), LyricsFile(st.dirs.download, base));
    DecideTagged(st.dirs, catalog, file);
    assert Step(st, catalog, file, outcome) == Apply(st, Tag(tags), file, outcome);
    ApplyTagged(st, tags, file, outcome);
  }

  /** Carrying out a decision to tag: the file is copied to `done` when it is still in
      `download`, one write is issued, and the file is recorded as done when the writer
      returned a truthy value and as failed otherwise. */
  lemma ApplyTagged(st: State, tags: Tags, file: string, outcome: WriteResult)
    ensures Apply(st, Tag(tags), file, outcome)
            == State(CopyToDone(st.dirs, file),
                     if outcome == Returned(true) then st.results.(done := st.results.done + [file])
                     else st.results.(failed := st.results.failed + [file]),
                     st.writes + [TagWrite(file, tags)])
  {
  }

  /** A name that is not an audio file changes nothing at all. */
  lemma NotAudioIgnored(st: State, catalog: seq<Entry>, file: string, outcome: WriteResult)
    requires !IsAudio(file)
    ensures Step(st, catalog, file, outcome) == st
  {
    assert st.results == Record(st.results, None, file);
  }

  // ---------------------------------------------------------------------------------
  // The main loop
  // ---------------------------------------------------------------------------------

  lemma RunAllLast(st: State, catalog: seq<Entry>, listing: seq<string>, outcomes: seq<WriteResult>, n: nat)
    requires |outcomes| == |listing| && n < |listing|
    ensures RunAll(st, catalog, listing[..n + 1], outcomes[..n + 1])
         == Step(RunAll(st, catalog, listing[..n], outcomes[..n]), catalog, listing[n], outcomes[n])
  {
    assert listing[..n + 1][..n] == listing[..n];
    assert outcomes[..n + 1][..n] == outcomes[..n];
  }

  lemma DecideAudio(dirs: Dirs, catalog: seq<Entry>, file: string)
    ensures forall outcome :: ListFor(Decide(dirs, catalog, file), outcome).Some? <==> IsAudio(file)
  {
    var d := Decide(dirs, catalog, file);
    assert d != NotAudio <==> IsAudio(file) by {
      if IsAudio(file) && file !in dirs.done {
        DecideMatched(dirs, catalog, file);
      }
    }
    ListedUnlessIgnored(d);
  }

  /** An audio file not yet in `done` is never ignored. */
  lemma DecideMatched(dirs: Dirs, catalog: seq<Entry>, file: string)
    requires IsAudio(file) && file !in dirs.done
    ensures Decide(dirs, catalog, file) != NotAudio
  {
    var p := Parsed(file);
    var found := Find(catalog, p.title, p.artist);
    if found.Some? {
      var base := AudioBase(file);
      if FirstExisting(dirs.download, base, ImageExts).None? && LyricsFile(dirs.download, base).None? {
        DecideNoAssets(dirs, catalog, file);
      } else {
        DecideTagged(dirs, catalog, file);
      }
    }
  }

  /** Every decision but ignoring the name records it in some list. */
  lemma ListedUnlessIgnored(d: Disposition)
    ensures forall outcome :: ListFor(d, outcome).Some? <==> d != NotAudio
  {
  }

  /** Every name of the listing is recorded in at most one list, and exactly the audio
      names are recorded. */
  lemma {:induction false} TrackIffAudio(st: State, catalog: seq<Entry>, listing: seq<string>, outcomes: seq<WriteResult>)
    requires |outcomes| == |listing|
    ensures var t := Track(st, catalog, listing, outcomes);
            forall i :: 0 <= i < |listing| ==> (t[i].Some? <==> IsAudio(listing[i]))
    decreases |listing|
  {
    if listing != [] {
      var n := |listing| - 1;
      var t := Track(st, catalog, listing, outcomes);
      TrackIffAudio(st, catalog, listing[..n], outcomes[..n]);
      var before := RunAll(st, catalog, listing[..n], outcomes[..n]);
      var prefix := Track(st, catalog, listing[..n], outcomes[..n]);
      var last := ListFor(Decide(before.dirs, catalog, listing[n]), outcomes[n]);
      assert t == prefix + [last];
      assert last.Some? <==> IsAudio(listing[n]) by {
        DecideAudio(before.dirs, catalog, listing[n]);
      }
      ExtendIffAudio(prefix, last, listing);
    }
  }

  lemma ExtendIffAudio(prefix: seq<Option<List>>, last: Option<List>, listing: seq<string>)
    requires |listing| == |prefix| + 1
    requires forall i :: 0 <= i < |prefix| ==> (prefix[i].Some? <==> IsAudio(listing[..|prefix|][i]))
    requires last.Some? <==> IsAudio(listing[|prefix|])
    ensures forall i :: 0 <= i < |listing| ==> ((prefix + [last])[i].Some? <==> IsAudio(listing[i]))
  {
    forall i | 0 <= i < |listing| ensures (prefix + [last])[i].Some? <==> IsAudio(listing[i]) {
      if i < |prefix| {
        assert (prefix + [last])[i] == prefix[i] && listing[..|prefix|][i] == listing[i];
      } else {
        assert (prefix + [last])[i] == last && i == |prefix|;
      }
    }
  }

  lemma {:induction false} RunResults(st: State, catalog: seq<Entry>, listing: seq<string>, outcomes: seq<WriteResult>, l: List)
    requires |outcomes| == |listing|
    ensures Entries(RunAll(st, catalog, listing, outcomes).results, l)
         == Entries(st.results, l) + Picked(listing, Track(st, catalog, listing, outcomes), l)
    decreases |listing|
  {
    if listing != [] {
      var n := |listing| - 1;
      var t := Track(st, catalog, listing, outcomes);
      RunResults(st, catalog, listing[..n], outcomes[..n], l);
      var before := RunAll(st, catalog, listing[..n], outcomes[..n]);
      var last := ListFor(Decide(before.dirs, catalog, listing[n]), outcomes[n]);
      assert RunAll(st, catalog, listing, outcomes) == Step(before, catalog, listing[n], outcomes[n]);
      assert t == Track(st, catalog, listing[..n], outcomes[..n]) + [last];
      assert t[..n] == Track(st, catalog, listing[..n], outcomes[..n]);
      StepRecords(before, catalog, listing[n], outcomes[n], l);
      assert Picked(listing, t, l) == Picked(listing[..n], t[..n], l) + if t[n] == Some(l) then [listing[n]] else [];
    }
  }

  lemma StepRecords(st: State, catalog: seq<Entry>, file: string, outcome: WriteResult, l: List)
    ensures Entries(Step(st, catalog, file, outcome).results, l)
         == Entries(st.results, l) + if ListFor(Decide(st.dirs, catalog, file), outcome) == Some(l) then [file] else []
  {
    ApplyEffect(st, Decide(st.dirs, catalog, file), file, outcome);
  }

  /** `download` only loses names, and only names of the listing that were moved to
      `skipped`; `done` and `skipped` only gain names of the listing. */
  lemma {:induction false} RunDirs(st: State, catalog: seq<Entry>, listing: seq<string>, outcomes: seq<WriteResult>)
    requires |outcomes| == |listing|
    ensures var r := RunAll(st, catalog, listing, outcomes).dirs;
            && r.download <= st.dirs.download
            && st.dirs.done <= r.done && st.dirs.skipped <= r.skipped
            && (forall f :: f in st.dirs.download - r.download ==> f in r.skipped && f in listing)
            && (forall f :: f in r.done - st.dirs.done ==> f in listing)
            && (forall f :: f in r.skipped - st.dirs.skipped ==> f in listing)
    decreases |listing|
  {
    if listing != [] {
      var n := |listing| - 1;
      RunDirs(st, catalog, listing[..n], outcomes[..n]);
      var before := RunAll(st, catalog, listing[..n], outcomes[..n]);
      ApplyEffect(before, Decide(before.dirs, catalog, listing[n]), listing[n], outcomes[n]);
      assert forall f :: f in listing[..n] ==> f in listing;
    }
  }

  /** The names the given tag writes were issued for. */
  function Targets(writes: seq<TagWrite>): set<string> {
    set w | w in writes :: w.target
  }

  /** One step adds to `done` only a name it issued a tag write for. */
  lemma StepWrites(st: State, catalog: seq<Entry>, file: string, outcome: WriteResult)
    ensures var r := Step(st, catalog, file, outcome);
            && st.writes <= r.writes
            && r.dirs.done - st.dirs.done <= Targets(r.writes[|st.writes|..])
  {
    ApplyWrites(st, Decide(st.dirs, catalog, file), file, outcome);
  }

  lemma ApplyWrites(st: State, d: Disposition, file: string, outcome: WriteResult)
    ensures var r := Apply(st, d, file, outcome);
            && st.writes <= r.writes
            && r.dirs.done - st.dirs.done <= Targets(r.writes[|st.writes|..])
  {
    ApplyEffect(st, d, file, outcome);
    var r := Apply(st, d, file, outcome);
    if d.Tag? {
      assert r.writes[|st.writes|..] == [TagWrite(file, d.tags)];
    }
  }

  /** Every name that appears in `done` during the run has had a tag write issued for it. */
  lemma {:induction false} RunWritesCopies(st: State, catalog: seq<Entry>, listing: seq<string>, outcomes: seq<WriteResult>)
    requires |outcomes| == |listing|
    ensures var r := RunAll(st, catalog, listing, outcomes);
            && st.writes <= r.writes
            && r.dirs.done - st.dirs.done <= Targets(r.writes[|st.writes|..])
    decreases |listing|
  {
    if listing != [] {
      var n := |listing| - 1;
      RunWritesCopies(st, catalog, listing[..n], outcomes[..n]);
      var before := RunAll(st, catalog, listing[..n], outcomes[..n]);
      var r := RunAll(st, catalog, listing, outcomes);
      assert r == Step(before, catalog, listing[n], outcomes[n]);
      StepWrites(before, catalog, listing[n], outcomes[n]);
      CopiesExtend(st, before, r);
    }
  }

  lemma CopiesExtend(st: State, mid: State, r: State)
    requires st.writes <= mid.writes && mid.dirs.done - st.dirs.done <= Targets(mid.writes[|st.writes|..])
    requires mid.writes <= r.writes && r.dirs.done - mid.dirs.done <= Targets(r.writes[|mid.writes|..])
    ensures st.writes <= r.writes && r.dirs.done - st.dirs.done <= Targets(r.writes[|st.writes|..])
  {
    var k := |st.writes|;
    assert r.writes[k..] == mid.writes[k..] + r.writes[|mid.writes|..];
    TargetsOfAppend(mid.writes[k..], r.writes[|mid.writes|..]);
  }

  lemma TargetsOfAppend(a: seq<TagWrite>, b: seq<TagWrite>)
    ensures Targets(a + b) == Targets(a) + Targets(b)
  {
    assert forall w :: w in a + b <==> w in a || w in b;
  }

  /** With the processed file still in `download`, the `done` list keeps naming only
      files present in `done`. */
  lemma StepDoneListed(st: State, catalog: seq<Entry>, file: string, outcome: WriteResult)
    requires file in st.dirs.download
    requires forall f :: f in st.results.done ==> f in st.dirs.done
    ensures var r := Step(st, catalog, file, outcome);
            forall f :: f in r.results.done ==> f in r.dirs.done
  {
    var d := Decide(st.dirs, catalog, file);
    ApplyEffect(st, d, file, outcome);
    assert Step(st, catalog, file, outcome).results.done == Entries(Step(st, catalog, file, outcome).results, DoneList);
  }

  /** The `done` list names only files present in `done`, provided it did so at the
      start, and the listing names distinct files of `download`, as a directory read
      gives them. */
  lemma {:induction false} RunDoneListed(st: State, catalog: seq<Entry>, listing: seq<string>, outcomes: seq<WriteResult>)
    requires |outcomes| == |listing|
    requires forall f :: f in st.results.done ==> f in st.dirs.done
    requires forall i :: 0 <= i < |listing| ==> listing[i] in st.dirs.download
    requires forall i, j :: 0 <= i < j < |listing| ==> listing[i] != listing[j]
    ensures var r := RunAll(st, catalog, listing, outcomes);
            forall f :: f in r.results.done ==> f in r.dirs.done
    decreases |listing|
  {
    if listing != [] {
      var n := |listing| - 1;
      RunDoneListed(st, catalog, listing[..n], outcomes[..n]);
      RunDirs(st, catalog, listing[..n], outcomes[..n]);
      var before := RunAll(st, catalog, listing[..n], outcomes[..n]);
      assert listing[n] !in listing[..n];
      assert listing[n] in before.dirs.download;
      StepDoneListed(before, catalog, listing[n], outcomes[n]);
    }
  }

  /** With an empty catalog, which is what a missing or malformed `detail.json` leaves,
      no file is moved, copied or tagged, and nothing reaches `done` or `failed`. */
  lemma {:induction false} EmptyCatalogRun(st: State, listing: seq<string>, outcomes: seq<WriteResult>)
    requires |outcomes| == |listing|
    ensures var r := RunAll(st, [], listing, outcomes);
            r.dirs == st.dirs && r.writes == st.writes
            && r.results.done == st.results.done && r.results.failed == st.results.failed
    decreases |listing|
  {
    if listing != [] {
      var n := |listing| - 1;
      EmptyCatalogRun(st, listing[..n], outcomes[..n]);
      var before := RunAll(st, [], listing[..n], outcomes[..n]);
      assert listing[..n + 1] == listing && outcomes[..n + 1] == outcomes;
      RunAllLast(st, [], listing, outcomes, n);
      StepEmptyCatalog(before, listing[n], outcomes[n]);
    }
  }

  /** With no catalog one step neither moves, copies nor tags anything. */
  lemma StepEmptyCatalog(st: State, file: string, outcome: WriteResult)
    ensures var r := Step(st, [], file, outcome);
            r.dirs == st.dirs && r.writes == st.writes
            && r.results.done == st.results.done && r.results.failed == st.results.failed
  {
    var d := Decide(st.dirs, [], file);
    assert d == NotAudio || d == AlreadyDone || d == NoMatch by {
      DecideOrder(st.dirs, [], file);
    }
    assert Step(st, [], file, outcome) == Apply(st, d, file, outcome);
    ApplyUntagged(st, d, file, outcome);
  }

  /** Carrying out a decision that neither tags nor moves leaves the directories, the
      writes, `done` and `failed` as they were. */
  lemma ApplyUntagged(st: State, d: Disposition, file: string, outcome: WriteResult)
    requires d == NotAudio || d == AlreadyDone || d == NoMatch
    ensures var r := Apply(st, d, file, outcome);
            r.dirs == st.dirs && r.writes == st.writes
            && r.results.done == st.results.done && r.results.failed == st.results.failed
  {
    ApplyEffect(st, d, file, outcome);
    assert Entries(Apply(st, d, file, outcome).results, DoneList) == st.results.done;
    assert Entries(Apply(st, d, file, outcome).results, FailedList) == st.results.failed;
  }

  // ---------------------------------------------------------------------------------
  // Running again
  // ---------------------------------------------------------------------------------

  /** The catalog has no record for the title and artist parsed from an audio file's
      name. */
  predicate Unmatched(catalog: seq<Entry>, file: string)
    requires IsAudio(file)
  {
    Find(catalog, Parsed(file).title, Parsed(file).artist).None?
  }

  /** An audio file is settled when running it again can change nothing: it is in
      `done`, or it has left `download`, or the catalog has no record for it. */
  predicate Settled(dirs: Dirs, catalog: seq<Entry>, file: string)
    requires IsAudio(file)
  {
    file in dirs.done || file !in dirs.download || Unmatched(catalog, file)
  }

  /** A step never takes a name out of `done` and never puts one into `download`. */
  lemma StepMonotone(st: State, catalog: seq<Entry>, file: string, outcome: WriteResult)
    ensures var r := Step(st, catalog, file, outcome).dirs;
            st.dirs.done <= r.done && r.download <= st.dirs.download
  {
    ApplyEffect(st, Decide(st.dirs, catalog, file), file, outcome);
  }

  lemma SettledMonotone(d1: Dirs, d2: Dirs, catalog: seq<Entry>, file: string)
    requires IsAudio(file) && Settled(d1, catalog, file)
    requires d1.done <= d2.done && d2.download <= d1.download
    ensures Settled(d2, catalog, file)
  {
  }

  lemma StepSettles(st: State, catalog: seq<Entry>, file: string, outcome: WriteResult)
    requires IsAudio(file)
    ensures Settled(Step(st, catalog, file, outcome).dirs, catalog, file)
  {
    ApplyEffect(st, Decide(st.dirs, catalog, file), file, outcome);
  }

  /** After a run every audio file of the listing is settled. */
  lemma {:induction false} RunSettles(st: State, catalog: seq<Entry>, listing: seq<string>, outcomes: seq<WriteResult>)
    requires |outcomes| == |listing|
    ensures var r := RunAll(st, catalog, listing, outcomes);
            forall i :: 0 <= i < |listing| && IsAudio(listing[i]) ==> Settled(r.dirs, catalog, listing[i])
    decreases |listing|
  {
    if listing != [] {
      var n := |listing| - 1;
      RunSettles(st, catalog, listing[..n], outcomes[..n]);
      var before := RunAll(st, catalog, listing[..n], outcomes[..n]);
      var r := RunAll(st, catalog, listing, outcomes);
      assert r == Step(before, catalog, listing[n], outcomes[n]);
      StepMonotone(before, catalog, listing[n], outcomes[n]);
      if IsAudio(listing[n]) {
        StepSettles(before, catalog, listing[n], outcomes[n]);
      }
      forall i | 0 <= i < |listing| && IsAudio(listing[i])
        ensures Settled(r.dirs, catalog, listing[i])
      {
        if i < n {
          assert listing[..n][i] == listing[i];
          SettledMonotone(before.dirs, r.dirs, catalog, listing[i]);
          assert Settled(r.dirs, catalog, listing[i]);
        } else {
          assert i == n;
          assert Settled(r.dirs, catalog, listing[i]);
        }
      }
    }
  }

  /** Processing a settled file that is still in `download` leaves the directories and
      the tag writes alone. */
  lemma StepOnSettled(st: State, catalog: seq<Entry>, file: string, outcome: WriteResult)
    requires IsAudio(file) ==> Settled(st.dirs, catalog, file) && file in st.dirs.download
    ensures var r := Step(st, catalog, file, outcome);
            r.dirs == st.dirs && r.writes == st.writes
            && r.results.done == st.results.done && r.results.failed == st.results.failed
  {
    if !IsAudio(file) {
      NotAudioIgnored(st, catalog, file, outcome);
    } else if file in st.dirs.done {
      StepAlreadyDone(st, catalog, file, outcome);
    } else {
      assert Unmatched(catalog, file);
      StepNoMatch(st, catalog, file, outcome);
    }
  }

  lemma {:induction false} RunOnSettled(st: State, catalog: seq<Entry>, listing: seq<string>, outcomes: seq<WriteResult>)
    requires |outcomes| == |listing|
    requires forall i :: 0 <= i < |listing| && IsAudio(listing[i]) ==> Settled(st.dirs, catalog, listing[i]) && listing[i] in st.dirs.download
    ensures var r := RunAll(st, catalog, listing, outcomes);
            r.dirs == st.dirs && r.writes == st.writes
            && r.results.done == st.results.done && r.results.failed == st.results.failed
    decreases |listing|
  {
    if listing != [] {
      var n := |listing| - 1;
      forall i | 0 <= i < n && IsAudio(listing[..n][i])
        ensures Settled(st.dirs, catalog, listing[..n][i]) && listing[..n][i] in st.dirs.download
      {
        assert listing[..n][i] == listing[i];
      }
      RunOnSettled(st, catalog, listing[..n], outcomes[..n]);
      StepOnSettled(RunAll(st, catalog, listing[..n], outcomes[..n]), catalog, listing[n], outcomes[n]);
    }
  }

  /** Running the script a second time, over what is left in `download` and with the
      same catalog, moves, copies and tags nothing and adds nothing to `done` or
      `failed`: every file is skipped as existing or as unmatched. */
  lemma Rerun(st: State, catalog: seq<Entry>, first: seq<string>, outcomes1: seq<WriteResult>,
              second: seq<string>, outcomes2: seq<WriteResult>)
    requires |outcomes1| == |first| && |outcomes2| == |second|
    requires forall f :: f in second ==> f in first && f in RunAll(st, catalog, first, outcomes1).dirs.download
    ensures var st1 := RunAll(st, catalog, first, outcomes1);
            var st2 := RunAll(st1, catalog, second, outcomes2);
            st2.dirs == st1.dirs && st2.writes == st1.writes
            && st2.results.done == st1.results.done && st2.results.failed == st1.results.failed
  ensures var st1 := RunAll(st, catalog, first, outcomes1);
          var t := Track(st1, catalog, second, outcomes2);
          forall i :: 0 <= i < |second| && IsAudio(second[i]) ==> t[i] == Some(RerunList(st1.dirs, second[i]))
  {
    var st1 := RunAll(st, catalog, first, outcomes1);
    RunSettles(st, catalog, first, outcomes1);
    forall i | 0 <= i < |second| && IsAudio(second[i])
      ensures Settled(st1.dirs, catalog, second[i]) && second[i] in st1.dirs.download
    {
      assert second[i] in second;
      var j :| 0 <= j < |first| && first[j] == second[i];
    }
    RunOnSettled(st1, catalog, second, outcomes2);
    TrackOnSettled(st1, catalog, second, outcomes2);
  }

  /** The list a settled name still in `download` is recorded in when it comes round
      again: `skippedExisting` when it is in `done`, `skipped` otherwise. */
  function RerunList(dirs: Dirs, file: string): List {
    if file in dirs.done then ExistingList else SkippedList
  }

  /** A settled audio name still in `download` is either already done or unknown to the
      catalog. */
  lemma DecideSettled(dirs: Dirs, catalog: seq<Entry>, file: string)
    requires IsAudio(file) && Settled(dirs, catalog, file) && file in dirs.download
    ensures Decide(dirs, catalog, file) == if file in dirs.done then AlreadyDone else NoMatch
  {
  }

  /** Over settled names still in `download`, each audio name is recorded in its
      `RerunList`. */
  lemma {:induction false} TrackOnSettled(st: State, catalog: seq<Entry>, listing: seq<string>, outcomes: seq<WriteResult>)
    requires |outcomes| == |listing|
    requires forall i :: 0 <= i < |listing| && IsAudio(listing[i]) ==> Settled(st.dirs, catalog, listing[i]) && listing[i] in st.dirs.download
    ensures var t := Track(st, catalog, listing, outcomes);
            forall i :: 0 <= i < |listing| && IsAudio(listing[i]) ==> t[i] == Some(RerunList(st.dirs, listing[i]))
    decreases |listing|
  {
    if listing != [] {
      var n := |listing| - 1;
      forall i | 0 <= i < n && IsAudio(listing[..n][i])
        ensures Settled(st.dirs, catalog, listing[..n][i]) && listing[..n][i] in st.dirs.download
      {
        assert listing[..n][i] == listing[i];
      }
      TrackOnSettled(st, catalog, listing[..n], outcomes[..n]);
      RunOnSettled(st, catalog, listing[..n], outcomes[..n]);
      var before := RunAll(st, catalog, listing[..n], outcomes[..n]);
      var prefix := Track(st, catalog, listing[..n], outcomes[..n]);
      var last := ListFor(Decide(before.dirs, catalog, listing[n]), outcomes[n]);
      assert Track(st, catalog, listing, outcomes) == prefix + [last];
      if IsAudio(listing[n]) {
        DecideSettled(before.dirs, catalog, listing[n]);
      }
      ExtendRerun(prefix, last, listing, st.dirs, IsAudio);
    }
  }

  lemma ExtendRerun(prefix: seq<Option<List>>, last: Option<List>, listing: seq<string>, dirs: Dirs, audio: string -> bool)
    requires |listing| == |prefix| + 1
    requires forall i :: 0 <= i < |prefix| && audio(listing[..|prefix|][i]) ==> prefix[i] == Some(RerunList(dirs, listing[..|prefix|][i]))
    requires audio(listing[|prefix|]) ==> last == Some(RerunList(dirs, listing[|prefix|]))
    ensures forall i :: 0 <= i < |listing| && audio(listing[i]) ==> (prefix + [last])[i] == Some(RerunList(dirs, listing[i]))
  {
    forall i | 0 <= i < |listing| && audio(listing[i]) ensures (prefix + [last])[i] == Some(RerunList(dirs, listing[i])) {
      if i < |prefix| {
        assert (prefix + [last])[i] == prefix[i] && listing[..|prefix|][i] == listing[i];
      } else {
        assert (prefix + [last])[i] == last && i == |prefix|;
      }
    }
  }
}
