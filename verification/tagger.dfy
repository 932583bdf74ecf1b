/** The tagger as the script runs it: the catalog loaded once, the three directories, the
    `results` object that the steps push names into, and the tag writes issued. Each
    method does what the corresponding part of the script does, step by step, and is
    proved to have the effect that `Pipeline` gives it as a value. */
module Mp3Tag {
  import opened Wrappers
  import opened Text
  import opened FileName
  import opened Catalog
  import opened Sidecar
  import opened Pipeline

  class Tagger {
    /** The records of `detail.json`, or none when it could not be read or parsed. */
    const catalog: seq<Entry>
    /** The names in `download`, `done` and `skipped`. */
    var download: set<string>
    var done: set<string>
    var skipped: set<string>
    /** The `results` object. */
    var results: Results
    /** The calls made to the tag writer so far, in order. */
    var writes: seq<TagWrite>

    /** The tagger's state as a value. */
    function Snapshot(): State
      reads this
    {
      State(Dirs(download, done, skipped), results, writes)
    }

    /** Start-up: the catalog is what `detail.json` parsed to, or empty when reading or
        parsing failed; the four result lists are empty. Creating `done` and `skipped`
        when they are missing adds no names to them. */
    constructor (detail: Option<seq<Entry>>, download: set<string>, done: set<string>, skipped: set<string>)
      ensures catalog == if detail.Some? then detail.value else []
      ensures Snapshot() == State(Dirs(download, done, skipped), Results([], [], [], []), [])
    {
      catalog := if detail.Some? then detail.value else [];
      this.download := download;
      this.done := done;
      this.skipped := skipped;
      results := Results([], [], [], []);
      writes := [];
    }

    /** `findCover`: probes `base + ext` for each cover extension in order and returns
        the first that exists. */
    method FindCover(base: string) returns (cover: Option<string>)
      ensures cover == FirstExisting(download, base, ImageExts)
    {
      var i := 0;
      while i < |ImageExts|
        invariant 0 <= i <= |ImageExts|
        invariant FirstExisting(download, base, ImageExts) == FirstExisting(download, base, ImageExts[i..])
      {
        if base + ImageExts[i] in download {
          return Some(base + ImageExts[i]);
        }
        assert ImageExts[i..][1..] == ImageExts[i + 1..];
        i := i + 1;
      }
      return None;
    }

    /** `findLyrics`: probes `base.lrc`. */
    method FindLyrics(base: string) returns (lyrics: Option<string>)
      ensures lyrics == LyricsFile(download, base)
    {
      var file := base + LyricsExt;
      if file in download {
        return Some(file);
      }
      return None;
    }

    /** `fs.rename` of `file` from `download` to `skipped`; it succeeds exactly when the
        file is in `download`, and the caller ignores a failure. */
    method Rename(file: string) returns (ok: bool)
      modifies this
      ensures ok <==> file in old(download)
      ensures Dirs(download, done, skipped) == MoveToSkipped(old(Dirs(download, done, skipped)), file)
      ensures results == old(results) && writes == old(writes)
    {
      ok := file in download;
      if ok {
        download := download - {file};
        skipped := skipped + {file};
      }
    }

    /** `fs.copyFile` of `file` from `download` to `done`; it succeeds exactly when the
        file is in `download`, and the caller ignores a failure. */
    method CopyFile(file: string) returns (ok: bool)
      modifies this
      ensures ok <==> file in old(download)
      ensures Dirs(download, done, skipped) == CopyToDone(old(Dirs(download, done, skipped)), file)
      ensures results == old(results) && writes == old(writes)
    {
      ok := file in download;
      if ok {
        done := done + {file};
      }
    }

    /** `processFile(file)`, with `outcome` standing for what the tag writer does if it
        is called: names that are not audio are ignored, an audio file already in `done`
        is recorded as existing, one the catalog has no record for as skipped, and a
        matched one goes on to `ProcessMatch`. */
    method ProcessFile(file: string, outcome: WriteResult)
      modifies this
      ensures Snapshot() == Step(old(Snapshot()), catalog, file, outcome)
    {
      ghost var st := Snapshot();
      var ext := LowerAscii(Extname(file));
      if ext != ".mp3" {
        NotAudioIgnored(st, catalog, file, outcome);
        return;
      }
      var base := Basename(file, ext);
      assert base == AudioBase(file);

      if file in done {
        StepAlreadyDone(st, catalog, file, outcome);
        results := results.(skippedExisting := results.skippedExisting + [file]);
        return;
      }

      var parsed := ParseFileName(base);
      var found := Find(catalog, parsed.title, parsed.artist);
      if found.None? {
        StepNoMatch(st, catalog, file, outcome);
        results := results.(skipped := results.skipped + [file]);
        return;
      }
      ghost var cover := FirstExisting(download, base, ImageExts);
      ghost var lyrics := LyricsFile(download, base);
      if cover.None? && lyrics.None? {
        DecideNoAssets(st.dirs, catalog, file);
      } else {
        DecideTagged(st.dirs, catalog, file);
      }
      ProcessMatch(file, base, parsed, found.value, outcome);
    }

    /** The rest of `processFile` once the catalog has a record for the file: with
        neither cover nor lyrics the file is moved to `skipped` and recorded there,
        otherwise its tags are written by `WriteTags`. */
    method ProcessMatch(file: string, base: string, parsed: ParsedName, entry: Entry, outcome: WriteResult)
      modifies this
      ensures var cover := FirstExisting(old(download), base, ImageExts);
              var lyrics := LyricsFile(old(download), base);
              Snapshot() == Apply(old(Snapshot()),
                                  if cover.None? && lyrics.None? then NoAssets
                                  else Tag(TagsFor(parsed, entry, cover, lyrics)),
                                  file, outcome)
    {
      var imagePath := FindCover(base);
      var lyricPath := FindLyrics(base);

      if imagePath.None? && lyricPath.None? {
        var _ := Rename(file);
        results := results.(skipped := results.skipped + [file]);
        return;
      }

      WriteTags(file, parsed, entry, imagePath, lyricPath, outcome);
    }

    /** Tagging a matched file: the year is kept when truthy, the file is copied to
        `done`, the cover (typed PNG when its extension is `.png`, JPEG otherwise) and the
        lyrics are attached when found, the writer is called on the copy, and the file is
        recorded as done when the writer returned a truthy value and as failed when it
        returned a falsy one or threw. */
    method WriteTags(file: string, parsed: ParsedName, entry: Entry,
                     imagePath: Option<string>, lyricPath: Option<string>, outcome: WriteResult)
      modifies this
      ensures Snapshot() == Apply(old(Snapshot()), Tag(TagsFor(parsed, entry, imagePath, lyricPath)), file, outcome)
    {
      ghost var st := Snapshot();
      var year: Option<Value> := None;
      if Truthy(entry.year) {
        year := Some(entry.year);
      }

      var _ := CopyFile(file);

      var image: Option<Picture> := None;
      if imagePath.Some? {
        var mime := if LowerAscii(Extname(imagePath.value)) == ".png" then "image/png" else "image/jpeg";
        image := Some(Picture(mime, 3, "front cover", "cover", imagePath.value));
      }

      var lyrics: Option<Lyrics> := None;
      if lyricPath.Some? {
        lyrics := Some(Lyrics("chi", lyricPath.value));
      }

      var tags := Tags(parsed.artist, parsed.title, parsed.album, year, image, lyrics);
      assert tags == TagsFor(parsed, entry, imagePath, lyricPath);
      ApplyTagged(st, tags, file, outcome);
      writes := writes + [TagWrite(file, tags)];
      if outcome == Returned(true) {
        results := results.(done := results.done + [file]);
      } else {
        results := results.(failed := results.failed + [file]);
      }
    }

    /** The main loop: `processFile` for each name of the `download` listing, in order,
        with one writer outcome per name. */
    method Run(listing: seq<string>, outcomes: seq<WriteResult>)
      requires |outcomes| == |listing|
      modifies this
      ensures Snapshot() == RunAll(old(Snapshot()), catalog, listing, outcomes)
    {
      ghost var st := Snapshot();
      for i := 0 to |listing|
        invariant Snapshot() == RunAll(st, catalog, listing[..i], outcomes[..i])
      {
        RunAllLast(st, catalog, listing, outcomes, i);
        ProcessFile(listing[i], outcomes[i]);
      }
      assert listing[..|listing|] == listing && outcomes[..|outcomes|] == outcomes;
    }
  }
}
