# mp3tag.js, modelled in Dafny

`mp3tag.js` is a batch tagger for MP3 files. It lists a `download` directory and handles each
`.mp3` name in turn:

- it parses artist, title and album out of the base name with two anchored regular
  expressions;
- it looks the (title, artist) pair up in a catalog read from `detail.json`, keeping the
  record's year only when it is truthy;
- it searches `download` for a cover (`.jpg`, `.jpeg`, `.png`, in that order) and a
  lyrics file (`.lrc`).

Each name then has one of five outcomes:

- already in `done`: recorded as `skippedExisting`;
- not in the catalog: recorded as `skipped`;
- neither cover nor lyrics: moved to `skipped` and recorded there;
- otherwise: copied to `done` and tagged, then recorded as `done` when the tag writer
  returns a truthy value, or as `failed` when it returns a falsy one or throws.

The four result lists form the run's log.

The model has eight modules, one per file:

- `Wrappers` (`wrappers.dfy`): the `Option` type.
- `Text` (`text.dfy`): the JavaScript whitespace set, `trim`, and `toLowerCase` on ASCII.
- `Regex` (`regex.dfy`): a small backtracking matcher for exactly the constructs the two
  patterns use: lazy `(.*?)`, greedy `(.*)`, greedy `\s*`, a literal `-`, and the anchors
  `^…$`. As in ECMAScript, `.` does not match a line terminator.
- `FileName` (`filename.dfy`):
  - `path.extname` and `path.basename`;
  - the audio test;
  - `parseFileName`, defined by running the matcher;
  - lemmas that state in closed form what the parse returns: a split at the first two
    hyphens, then trimmed.
- `Catalog` (`catalog.dfy`): catalog records as JavaScript values, truthiness, the
  first-match `find`, and the year rule.
- `Sidecar` (`sidecar.dfy`): the ordered probe for covers and lyrics, and the MIME choice.
- `Pipeline` (`pipeline.dfy`): the whole run as values.
  - `Decide` gives the ordered outcome for one name, `Step` its effect, and `RunAll` the
    effect of the main loop.
  - Lemmas state what each outcome does and what a run guarantees. A run records each
    audio name in exactly one list, in listing order. It changes nothing for names that
    are already settled, so a second run is idempotent.
- `Mp3Tag` (`tagger.dfy`): the script as it runs. The class `Tagger` has:
  - fields for the three directories, the `results` object and the writer calls;
  - `FindCover`, `FindLyrics`, `ProcessFile` and `Run` as methods that update those fields.

  Each method is proved to have exactly the effect that `Pipeline` gives it.

The file system appears as three sets of names. `fs.access` succeeding is membership;
`rename` and `copyFile` succeed exactly when the source name is still in `download`, and
their failures are swallowed as in the script. The tag writer is an oracle: `Run` takes one
`WriteResult` per listed name, saying whether the writer returned a truthy value, a falsy
value, or threw. Every call to the writer is logged with its target and its tags.

Three details of the code that the model keeps as written:

- A year is attached only when it is truthy (`mp3tag.js:90`), not whenever the record
  carries one, so a year of `0` or `""` is dropped.
- With two or more hyphens, the album is everything after the second hyphen, further
  hyphens included.
- With no hyphen, the title is the base name untrimmed.

## Model

| member | source | states |
|---|---|---|
| Text.SpaceEnd | mp3tag.js:55 | a greedy `\s*` from `i` stops at the first character that is not JavaScript whitespace (or at the end) |
| Text.IndexFrom | mp3tag.js:55 | the index of the first `c` at or after `i`, or the length when there is none |
| Text.Trim | mp3tag.js:56 | `String.prototype.trim`: its meaning is stated by `Text.TrimInfix`, `Text.TrimDropsSpaces`, `Text.TrimEnds`, `Text.TrimIgnoresSpaces` and `Text.TrimSlice` |
| Text.TrimStart | mp3tag.js:56 | the result is a suffix of the input, everything removed is whitespace, and it does not start with whitespace |
| Text.TrimEnd | mp3tag.js:56 | the result is a prefix of the input, everything removed is whitespace, and it does not end with whitespace |
| Text.TrimInfix | mp3tag.js:56 | `trim` returns a contiguous slice of its input, starting where the leading whitespace ends |
| Text.TrimDropsSpaces | mp3tag.js:56 | all that `trim` removes on either side is whitespace |
| Text.TrimEnds | mp3tag.js:56 | a trimmed non-empty string neither begins nor ends with whitespace |
| Text.TrimIgnoresSpaces | mp3tag.js:56 | whitespace added on either side does not change the result of `trim` |
| Text.TrimSlice | mp3tag.js:56 | trimming a slice equals trimming it without whitespace runs at its two ends |
| Text.LowerAscii | mp3tag.js:64 | `toLowerCase` keeps the length and lowers each ASCII capital, leaving every other character |
| Text.LowerAsciiKeeps | mp3tag.js:106 | a string with no ASCII capital is its own lower-case form |
| Regex.Match | mp3tag.js:55 | a successful match yields the captures so far plus one in-bounds span per group of the pattern |
| Regex.Lazy | mp3tag.js:55 | `(.*?)`: on success, the captures so far plus one in-bounds span per remaining group; the shortest-first order is stated by `Regex.LazySkip` and `Regex.LazyExhausted` |
| Regex.Greedy | mp3tag.js:55 | `(.*)` and `\s*`: on success, the captures so far plus one in-bounds span per remaining group; the longest-first order is stated by `Regex.GreedyExhausted` and `Regex.GreedyLongestOnly` |
| Regex.LazySkip | mp3tag.js:55 | a lazy group moves past every end position at which the rest of the pattern fails |
| Regex.LazyExhausted | mp3tag.js:55 | a lazy group fails when the rest of the pattern fails at every end position |
| Regex.GreedyExhausted | mp3tag.js:55 | a greedy item fails when the rest fails at every end position |
| Regex.GreedyLongestOnly | mp3tag.js:55 | a greedy item's result is that of its longest extension when every shorter one fails |
| Regex.TwoPartFrom | mp3tag.js:57 | the two-part pattern from `pos` splits at the first hyphen, dropping the whitespace around it, and fails when there is none |
| Regex.ThreePartMatches | mp3tag.js:55 | with two hyphens or more, the three-part pattern captures the text before the first, between the first and second, and after the second, each without the whitespace that touches a hyphen |
| Regex.MatchNeeds | mp3tag.js:55 | a successful match needs at least as many occurrences of `c` in the rest of the input as the pattern has literal `c` items |
| Regex.ThreePartFails | mp3tag.js:55 | with at most one hyphen the three-part pattern does not match, whatever else the string holds, line terminators included |
| Regex.TwoPartMatches | mp3tag.js:57 | with a hyphen, the two-part pattern captures the text before the first one and everything after it |
| Regex.TwoPartFails | mp3tag.js:57 | without a hyphen the two-part pattern does not match, whatever else the string holds, line terminators included |
| FileName.LastDot | mp3tag.js:64 | the position of the last `.` in the name, or none |
| FileName.Extname | mp3tag.js:64 | `path.extname`: empty exactly when the name is `..` or has no dot after its first character; otherwise a dotted suffix with no further dot that is shorter than the name |
| FileName.Basename | mp3tag.js:67 | `path.basename(file, ext)` strips the suffix exactly when the name ends with it, and otherwise returns the name |
| FileName.IsAudio | mp3tag.js:64-65 | the audio filter `extname(file).toLowerCase() === ".mp3"`: its meaning is stated by `FileName.AudioNameShape` and `FileName.AudioBase` |
| FileName.AudioNameShape | mp3tag.js:64-65 | a name is audio exactly when it is at least five characters long and its last four, lower-cased, are `.mp3` |
| FileName.AudioBase | mp3tag.js:64-67 | the base of an audio name is non-empty, and is the name without `.mp3` when that suffix is literal and the whole name otherwise (`x.MP3` keeps `.MP3`) |
| FileName.ParseFileName | mp3tag.js:54-60 | the three-part pattern, then the two-part pattern, then the fallback: its meaning is stated by `FileName.ParseThreeParts`, `FileName.ParseTwoParts`, `FileName.ParseNoHyphen`, `FileName.ParseJoinedThree`, `FileName.ParseJoinedTwo` and `FileName.HyphenatedArtist` |
| FileName.ParseThreeParts | mp3tag.js:55-56 | with hyphens at `i` and `j` and no other hyphen before `j`, the parse is the trimmed text before `i`, between `i` and `j`, and after `j` |
| FileName.ParseTwoParts | mp3tag.js:55-58 | with exactly one hyphen, the parse is the trimmed text on either side of it, with an empty album |
| FileName.ParseNoHyphen | mp3tag.js:55-59 | without a hyphen, the parse is an empty artist, the untrimmed base name as title, and an empty album, whatever else the name holds, line terminators included |
| FileName.ParseJoinedThree | mp3tag.js:55-56 | `artist - title - album` reads back as its three parts trimmed, whatever the album holds |
| FileName.ParseJoinedTwo | mp3tag.js:57-58 | `artist - title` reads back as its two parts trimmed, with an empty album |
| FileName.HyphenatedArtist | mp3tag.js:55-56 | any hyphen separates, spaced or not: `Jay-Z - Song` parses as artist `Jay`, title `Z`, album `Song` |
| Catalog.IsMatch | mp3tag.js:82 | the `find` callback: a record's name equals the title and its artist equals the artist; used by `Catalog.FindFrom`, `Catalog.Find` and `Catalog.FindSkipsNonMatching` |
| Catalog.FindFrom | mp3tag.js:82 | the index of the first record from `from` whose name and artist equal the title and artist, or none exactly when no record there matches |
| Catalog.Find | mp3tag.js:82 | `find` returns nothing exactly when no record matches, and otherwise returns the first record that does |
| Catalog.EmptyCatalogFindsNothing | mp3tag.js:22-27 | the empty catalog left by a failed load matches nothing |
| Catalog.FindSkipsNonMatching | mp3tag.js:82 | non-matching records in front of the catalog do not change what is found |
| Catalog.YearTag | mp3tag.js:90 | the year is copied only when it is truthy; stated by `Pipeline.TaggedNames` |
| Sidecar.FirstExisting | mp3tag.js:38-44 | the first `base + ext` present, for `ext` in order; none exactly when none is present |
| Sidecar.LyricsFile | mp3tag.js:47-51 | `base.lrc` when it exists, none otherwise |
| Sidecar.CoverMime | mp3tag.js:106 | `image/png` for a lower-cased `.png` extension and `image/jpeg` otherwise; stated by `Sidecar.MimeOfAppended` and `Sidecar.CoverMimeByExt` |
| Sidecar.ExtnameOfAppended | mp3tag.js:106 | appending a dotted extension to a non-empty base makes that the name's extension |
| Sidecar.MimeOfAppended | mp3tag.js:106 | for a lower-case dotted extension, the MIME type is `image/png` exactly when the extension is `.png` |
| Sidecar.CoverMimeByExt | mp3tag.js:106 | a cover found as `base.png` is `image/png`, and one found as `base.jpg` or `base.jpeg` is `image/jpeg` |
| Pipeline.Record | mp3tag.js:18 | pushing to one list appends the file to that list and leaves the other three unchanged |
| Pipeline.MoveToSkipped | mp3tag.js:96-97 | the rename removes the file from `download`, adds it to `skipped` when it was present, and leaves `done` alone |
| Pipeline.CopyToDone | mp3tag.js:103 | the copy adds the file to `done` when it is in `download` and changes nothing otherwise; stated by `Pipeline.StepTag` and `Pipeline.StepWrites` |
| Pipeline.Decide | mp3tag.js:63-101 | which of the five outcomes `processFile` reaches; stated by `Pipeline.DecideOrder`, `Pipeline.DecideTag`, `Pipeline.TaggedNames`, `Pipeline.CoverTag` and `Pipeline.TaggedAssets` |
| Pipeline.DecideOrder | mp3tag.js:63-101 | the outcomes in the script's order: ignored exactly for non-audio names; already done exactly when in `done`; no match exactly when no record matches; no assets exactly when matched with no cover and no lyrics |
| Pipeline.DecideTag | mp3tag.js:79-117 | a tagged file is audio, not in `done`, matched in the catalog, and has a cover or lyrics; its tags are those built from the parse, the record, the cover and the lyrics |
| Pipeline.TaggedNames | mp3tag.js:79-90 | the tags carry the parsed artist, title and album, and the year of the first matching record exactly when that year is truthy |
| Pipeline.CoverTag | mp3tag.js:92-107 | an image is attached exactly when some cover exists; it is the first existing one, with type 3 "front cover", description "cover", and MIME `image/png` exactly for `.png` |
| Pipeline.CoverAt | mp3tag.js:105-107 | the picture attached when `base + ImageExts[i]` is the first cover present |
| Pipeline.TaggedAssets | mp3tag.js:92-115 | a tagged file's image is the cover found, its lyrics are `base.lrc` in language "chi" exactly when that file exists, and at least one of the two is present |
| Pipeline.Apply | mp3tag.js:95-128 | what an outcome does to the state; stated by `Pipeline.ApplyEffect` |
| Pipeline.ApplyEffect | mp3tag.js:95-128 | what each outcome does to the lists, to `download`, `skipped` and `done`, and to the writer calls |
| Pipeline.Step | mp3tag.js:63-128 | `processFile` on one name; stated by `Pipeline.StepAlreadyDone`, `Pipeline.StepNoMatch`, `Pipeline.StepNoAssets`, `Pipeline.StepTag`, `Pipeline.NotAudioIgnored` and `Pipeline.StepRecords` |
| Pipeline.StepAlreadyDone | mp3tag.js:72-77 | an audio file already in `done` is pushed to `skippedExisting` and nothing else changes |
| Pipeline.StepNoMatch | mp3tag.js:82-87 | a file the catalog does not know is pushed to `skipped`, with no move, no copy and no write |
| Pipeline.StepNoAssets | mp3tag.js:95-101 | a matched file without assets leaves `download`, enters `skipped` when it was there, is pushed to `skipped`, and causes no write and no copy |
| Pipeline.StepTag | mp3tag.js:103-128 | a matched file with assets is copied to `done`, one writer call on it is appended, and it is pushed to `done` when the writer returned a truthy value and to `failed` otherwise |
| Pipeline.NotAudioIgnored | mp3tag.js:64-65 | a name that is not audio changes nothing at all |
| Pipeline.DecideAudio | mp3tag.js:63-128 | a name is recorded in some list exactly when it is an audio name |
| Pipeline.RunAll | mp3tag.js:131-132 | the loop over the listing; stated by `Pipeline.RunResults`, `Pipeline.RunDirs`, `Pipeline.RunWritesCopies`, `Pipeline.RunSettles` and `Pipeline.Rerun` |
| Pipeline.TrackIffAudio | mp3tag.js:131-132 | over a run, the `i`-th listed name lands in a list exactly when it is audio |
| Pipeline.RunResults | mp3tag.js:131-132 | each list at the end of a run is its start followed by exactly the listed names routed to it, in listing order |
| Pipeline.StepRecords | mp3tag.js:63-128 | one step appends the file to the one list its outcome names and leaves the others unchanged |
| Pipeline.RunDirs | mp3tag.js:131-132 | a run only removes names from `download`, and only adds names to `done` and `skipped`; every name it moves or adds is in the listing |
| Pipeline.StepWrites | mp3tag.js:103-120 | a step adds a name to `done` only when it issued a writer call on that name |
| Pipeline.RunWritesCopies | mp3tag.js:131-132 | over a run, the writer calls only grow, and every name added to `done` is the target of one of the new calls |
| Pipeline.StepDoneListed | mp3tag.js:119-123 | a file pushed to the `done` list is present in the `done` directory |
| Pipeline.RunDoneListed | mp3tag.js:131-132 | for a listing of distinct names in `download`, every name in the `done` list ends up in the `done` directory |
| Pipeline.EmptyCatalogRun | mp3tag.js:22-27 | with an empty catalog a run moves, copies and writes nothing, and leaves the `done` and `failed` lists unchanged |
| Pipeline.StepEmptyCatalog | mp3tag.js:82-87 | with an empty catalog one step moves, copies and writes nothing |
| Pipeline.StepMonotone | mp3tag.js:95-103 | a step never takes a name out of `done` and never puts one into `download` |
| Pipeline.SettledMonotone | mp3tag.js:72-101 | a settled name stays settled once `done` only grows and `download` only shrinks |
| Pipeline.StepSettles | mp3tag.js:63-128 | after its step, an audio name is settled: it is in `done`, gone from `download`, or unknown to the catalog |
| Pipeline.RunSettles | mp3tag.js:131-132 | after a run every listed audio name is settled |
| Pipeline.StepOnSettled | mp3tag.js:72-87 | a step on a settled name still in `download` moves, copies and writes nothing and adds nothing to `done` or `failed` |
| Pipeline.RunOnSettled | mp3tag.js:131-132 | a run over settled names changes no directory, issues no write, and adds nothing to `done` or `failed` |
| Pipeline.Rerun | mp3tag.js:131-132 | running again over names left in `download` from the first listing changes no directory, issues no write, adds nothing to `done` or `failed`, and records each audio name in `skippedExisting` when it is in `done` and in `skipped` otherwise |
| Pipeline.TrackOnSettled | mp3tag.js:72-87 | over settled names still in `download`, each audio name is recorded in `skippedExisting` when it is in `done` and in `skipped` otherwise |
| Pipeline.DecideSettled | mp3tag.js:72-87 | a settled audio name still in `download` is found already done when it is in `done`, and unmatched otherwise |
| Mp3Tag.Tagger.constructor | mp3tag.js:18-27 | the catalog is the parsed `detail.json`, or empty when that failed; the four lists and the writer log start empty |
| Mp3Tag.Tagger.FindCover | mp3tag.js:38-44 | the loop with early return yields the first existing cover in extension order |
| Mp3Tag.Tagger.FindLyrics | mp3tag.js:47-51 | yields `base.lrc` exactly when it exists |
| Mp3Tag.Tagger.Rename | mp3tag.js:96-97 | succeeds exactly when the file is in `download`, and then moves it to `skipped` |
| Mp3Tag.Tagger.CopyFile | mp3tag.js:103 | succeeds exactly when the file is in `download`, and then adds it to `done` |
| Mp3Tag.Tagger.ProcessFile | mp3tag.js:63-87 | the new state is exactly `Step` of the old one: the filters, the done check, the catalog miss, then the match branch |
| Mp3Tag.Tagger.ProcessMatch | mp3tag.js:92-101 | with neither cover nor lyrics the file is moved to `skipped` and recorded there; otherwise it is tagged |
| Mp3Tag.Tagger.WriteTags | mp3tag.js:103-128 | the tag record built field by field equals `TagsFor`, and the state after the copy, the write and the push is exactly the tagged outcome |
| Mp3Tag.Tagger.Run | mp3tag.js:131-132 | the state after the loop is exactly `RunAll` over the listing and the writer outcomes |

## Left out

- The tag writer `node-id3` and its ID3v2 frame encoding. The writer is an oracle, and its
  result (truthy value, falsy value, or exception) is a parameter of `Run`.
- File contents. Image bytes and lyric text are represented by the names of the files
  they are read from.
- File-system I/O: directory listing, `access`, `rename` and `copyFile`. These become the
  three sets of names. The listing is a parameter, so directory entries that are
  themselves directories are not distinguished.
- Reading a cover or lyrics file that exists but cannot be read (`mp3tag.js:107` and
  `mp3tag.js:112`). Those reads are outside any `try`, so such an error would abort the
  whole run; the model assumes every read succeeds.
- Creating `done` and `skipped` at start-up (`mp3tag.js:30-35`). This adds no names, so
  the constructor simply takes the sets as given.
- JSON. The parse of `detail.json` is given to the constructor as an optional sequence of
  records. Only a `null` element makes `find` throw; primitive elements never match. A
  `detail.json` whose top-level value is not an array makes the first catalog lookup
  (`mp3tag.js:82`) throw and aborts the run; the model takes the parse to be an array.
  Writing `mp3tag-log.json` (`mp3tag.js:134`) is the final `results` value.
- Console output and the command-line base directory. Paths are names within each
  directory.
- Case mapping. `toLowerCase` is modelled for ASCII only, which decides every comparison
  the script makes against `.mp3` and `.png`.
- Strings. They are sequences of characters, not UTF-16 code units.
- The regular-expression engine. It is modelled only for the constructs the two patterns
  use.
- FileName.ParseThreeParts: stated only for base names without line terminators. With a
  line terminator, `.` stops and the closed form does not apply; `ParseFileName` itself
  still follows the matcher there.
- FileName.ParseTwoParts: stated only for base names without line terminators, for the
  same reason.
- Regex.ThreePartMatches: stated only for strings without line terminators, for the same
  reason.
- Regex.TwoPartMatches: stated only for strings without line terminators, for the same
  reason.
- Pipeline.RunDoneListed: stated only for listings of distinct names that are all in
  `download`, which is what a directory listing provides.
