/** The song catalog read from `detail.json`: a list of records with a `name`, an `artist`
    and a `year`, searched for the first record that names the parsed title and artist. */
module Catalog {
  import opened Wrappers

  /** A JSON value as JavaScript sees it once parsed; `Missing` is a property that the
      record does not have (`undefined`). Arrays and objects are not inspected. */
  datatype Value = Missing | Null | Bool(b: bool) | Number(n: real) | Text(s: string) | Composite

  /** JavaScript truthiness: `undefined`, `null`, `false`, `0` and `""` are falsy. */
  predicate Truthy(v: Value) {
    match v
    case Missing => false
    case Null => false
    case Bool(b) => b
    case Number(n) => n != 0.0
    case Text(s) => s != []
    case Composite => true
  }

  /** One catalog record; a field the record lacks is `Missing`. */
  datatype Entry = Entry(name: Value, artist: Value, year: Value)

  /** The `find` callback: strict equality of `name` with the title and of `artist` with
      the artist, so a field that is not a string never matches. */
  predicate IsMatch(e: Entry, title: string, artist: string) {
    e.name == Text(title) && e.artist == Text(artist)
  }

  /** Index of the first matching record at or after `from`. */
  function FindFrom(catalog: seq<Entry>, title: string, artist: string, from: nat): (r: Option<nat>)
    requires from <= |catalog|
    ensures r.Some? ==> from <= r.value < |catalog| && IsMatch(catalog[r.value], title, artist)
                        && forall k :: from <= k < r.value ==> !IsMatch(catalog[k], title, artist)
    ensures r.None? ==> forall k :: from <= k < |catalog| ==> !IsMatch(catalog[k], title, artist)
    decreases |catalog| - from
  {
    if from == |catalog| then None
    else if IsMatch(catalog[from], title, artist) then Some(from)
    else FindFrom(catalog, title, artist, from + 1)
  }

  /** `detailData.find(...)`: the first record whose name is the title and whose artist is
      the artist, or nothing when no record is. */
  function Find(catalog: seq<Entry>, title: string, artist: string): (r: Option<Entry>)
    ensures r.None? <==> forall k :: 0 <= k < |catalog| ==> !IsMatch(catalog[k], title, artist)
    ensures r.Some? ==> exists i :: 0 <= i < |catalog| && catalog[i] == r.value && IsMatch(r.value, title, artist)
                                   && forall k :: 0 <= k < i ==> !IsMatch(catalog[k], title, artist)
  {
    match FindFrom(catalog, title, artist, 0)
    case None => None
    case Some(i) => Some(catalog[i])
  }

  /** An empty catalog, which is what a missing or unreadable `detail.json` leaves,
      matches nothing. */
  lemma EmptyCatalogFindsNothing(title: string, artist: string)
    ensures Find([], title, artist) == None
  {
  }

  /** Records that do not match, placed in front of the catalog, do not change what is
      found. */
  lemma {:induction false} FindSkipsNonMatching(front: seq<Entry>, back: seq<Entry>, title: string, artist: string)
    requires forall k :: 0 <= k < |front| ==> !IsMatch(front[k], title, artist)
    ensures Find(front + back, title, artist) == Find(back, title, artist)
  {
    FindFromSkips(front + back, title, artist, 0, |front|);
    FindFromShift(front, back, title, artist, 0);
    var r := FindFrom(back, title, artist, 0);
    if r.Some? {
      assert (front + back)[|front| + r.value] == back[r.value];
    }
  }

  lemma {:induction false} FindFromSkips(catalog: seq<Entry>, title: string, artist: string, from: nat, to: nat)
    requires from <= to <= |catalog|
    requires forall k :: from <= k < to ==> !IsMatch(catalog[k], title, artist)
    ensures FindFrom(catalog, title, artist, from) == FindFrom(catalog, title, artist, to)
    decreases (to as int) - (from as int)
  {
    if from < to {
      FindFromSkips(catalog, title, artist, from + 1, to);
    }
  }

  lemma {:induction false} FindFromShift(front: seq<Entry>, back: seq<Entry>, title: string, artist: string, from: nat)
    requires from <= |back|
    ensures var r := FindFrom(front + back, title, artist, |front| + from);
            var s := FindFrom(back, title, artist, from);
            (r.None? <==> s.None?) && (r.Some? ==> r.value == |front| + s.value)
    decreases |back| - from
  {
    var all := front + back;
    if from < |back| {
      assert all[|front| + from] == back[from];
      FindFromShift(front, back, title, artist, from + 1);
    }
  }

  /** The year rule: the found record's year goes into the tags only when it is truthy. */
  function YearTag(e: Entry): Option<Value> {
    if Truthy(e.year) then Some(e.year) else None
  }
}
