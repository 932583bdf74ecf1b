/** The part of JavaScript regular expressions that the file-name parser uses, evaluated
    with the backtracking order of the ECMAScript matcher: a lazy group tries its shortest
    extent first and grows it one character at a time, greedy items try their longest
    extent first and give characters back one at a time. Patterns are anchored at both
    ends (`^ ... $`, no `m` flag), so a match is attempted from position 0 only. */
module Regex {
  import opened Wrappers
  import opened Text

  datatype Term =
    | Group(lazy: bool)  // capturing `(.*?)` when lazy, `(.*)` otherwise
    | Spaces             // `\s*`
    | Lit(c: char)       // one literal character

  /** The extent of one capture group. */
  datatype Span = Span(lo: nat, hi: nat)

  /** `^(.*?)\s*-\s*(.*?)\s*-\s*(.*)$`, tried first. */
  const ThreePart: seq<Term> :=
    [Group(true), Spaces, Lit('-'), Spaces, Group(true), Spaces, Lit('-'), Spaces, Group(false)]

  /** `^(.*?)\s*-\s*(.*)$`, tried second. */
  const TwoPart: seq<Term> := [Group(true), Spaces, Lit('-'), Spaces, Group(false)]

  predicate SpansIn(s: string, caps: seq<Span>) {
    forall sp :: sp in caps ==> sp.lo <= sp.hi <= |s|
  }

  function Groups(p: seq<Term>): nat {
    if p == [] then 0 else (if p[0].Group? then 1 else 0) + Groups(p[1..])
  }

  /** The captures after the first item of `p` has consumed `s[start..e]`. */
  function Grab(t: Term, caps: seq<Span>, start: nat, e: nat): seq<Span> {
    if t.Group? then caps + [Span(start, e)] else caps
  }

  /** Matches `p` against `s[pos..]` up to the end of `s`; on success, the captures so far
      followed by one span per group of `p`. */
  function Match(s: string, p: seq<Term>, pos: nat, caps: seq<Span>): (r: Option<seq<Span>>)
    requires pos <= |s| && SpansIn(s, caps)
    ensures r.Some? ==> |r.value| == |caps| + Groups(p) && r.value[..|caps|] == caps
                        && SpansIn(s, r.value)
    decreases |p|, |s| + 2
  {
    if p == [] then
      if pos == |s| then Some(caps) else None
    else
      match p[0]
      case Lit(c) =>
        if pos < |s| && s[pos] == c then Match(s, p[1..], pos + 1, caps) else None
      case Group(lazy) =>
        if lazy then Lazy(s, p, pos, pos, caps) else Greedy(s, p, pos, DotEnd(s, pos), caps)
      case Spaces =>
        Greedy(s, p, pos, SpaceEnd(s, pos), caps)
  }

  /** A lazy group `(.*?)` that started at `start` and now tries to end at `e`. */
  function Lazy(s: string, p: seq<Term>, start: nat, e: nat, caps: seq<Span>): (r: Option<seq<Span>>)
    requires p != [] && p[0].Group? && start <= e <= |s| && SpansIn(s, caps)
    ensures r.Some? ==> |r.value| == |caps| + Groups(p) && r.value[..|caps|] == caps
                        && SpansIn(s, r.value)
    decreases |p|, |s| - e + 1
  {
    var r := Match(s, p[1..], e, Grab(p[0], caps, start, e));
    if r.Some? then
      assert r.value[..|caps|] == r.value[..|caps| + 1][..|caps|];
      r
    else if e < |s| && !IsLineTerminator(s[e]) then Lazy(s, p, start, e + 1, caps)
    else None
  }

  /** A greedy item (`(.*)` or `\s*`) that started at `start` and now tries to end at `e`. */
  function Greedy(s: string, p: seq<Term>, start: nat, e: nat, caps: seq<Span>): (r: Option<seq<Span>>)
    requires p != [] && start <= e <= |s| && SpansIn(s, caps)
    ensures r.Some? ==> |r.value| == |caps| + Groups(p) && r.value[..|caps|] == caps
                        && SpansIn(s, r.value)
    decreases |p|, e
  {
    var r := Match(s, p[1..], e, Grab(p[0], caps, start, e));
    if r.Some? then
      assert p[0].Group? ==> r.value[..|caps|] == r.value[..|caps| + 1][..|caps|];
      r
    else if e > start then Greedy(s, p, start, e - 1, caps)
    else None
  }

  // ---------------------------------------------------------------------------------------
  // How the backtracking search proceeds.

  /** A lazy group moves past every end position from which the rest cannot match. */
  lemma {:induction false} LazySkip(s: string, p: seq<Term>, start: nat, e: nat, e0: nat, caps: seq<Span>)
    requires p != [] && p[0].Group? && start <= e <= e0 <= |s| && SpansIn(s, caps)
    requires forall k :: e <= k < e0 ==> !IsLineTerminator(s[k])
    requires forall k :: e <= k < e0 ==> Match(s, p[1..], k, Grab(p[0], caps, start, k)).None?
    ensures Lazy(s, p, start, e, caps) == Lazy(s, p, start, e0, caps)
    decreases e0 - e
  {
    if e < e0 {
      LazySkip(s, p, start, e + 1, e0, caps);
    }
  }

  /** A lazy group fails when no end position lets the rest match. */
  lemma {:induction false} LazyExhausted(s: string, p: seq<Term>, start: nat, e: nat, caps: seq<Span>)
    requires p != [] && p[0].Group? && start <= e <= |s| && SpansIn(s, caps)
    requires forall k :: e <= k <= |s| ==> Match(s, p[1..], k, Grab(p[0], caps, start, k)).None?
    ensures Lazy(s, p, start, e, caps).None?
    decreases |s| - e
  {
    if e < |s| && !IsLineTerminator(s[e]) {
      LazyExhausted(s, p, start, e + 1, caps);
    }
  }

  /** A greedy item fails when no end position lets the rest match. */
  lemma {:induction false} GreedyExhausted(s: string, p: seq<Term>, start: nat, e: nat, caps: seq<Span>)
    requires p != [] && start <= e <= |s| && SpansIn(s, caps)
    requires forall k :: start <= k <= e ==> Match(s, p[1..], k, Grab(p[0], caps, start, k)).None?
    ensures Greedy(s, p, start, e, caps).None?
    decreases e
  {
    if e > start {
      GreedyExhausted(s, p, start, e - 1, caps);
    }
  }

  /** When only the longest extent can succeed, a greedy item behaves as if it took it. */
  lemma GreedyLongestOnly(s: string, p: seq<Term>, start: nat, e: nat, caps: seq<Span>)
    requires p != [] && start <= e <= |s| && SpansIn(s, caps)
    requires forall k :: start <= k < e ==> Match(s, p[1..], k, Grab(p[0], caps, start, k)).None?
    ensures Greedy(s, p, start, e, caps) == Match(s, p[1..], e, Grab(p[0], caps, start, e))
  {
    if e > start {
      GreedyExhausted(s, p, start, e - 1, caps);
    }
  }

  // ---------------------------------------------------------------------------------------
  // The two patterns, from the end backwards.

  /** `(.*)$` takes the rest of a line. */
  lemma RestOfLine(s: string, pos: nat, caps: seq<Span>)
    requires NoLineTerminators(s) && pos <= |s| && SpansIn(s, caps)
    ensures Match(s, TwoPart[4..], pos, caps) == Some(caps + [Span(pos, |s|)])
  {
    var p := TwoPart[4..];
    assert p == [Group(false)] && p[1..] == [];
    assert DotEnd(s, pos) == |s|;
    assert Match(s, p, pos, caps) == Greedy(s, p, pos, |s|, caps);
  }

  /** `\s*(.*)$` skips the leading whitespace of what it captures. */
  lemma SpacesThenRest(s: string, pos: nat, caps: seq<Span>)
    requires NoLineTerminators(s) && pos <= |s| && SpansIn(s, caps)
    ensures Match(s, TwoPart[3..], pos, caps) == Some(caps + [Span(SpaceEnd(s, pos), |s|)])
  {
    var p := TwoPart[3..];
    assert p[0] == Spaces && p[1..] == TwoPart[4..];
    RestOfLine(s, SpaceEnd(s, pos), caps);
  }

  /** `\s*-\s*(.*)$` needs a hyphen right after the whitespace at `pos`. */
  lemma SeparatorThenRest(s: string, pos: nat, caps: seq<Span>)
    requires NoLineTerminators(s) && pos <= |s| && SpansIn(s, caps)
    ensures var m := SpaceEnd(s, pos);
      Match(s, TwoPart[1..], pos, caps)
        == if m < |s| && s[m] == '-' then Some(caps + [Span(SpaceEnd(s, m + 1), |s|)]) else None
  {
    var m := SpaceEnd(s, pos);
    var p := TwoPart[1..];
    assert p[0] == Spaces && p[1..] == TwoPart[2..] && TwoPart[2..][1..] == TwoPart[3..];
    forall k | pos <= k < m
      ensures Match(s, p[1..], k, Grab(p[0], caps, pos, k)).None?
    {
      assert IsSpace(s[k]);
    }
    GreedyLongestOnly(s, p, pos, m, caps);
    if m < |s| && s[m] == '-' {
      SpacesThenRest(s, m + 1, caps);
    }
  }

  /** `\s*-\s*(.*)$` cannot match from a position whose whitespace run ends before `e`,
      when `e` follows a non-space and no hyphen lies in between. */
  lemma NoSeparatorBefore(s: string, pos: nat, k: nat, e: nat, caps: seq<Span>)
    requires NoLineTerminators(s) && pos <= k < e <= |s| && SpansIn(s, caps)
    requires !IsSpace(s[e - 1])
    requires forall j :: pos <= j < e ==> s[j] != '-'
    ensures Match(s, TwoPart[1..], k, caps + [Span(pos, k)]).None?
  {
    SeparatorThenRest(s, k, caps + [Span(pos, k)]);
    assert SpaceEnd(s, k) <= e - 1;
  }

  /** The whitespace run from the start of the trailing whitespace before a hyphen ends
      at that hyphen. */
  lemma SpacesReachHyphen(s: string, lo: nat, h: nat)
    requires lo <= h < |s| && s[h] == '-'
    ensures SpaceEnd(s, SpaceStart(s, lo, h)) == h
  {
    var e := SpaceStart(s, lo, h);
    assert !IsSpace(s[h]);
  }

  lemma TwoPartHit(s: string, pos: nat, caps: seq<Span>, h: nat)
    requires NoLineTerminators(s) && pos <= |s| && SpansIn(s, caps)
    requires h == IndexFrom(s, '-', pos) && h < |s|
    ensures Match(s, TwoPart, pos, caps)
         == Some(caps + [Span(pos, SpaceStart(s, pos, h)), Span(SpaceEnd(s, h + 1), |s|)])
  {
    var e := SpaceStart(s, pos, h);
    var first := caps + [Span(pos, e)];
    TwoPartLazyStops(s, pos, caps, h);
    assert Match(s, TwoPart[1..], e, first) == Some(first + [Span(SpaceEnd(s, h + 1), |s|)]) by {
      SpacesReachHyphen(s, pos, h);
      SeparatorThenRest(s, e, first);
    }
    assert Lazy(s, TwoPart, pos, e, caps) == Match(s, TwoPart[1..], e, first);
    AppendSpans(caps, Span(pos, e), Span(SpaceEnd(s, h + 1), |s|));
  }

  /** The lazy group of the two-part pattern moves past every position before the
      whitespace that precedes the first hyphen. */
  lemma TwoPartLazyStops(s: string, pos: nat, caps: seq<Span>, h: nat)
    requires NoLineTerminators(s) && pos <= |s| && SpansIn(s, caps)
    requires h == IndexFrom(s, '-', pos) && h < |s|
    ensures Match(s, TwoPart, pos, caps) == Lazy(s, TwoPart, pos, SpaceStart(s, pos, h), caps)
  {
    var p := TwoPart;
    assert p[0] == Group(true);
    var e := SpaceStart(s, pos, h);
    forall k | pos <= k < e
      ensures Match(s, p[1..], k, Grab(p[0], caps, pos, k)).None?
    {
      NoSeparatorBefore(s, pos, k, e, caps);
    }
    LazySkip(s, p, pos, pos, e, caps);
  }

  lemma AppendSpans(caps: seq<Span>, a: Span, b: Span)
    ensures caps + [a] + [b] == caps + [a, b]
  {
  }

  lemma TwoPartMiss(s: string, pos: nat, caps: seq<Span>)
    requires NoLineTerminators(s) && pos <= |s| && SpansIn(s, caps)
    requires IndexFrom(s, '-', pos) == |s|
    ensures Match(s, TwoPart, pos, caps).None?
  {
    var p := TwoPart;
    assert p[0] == Group(true);
    forall k | pos <= k <= |s|
      ensures Match(s, p[1..], k, Grab(p[0], caps, pos, k)).None?
    {
      SeparatorThenRest(s, k, caps + [Span(pos, k)]);
    }
    LazyExhausted(s, p, pos, pos, caps);
  }

  /** `^(.*?)\s*-\s*(.*)$` from `pos`: the lazy group stops before the whitespace that
      precedes the first hyphen, and the match fails when there is no hyphen. */
  lemma TwoPartFrom(s: string, pos: nat, caps: seq<Span>)
    requires NoLineTerminators(s) && pos <= |s| && SpansIn(s, caps)
    ensures var h := IndexFrom(s, '-', pos);
      Match(s, TwoPart, pos, caps)
        == if h < |s| then Some(caps + [Span(pos, SpaceStart(s, pos, h)), Span(SpaceEnd(s, h + 1), |s|)])
           else None
  {
    var h := IndexFrom(s, '-', pos);
    if h < |s| {
      TwoPartHit(s, pos, caps, h);
    } else {
      TwoPartMiss(s, pos, caps);
    }
  }

  /** `\s*` followed by the two-part pattern, when a hyphen follows `pos`: the whitespace
      cannot hold a hyphen, so the search for one starts where it started before. */
  lemma SpacesThenTwoPartHit(s: string, pos: nat, caps: seq<Span>, h: nat)
    requires NoLineTerminators(s) && pos <= |s| && SpansIn(s, caps)
    requires h == IndexFrom(s, '-', pos) && h < |s|
    ensures var m := SpaceEnd(s, pos);
      Match(s, ThreePart[3..], pos, caps)
        == Some(caps + [Span(m, SpaceStart(s, m, h)), Span(SpaceEnd(s, h + 1), |s|)])
  {
    var m := SpaceEnd(s, pos);
    var p := ThreePart[3..];
    assert p[0] == Spaces && p[1..] == TwoPart;
    IndexFromSkips(s, '-', pos, m);
    TwoPartHit(s, m, caps, h);
    assert Match(s, p, pos, caps) == Greedy(s, p, pos, m, caps);
  }

  /** `\s*-` followed by the rest of the three-part pattern, when the whitespace at `pos`
      ends at a hyphen `m`: the rest goes on after that hyphen. */
  lemma SeparatorHit(s: string, pos: nat, caps: seq<Span>, m: nat)
    requires NoLineTerminators(s) && pos <= |s| && SpansIn(s, caps)
    requires m == SpaceEnd(s, pos) && m < |s| && s[m] == '-'
    ensures Match(s, ThreePart[1..], pos, caps) == Match(s, ThreePart[3..], m + 1, caps)
  {
    SeparatorTakesSpaces(s, pos, caps);
    var p := ThreePart[1..];
    assert p[1..] == ThreePart[2..] && ThreePart[2..][1..] == ThreePart[3..];
    assert ThreePart[2..][0] == Lit('-');
  }

  /** `\s*-` followed by the rest of the three-part pattern fails when the whitespace at
      `pos` does not end at a hyphen. */
  lemma SeparatorMiss(s: string, pos: nat, caps: seq<Span>)
    requires NoLineTerminators(s) && pos <= |s| && SpansIn(s, caps)
    requires SpaceEnd(s, pos) == |s| || s[SpaceEnd(s, pos)] != '-'
    ensures Match(s, ThreePart[1..], pos, caps).None?
  {
    SeparatorTakesSpaces(s, pos, caps);
    var p := ThreePart[1..];
    assert p[1..] == ThreePart[2..];
    assert ThreePart[2..][0] == Lit('-');
  }

  /** The `\s*` before a separator takes all the whitespace: giving some back leaves a
      space where the hyphen must be. */
  lemma SeparatorTakesSpaces(s: string, pos: nat, caps: seq<Span>)
    requires NoLineTerminators(s) && pos <= |s| && SpansIn(s, caps)
    ensures var m := SpaceEnd(s, pos);
      Match(s, ThreePart[1..], pos, caps) == Match(s, ThreePart[2..], m, caps)
  {
    var m := SpaceEnd(s, pos);
    var p := ThreePart[1..];
    assert p[0] == Spaces && p[1..] == ThreePart[2..];
    assert ThreePart[2..][0] == Lit('-');
    forall k | pos <= k < m
      ensures Match(s, p[1..], k, Grab(p[0], caps, pos, k)).None?
    {
      assert IsSpace(s[k]);
    }
    GreedyLongestOnly(s, p, pos, m, caps);
  }

  /** Before the trailing whitespace of the first hyphen, the rest of the three-part
      pattern cannot match. */
  lemma NoThreePartBefore(s: string, k: nat, e: nat, i: nat)
    requires NoLineTerminators(s) && k < e <= i < |s|
    requires !IsSpace(s[e - 1])
    requires forall j :: 0 <= j < i ==> s[j] != '-'
    ensures Match(s, ThreePart[1..], k, [Span(0, k)]).None?
  {
    assert SpaceEnd(s, k) <= e - 1;
    SeparatorMiss(s, k, [Span(0, k)]);
  }

  /** With hyphens at `i` and `j` and none before `j` other than `i`, the three-part
      pattern matches: the first group ends at the whitespace before `i`, the second runs
      from after the whitespace that follows `i` to the whitespace before `j`, the third
      from after the whitespace that follows `j` to the end. */
  lemma ThreePartMatches(s: string, i: nat, j: nat)
    requires NoLineTerminators(s)
    requires i < j < |s| && s[i] == '-' && s[j] == '-'
    requires forall k :: 0 <= k < j && k != i ==> s[k] != '-'
    ensures var m := SpaceEnd(s, i + 1);
      Match(s, ThreePart, 0, [])
        == Some([Span(0, SpaceStart(s, 0, i)), Span(m, SpaceStart(s, m, j)), Span(SpaceEnd(s, j + 1), |s|)])
  {
    var p := ThreePart;
    assert p[0] == Group(true);
    var e := SpaceStart(s, 0, i);
    forall k | 0 <= k < e
      ensures Match(s, p[1..], k, Grab(p[0], [], 0, k)).None?
    {
      assert Grab(p[0], [], 0, k) == [Span(0, k)];
      NoThreePartBefore(s, k, e, i);
    }
    LazySkip(s, p, 0, 0, e, []);
    assert Grab(p[0], [], 0, e) == [Span(0, e)];
    RestFromFirstHyphen(s, i, j, e);
  }

  /** Once the lazy group has stopped at `e`, the whitespace before the first hyphen `i`,
      the rest of the three-part pattern matches. */
  lemma RestFromFirstHyphen(s: string, i: nat, j: nat, e: nat)
    requires NoLineTerminators(s)
    requires i < j < |s| && s[i] == '-' && s[j] == '-'
    requires forall k :: i < k < j ==> s[k] != '-'
    requires e == SpaceStart(s, 0, i)
    ensures var m := SpaceEnd(s, i + 1);
      Match(s, ThreePart[1..], e, [Span(0, e)])
        == Some([Span(0, e), Span(m, SpaceStart(s, m, j)), Span(SpaceEnd(s, j + 1), |s|)])
  {
    var caps := [Span(0, e)];
    assert SpaceEnd(s, e) == i by { SpacesReachHyphen(s, 0, i); }
    SeparatorHit(s, e, caps, i);
    FirstIndex(s, '-', i + 1, j);
    SpacesThenTwoPartHit(s, i + 1, caps, j);
    var m := SpaceEnd(s, i + 1);
    PrependSpan(Span(0, e), Span(m, SpaceStart(s, m, j)), Span(SpaceEnd(s, j + 1), |s|));
  }

  lemma PrependSpan(a: Span, b: Span, c: Span)
    ensures [a] + [b, c] == [a, b, c]
  {
  }

  // ---------------------------------------------------------------------------------------
  // A pattern needs one occurrence of `c` in the input per literal `c` it holds, whatever
  // else the input contains.

  /** The number of literal `c` items in `p`. */
  function Needed(p: seq<Term>, c: char): nat {
    if p == [] then 0 else (if p[0] == Lit(c) then 1 else 0) + Needed(p[1..], c)
  }

  /** The number of occurrences of `c` in `s[pos..]`. */
  function Occurs(s: string, c: char, pos: nat): nat
    requires pos <= |s|
    decreases |s| - pos
  {
    if pos == |s| then 0 else (if s[pos] == c then 1 else 0) + Occurs(s, c, pos + 1)
  }

  lemma {:induction false} OccursShrinks(s: string, c: char, lo: nat, hi: nat)
    requires lo <= hi <= |s|
    ensures Occurs(s, c, hi) <= Occurs(s, c, lo)
    decreases hi - lo
  {
    if lo < hi {
      OccursShrinks(s, c, lo + 1, hi);
    }
  }

  /** A successful match from `pos` finds at least as many `c` in `s[pos..]` as `p` has
      literal `c` items. */
  lemma {:induction false} MatchNeeds(s: string, p: seq<Term>, pos: nat, caps: seq<Span>, c: char)
    requires pos <= |s| && SpansIn(s, caps)
    ensures Match(s, p, pos, caps).Some? ==> Needed(p, c) <= Occurs(s, c, pos)
    decreases |p|, |s| + 2
  {
    if p != [] {
      match p[0]
      case Lit(d) =>
        if pos < |s| && s[pos] == d {
          MatchNeeds(s, p[1..], pos + 1, caps, c);
        }
      case Group(lazy) =>
        if lazy {
          LazyNeeds(s, p, pos, pos, caps, c);
        } else {
          GreedyNeeds(s, p, pos, DotEnd(s, pos), caps, c);
        }
      case Spaces =>
        GreedyNeeds(s, p, pos, SpaceEnd(s, pos), caps, c);
    }
  }

  lemma {:induction false} LazyNeeds(s: string, p: seq<Term>, start: nat, e: nat, caps: seq<Span>, c: char)
    requires p != [] && p[0].Group? && start <= e <= |s| && SpansIn(s, caps)
    ensures Lazy(s, p, start, e, caps).Some? ==> Needed(p, c) <= Occurs(s, c, start)
    decreases |p|, |s| - e + 1
  {
    var caps' := Grab(p[0], caps, start, e);
    assert SpansIn(s, caps');
    MatchNeeds(s, p[1..], e, caps', c);
    OccursShrinks(s, c, start, e);
    if Match(s, p[1..], e, caps').None? && e < |s| && !IsLineTerminator(s[e]) {
      LazyNeeds(s, p, start, e + 1, caps, c);
    }
  }

  lemma {:induction false} GreedyNeeds(s: string, p: seq<Term>, start: nat, e: nat, caps: seq<Span>, c: char)
    requires p != [] && start <= e <= |s| && SpansIn(s, caps)
    requires p[0] != Lit(c)
    ensures Greedy(s, p, start, e, caps).Some? ==> Needed(p, c) <= Occurs(s, c, start)
    decreases |p|, e
  {
    var caps' := Grab(p[0], caps, start, e);
    assert SpansIn(s, caps');
    MatchNeeds(s, p[1..], e, caps', c);
    OccursShrinks(s, c, start, e);
    if Match(s, p[1..], e, caps').None? && e > start {
      GreedyNeeds(s, p, start, e - 1, caps, c);
    }
  }

  /** `s[pos..]` holds no `c` except possibly at `i`. */
  lemma {:induction false} OccursAtMostOne(s: string, c: char, pos: nat, i: nat)
    requires pos <= |s|
    requires forall j :: pos <= j < |s| && j != i ==> s[j] != c
    ensures Occurs(s, c, pos) <= 1
    ensures (forall j :: pos <= j < |s| ==> s[j] != c) ==> Occurs(s, c, pos) == 0
    decreases |s| - pos
  {
    if pos < |s| {
      if s[pos] == c {
        OccursNone(s, c, pos + 1);
      } else {
        OccursAtMostOne(s, c, pos + 1, i);
      }
    }
  }

  lemma {:induction false} OccursNone(s: string, c: char, pos: nat)
    requires pos <= |s|
    requires forall j :: pos <= j < |s| ==> s[j] != c
    ensures Occurs(s, c, pos) == 0
    decreases |s| - pos
  {
    if pos < |s| {
      OccursNone(s, c, pos + 1);
    }
  }

  /** The three-part pattern has two literal hyphens. */
  lemma ThreePartNeedsTwo()
    ensures Needed(ThreePart, '-') == 2
  {
    assert ThreePart[1..][1..][1..] == ThreePart[3..];
    assert ThreePart[3..][1..][1..][1..] == ThreePart[6..];
  }

  /** When `s` has no hyphen other than one at `i` (or none at all), the three-part pattern
      does not match, whatever else `s` holds. */
  lemma ThreePartFails(s: string, i: nat)
    requires forall j :: 0 <= j < |s| && j != i ==> s[j] != '-'
    ensures Match(s, ThreePart, 0, []).None?
  {
    ThreePartNeedsTwo();
    OccursAtMostOne(s, '-', 0, i);
    MatchNeeds(s, ThreePart, 0, [], '-');
  }

  /** With `i` the first hyphen, the two-part pattern matches with its first group ending
      at the whitespace before `i` and its second starting after the whitespace after it. */
  lemma TwoPartMatches(s: string, i: nat)
    requires NoLineTerminators(s)
    requires i < |s| && s[i] == '-'
    requires forall k :: 0 <= k < i ==> s[k] != '-'
    ensures Match(s, TwoPart, 0, [])
      == Some([Span(0, SpaceStart(s, 0, i)), Span(SpaceEnd(s, i + 1), |s|)])
  {
    FirstIndex(s, '-', 0, i);
    TwoPartFrom(s, 0, []);
  }

  /** Without a hyphen the two-part pattern does not match, whatever else `s` holds. */
  lemma TwoPartFails(s: string)
    requires forall k :: 0 <= k < |s| ==> s[k] != '-'
    ensures Match(s, TwoPart, 0, []).None?
  {
    assert Needed(TwoPart, '-') == 1 by {
      assert TwoPart[1..][1..][1..] == TwoPart[3..];
    }
    OccursNone(s, '-', 0);
    MatchNeeds(s, TwoPart, 0, [], '-');
  }
}
