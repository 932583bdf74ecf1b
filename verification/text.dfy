/** The JavaScript string primitives the tagger relies on: the whitespace class shared by
    `\s` and `String.prototype.trim`, the line terminators a regular-expression `.` refuses,
    `trim` itself and lower-casing. */
module Text {

  /** JavaScript WhiteSpace or LineTerminator: the characters `\s` matches and `trim` removes. */
  predicate IsSpace(c: char) {
    var x := c as int;
    x == 0x09 || x == 0x0A || x == 0x0B || x == 0x0C || x == 0x0D || x == 0x20 || x == 0xA0 ||
    x == 0x1680 || (0x2000 <= x <= 0x200A) || x == 0x2028 || x == 0x2029 || x == 0x202F ||
    x == 0x205F || x == 0x3000 || x == 0xFEFF
  }

  /** The characters that `.` does not match when the `s` flag is absent. */
  predicate IsLineTerminator(c: char) {
    var x := c as int;
    x == 0x0A || x == 0x0D || x == 0x2028 || x == 0x2029
  }

  predicate AllSpaces(s: string) {
    forall k :: 0 <= k < |s| ==> IsSpace(s[k])
  }

  predicate NoLineTerminators(s: string) {
    forall k :: 0 <= k < |s| ==> !IsLineTerminator(s[k])
  }

  /** End of the run of whitespace that starts at `i`. */
  function SpaceEnd(s: string, i: nat): (j: nat)
    requires i <= |s|
    ensures i <= j <= |s|
    ensures forall k :: i <= k < j ==> IsSpace(s[k])
    ensures j < |s| ==> !IsSpace(s[j])
    decreases |s| - i
  {
    if i < |s| && IsSpace(s[i]) then SpaceEnd(s, i + 1) else i
  }

  /** Start of the run of whitespace that ends at `hi`, not going below `lo`. */
  function SpaceStart(s: string, lo: nat, hi: nat): (e: nat)
    requires lo <= hi <= |s|
    ensures lo <= e <= hi
    ensures forall k :: e <= k < hi ==> IsSpace(s[k])
    ensures e > lo ==> !IsSpace(s[e - 1])
    decreases hi
  {
    if hi > lo && IsSpace(s[hi - 1]) then SpaceStart(s, lo, hi - 1) else hi
  }

  /** End of the run of characters that `.` matches, from `i`. */
  function DotEnd(s: string, i: nat): (j: nat)
    requires i <= |s|
    ensures i <= j <= |s|
    ensures forall k :: i <= k < j ==> !IsLineTerminator(s[k])
    ensures j < |s| ==> IsLineTerminator(s[j])
    decreases |s| - i
  {
    if i < |s| && !IsLineTerminator(s[i]) then DotEnd(s, i + 1) else i
  }

  /** First index at or after `i` that holds `c`, or `|s|` when there is none. */
  function IndexFrom(s: string, c: char, i: nat): (j: nat)
    requires i <= |s|
    ensures i <= j <= |s|
    ensures forall k :: i <= k < j ==> s[k] != c
    ensures j < |s| ==> s[j] == c
    decreases |s| - i
  {
    if i < |s| && s[i] != c then IndexFrom(s, c, i + 1) else i
  }

  function TrimStart(s: string): (r: string)
    ensures |r| <= |s| && r == s[|s| - |r|..]
    ensures AllSpaces(s[..|s| - |r|])
    ensures r != [] ==> !IsSpace(r[0])
  {
    if s != [] && IsSpace(s[0]) then
      var r := TrimStart(s[1..]);
      assert AllSpaces(s[..|s| - |r|]) by {
        var lead := s[..|s| - |r|];
        forall k | 0 <= k < |lead| ensures IsSpace(lead[k]) {
          if k > 0 { assert lead[k] == s[1..][..|s| - 1 - |r|][k - 1]; }
        }
      }
      r
    else s
  }

  function TrimEnd(s: string): (r: string)
    ensures |r| <= |s| && r == s[..|r|]
    ensures AllSpaces(s[|r|..])
    ensures r != [] ==> !IsSpace(r[|r| - 1])
  {
    if s != [] && IsSpace(s[|s| - 1]) then
      var r := TrimEnd(s[..|s| - 1]);
      assert AllSpaces(s[|r|..]) by {
        var trail := s[|r|..];
        forall k | 0 <= k < |trail| ensures IsSpace(trail[k]) {
          if k < |trail| - 1 { assert trail[k] == s[..|s| - 1][|r|..][k]; }
        }
      }
      r
    else s
  }

  /** `String.prototype.trim`: whitespace removed from both ends. */
  function Trim(s: string): string {
    TrimEnd(TrimStart(s))
  }

  /** The trimmed text is the part of the input that follows its leading whitespace. */
  lemma TrimInfix(s: string)
    ensures var i := |s| - |TrimStart(s)|;
            i + |Trim(s)| <= |s| && Trim(s) == s[i..i + |Trim(s)|]
  {
    var t := TrimStart(s);
    var r := TrimEnd(t);
    assert t == s[|s| - |t|..];
    assert r == t[..|r|];
  }

  /** What `trim` removes is whitespace, at both ends. */
  lemma TrimDropsSpaces(s: string)
    ensures var i := |s| - |TrimStart(s)|;
            i + |Trim(s)| <= |s| && AllSpaces(s[..i]) && AllSpaces(s[i + |Trim(s)|..])
  {
    var t := TrimStart(s);
    var r := TrimEnd(t);
    var i := |s| - |t|;
    assert AllSpaces(s[..i]);
    var tail := t[|r|..];
    assert AllSpaces(tail);
    var rest := s[i + |r|..];
    forall k | 0 <= k < |rest|
      ensures IsSpace(rest[k])
    {
      assert rest[k] == t[|r| + k] == tail[k];
    }
  }

  /** The trimmed text neither starts nor ends with whitespace. */
  lemma TrimEnds(s: string)
    ensures var r := Trim(s);
            r != [] ==> !IsSpace(r[0]) && !IsSpace(r[|r| - 1])
  {
    var t := TrimStart(s);
    var r := TrimEnd(t);
    if r != [] {
      assert r[0] == t[0];
    }
  }

  /** Lower-casing leaves text without ASCII capitals as it is. */
  lemma LowerAsciiKeeps(s: string)
    requires forall k :: 0 <= k < |s| ==> !('A' <= s[k] <= 'Z')
    ensures LowerAscii(s) == s
  {
    var r := LowerAscii(s);
    assert forall k :: 0 <= k < |s| ==> r[k] == s[k];
  }

  function LowerChar(c: char): char {
    if 'A' <= c <= 'Z' then (c as int + 32) as char else c
  }

  /** `toLowerCase` on the ASCII letters; every other character is kept. */
  function LowerAscii(s: string): (r: string)
    ensures |r| == |s|
    ensures forall k :: 0 <= k < |s| ==> r[k] == LowerChar(s[k])
  {
    if s == [] then [] else [LowerChar(s[0])] + LowerAscii(s[1..])
  }

  function EndsWith(s: string, suffix: string): bool {
    |suffix| <= |s| && s[|s| - |suffix|..] == suffix
  }

  lemma {:induction false} TrimStartDropsSpaces(lead: string, m: string)
    requires AllSpaces(lead)
    ensures TrimStart(lead + m) == TrimStart(m)
    decreases |lead|
  {
    if lead != [] {
      assert (lead + m)[0] == lead[0] && IsSpace(lead[0]);
      assert (lead + m)[1..] == lead[1..] + m;
      assert AllSpaces(lead[1..]) by {
        forall k | 0 <= k < |lead[1..]| ensures IsSpace(lead[1..][k]) { assert lead[1..][k] == lead[k + 1]; }
      }
      TrimStartDropsSpaces(lead[1..], m);
      assert TrimStart(lead + m) == TrimStart((lead + m)[1..]);
    } else {
      assert lead + m == m;
    }
  }

  lemma {:induction false} TrimEndDropsSpaces(m: string, trail: string)
    requires AllSpaces(trail)
    ensures TrimEnd(m + trail) == TrimEnd(m)
    decreases |trail|
  {
    if trail != [] {
      assert (m + trail)[..|m + trail| - 1] == m + trail[..|trail| - 1];
      TrimEndDropsSpaces(m, trail[..|trail| - 1]);
    } else {
      assert m + trail == m;
    }
  }

  lemma {:induction false} TrimStartKeepsTail(m: string, tail: string, k: nat)
    requires k < |m| && !IsSpace(m[k])
    ensures TrimStart(m + tail) == TrimStart(m) + tail
    decreases |m|
  {
    if IsSpace(m[0]) {
      assert (m + tail)[1..] == m[1..] + tail;
      TrimStartKeepsTail(m[1..], tail, k - 1);
    }
  }

  /** Text made only of whitespace trims to nothing. */
  lemma TrimStartOfSpaces(m: string)
    requires AllSpaces(m)
    ensures TrimStart(m) == []
  {
    assert m + [] == m;
    TrimStartDropsSpaces(m, []);
  }

  /** Whitespace around a piece of text does not change what `trim` returns. */
  lemma TrimIgnoresSpaces(lead: string, m: string, trail: string)
    requires AllSpaces(lead) && AllSpaces(trail)
    ensures Trim(lead + m + trail) == Trim(m)
  {
    assert lead + m + trail == lead + (m + trail);
    TrimStartDropsSpaces(lead, m + trail);
    if AllSpaces(m) {
      assert AllSpaces(m + trail) by {
        forall k | 0 <= k < |m + trail| ensures IsSpace((m + trail)[k]) {
          if k < |m| { assert (m + trail)[k] == m[k]; } else { assert (m + trail)[k] == trail[k - |m|]; }
        }
      }
      TrimStartOfSpaces(m + trail);
      TrimStartOfSpaces(m);
    } else {
      var k :| 0 <= k < |m| && !IsSpace(m[k]);
      TrimStartKeepsTail(m, trail, k);
      TrimEndDropsSpaces(TrimStart(m), trail);
    }
  }

  lemma TrimSpaceAfter(m: string)
    ensures Trim(m + " ") == Trim(m)
  {
    assert [] + m + " " == m + " ";
    TrimIgnoresSpaces([], m, " ");
  }

  lemma TrimSpaceBefore(m: string)
    ensures Trim(" " + m) == Trim(m)
  {
    assert " " + m + [] == " " + m;
    TrimIgnoresSpaces(" ", m, []);
  }

  /** Characters other than `c` before `k` do not move the search for `c`. */
  lemma {:induction false} IndexFromSkips(s: string, c: char, i: nat, k: nat)
    requires i <= k <= |s|
    requires forall j :: i <= j < k ==> s[j] != c
    ensures IndexFrom(s, c, i) == IndexFrom(s, c, k)
    decreases k - i
  {
    if i < k {
      IndexFromSkips(s, c, i + 1, k);
    }
  }

  /** `IndexFrom` finds the first occurrence. */
  lemma FirstIndex(s: string, c: char, i: nat, j: nat)
    requires i <= j < |s| && s[j] == c
    requires forall k :: i <= k < j ==> s[k] != c
    ensures IndexFrom(s, c, i) == j
  {
    IndexFromSkips(s, c, i, j);
  }

  /** `trim` of a slice ignores the whitespace at both of its ends. */
  lemma TrimSlice(s: string, lo: nat, a: nat, b: nat, hi: nat)
    requires lo <= a <= b <= hi <= |s|
    requires forall k :: lo <= k < a ==> IsSpace(s[k])
    requires forall k :: b <= k < hi ==> IsSpace(s[k])
    ensures Trim(s[lo..hi]) == Trim(s[a..b])
  {
    assert s[lo..hi] == s[lo..a] + s[a..b] + s[b..hi];
    TrimIgnoresSpaces(s[lo..a], s[a..b], s[b..hi]);
  }
}
