/**
 * `/(.+)°N (.+)°E/g.exec(text)` on a freshly created regular expression
 * (so the search starts at index 0). A match is found by backtracking: the
 * leftmost start index first; at that start the longest first group first;
 * with that group, the longest second group first. `.` matches any character
 * but a line terminator.
 */
module GpsPattern {
  import opened Wrappers

  /** The literal text between the two groups. */
  const NorthSep: string := "\U{B0}N "
  /** The literal text after the second group. */
  const EastMark: string := "\U{B0}E"

  /** The characters `.` does not match (no `s` flag): line feed, carriage return, line and paragraph separator. */
  predicate IsLineTerminator(c: char) {
    c == '\n' || c == '\r' || c == '\U{2028}' || c == '\U{2029}'
  }

  /** `s[lo..hi]` is a non-empty text that `.+` can consume. */
  predicate DotRun(s: string, lo: nat, hi: nat) {
    lo < hi <= |s| && forall p :: lo <= p < hi ==> !IsLineTerminator(s[p])
  }

  /** The literal `lit` occurs in `s` at index `p`. */
  predicate LiteralAt(s: string, p: nat, lit: string) {
    p + |lit| <= |s| && s[p..p + |lit|] == lit
  }

  /**
   * A match: group 1 is `s[start..end1]`, `°N ` follows it, group 2 is
   * `s[end1 + 3..end2]`, and `°E` follows that.
   */
  datatype Match = Match(start: nat, end1: nat, end2: nat)
  {
    function Group1(s: string): string
      requires end1 <= |s| && start <= end1
    {
      s[start..end1]
    }

    function Group2(s: string): string
      requires end1 + 3 <= end2 <= |s|
    {
      s[end1 + 3..end2]
    }
  }

  /** The pattern matches `s` with the spans `m`. */
  predicate IsMatch(s: string, m: Match) {
    DotRun(s, m.start, m.end1) && LiteralAt(s, m.end1, NorthSep) &&
    DotRun(s, m.end1 + |NorthSep|, m.end2) && LiteralAt(s, m.end2, EastMark)
  }

  /** `m` is tried before `n` by the backtracking search. */
  predicate TriedBefore(m: Match, n: Match) {
    m.start < n.start ||
    (m.start == n.start && m.end1 > n.end1) ||
    (m.start == n.start && m.end1 == n.end1 && m.end2 > n.end2)
  }

  /** `m` is the match `exec` reports: no other match is tried before it. */
  ghost predicate IsFirstMatch(s: string, m: Match) {
    IsMatch(s, m) && forall n :: IsMatch(s, n) ==> n == m || TriedBefore(m, n)
  }

  /** Greedy `(.+)°E` from index `a`: the largest end of group 2 that is at most `k`. */
  function LastEast(s: string, a: nat, k: nat): (r: Option<nat>)
    decreases k
    ensures r.Some? ==> r.value <= k && DotRun(s, a, r.value) && LiteralAt(s, r.value, EastMark)
    ensures forall e: nat :: e <= k && DotRun(s, a, e) && LiteralAt(s, e, EastMark) ==> r.Some? && e <= r.value
  {
    if k <= a then None
    else if DotRun(s, a, k) && LiteralAt(s, k, EastMark) then Some(k)
    else LastEast(s, a, k - 1)
  }

  /**
   * Greedy `(.+)°N (.+)°E` from index `i`: the largest end of group 1 that is
   * at most `j` and lets the rest match, with the end of group 2 chosen for it.
   */
  function LastNorth(s: string, i: nat, j: nat): (r: Option<Match>)
    decreases j
    ensures r.Some? ==> IsMatch(s, r.value) && r.value.start == i && r.value.end1 <= j
    ensures r.Some? ==> forall n :: IsMatch(s, n) && n.start == i && n.end1 <= j ==> n == r.value || TriedBefore(r.value, n)
    ensures r.None? ==> forall n :: IsMatch(s, n) && n.start == i ==> n.end1 > j
  {
    if j <= i then None
    else if DotRun(s, i, j) && LiteralAt(s, j, NorthSep) && LastEast(s, j + |NorthSep|, |s|).Some? then
      Some(Match(i, j, LastEast(s, j + |NorthSep|, |s|).value))
    else LastNorth(s, i, j - 1)
  }

  /** The search from start index `i` onwards. */
  function ExecFrom(s: string, i: nat): (r: Option<Match>)
    decreases |s| - i
    ensures r.Some? ==> IsMatch(s, r.value) && i <= r.value.start
    ensures r.Some? ==> forall n :: IsMatch(s, n) && i <= n.start ==> n == r.value || TriedBefore(r.value, n)
    ensures r.None? ==> forall n :: IsMatch(s, n) ==> n.start < i
  {
    if |s| <= i then None
    else match LastNorth(s, i, |s|)
      case Some(m) => Some(m)
      case None => ExecFrom(s, i + 1)
  }

  /** `exec(s)`: the first match in backtracking order, or `null` (`None`) when there is none. */
  function Exec(s: string): (r: Option<Match>)
    ensures r.Some? ==> IsFirstMatch(s, r.value)
    ensures r.None? <==> forall n :: !IsMatch(s, n)
  {
    ExecFrom(s, 0)
  }

  /** The backtracking order leaves no tie: a text has at most one first match, and `exec` reports it. */
  lemma FirstMatchUnique(s: string, m: Match)
    requires IsFirstMatch(s, m)
    ensures Exec(s) == Some(m)
  {
    var n := Exec(s).value;
    assert n == m || TriedBefore(n, m);
    assert m == n || TriedBefore(m, n);
  }

  /** A match cuts the text into a prefix, group 1, `°N `, group 2, `°E` and an ignored tail. */
  lemma ExecSplits(s: string)
    requires Exec(s).Some?
    ensures var m := Exec(s).value;
      m.start < m.end1 && m.end1 + |NorthSep| < m.end2 && m.end2 + |EastMark| <= |s| &&
      s == s[..m.start] + m.Group1(s) + NorthSep + m.Group2(s) + EastMark + s[m.end2 + |EastMark|..]
  {
    var m := Exec(s).value;
    var b, c, d, e := m.end1, m.end1 + |NorthSep|, m.end2, m.end2 + |EastMark|;
    assert s[..b] == s[..m.start] + m.Group1(s);
    assert s[..c] == s[..b] + NorthSep;
    assert s[..d] == s[..c] + m.Group2(s);
    assert s[..e] == s[..d] + EastMark;
    assert s == s[..e] + s[e..];
  }

  /** The text holds no line terminator, so `.` matches every character of it. */
  predicate SingleLine(s: string) {
    forall p :: 0 <= p < |s| ==> !IsLineTerminator(s[p])
  }

  /** On a single line, every `°N ` occurrence after index 0 followed later by `°E` yields a match starting at 0. */
  lemma SingleLineMatch(s: string, j: nat, k: nat)
    requires SingleLine(s)
    requires 0 < j && j + |NorthSep| < k
    requires LiteralAt(s, j, NorthSep) && LiteralAt(s, k, EastMark)
    ensures IsMatch(s, Match(0, j, k))
  {
  }

  /** On a single line the pattern matches exactly when some `°N ` after index 0 is followed, after a gap, by `°E`. */
  lemma SingleLineMatches(s: string)
    requires SingleLine(s)
    ensures Exec(s).Some? <==>
      exists j: nat, k: nat :: 0 < j && j + |NorthSep| < k && LiteralAt(s, j, NorthSep) && LiteralAt(s, k, EastMark)
  {
    if j: nat, k: nat :| 0 < j && j + |NorthSep| < k && LiteralAt(s, j, NorthSep) && LiteralAt(s, k, EastMark) {
      SingleLineMatch(s, j, k);
    }
  }

  /**
   * On a single line the match starts at index 0, group 1 ends at the last `°N `
   * that some later `°E` can still follow after a non-empty group 2, and group 2
   * ends at the last `°E` in the text.
   */
  lemma SingleLineGreedy(s: string)
    requires SingleLine(s)
    requires Exec(s).Some?
    ensures Exec(s).value.start == 0
    ensures forall j: nat, k: nat :: Exec(s).value.end1 < j && j + |NorthSep| < k && LiteralAt(s, j, NorthSep) ==> !LiteralAt(s, k, EastMark)
    ensures forall k: nat :: Exec(s).value.end2 < k ==> !LiteralAt(s, k, EastMark)
  {
    var m := Exec(s).value;
    SingleLineMatch(s, m.end1, m.end2);
    forall j: nat, k: nat | m.end1 < j && j + |NorthSep| < k && LiteralAt(s, j, NorthSep)
      ensures !LiteralAt(s, k, EastMark)
    {
      if LiteralAt(s, k, EastMark) {
        SingleLineMatch(s, j, k);
      }
    }
    forall k: nat | m.end2 < k
      ensures !LiteralAt(s, k, EastMark)
    {
      if LiteralAt(s, k, EastMark) {
        SingleLineMatch(s, m.end1, k);
      }
    }
  }

  /** The literal `lit` occurs nowhere in `t`. */
  predicate Lacks(t: string, lit: string) {
    forall q: nat :: q < |t| ==> !LiteralAt(t, q, lit)
  }

  /** A text without a degree sign holds neither literal of the pattern. */
  lemma LacksDegreeSign(t: string)
    requires '\U{B0}' !in t
    ensures Lacks(t, NorthSep) && Lacks(t, EastMark)
  {
    forall q: nat | q < |t|
      ensures !LiteralAt(t, q, NorthSep) && !LiteralAt(t, q, EastMark)
    {
      assert t[q] != '\U{B0}';
    }
  }

  /** A gps text written as `lat°N lon°E` followed by a tail. */
  function GpsText(lat: string, lon: string, tail: string): string {
    lat + NorthSep + lon + EastMark + tail
  }

  /** `GpsText` spans one line when its three parts do. */
  lemma GpsTextSingleLine(lat: string, lon: string, tail: string)
    requires SingleLine(lat) && SingleLine(lon) && SingleLine(tail)
    ensures SingleLine(GpsText(lat, lon, tail))
  {
    var s := GpsText(lat, lon, tail);
    var b, e := |lat| + |NorthSep|, |lat| + |NorthSep| + |lon| + |EastMark|;
    forall p | 0 <= p < |s|
      ensures !IsLineTerminator(s[p])
    {
      if p < |lat| {
        assert s[p] == lat[p];
      } else if p < b {
        assert s[p] == NorthSep[p - |lat|];
      } else if p < b + |lon| {
        assert s[p] == lon[p - b];
      } else if p < e {
        assert s[p] == EastMark[p - b - |lon|];
      } else {
        assert s[p] == tail[p - e];
      }
    }
  }

  /** In `GpsText`, no `°E` starts beyond the one that ends the longitude. */
  lemma NoEastAfterLongitude(lat: string, lon: string, tail: string)
    requires Lacks(tail, EastMark)
    ensures forall k: nat :: |lat| + |NorthSep| + |lon| < k ==> !LiteralAt(GpsText(lat, lon, tail), k, EastMark)
  {
    var s := GpsText(lat, lon, tail);
    var e := |lat| + |NorthSep| + |lon|;
    forall k: nat | e < k
      ensures !LiteralAt(s, k, EastMark)
    {
      if k == e + 1 {
        assert s[k] == 'E';
        assert k + 2 <= |s| ==> s[k..k + 2][0] == 'E';
      } else if k + 2 <= |s| {
        assert s[k..k + 2] == tail[k - e - 2..k - e];
        assert !LiteralAt(tail, k - e - 2, EastMark);
      }
    }
  }

  /** In `GpsText`, no `°N ` starts between the separator and the `°E` that ends the longitude. */
  lemma NoNorthInLongitude(lat: string, lon: string, tail: string)
    requires Lacks(lon, NorthSep)
    ensures forall j: nat :: |lat| < j && j + |NorthSep| < |lat| + |NorthSep| + |lon| ==> !LiteralAt(GpsText(lat, lon, tail), j, NorthSep)
  {
    var s := GpsText(lat, lon, tail);
    var b := |lat| + |NorthSep|;
    forall j: nat | |lat| < j && j + |NorthSep| < b + |lon|
      ensures !LiteralAt(s, j, NorthSep)
    {
      if j < b {
        assert s[j] == NorthSep[j - |lat|] != '\U{B0}';
        assert s[j..j + 3][0] == s[j];
      } else {
        assert s[j..j + 3] == lon[j - b..j - b + 3];
        assert !LiteralAt(lon, j - b, NorthSep);
      }
    }
  }

  /**
   * On a single line, with no `°N ` inside the longitude and no `°E` in the
   * tail, `exec` on `lat°N lon°E` + tail captures exactly `lat` and `lon`.
   */
  lemma ExecOfParts(lat: string, lon: string, tail: string)
    requires lat != [] && lon != []
    requires SingleLine(lat) && SingleLine(lon) && SingleLine(tail)
    requires Lacks(lon, NorthSep) && Lacks(tail, EastMark)
    ensures Exec(GpsText(lat, lon, tail)) == Some(Match(0, |lat|, |lat| + |NorthSep| + |lon|))
    ensures Exec(GpsText(lat, lon, tail)).value.Group1(GpsText(lat, lon, tail)) == lat
    ensures Exec(GpsText(lat, lon, tail)).value.Group2(GpsText(lat, lon, tail)) == lon
  {
    var s := GpsText(lat, lon, tail);
    var j, k := |lat|, |lat| + |NorthSep| + |lon|;
    GpsTextSingleLine(lat, lon, tail);
    assert s[j..j + 3] == NorthSep;
    assert s[k..k + 2] == EastMark;
    SingleLineMatch(s, j, k);
    var m := Exec(s).value;
    SingleLineGreedy(s);
    NoEastAfterLongitude(lat, lon, tail);
    NoNorthInLongitude(lat, lon, tail);
    assert m == Match(0, j, k);
    assert s[0..j] == lat;
    assert s[j + 3..k] == lon;
  }
}
