/**
 * The descriptor-line pattern `/#EXTINF:-1 (.+?),(.+)/` of the playlist
 * parser (src/App.jsx:59), matched by hand the way a backtracking
 * JavaScript regex engine without flags matches it:
 *  - the pattern is unanchored: the first start position where it matches wins;
 *  - `(.+?)` is lazy: the attributes group takes at least one character and
 *    ends at the first comma after that which has no line terminator before
 *    it and a character `.` accepts right after it;
 *  - `(.+)` is greedy: the name runs up to the first line terminator or the end;
 *  - `.` accepts every character except the four ECMAScript line terminators.
 */
module Extinf {
  import opened Wrappers

  /** The literal part of the pattern in front of the attributes group. */
  const Prefix: string := "#EXTINF:-1 "

  /** The characters JavaScript's `.` refuses: LF, CR, LINE SEPARATOR, PARAGRAPH SEPARATOR. */
  predicate IsLineTerminator(ch: char) {
    ch == '\n' || ch == '\r' || ch == '\U{2028}' || ch == '\U{2029}'
  }

  predicate NoTerminator(s: string) {
    forall i :: 0 <= i < |s| ==> !IsLineTerminator(s[i])
  }

  /** `w` occurs in `line` starting at index `p`. */
  predicate OccursAt(line: string, p: int, w: string) {
    0 <= p && p + |w| <= |line| && line[p..p + |w|] == w
  }

  /** The two capture groups of a successful match. */
  datatype Match = Match(attrs: string, name: string)

  /**
   * `(.+?),(.+)` can match at the front of `rest` with the lazy group
   * covering `rest[..k]`.
   */
  predicate IsSplitPoint(rest: string, k: int) {
    1 <= k < |rest| - 1 && NoTerminator(rest[..k]) && rest[k] == ',' && !IsLineTerminator(rest[k + 1])
  }

  /** The whole pattern matches with its literal at index `p` of `line` and the lazy group of length `k`. */
  predicate MatchesAt(line: string, p: int, k: int) {
    0 <= p && p + |Prefix| <= |line| && line[p..p + |Prefix|] == Prefix && IsSplitPoint(line[p + |Prefix|..], k)
  }

  /** Where the greedy `(.+)` starting at `i` stops: the first line terminator at or after `i`, or the end. */
  function RunEnd(s: string, i: nat): (j: nat)
    requires i <= |s|
    ensures i <= j <= |s| && NoTerminator(s[i..j])
    ensures j < |s| ==> IsLineTerminator(s[j])
    decreases |s| - i
  {
    if i == |s| || IsLineTerminator(s[i]) then i
    else
      var j := RunEnd(s, i + 1);
      assert s[i..j] == [s[i]] + s[i + 1..j];
      j
  }

  /**
   * The lazy group tries the lengths k, k + 1, ... in turn; it cannot grow
   * past a line terminator.
   */
  function LazySplit(rest: string, k: nat): (r: Option<nat>)
    requires 1 <= k <= |rest| + 1 && NoTerminator(rest[..k - 1])
    ensures r.Some? ==> k <= r.value < |rest| - 1
    decreases |rest| - k
  {
    if k + 1 >= |rest| || IsLineTerminator(rest[k - 1]) then None
    else
      assert rest[..k] == rest[..k - 1] + [rest[k - 1]];
      if rest[k] == ',' && !IsLineTerminator(rest[k + 1]) then Some(k)
      else LazySplit(rest, k + 1)
  }

  /** The lazy group's length is the smallest split point from `k` on, and there is none when it fails. */
  lemma {:induction false} LazySplitSpec(rest: string, k: nat)
    requires 1 <= k <= |rest| + 1 && NoTerminator(rest[..k - 1])
    ensures var r := LazySplit(rest, k);
      (r.Some? ==> k <= r.value && IsSplitPoint(rest, r.value)) &&
      (r.Some? ==> forall m :: k <= m < r.value ==> !IsSplitPoint(rest, m)) &&
      (r.None? ==> forall m :: k <= m ==> !IsSplitPoint(rest, m))
    decreases |rest| - k
  {
    if k + 1 >= |rest| {
    } else if IsLineTerminator(rest[k - 1]) {
      forall m | k <= m < |rest| ensures !NoTerminator(rest[..m]) {
        assert rest[..m][k - 1] == rest[k - 1];
      }
    } else {
      assert rest[..k] == rest[..k - 1] + [rest[k - 1]];
      if !(rest[k] == ',' && !IsLineTerminator(rest[k + 1])) {
        LazySplitSpec(rest, k + 1);
      }
    }
  }

  /** The leftmost start position, from `p` on, where the pattern matches, with its lazy-group length. */
  function SearchFrom(line: string, p: nat): (r: Option<(nat, nat)>)
    ensures r.Some? ==> r.value.0 + |Prefix| + r.value.1 + 1 < |line|
    decreases |line| - p
  {
    if p + |Prefix| > |line| then None
    else if line[p..p + |Prefix|] == Prefix && LazySplit(line[p + |Prefix|..], 1).Some? then
      Some((p, LazySplit(line[p + |Prefix|..], 1).value))
    else
      SearchFrom(line, p + 1)
  }

  /** The search finds the leftmost start with the shortest lazy group, and fails only when no start matches. */
  lemma {:induction false} SearchFromSpec(line: string, p: nat)
    ensures var r := SearchFrom(line, p);
      (r.Some? ==> p <= r.value.0 && MatchesAt(line, r.value.0, r.value.1)) &&
      (r.Some? ==> forall m :: m < r.value.1 ==> !MatchesAt(line, r.value.0, m)) &&
      (r.Some? ==> forall q, m :: p <= q < r.value.0 ==> !MatchesAt(line, q, m)) &&
      (r.None? ==> forall q, m :: p <= q ==> !MatchesAt(line, q, m))
    decreases |line| - p
  {
    if p + |Prefix| <= |line| {
      LazySplitSpec(line[p + |Prefix|..], 1);
      if !(line[p..p + |Prefix|] == Prefix && LazySplit(line[p + |Prefix|..], 1).Some?) {
        SearchFromSpec(line, p + 1);
      }
    }
  }

  /** `line.match(/#EXTINF:-1 (.+?),(.+)/)`, reduced to its two groups. */
  function MatchExtinf(line: string): (r: Option<Match>)
  {
    match SearchFrom(line, 0)
    case None => None
    case Some((p, k)) =>
      var rest := line[p + |Prefix|..];
      Some(Match(rest[..k], rest[k + 1..RunEnd(rest, k + 1)]))
  }

  /**
   * The match succeeds exactly when the pattern can match somewhere; then
   * both groups are non-empty and free of line terminators, and the line
   * contains the literal, the attributes, a comma and the name in a row.
   */
  lemma MatchExtinfSpec(line: string)
    ensures MatchExtinf(line).Some? <==> exists p, k :: MatchesAt(line, p, k)
    ensures MatchExtinf(line).Some? ==>
      var m := MatchExtinf(line).value;
      |m.attrs| >= 1 && |m.name| >= 1 && NoTerminator(m.attrs) && NoTerminator(m.name) &&
      exists p :: OccursAt(line, p, Prefix + m.attrs + "," + m.name)
  {
    SearchFromSpec(line, 0);
    var r := SearchFrom(line, 0);
    if r.Some? {
      var p, k := r.value.0, r.value.1;
      var rest := line[p + |Prefix|..];
      var j := RunEnd(rest, k + 1);
      assert MatchesAt(line, p, k);
      assert MatchExtinf(line) == Some(Match(rest[..k], rest[k + 1..j]));
      GroupsInPlace(line, p, k, j);
    } else {
      assert MatchExtinf(line).None?;
    }
  }

  /** The literal and the two groups of the match at `p` lie side by side in the line. */
  lemma GroupsInPlace(line: string, p: nat, k: nat, j: nat)
    requires MatchesAt(line, p, k)
    requires k + 1 <= j <= |line[p + |Prefix|..]|
    ensures
      var rest := line[p + |Prefix|..];
      OccursAt(line, p, Prefix + rest[..k] + "," + rest[k + 1..j])
  {
    var rest := line[p + |Prefix|..];
    var whole := Prefix + rest[..k] + "," + rest[k + 1..j];
    assert rest[..j] == rest[..k] + [rest[k]] + rest[k + 1..j];
    assert line[p..p + |whole|] == line[p..p + |Prefix|] + rest[..j];
  }

  /**
   * On a line that starts with the literal, the match is at the start, and
   * its groups are the shortest comma-split the pattern allows, with the
   * name running to the first line terminator.
   */
  lemma MatchAtLineStart(line: string, k: nat)
    requires |Prefix| <= |line| && line[..|Prefix|] == Prefix
    requires IsSplitPoint(line[|Prefix|..], k)
    requires forall m :: 1 <= m < k ==> !IsSplitPoint(line[|Prefix|..], m)
    ensures
      var rest := line[|Prefix|..];
      MatchExtinf(line) == Some(Match(rest[..k], rest[k + 1..RunEnd(rest, k + 1)]))
  {
    var rest := line[|Prefix|..];
    assert rest[..0] == [];
    LazySplitSpec(rest, 1);
    assert LazySplit(rest, 1) == Some(k);
    assert line[0..|Prefix|] == Prefix;
    assert SearchFrom(line, 0) == Some((0, k));
  }

  /**
   * A well-formed descriptor `#EXTINF:-1 <attrs>,<name>` whose attributes hold
   * no comma matches with exactly those two groups.
   */
  lemma {:induction false} MatchWellFormed(attrs: string, name: string)
    requires |attrs| >= 1 && |name| >= 1 && ',' !in attrs
    requires NoTerminator(attrs) && NoTerminator(name)
    ensures MatchExtinf(Prefix + attrs + "," + name) == Some(Match(attrs, name))
  {
    var line := Prefix + attrs + "," + name;
    var rest := attrs + "," + name;
    assert line[..|Prefix|] == Prefix;
    assert line[|Prefix|..] == rest;
    assert rest[..|attrs|] == attrs;
    forall m | 1 <= m < |attrs| ensures !IsSplitPoint(rest, m) {
      assert rest[m] == attrs[m];
    }
    assert rest[|attrs| + 1] == name[0];
    assert IsSplitPoint(rest, |attrs|);
    MatchAtLineStart(line, |attrs|);
    var j := RunEnd(rest, |attrs| + 1);
    assert j == |rest|;
    assert rest[|attrs| + 1..j] == name;
    assert MatchExtinf(line) == Some(Match(rest[..|attrs|], rest[|attrs| + 1..j]));
  }
}
