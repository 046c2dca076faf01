/**
 * The JavaScript string built-ins the playlist parser relies on, with the
 * semantics they have for the arguments the parser passes: `startsWith`,
 * `split` on a one-character separator, and `replace` with a global
 * one-character pattern and an empty replacement.
 */
module JsString {
  import opened Seqs

  /** `s.startsWith(p)` */
  predicate StartsWith(s: string, p: string) {
    |p| <= |s| && s[..|p|] == p
  }

  /**
   * `s.split(c)`: the pieces between occurrences of `c`, in order. There is
   * always at least one piece, so `"".split(c)` is `[""]` and a trailing
   * separator yields a trailing empty piece.
   */
  function Split(s: string, c: char): (r: seq<string>)
    ensures |r| >= 1
    decreases |s|
  {
    if s == [] then [""]
    else
      var rest := Split(s[1..], c);
      if s[0] == c then [""] + rest else [[s[0]] + rest[0]] + rest[1..]
  }

  /** `pieces.join(c)`: the inverse of `Split` */
  function Join(pieces: seq<string>, c: char): string
    requires |pieces| >= 1
    decreases |pieces|
  {
    if |pieces| == 1 then pieces[0] else pieces[0] + [c] + Join(pieces[1..], c)
  }

  /** No piece of a split contains the separator. */
  lemma {:induction false} SplitPiecesAvoidSeparator(s: string, c: char)
    ensures forall i :: 0 <= i < |Split(s, c)| ==> c !in Split(s, c)[i]
    decreases |s|
  {
    if s != [] {
      SplitPiecesAvoidSeparator(s[1..], c);
    }
  }

  lemma JoinConsHead(x: char, pieces: seq<string>, c: char)
    requires |pieces| >= 1
    ensures Join([[x] + pieces[0]] + pieces[1..], c) == [x] + Join(pieces, c)
  {
  }

  /** Joining the pieces of a split gives back the string. */
  lemma {:induction false} JoinSplit(s: string, c: char)
    ensures Join(Split(s, c), c) == s
    decreases |s|
  {
    if s != [] {
      JoinSplit(s[1..], c);
      var rest := Split(s[1..], c);
      if s[0] != c {
        JoinConsHead(s[0], rest, c);
      }
      assert s == [s[0]] + s[1..];
    }
  }

  /** Splitting a join of separator-free pieces gives back the pieces. */
  lemma {:induction false} SplitJoin(pieces: seq<string>, c: char)
    requires |pieces| >= 1
    requires forall i :: 0 <= i < |pieces| ==> c !in pieces[i]
    ensures Split(Join(pieces, c), c) == pieces
    decreases |pieces|, |pieces[0]|
  {
    var p := pieces[0];
    HeadTail(pieces);
    if p == [] {
      if |pieces| > 1 {
        SplitJoin(pieces[1..], c);
        assert Join(pieces, c) == [c] + Join(pieces[1..], c);
        SplitCons(c, Join(pieces[1..], c), c);
      }
    } else {
      var tail := [p[1..]] + pieces[1..];
      assert tail[0] == p[1..] && tail[1..] == pieces[1..];
      SplitJoin(tail, c);
      assert p[0] != c by { assert p[0] in p; }
      assert Join(pieces, c) == [p[0]] + Join(tail, c) by {
        HeadTail(p);
        if |pieces| > 1 {
          ConsAppend(p[0], p[1..], [c] + Join(pieces[1..], c));
        }
      }
      SplitCons(p[0], Join(tail, c), c);
      HeadTail(p);
    }
  }

  /** Splitting text made of two parts around one separator splits each part. */
  lemma {:induction false} SplitAround(a: string, b: string, c: char)
    ensures Split(a + [c] + b, c) == Split(a, c) + Split(b, c)
    decreases |a|
  {
    if a == [] {
      assert a + [c] + b == [c] + b;
      SplitCons(c, b, c);
    } else {
      SplitAround(a[1..], b, c);
      SplitAroundStep(a[0], a[1..], b, c);
      assert [a[0]] + a[1..] == a;
    }
  }

  lemma SplitAroundStep(x: char, a: string, b: string, c: char)
    requires Split(a + [c] + b, c) == Split(a, c) + Split(b, c)
    ensures Split([x] + a + [c] + b, c) == Split([x] + a, c) + Split(b, c)
  {
    var t := a + [c] + b;
    assert [x] + a + [c] + b == [x] + t;
    SplitCons(x, t, c);
    SplitCons(x, a, c);
    ConsAppend(if x == c then "" else [x] + Split(a, c)[0], if x == c then Split(a, c) else Split(a, c)[1..], Split(b, c));
    if x != c {
      TailOfAppend(Split(a, c), Split(b, c));
    }
  }

  /** Splitting a string one character longer at the front. */
  lemma SplitCons(x: char, t: string, c: char)
    ensures Split([x] + t, c) ==
      if x == c then [""] + Split(t, c) else [[x] + Split(t, c)[0]] + Split(t, c)[1..]
  {
    assert ([x] + t)[1..] == t;
  }

  /** A string without the separator splits into itself alone. */
  lemma SplitWhole(s: string, c: char)
    requires c !in s
    ensures Split(s, c) == [s]
  {
    SplitJoin([s], c);
  }

  /** `s.replace(/c/g, '')`: `s` with every `c` removed, the rest in order. */
  function RemoveAll(s: string, c: char): (r: string)
    ensures |r| <= |s| && c !in r
    decreases |s|
  {
    if s == [] then []
    else if s[0] == c then RemoveAll(s[1..], c) else [s[0]] + RemoveAll(s[1..], c)
  }

  /** Every other character is kept, as often as it occurs. */
  lemma {:induction false} RemoveAllKeepsOthers(s: string, c: char)
    ensures multiset(RemoveAll(s, c)) == multiset(s)[c := 0]
    decreases |s|
  {
    if s != [] {
      RemoveAllKeepsOthers(s[1..], c);
      assert s == [s[0]] + s[1..];
    }
  }

  /** Removing a character that does not occur changes nothing. */
  lemma {:induction false} RemoveAllAbsent(s: string, c: char)
    requires c !in s
    ensures RemoveAll(s, c) == s
    decreases |s|
  {
    if s != [] {
      assert s[0] in s;
      assert forall x :: x in s[1..] ==> x in s;
      RemoveAllAbsent(s[1..], c);
      assert s == [s[0]] + s[1..];
    }
  }

  /** Removal distributes over concatenation. */
  lemma {:induction false} RemoveAllAppend(a: string, b: string, c: char)
    ensures RemoveAll(a + b, c) == RemoveAll(a, c) + RemoveAll(b, c)
    decreases |a|
  {
    if a == [] {
      assert a + b == b;
    } else {
      RemoveAllAppend(a[1..], b, c);
      TailOfAppend(a, b);
      ConsAppend(a[0], RemoveAll(a[1..], c), RemoveAll(b, c));
    }
  }
}
