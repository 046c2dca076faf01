/** Facts about sequence concatenation, stated for any element type so that proofs about lists of strings need not look inside the strings. */
module Seqs {

  lemma HeadTail<T>(s: seq<T>)
    requires |s| >= 1
    ensures [s[0]] + s[1..] == s
  {
  }

  lemma ConsAppend<T>(x: T, left: seq<T>, right: seq<T>)
    ensures [x] + (left + right) == ([x] + left) + right
  {
  }

  lemma TailOfAppend<T>(left: seq<T>, right: seq<T>)
    requires |left| >= 1
    ensures (left + right)[0] == left[0] && (left + right)[1..] == left[1..] + right
  {
  }

  /** Dropping the last element of a sequence with one more element in front. */
  lemma InitOfCons<T>(x: T, s: seq<T>)
    requires |s| >= 1
    ensures ([x] + s)[..|s|] == [x] + s[..|s| - 1] && ([x] + s)[|s|] == s[|s| - 1]
  {
  }

  /** `f` applied along `s` from the first element to the last, starting from `a`. */
  function FoldLeft<T, A>(f: (T, A) -> A, s: seq<T>, a: A): A
    decreases |s|
  {
    if s == [] then a else f(s[|s| - 1], FoldLeft(f, s[..|s| - 1], a))
  }

  /** Folding over a sequence with one more element in front folds that element first. */
  lemma {:induction false} FoldLeftCons<T, A>(f: (T, A) -> A, x: T, s: seq<T>, a: A)
    ensures FoldLeft(f, [x] + s, a) == FoldLeft(f, s, f(x, a))
    decreases |s|
  {
    if s == [] {
      assert [x] + s == [x] && [x][..0] == [];
    } else {
      FoldLeftCons(f, x, s[..|s| - 1], a);
      InitOfCons(x, s);
    }
  }
}
