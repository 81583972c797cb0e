/** Small sequence vocabulary shared by the rest of the model: the last element,
    everything but the last element, "no value twice", and occurrence counting.
    The model's recursive definitions peel elements off the END of a sequence,
    because the Go loops they specify walk their input front to back and append. */
module Seqs {

  function Last<T>(s: seq<T>): T
    requires |s| > 0
  {
    s[|s| - 1]
  }

  function DropLast<T>(s: seq<T>): seq<T>
    requires |s| > 0
  {
    s[..|s| - 1]
  }

  /** Every value occurs at most once. */
  ghost predicate NoDuplicates<T>(s: seq<T>)
  {
    forall i, j :: 0 <= i < j < |s| ==> s[i] != s[j]
  }

  /** The number of positions of `s` that hold `x`. */
  function Count(s: seq<string>, x: string): (n: nat)
    ensures n <= |s|
  {
    if s == [] then 0
    else Count(DropLast(s), x) + (if Last(s) == x then 1 else 0)
  }

  /** A value occurs in `s` exactly when it is counted at least once. */
  lemma {:induction false} CountPositive(s: seq<string>, x: string)
    ensures Count(s, x) >= 1 <==> x in s
  {
    if s != [] {
      assert s == DropLast(s) + [Last(s)];
      CountPositive(DropLast(s), x);
    }
  }

  /** Splitting a sequence after its last element: a fact every snoc-style unfolding needs. */
  lemma SnocParts<T>(s: seq<T>, x: T)
    ensures |s + [x]| > 0 && DropLast(s + [x]) == s && Last(s + [x]) == x
  {
  }
}
