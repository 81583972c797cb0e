/** Order-preserving deduplication of strings: the helper GenerateUniqueStringSlice
    that derives the role list, the environment list and the per-bucket instance types. */
module Unique {
  import opened Seqs

  /** The distinct values of `s`, each at the place of its first occurrence. */
  function Dedup(s: seq<string>): (r: seq<string>)
    ensures NoDuplicates(r)
    ensures forall x :: x in r <==> x in s
    ensures |r| <= |s|
    ensures |r| == 0 <==> |s| == 0
  {
    if s == [] then []
    else
      var p := Dedup(DropLast(s));
      if Last(s) in p then p else p + [Last(s)]
  }

  /** The position of the first occurrence of `x` in `s`. */
  function FirstIndex(s: seq<string>, x: string): (k: nat)
    requires x in s
    ensures k < |s| && s[k] == x
    ensures forall j :: 0 <= j < k ==> s[j] != x
  {
    if x in DropLast(s) then FirstIndex(DropLast(s), x) else |s| - 1
  }

  /** The model of GenerateUniqueStringSlice: a seen-map `m` and an output slice `u`. */
  method GenerateUniqueStringSlice(s: seq<string>) returns (u: seq<string>)
    ensures u == Dedup(s)
  {
    u := [];
    var m: map<string, bool> := map[];
    for i := 0 to |s|
      invariant u == Dedup(s[..i])
      invariant forall x :: x in m <==> x in u
    {
      var val := s[i];
      assert s[..i + 1] == s[..i] + [val];
      SnocParts(s[..i], val);
      if val !in m {
        m := m[val := true];
        u := u + [val];
      }
    }
    assert s[..|s|] == s;
  }

  /** Distinct values come out in the order of their first occurrences in the input. */
  lemma {:induction false} DedupKeepsFirstOccurrenceOrder(s: seq<string>)
    ensures forall i, j :: 0 <= i < j < |Dedup(s)| ==>
      FirstIndex(s, Dedup(s)[i]) < FirstIndex(s, Dedup(s)[j])
  {
    if s != [] {
      var init := DropLast(s);
      DedupKeepsFirstOccurrenceOrder(init);
      var p, r := Dedup(init), Dedup(s);
      forall x | x in p ensures FirstIndex(s, x) == FirstIndex(init, x) < |s| - 1 {
        assert x in init;
      }
      forall i, j | 0 <= i < j < |r| ensures FirstIndex(s, r[i]) < FirstIndex(s, r[j]) {
        assert r[i] in p;
        if j < |p| {
          assert r[j] in p;
        } else {
          assert r[j] == Last(s) && Last(s) !in init;
        }
      }
    }
  }

  /** A sequence without duplicates is its own deduplication. */
  lemma {:induction false} DedupOfDistinct(s: seq<string>)
    requires NoDuplicates(s)
    ensures Dedup(s) == s
  {
    if s != [] {
      assert s == DropLast(s) + [Last(s)];
      DedupOfDistinct(DropLast(s));
      assert Last(s) !in DropLast(s);
    }
  }

  /** Deduplicating twice gives the same result as deduplicating once. */
  lemma DedupIdempotent(s: seq<string>)
    ensures Dedup(Dedup(s)) == Dedup(s)
  {
    DedupOfDistinct(Dedup(s));
  }
}
