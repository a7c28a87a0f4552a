/**
 Order-preserving selection over sequences: the shape shared by the Python loop
 that appends the courses it does not skip and by a DataFrame boolean mask.
 */
module Seqs {

  /** `idx` lists, in strictly increasing order, positions of `s` that spell out `r`. */
  ghost predicate EmbedsVia<T>(r: seq<T>, s: seq<T>, idx: seq<nat>)
  {
    && |idx| == |r|
    && (forall k :: 0 <= k < |idx| ==> idx[k] < |s| && r[k] == s[idx[k]])
    && (forall k, l :: 0 <= k < l < |idx| ==> idx[k] < idx[l])
  }

  /** `r` is obtained from `s` by deleting elements, without reordering. */
  ghost predicate IsSubsequence<T>(r: seq<T>, s: seq<T>)
  {
    exists idx :: EmbedsVia(r, s, idx)
  }

  /** The elements of `s` satisfying `p`, in their original order. Defined on the
      last element so that it follows a left-to-right loop that appends. */
  function Keep<T(!new)>(s: seq<T>, p: T -> bool): (r: seq<T>)
    ensures |r| <= |s|
    ensures forall x :: x in r <==> x in s && p(x)
  {
    if |s| == 0 then []
    else
      var init, last := s[..|s| - 1], s[|s| - 1];
      assert s == init + [last];
      Keep(init, p) + (if p(last) then [last] else [])
  }

  /** `Keep` retains every occurrence of a passing element and no occurrence of any other. */
  lemma {:induction false} KeepCounts<T(!new)>(s: seq<T>, p: T -> bool)
    ensures forall x :: multiset(Keep(s, p))[x] == if p(x) then multiset(s)[x] else 0
  {
    if |s| > 0 {
      var init, last := s[..|s| - 1], s[|s| - 1];
      KeepCounts(init, p);
      assert s == init + [last];
      assert multiset(s) == multiset(init) + multiset{last};
    }
  }

  /** The positions `Keep` selects. */
  function KeptPositions<T(!new)>(s: seq<T>, p: T -> bool): seq<nat>
  {
    if |s| == 0 then []
    else KeptPositions(s[..|s| - 1], p) + (if p(s[|s| - 1]) then [|s| - 1] else [])
  }

  lemma {:induction false} KeepEmbeds<T(!new)>(s: seq<T>, p: T -> bool)
    ensures EmbedsVia(Keep(s, p), s, KeptPositions(s, p))
    ensures forall k :: 0 <= k < |KeptPositions(s, p)| ==> KeptPositions(s, p)[k] < |s|
  {
    if |s| > 0 {
      var init, last := s[..|s| - 1], s[|s| - 1];
      KeepEmbeds(init, p);
      var r0, idx0 := Keep(init, p), KeptPositions(init, p);
      assert forall k :: 0 <= k < |idx0| ==> idx0[k] < |init| && r0[k] == s[idx0[k]];
    }
  }

  /** `Keep` only deletes: its result is a subsequence of its input. */
  lemma KeepIsSubsequence<T(!new)>(s: seq<T>, p: T -> bool)
    ensures IsSubsequence(Keep(s, p), s)
  {
    KeepEmbeds(s, p);
  }

  /** When every element passes, nothing is removed. */
  lemma {:induction false} KeepAll<T(!new)>(s: seq<T>, p: T -> bool)
    requires forall x :: x in s ==> p(x)
    ensures Keep(s, p) == s
  {
    if |s| > 0 {
      var init, last := s[..|s| - 1], s[|s| - 1];
      assert s == init + [last];
      assert forall x :: x in init ==> x in s;
      KeepAll(init, p);
      assert p(last);
    }
  }

  /** Selecting from a sequence extended by one element. */
  lemma KeepSnoc<T(!new)>(s: seq<T>, x: T, p: T -> bool)
    ensures Keep(s + [x], p) == Keep(s, p) + (if p(x) then [x] else [])
  {
  }

  /** Two selections in a row are one selection by the conjunction of their predicates. */
  lemma {:induction false} KeepKeep<T(!new)>(s: seq<T>, p: T -> bool, q: T -> bool, both: T -> bool)
    requires forall x :: both(x) == (p(x) && q(x))
    ensures Keep(Keep(s, p), q) == Keep(s, both)
  {
    if |s| > 0 {
      var init, last := s[..|s| - 1], s[|s| - 1];
      KeepKeep(init, p, q, both);
      var kept := Keep(init, p);
      if p(last) {
        assert Keep(s, p) == kept + [last];
        KeepSnoc(kept, last, q);
        assert Keep(s, both) == Keep(init, both) + (if both(last) then [last] else []);
      } else {
        assert Keep(s, p) == kept + [];
        assert kept + [] == kept;
        assert Keep(s, both) == Keep(init, both) + [];
        assert Keep(init, both) + [] == Keep(init, both);
      }
    }
  }

  /** Splitting by a predicate and by its negation accounts for every element exactly once. */
  lemma {:induction false} KeepPartition<T(!new)>(s: seq<T>, p: T -> bool, notP: T -> bool)
    requires forall x :: notP(x) == !p(x)
    ensures |Keep(s, p)| + |Keep(s, notP)| == |s|
  {
    if |s| > 0 {
      KeepPartition(s[..|s| - 1], p, notP);
    }
  }
}
