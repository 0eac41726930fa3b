/** Sequence operations behind the JavaScript array calls the game uses
    (`splice(k, 1)` and `filter`), and the notion of a subsequence in which
    survivors keep their relative order. */
module Sequences {

  /** `s.splice(k, 1)`: removes the element at index k; nothing when k is past the end. */
  function RemoveAt<T>(s: seq<T>, k: nat): (r: seq<T>)
    ensures k < |s| ==> |r| == |s| - 1
    ensures k < |s| ==> forall i :: 0 <= i < |r| ==> r[i] == if i < k then s[i] else s[i + 1]
    ensures |s| <= k ==> r == s
  {
    if k < |s| then s[..k] + s[k + 1..] else s
  }

  /** `s.filter(keep)`, by recursion on the last element. */
  function Filter<T>(s: seq<T>, keep: T -> bool): (r: seq<T>)
    ensures |r| <= |s|
    ensures forall x :: x in r ==> x in s && keep(x)
    decreases |s|
  {
    if s == [] then []
    else
      var rest := Filter(s[..|s| - 1], keep);
      if keep(s[|s| - 1]) then rest + [s[|s| - 1]] else rest
  }

  /** The indices of the elements of s that satisfy keep, in increasing order. */
  ghost function Kept<T>(s: seq<T>, keep: T -> bool): seq<int>
    decreases |s|
  {
    if s == [] then []
    else
      var rest := Kept(s[..|s| - 1], keep);
      if keep(s[|s| - 1]) then rest + [|s| - 1] else rest
  }

  /** idx is a strictly increasing list of positions of s at which r's elements stand. */
  ghost predicate Embeds<T>(r: seq<T>, s: seq<T>, idx: seq<int>)
  {
    && |idx| == |r|
    && (forall k :: 0 <= k < |idx| ==> 0 <= idx[k] < |s| && r[k] == s[idx[k]])
    && (forall k, l :: 0 <= k < l < |idx| ==> idx[k] < idx[l])
  }

  /** r is obtained from s by deleting elements: what is left keeps its order. */
  ghost predicate SubsequenceOf<T>(r: seq<T>, s: seq<T>)
  {
    exists idx :: Embeds(r, s, idx)
  }

  /** r consists of exactly the elements of s that satisfy keep, in the order of s. */
  ghost predicate Selects<T>(r: seq<T>, s: seq<T>, keep: T -> bool)
  {
    exists idx :: Embeds(r, s, idx) && forall j :: 0 <= j < |s| ==> (j in idx <==> keep(s[j]))
  }

  /** Every index Kept lists is a position of s. */
  lemma {:induction false} KeptBounded<T>(s: seq<T>, keep: T -> bool)
    ensures forall k :: 0 <= k < |Kept(s, keep)| ==> 0 <= Kept(s, keep)[k] < |s|
    decreases |s|
  {
    if s != [] {
      KeptBounded(s[..|s| - 1], keep);
    }
  }

  /** Kept lists an index exactly when its element passes. */
  lemma {:induction false} KeptMembers<T>(s: seq<T>, keep: T -> bool)
    ensures forall j :: 0 <= j < |s| ==> (j in Kept(s, keep) <==> keep(s[j]))
    decreases |s|
  {
    if s != [] {
      var init, last := s[..|s| - 1], |s| - 1;
      KeptMembers(init, keep);
      KeptBounded(init, keep);
      var i0 := Kept(init, keep);
      assert last !in i0;
      forall j | 0 <= j < |s| ensures j in Kept(s, keep) <==> keep(s[j]) {
        if j < last {
          assert s[j] == init[j];
        }
      }
    }
  }

  /** Filter's result stands in s at the positions Kept lists. */
  lemma {:induction false} FilterEmbeds<T>(s: seq<T>, keep: T -> bool)
    ensures Embeds(Filter(s, keep), s, Kept(s, keep))
    decreases |s|
  {
    if s != [] {
      var init, last := s[..|s| - 1], |s| - 1;
      FilterEmbeds(init, keep);
      KeptBounded(init, keep);
      var r0, i0 := Filter(init, keep), Kept(init, keep);
      assert forall k :: 0 <= k < |i0| ==> r0[k] == s[i0[k]];
      if keep(s[last]) {
        var r, idx := r0 + [s[last]], i0 + [last];
        assert forall k :: 0 <= k < |idx| ==> 0 <= idx[k] < |s| && r[k] == s[idx[k]];
        assert Embeds(r, s, idx);
      }
    }
  }

  /** `filter` keeps exactly the elements that pass, in their original order. */
  lemma FilterSelects<T>(s: seq<T>, keep: T -> bool)
    ensures Selects(Filter(s, keep), s, keep)
    ensures SubsequenceOf(Filter(s, keep), s)
  {
    FilterEmbeds(s, keep);
    KeptMembers(s, keep);
  }

  lemma SubsequenceReflexive<T>(s: seq<T>)
    ensures SubsequenceOf(s, s)
  {
    var idx := seq(|s|, i => i);
    assert Embeds(s, s, idx);
  }

  /** `splice(k, 1)` leaves the other elements in their order. */
  lemma RemoveAtSubsequence<T>(s: seq<T>, k: nat)
    ensures SubsequenceOf(RemoveAt(s, k), s)
  {
    if k < |s| {
      var idx := seq(|s| - 1, i => if i < k then i else i + 1);
      assert Embeds(RemoveAt(s, k), s, idx);
    } else {
      SubsequenceReflexive(s);
    }
  }

  lemma SubsequenceTransitive<T>(a: seq<T>, b: seq<T>, c: seq<T>)
    requires SubsequenceOf(a, b) && SubsequenceOf(b, c)
    ensures SubsequenceOf(a, c)
  {
    var i1 :| Embeds(a, b, i1);
    var i2 :| Embeds(b, c, i2);
    var idx := seq(|i1|, k requires 0 <= k < |i1| => i2[i1[k]]);
    assert Embeds(a, c, idx);
  }

  lemma SubsequenceMembers<T>(r: seq<T>, s: seq<T>)
    requires SubsequenceOf(r, s)
    ensures forall x :: x in r ==> x in s
  {
    var idx :| Embeds(r, s, idx);
    forall x | x in r ensures x in s {
      var k :| 0 <= k < |r| && r[k] == x;
      assert s[idx[k]] == x;
    }
  }
}
