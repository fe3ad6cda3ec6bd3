/** Array.prototype.filter and the distinct-values step `[...new Set(xs)]`,
    with the order facts the directory relies on. */
module Seqs {

  /** Array.prototype.filter: the elements satisfying `f`, in their order. */
  function Keep<T>(s: seq<T>, f: T -> bool): (r: seq<T>)
    ensures |r| <= |s|
  {
    if s == [] then [] else (if f(s[0]) then [s[0]] else []) + Keep(s[1..], f)
  }

  /** `idx` lists, strictly increasing, the positions of `s` that `r` is made of. */
  ghost predicate Embeds<T>(r: seq<T>, s: seq<T>, idx: seq<nat>) {
    && |idx| == |r|
    && (forall k :: 0 <= k < |idx| ==> idx[k] < |s| && r[k] == s[idx[k]])
    && (forall k, l :: 0 <= k < l < |idx| ==> idx[k] < idx[l])
  }

  /** `r` is an order-preserving subsequence of `s`. */
  ghost predicate IsSubsequence<T>(r: seq<T>, s: seq<T>) {
    exists idx :: Embeds(r, s, idx)
  }

  /** An element is kept exactly when it is in the input and passes. */
  lemma {:induction false} KeepMembership<T>(s: seq<T>, f: T -> bool, x: T)
    ensures x in Keep(s, f) <==> x in s && f(x)
  {
    if s != [] {
      KeepMembership(s[1..], f, x);
      assert s == [s[0]] + s[1..];
    }
  }

  /** Every kept element passes. */
  lemma KeepPasses<T>(s: seq<T>, f: T -> bool)
    ensures forall k :: 0 <= k < |Keep(s, f)| ==> f(Keep(s, f)[k])
  {
    forall k | 0 <= k < |Keep(s, f)| ensures f(Keep(s, f)[k]) {
      KeepMembership(s, f, Keep(s, f)[k]);
    }
  }

  /** Each passing value is kept as often as it occurs, and no other value is
      kept; with KeepIsSubsequence this pins the result down exactly. */
  lemma {:induction false} KeepCounts<T>(s: seq<T>, f: T -> bool, x: T)
    ensures multiset(Keep(s, f))[x] == if f(x) then multiset(s)[x] else 0
  {
    if s != [] {
      KeepCounts(s[1..], f, x);
      assert s == [s[0]] + s[1..];
      assert multiset(s) == multiset([s[0]]) + multiset(s[1..]);
      var head := if f(s[0]) then [s[0]] else [];
      assert multiset(Keep(s, f)) == multiset(head) + multiset(Keep(s[1..], f));
    }
  }

  /** Filtering a sequence with a given first element. */
  lemma KeepCons<T>(h: T, t: seq<T>, f: T -> bool)
    ensures Keep([h] + t, f) == (if f(h) then [h] else []) + Keep(t, f)
  {
    assert ([h] + t)[1..] == t;
  }

  /** Filtering commutes with concatenation, so relative order is kept. */
  lemma {:induction false} KeepConcat<T>(a: seq<T>, b: seq<T>, f: T -> bool)
    ensures Keep(a + b, f) == Keep(a, f) + Keep(b, f)
  {
    if a == [] {
      assert a + b == b;
    } else {
      var h, t := a[0], a[1..];
      KeepConcat(t, b, f);
      assert a + b == [h] + (t + b);
      assert a == [h] + t;
      KeepCons(h, t + b, f);
      KeepCons(h, t, f);
    }
  }

  /** Every position moved one place on. */
  function Shift(idx: seq<nat>): (r: seq<nat>)
    ensures |r| == |idx| && forall k :: 0 <= k < |idx| ==> r[k] == idx[k] + 1
  {
    seq(|idx|, k requires 0 <= k < |idx| => idx[k] + 1)
  }

  /** An embedding into the tail of `s` is an embedding into `s`, one place on. */
  lemma EmbedsInTail<T>(r: seq<T>, s: seq<T>, idx: seq<nat>)
    requires s != [] && Embeds(r, s[1..], idx)
    ensures Embeds(r, s, Shift(idx))
  {
    var j := Shift(idx);
    forall k | 0 <= k < |j| ensures j[k] < |s| && r[k] == s[j[k]] {
      assert s[idx[k] + 1] == s[1..][idx[k]];
    }
  }

  /** ... and the head of `s` can be put in front of it. */
  lemma EmbedsWithHead<T>(r: seq<T>, s: seq<T>, idx: seq<nat>)
    requires s != [] && Embeds(r, s, Shift(idx)) && (forall k :: 0 <= k < |idx| ==> Shift(idx)[k] > 0)
    ensures Embeds([s[0]] + r, s, [0] + Shift(idx))
  {
    var j := [0] + Shift(idx);
    var r' := [s[0]] + r;
    forall k | 0 <= k < |j| ensures j[k] < |s| && r'[k] == s[j[k]] {
      if k > 0 {
        assert r'[k] == r[k - 1] && j[k] == Shift(idx)[k - 1];
      }
    }
  }

  /** The filtered sequence is an order-preserving subsequence of the input. */
  lemma {:induction false} KeepIsSubsequence<T>(s: seq<T>, f: T -> bool)
    ensures IsSubsequence(Keep(s, f), s)
  {
    if s == [] {
      assert Embeds(Keep(s, f), s, []);
    } else {
      var rest := Keep(s[1..], f);
      KeepIsSubsequence(s[1..], f);
      var idx :| Embeds(rest, s[1..], idx);
      EmbedsInTail(rest, s, idx);
      if f(s[0]) {
        EmbedsWithHead(rest, s, idx);
        assert Keep(s, f) == [s[0]] + rest;
        assert Embeds(Keep(s, f), s, [0] + Shift(idx));
      } else {
        assert Keep(s, f) == rest;
      }
    }
  }

  /** When every element passes, filtering returns the input unchanged. */
  lemma {:induction false} KeepAll<T>(s: seq<T>, f: T -> bool)
    requires forall k :: 0 <= k < |s| ==> f(s[k])
    ensures Keep(s, f) == s
  {
    if s != [] {
      KeepAll(s[1..], f);
    }
  }

  /** When no element passes, filtering returns nothing. */
  lemma {:induction false} KeepNone<T>(s: seq<T>, f: T -> bool)
    requires forall k :: 0 <= k < |s| ==> !f(s[k])
    ensures Keep(s, f) == []
  {
    if s != [] {
      KeepNone(s[1..], f);
    }
  }

  predicate Distinct<T(==)>(s: seq<T>) {
    forall i, j :: 0 <= i < j < |s| ==> s[i] != s[j]
  }

  /** The position of the first occurrence of `x` in `s`. */
  function FirstIndex<T(==)>(s: seq<T>, x: T): (i: nat)
    requires x in s
    ensures i < |s| && s[i] == x
    ensures forall j :: 0 <= j < i ==> s[j] != x
  {
    if s[0] == x then 0 else 1 + FirstIndex(s[1..], x)
  }

  /** `[...new Set(s)]`: each value once, where it first appears. */
  function Dedup<T(==)>(s: seq<T>): (r: seq<T>)
    ensures forall k :: 0 <= k < |r| ==> r[k] in s
    ensures forall k :: 0 <= k < |s| ==> s[k] in r
    ensures Distinct(r)
    ensures |r| <= |s|
  {
    if s == [] then []
    else
      var d := Dedup(s[..|s| - 1]);
      var last := s[|s| - 1];
      assert forall k :: 0 <= k < |s| - 1 ==> s[k] == s[..|s| - 1][k];
      if last in d then d else d + [last]
  }

  /** A value is among the distinct values exactly when it occurs. */
  lemma DedupMember<T>(s: seq<T>, x: T)
    ensures x in Dedup(s) <==> x in s
  {
    if x in s {
      var k :| 0 <= k < |s| && s[k] == x;
    }
  }

  lemma {:induction false} FirstIndexInPrefix<T>(s: seq<T>, n: nat, x: T)
    requires n <= |s| && x in s[..n]
    ensures x in s && FirstIndex(s, x) == FirstIndex(s[..n], x)
  {
    var i := FirstIndex(s[..n], x);
    assert s[i] == x;
    var j := FirstIndex(s, x);
    assert j <= i;
    assert s[..n][j] == x;
  }

  /** The distinct values come in the order of their first appearance. */
  lemma {:induction false} DedupOrder<T>(s: seq<T>)
    ensures forall i, j :: 0 <= i < j < |Dedup(s)| ==>
      FirstIndex(s, Dedup(s)[i]) < FirstIndex(s, Dedup(s)[j])
  {
    if s != [] {
      var front := s[..|s| - 1];
      var last := s[|s| - 1];
      var d := Dedup(front);
      DedupOrder(front);
      forall x | x in d ensures x in s && FirstIndex(s, x) == FirstIndex(front, x) {
        FirstIndexInPrefix(s, |s| - 1, x);
      }
      if last !in d {
        assert last !in front;
        assert FirstIndex(s, last) == |s| - 1;
      }
    }
  }
}
