/** Sequence vocabulary shared by the library's consumers: Ruby's `Array#uniq`
    and the subsequence relation that `Array#select` establishes. */
module Seqs {

  predicate NoDuplicates<T(==)>(xs: seq<T>) {
    forall i, j :: 0 <= i < j < |xs| ==> xs[i] != xs[j]
  }

  /** Index of the first occurrence of `x` in `xs`. */
  function FirstIndex<T(==)>(xs: seq<T>, x: T): (i: nat)
    requires x in xs
    ensures i < |xs| && xs[i] == x && x !in xs[..i]
  {
    if xs[0] == x then 0 else 1 + FirstIndex(xs[1..], x)
  }

  /** Any index holding `x` with no earlier occurrence is the first index. */
  lemma FirstIndexUnique<T>(xs: seq<T>, x: T, i: nat)
    requires i < |xs| && xs[i] == x && x !in xs[..i]
    ensures FirstIndex(xs, x) == i
  {
  }

  /** `Array#uniq`: keeps the first occurrence of every element, in order. */
  function Dedup<T(==,!new)>(xs: seq<T>): (r: seq<T>)
    ensures forall x :: x in r <==> x in xs
    ensures NoDuplicates(r)
    ensures |r| <= |xs|
    decreases |xs|
  {
    if xs == [] then []
    else
      var init := xs[..|xs| - 1];
      var last := xs[|xs| - 1];
      var d := Dedup(init);
      if last in d then d else d + [last]
  }

  /** `uniq` keeps elements in the order of their first occurrence. */
  lemma {:induction false} DedupOrder<T(!new)>(xs: seq<T>)
    ensures forall i, j :: 0 <= i < j < |Dedup(xs)| ==> FirstIndex(xs, Dedup(xs)[i]) < FirstIndex(xs, Dedup(xs)[j])
    decreases |xs|
  {
    if xs != [] {
      var init := xs[..|xs| - 1];
      var last := xs[|xs| - 1];
      var d := Dedup(init);
      DedupOrder(init);
      assert xs == init + [last];
      FirstIndexOfPrefix(init, last, d);
    }
  }

  /** A non-empty sequence is its prefix followed by its last element. */
  lemma LastSplit<T>(xs: seq<T>)
    requires xs != []
    ensures xs == xs[..|xs| - 1] + [xs[|xs| - 1]]
  {
  }

  /** `uniq` of a sequence grown by one element. */
  lemma DedupSnoc<T(!new)>(init: seq<T>, last: T)
    ensures Dedup(init + [last]) == if last in init then Dedup(init) else Dedup(init) + [last]
  {
    var xs := init + [last];
    assert xs[..|xs| - 1] == init;
  }

  /** First occurrences inside a prefix stay first occurrences of the whole; a
      new last element comes after all of them. */
  lemma FirstIndexOfPrefix<T>(init: seq<T>, last: T, d: seq<T>)
    requires forall x :: x in d ==> x in init
    ensures forall x :: x in d ==> FirstIndex(init + [last], x) == FirstIndex(init, x)
    ensures last !in init ==> FirstIndex(init + [last], last) == |init|
  {
    var xs := init + [last];
    forall x | x in d
      ensures FirstIndex(xs, x) == FirstIndex(init, x)
    {
      var i := FirstIndex(init, x);
      assert xs[..i] == init[..i];
      FirstIndexUnique(xs, x, i);
    }
    if last !in init {
      assert xs[..|init|] == init;
      FirstIndexUnique(xs, last, |init|);
    }
  }

  /** `a` is obtained from `b` by deleting elements, order preserved. */
  predicate IsSubsequence<T(==)>(a: seq<T>, b: seq<T>)
    decreases |b|
  {
    if a == [] then true
    else if b == [] then false
    else if a[0] == b[0] then IsSubsequence(a[1..], b[1..])
    else IsSubsequence(a, b[1..])
  }

  /** A subsequence stays one when an element is put in front of the whole. */
  lemma {:induction false} SubsequenceExtend<T>(a: seq<T>, b: seq<T>, x: T)
    requires IsSubsequence(a, b)
    ensures IsSubsequence(a, [x] + b)
    decreases |b|, 1
  {
    if a != [] {
      assert ([x] + b)[1..] == b;
      if a[0] == x {
        SubsequenceDropHead(a, b);
      }
    }
  }

  /** Dropping the first element of a subsequence leaves a subsequence. */
  lemma {:induction false} SubsequenceDropHead<T>(a: seq<T>, b: seq<T>)
    requires a != [] && IsSubsequence(a, b)
    ensures IsSubsequence(a[1..], b)
    decreases |b|, 0
  {
    assert b != [];
    if a[0] == b[0] {
      SubsequenceExtend(a[1..], b[1..], b[0]);
    } else {
      SubsequenceDropHead(a, b[1..]);
      SubsequenceExtend(a[1..], b[1..], b[0]);
    }
    assert [b[0]] + b[1..] == b;
  }

  /** `flat_map`: the sequences one after the other. */
  function Concat<T>(xss: seq<seq<T>>): (r: seq<T>)
  {
    if xss == [] then [] else xss[0] + Concat(xss[1..])
  }

  lemma {:induction false} InConcat<T>(xss: seq<seq<T>>, x: T)
    ensures x in Concat(xss) <==> exists i :: 0 <= i < |xss| && x in xss[i]
  {
    if xss != [] {
      InConcat(xss[1..], x);
      if x in Concat(xss[1..]) {
        var i :| 0 <= i < |xss[1..]| && x in xss[1..][i];
        assert x in xss[i + 1];
      }
      if exists i :: 0 <= i < |xss| && x in xss[i] {
        var i :| 0 <= i < |xss| && x in xss[i];
        if i > 0 {
          assert x in xss[1..][i - 1];
        }
      }
    }
  }
}
