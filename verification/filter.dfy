/** `HashOp::Filter`: selecting Hashes by criteria on the values found at
    paths inside them. A criterion binds a path to the value expected there
    and holds when `Deep.fetch` at the path returns a value equal to it. */
module Filter {
  import opened Wrappers
  import opened Values
  import opened Seqs
  import opened PathSyntax
  import Deep
  import DeepProperties

  /** One `path => matching_object` pair of a criteria Hash, with an
      equality matching object. */
  datatype Criterion = Criterion(path: Path, expected: Value)

  /** The criterion holds for `h`: the fetched value equals the expected one. */
  predicate Holds(h: Value, c: Criterion) {
    Deep.Fetch(Deep.DeepModule, h, c.path) == Ok(c.expected)
  }

  /** The per-criterion `map` of `match?` on a Hash, folded with `uniq ==
      [true]`: true exactly when every criterion holds. A fetch that raises
      raises out of `match?`. */
  function MatchAll(h: Value, criteria: seq<Criterion>): (r: Result<bool>)
    requires h.Hash?
    ensures r.Ok? <==> forall i :: 0 <= i < |criteria| ==> Deep.Fetch(Deep.DeepModule, h, criteria[i].path).Ok?
    ensures r.Ok? ==> (r.value <==> forall i :: 0 <= i < |criteria| ==> Holds(h, criteria[i]))
    ensures r.Err? ==> r.error == NotIndexable
  {
    if criteria == [] then Ok(true)
    else
      var v :- Deep.Fetch(Deep.DeepModule, h, criteria[0].path);
      var rest :- MatchAll(h, criteria[1..]);
      assert forall i :: 1 <= i < |criteria| ==> criteria[i] == criteria[1..][i - 1];
      Ok(v == criteria[0].expected && rest)
  }

  /** `match?(hash, criteria)`: a non-Hash raises ArgumentError; empty
      criteria match everything; otherwise every criterion must hold. */
  function Match(h: Value, criteria: seq<Criterion>): (r: Result<bool>)
    ensures !h.Hash? ==> r == Err(NotAHash(ArgumentError))
    ensures h.Hash? && criteria == [] ==> r == Ok(true)
    ensures h.Hash? && r.Ok? ==> (r.value <==> forall i :: 0 <= i < |criteria| ==> Holds(h, criteria[i]))
    ensures h.Hash? ==> (r.Ok? <==> forall i :: 0 <= i < |criteria| ==> Deep.Fetch(Deep.DeepModule, h, criteria[i].path).Ok?)
  {
    if !h.Hash? then Err(NotAHash(ArgumentError))
    else if criteria == [] then Ok(true)
    else MatchAll(h, criteria)
  }

  /** `filter(hashes, criteria)`: `select` with `match?`, the first element
      that raises making the whole call raise. */
  function Select(hashes: seq<Value>, criteria: seq<Criterion>): (r: Result<seq<Value>>)
    ensures r.Ok? <==> forall i :: 0 <= i < |hashes| ==> Match(hashes[i], criteria).Ok?
    ensures r.Ok? ==> IsSubsequence(r.value, hashes)
  {
    if hashes == [] then Ok([])
    else
      var m :- Match(hashes[0], criteria);
      var rest :- Select(hashes[1..], criteria);
      assert forall i :: 1 <= i < |hashes| ==> hashes[i] == hashes[1..][i - 1];
      SubsequenceExtend(rest, hashes[1..], hashes[0]);
      Ok(if m then [hashes[0]] + rest else rest)
  }

  /** `filter` keeps exactly the matching Hashes: each one it returns
      matches, and each matching Hash comes back as many times as it was
      given, any other not at all. */
  lemma {:induction false} SelectKeepsMatches(hashes: seq<Value>, criteria: seq<Criterion>)
    requires Select(hashes, criteria).Ok?
    ensures forall x :: x in Select(hashes, criteria).value ==> Match(x, criteria) == Ok(true)
    ensures forall x :: (multiset(Select(hashes, criteria).value)[x] ==
      if Match(x, criteria) == Ok(true) then multiset(hashes)[x] else 0)
  {
    if hashes != [] {
      var rest := hashes[1..];
      SelectStep(hashes, criteria);
      SelectKeepsMatches(rest, criteria);
      assert multiset(hashes) == multiset([hashes[0]]) + multiset(rest) by {
        assert hashes == [hashes[0]] + rest;
      }
    }
  }

  /** A successful `filter` is the first Hash, when it matches, in front of
      the `filter` of the rest. */
  lemma SelectStep(hashes: seq<Value>, criteria: seq<Criterion>)
    requires hashes != [] && Select(hashes, criteria).Ok?
    ensures Match(hashes[0], criteria).Ok? && Select(hashes[1..], criteria).Ok?
    ensures Select(hashes, criteria).value ==
      if Match(hashes[0], criteria).value then [hashes[0]] + Select(hashes[1..], criteria).value
      else Select(hashes[1..], criteria).value
  {
  }

  /** `filter_deep(hash, path, criteria)`: the Array at `path` is filtered and
      written back with `Deep.merge`; anything but an Array there raises. */
  function FilterDeep(h: Value, p: Path, criteria: seq<Criterion>): (r: Result<Value>)
    ensures !h.Hash? ==> r == Err(NotAHash(ArgumentError))
    ensures h.Hash? && Deep.Fetch(Deep.DeepModule, h, p).Ok? && !Deep.Fetch(Deep.DeepModule, h, p).value.Arr? ==> r == Err(NotAnArray)
    ensures r.Ok? ==> r.value.Hash? && Segments(p) != []
  {
    var found :- Deep.Fetch(Deep.DeepModule, h, p);
    if !found.Arr? then Err(NotAnArray)
    else
      var kept :- Select(found.items, criteria);
      Deep.Merge(Deep.DeepModule, h, p, Arr(kept))
  }

  /** `filter_deep` rewrites only the first key of the path: every other key
      of the Hash keeps its value, and no key is added or moved. */
  lemma FilterDeepKeepsOthers(h: Value, p: Path, criteria: seq<Criterion>)
    requires FilterDeep(h, p, criteria).Ok?
    ensures h.Hash? && Segments(p) != []
    ensures Keys(FilterDeep(h, p, criteria).value.entries) == Keys(h.entries)
    ensures forall k :: k != Segments(p)[0] ==> Get(FilterDeep(h, p, criteria).value.entries, k) == Get(h.entries, k)
  {
    var segs := Segments(p);
    assert h.Hash?;
    var found := Deep.FetchSegments(h, segs).value;
    assert found.Arr?;
    assert segs != [];
    assert HasKey(h.entries, segs[0]);
  }

  /** Reading the path back after `filter_deep` gives exactly the filtered
      Array, when no Array lies above it: the matching elements of the
      original Array, in their original order and with their multiplicities. */
  lemma FilterDeepRoundTrip(h: Value, p: Path, criteria: seq<Criterion>)
    requires h.Hash? && DeepProperties.NoArrayOnPath(h, Segments(p))
    requires FilterDeep(h, p, criteria).Ok?
    ensures Deep.Fetch(Deep.DeepModule, h, p).Ok? && Deep.Fetch(Deep.DeepModule, h, p).value.Arr?
    ensures Select(Deep.Fetch(Deep.DeepModule, h, p).value.items, criteria).Ok?
    ensures Deep.Fetch(Deep.DeepModule, FilterDeep(h, p, criteria).value, p)
         == Ok(Arr(Select(Deep.Fetch(Deep.DeepModule, h, p).value.items, criteria).value))
  {
    var segs := Segments(p);
    var found := Deep.Fetch(Deep.DeepModule, h, p).value;
    var kept := Select(found.items, criteria).value;
    assert FilterDeep(h, p, criteria) == Deep.MergeSegments(h, segs, Arr(kept));
    DeepProperties.FetchAfterMerge(h, segs, Arr(kept));
  }

  /** With no Array above the path, `filter_deep` on a Hash succeeds exactly
      when the path holds an Array and every element's `match?` succeeds:
      writing the filtered Array back cannot fail. */
  lemma FilterDeepOk(h: Value, p: Path, criteria: seq<Criterion>)
    requires h.Hash? && DeepProperties.NoArrayOnPath(h, Segments(p))
    ensures FilterDeep(h, p, criteria).Ok? <==>
      && Deep.Fetch(Deep.DeepModule, h, p).Ok?
      && Deep.Fetch(Deep.DeepModule, h, p).value.Arr?
      && Select(Deep.Fetch(Deep.DeepModule, h, p).value.items, criteria).Ok?
  {
    var found := Deep.Fetch(Deep.DeepModule, h, p);
    if found.Ok? && found.value.Arr? && Select(found.value.items, criteria).Ok? {
      DeepProperties.FetchAfterMerge(h, Segments(p), Arr(Select(found.value.items, criteria).value));
    }
  }
}
