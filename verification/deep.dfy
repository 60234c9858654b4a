/** The path-addressed deep-access engine of `HashOp::Deep` and of its
    near-copy `HashOp::DeepAccess`: `fetch` reads the value at a path,
    `merge` rebuilds a Hash with a value written at a path, both fanning out
    over the Arrays met on the way, and `paths` lists the key paths of the
    leaves of a Hash. The two Ruby modules run the same algorithm; they differ
    only in the exception class raised for a non-Hash root. */
module Deep {
  import opened Wrappers
  import opened Values
  import opened Seqs
  import opened PathSyntax

  /** Which of the two Ruby modules is being called. */
  datatype Engine = DeepModule | DeepAccessModule

  /** `HashOp::Deep` raises ArgumentError, `HashOp::DeepAccess` a plain RuntimeError. */
  function RootError(engine: Engine): Error {
    NotAHash(if engine == DeepModule then ArgumentError else RuntimeError)
  }

  // ---------------------------------------------------------------- fetch

  /** `fetch_with_segments`: one segment consumed per level; a Hash is entered,
      an Array is fanned out over, anything else (including a missing key's
      `nil`) is returned as found. */
  function FetchSegments(v: Value, segs: seq<Value>): (r: Result<Value>)
    ensures segs == [] ==> r == Ok(v)
    ensures segs != [] && v.Hash? && !HasKey(v.entries, segs[0]) ==> r == Ok(Nil)
    ensures segs != [] && v.Hash? && !Get(v.entries, segs[0]).Hash? && !Get(v.entries, segs[0]).Arr? ==>
      r == Ok(Get(v.entries, segs[0]))
    ensures segs != [] && v.Hash? && Get(v.entries, segs[0]).Arr? && r.Ok? ==>
      var items := Get(v.entries, segs[0]).items;
      && r.value.Arr? && |r.value.items| == |items|
      && forall i :: 0 <= i < |items| ==> FetchSegments(items[i], segs[1..]) == Ok(r.value.items[i])
    ensures segs != [] && !v.Hash? ==> r == Err(NotIndexable)
    ensures r.Err? ==> r.error == NotIndexable
    decreases |segs|, 0
  {
    if segs == [] then Ok(v)
    else if !v.Hash? then Err(NotIndexable)
    else
      var cur := Get(v.entries, segs[0]);
      match cur
      case Hash(_) => FetchSegments(cur, segs[1..])
      case Arr(items) =>
        var rs :- FetchAll(items, segs[1..]);
        Ok(Arr(rs))
      case _ => Ok(cur)
  }

  /** The fan-out of `fetch` over an Array: every element fetched with the
      remaining segments, order and length preserved; the first failing
      element's error otherwise. */
  function FetchAll(items: seq<Value>, segs: seq<Value>): (r: Result<seq<Value>>)
    ensures r.Ok? ==> |r.value| == |items|
    ensures r.Ok? ==> forall i :: 0 <= i < |items| ==> FetchSegments(items[i], segs) == Ok(r.value[i])
    ensures r.Ok? <==> forall i :: 0 <= i < |items| ==> FetchSegments(items[i], segs).Ok?
    ensures r.Err? ==> r.error == NotIndexable
    decreases |segs|, 1, |items|
  {
    if items == [] then Ok([])
    else
      var first :- FetchSegments(items[0], segs);
      var rest :- FetchAll(items[1..], segs);
      Ok([first] + rest)
  }

  /** `Deep.fetch` / `DeepAccess.fetch`. */
  function Fetch(engine: Engine, h: Value, p: Path): (r: Result<Value>)
    ensures !h.Hash? ==> r == Err(RootError(engine))
    ensures h.Hash? && Segments(p) == [] ==> r == Ok(h)
    ensures h.Hash? && r.Err? ==> r.error == NotIndexable
  {
    if !h.Hash? then Err(RootError(engine)) else FetchSegments(h, Segments(p))
  }

  // ---------------------------------------------------------------- merge

  /** `build_with_segments`: a chain of one-key Hashes ending in `x`. */
  function Build(segs: seq<Value>, x: Value): (r: Value)
    ensures segs != [] ==> r.Hash? && Keys(r.entries) == [segs[0]]
    ensures FetchSegments(r, segs) == Ok(x)
  {
    if segs == [] then x
    else
      assert |segs| == 1 && x.Arr? ==> FetchAll(x.items, []).value == x.items;
      Hash([Entry(segs[0], Build(segs[1..], x))])
  }

  /** `merge_with_segments`: the Hash rebuilt with the first segment rebound
      to the branch `MergeBranch` computes. Every other key keeps its value and
      its place; a new key goes last. */
  function MergeSegments(v: Value, segs: seq<Value>, x: Value): (r: Result<Value>)
    ensures segs == [] ==> r == Ok(x)
    ensures segs != [] && !v.Hash? ==> r == Err(NotIndexable)
    ensures r.Err? ==> r.error == NotIndexable
    ensures segs != [] && v.Hash? && r.Ok? ==>
      && r.value.Hash?
      && Keys(r.value.entries) == (if HasKey(v.entries, segs[0]) then Keys(v.entries) else Keys(v.entries) + [segs[0]])
      && (forall k :: k != segs[0] ==> Get(r.value.entries, k) == Get(v.entries, k))
      && (|segs| == 1 ==> Get(r.value.entries, segs[0]) == x)
    decreases |segs|, 1
  {
    if segs == [] then Ok(x)
    else if !v.Hash? then Err(NotIndexable)
    else
      var nv :- MergeBranch(Get(v.entries, segs[0]), segs[1..], x);
      PutKeepsOthers(v.entries, segs[0], nv);
      Ok(Hash(Put(v.entries, segs[0], nv)))
  }

  /** The new value `merge_with_segments` binds to the first segment, given the
      value `cur` found there and the remaining segments: `x` itself when no
      segment remains; otherwise a Hash is merged into, an Array is fanned out
      over, and any other value (a scalar, or `nil` for a missing key) is
      replaced by a freshly built branch. */
  function MergeBranch(cur: Value, rest: seq<Value>, x: Value): (r: Result<Value>)
    ensures rest == [] ==> r == Ok(x)
    ensures rest != [] && r.Ok? ==> r.value.Hash? || (cur.Arr? && r.value.Arr? && |r.value.items| == |cur.items|)
    ensures rest != [] && !cur.Hash? && !cur.Arr? ==> r == Ok(Build(rest, x))
    ensures r.Err? ==> r.error == NotIndexable
    decreases |rest| + 1, 0
  {
    if rest == [] then Ok(x)
    else
      match cur
      case Hash(_) => MergeSegments(cur, rest, x)
      case Arr(items) =>
        var rs :- MergeAll(items, rest, x);
        Ok(Arr(rs))
      case _ => Ok(Build(rest, x))
  }

  /** The fan-out of `merge` over an Array: every element rewritten with the
      same value, order and length preserved. */
  function MergeAll(items: seq<Value>, segs: seq<Value>, x: Value): (r: Result<seq<Value>>)
    ensures r.Ok? ==> |r.value| == |items|
    ensures r.Ok? ==> forall i :: 0 <= i < |items| ==> MergeSegments(items[i], segs, x) == Ok(r.value[i])
    ensures r.Ok? <==> forall i :: 0 <= i < |items| ==> MergeSegments(items[i], segs, x).Ok?
    ensures r.Err? ==> r.error == NotIndexable
    decreases |segs|, 2, |items|
  {
    if items == [] then Ok([])
    else
      var first :- MergeSegments(items[0], segs, x);
      var rest :- MergeAll(items[1..], segs, x);
      Ok([first] + rest)
  }

  /** `Deep.merge` / `DeepAccess.merge`. */
  function Merge(engine: Engine, h: Value, p: Path, x: Value): (r: Result<Value>)
    ensures !h.Hash? ==> r == Err(RootError(engine))
    ensures h.Hash? && Segments(p) == [] ==> r == Ok(x)
    ensures h.Hash? && r.Err? ==> r.error == NotIndexable
  {
    if !h.Hash? then Err(RootError(engine)) else MergeSegments(h, Segments(p), x)
  }

  // ---------------------------------------------------------------- paths

  /** `Kernel#Array`, as `paths` applies it to a leaf's key. A Time's `to_a`
      (its calendar fields) is not modelled: a Time key is kept whole. */
  function ToArray(k: Value): (r: seq<Value>)
    ensures !(k.Nil? || k.Arr? || k.Hash? || k.TimeVal?) ==> r == [k]
    ensures k.Nil? ==> r == []
    ensures k.Arr? ==> r == k.items
    ensures k.Hash? ==> |r| == |k.entries| && forall i :: 0 <= i < |r| ==> r[i] == Arr([k.entries[i].key, k.entries[i].value])
  {
    match k
    case Nil => []
    case Arr(items) => items
    case Hash(es) => Pairs(es)
    case _ => [k]
  }

  /** The key paths one entry contributes: its key in front of every path of a
      Hash value, or the key alone for any other value. */
  function EntryPaths(k: Value, v: Value): seq<seq<Value>>
    decreases v, 1
  {
    if v.Hash? then
      var sub := HashPaths(v);
      seq(|sub|, j requires 0 <= j < |sub| => [k] + sub[j])
    else [ToArray(k)]
  }

  /** `paths` of a Hash: one key path per leaf, depth first, duplicates removed. */
  function HashPaths(h: Value): (ps: seq<seq<Value>>)
    requires h.Hash?
    ensures NoDuplicates(ps)
    decreases h, 0
  {
    var es := h.entries;
    Dedup(Concat(seq(|es|, i requires 0 <= i < |es| => EntryPaths(es[i].key, es[i].value))))
  }

  /** `Deep.paths`: only Hashes are enumerated (`Hash#each` with key/value pairs). */
  function Paths(v: Value): (r: Result<seq<seq<Value>>>)
    ensures v.Hash? <==> r.Ok?
  {
    if v.Hash? then Ok(HashPaths(v)) else Err(TypeMismatch)
  }
}
