/** What the deep-access engine guarantees across calls: reading back what
    `merge` wrote, idempotence of `merge`, preservation of well-formed Hashes,
    and the meaning of `paths`. */
module DeepProperties {
  import opened Wrappers
  import opened Values
  import opened Seqs
  import opened Deep

  /** No Array lies on the path below the root, so `merge` writes exactly one
      place and `fetch` reads exactly that place back. */
  predicate NoArrayOnPath(v: Value, segs: seq<Value>)
    decreases |segs|
  {
    |segs| <= 1 ||
    (v.Hash? &&
      var cur := Get(v.entries, segs[0]);
      !cur.Arr? && (cur.Hash? ==> NoArrayOnPath(cur, segs[1..])))
  }

  /** A value is its own fetch with no segments, even an Array. */
  lemma FetchNoSegments(v: Value)
    ensures FetchSegments(v, []) == Ok(v)
  {
  }

  /** Round trip: after `merge` writes `x` at a path that crosses no Array,
      `fetch` at that path returns `x`, whether the branch existed, was a
      scalar to be replaced or was missing. */
  lemma {:induction false} FetchAfterMerge(v: Value, segs: seq<Value>, x: Value)
    requires v.Hash? && NoArrayOnPath(v, segs)
    ensures MergeSegments(v, segs, x).Ok?
    ensures FetchSegments(MergeSegments(v, segs, x).value, segs) == Ok(x)
    decreases |segs|
  {
    if |segs| == 1 {
      assert segs == [segs[0]];
      FetchAfterMergeLast(v, segs[0], x);
    } else if |segs| > 1 {
      var cur := Get(v.entries, segs[0]);
      var rest := segs[1..];
      if cur.Hash? {
        FetchAfterMerge(cur, rest, x);
        FetchAfterMergeDeeper(v, segs, x, MergeSegments(cur, rest, x).value);
      } else {
        FetchAfterMergeDeeper(v, segs, x, Build(rest, x));
      }
    }
  }

  /** The last segment: `merge` binds it to `x`, and `fetch` reads `x` back. */
  lemma FetchAfterMergeLast(v: Value, s: Value, x: Value)
    requires v.Hash?
    ensures MergeSegments(v, [s], x).Ok?
    ensures FetchSegments(MergeSegments(v, [s], x).value, [s]) == Ok(x)
  {
    var w := Hash(Put(v.entries, s, x));
    assert [s][1..] == [];
    assert MergeSegments(v, [s], x) == Ok(w);
    FetchLast(w, s);
  }

  /** A deeper segment: when the branch `merge` computes below the first
      segment is a Hash that reads `x` back, so does the merged Hash. */
  lemma FetchAfterMergeDeeper(v: Value, segs: seq<Value>, x: Value, nv: Value)
    requires |segs| >= 2 && v.Hash? && nv.Hash?
    requires MergeBranch(Get(v.entries, segs[0]), segs[1..], x) == Ok(nv)
    requires FetchSegments(nv, segs[1..]) == Ok(x)
    ensures MergeSegments(v, segs, x).Ok?
    ensures FetchSegments(MergeSegments(v, segs, x).value, segs) == Ok(x)
  {
    MergeSegmentsStep(v, segs, x);
    var w := Hash(Put(v.entries, segs[0], nv));
    FetchDeeper(w, segs);
  }

  /** A successful `merge` rebinds the first segment to the branch. */
  lemma MergeSegmentsStep(v: Value, segs: seq<Value>, x: Value)
    requires segs != [] && v.Hash? && MergeBranch(Get(v.entries, segs[0]), segs[1..], x).Ok?
    ensures MergeSegments(v, segs, x)
         == Ok(Hash(Put(v.entries, segs[0], MergeBranch(Get(v.entries, segs[0]), segs[1..], x).value)))
  {
  }

  /** Fetching one segment gives the value bound to it, even an Array. */
  lemma FetchLast(w: Value, s: Value)
    requires w.Hash?
    ensures FetchSegments(w, [s]) == Ok(Get(w.entries, s))
  {
    var cur := Get(w.entries, s);
    assert [s][1..] == [];
    if cur.Arr? {
      assert FetchAll(cur.items, []).value == cur.items;
    }
  }

  /** Fetching through a Hash bound to the first segment. */
  lemma FetchDeeper(w: Value, segs: seq<Value>)
    requires |segs| >= 2 && w.Hash? && Get(w.entries, segs[0]).Hash?
    ensures FetchSegments(w, segs) == FetchSegments(Get(w.entries, segs[0]), segs[1..])
  {
  }

  /** `build_with_segments` output is already what `merge` would write there. */
  lemma {:induction false} MergeIntoBuilt(segs: seq<Value>, x: Value)
    requires segs != []
    ensures MergeSegments(Build(segs, x), segs, x) == Ok(Build(segs, x))
    decreases |segs|
  {
    var rest := segs[1..];
    var inner := Build(rest, x);
    var es := [Entry(segs[0], inner)];
    assert Build(segs, x) == Hash(es);
    assert Get(es, segs[0]) == inner;
    if |rest| > 0 {
      MergeIntoBuilt(rest, x);
    }
    assert MergeBranch(inner, rest, x) == Ok(inner);
    assert Put(es, segs[0], inner) == es;
  }

  /** `merge(merge(h, p, x), p, x) == merge(h, p, x)`, through Arrays too. */
  lemma {:induction false} MergeIdempotent(v: Value, segs: seq<Value>, x: Value)
    requires MergeSegments(v, segs, x).Ok?
    ensures MergeSegments(MergeSegments(v, segs, x).value, segs, x) == MergeSegments(v, segs, x)
    decreases |segs|, 1
  {
    if segs != [] {
      var es := v.entries;
      var cur := Get(es, segs[0]);
      var nv := MergeBranch(cur, segs[1..], x).value;
      MergeBranchIdempotent(cur, segs[1..], x);
      PutIdempotent(es, segs[0], nv);
    }
  }

  lemma {:induction false} MergeBranchIdempotent(cur: Value, rest: seq<Value>, x: Value)
    requires MergeBranch(cur, rest, x).Ok?
    ensures MergeBranch(MergeBranch(cur, rest, x).value, rest, x) == MergeBranch(cur, rest, x)
    decreases |rest| + 1, 0
  {
    if rest != [] {
      match cur
      case Hash(_) =>
        MergeIdempotent(cur, rest, x);
      case Arr(items) =>
        MergeAllIdempotent(items, rest, x);
      case _ =>
        MergeIntoBuilt(rest, x);
    }
  }

  lemma {:induction false} MergeAllIdempotent(items: seq<Value>, segs: seq<Value>, x: Value)
    requires MergeAll(items, segs, x).Ok?
    ensures MergeAll(MergeAll(items, segs, x).value, segs, x) == MergeAll(items, segs, x)
    decreases |segs|, 2, |items|
  {
    if items != [] {
      MergeIdempotent(items[0], segs, x);
      MergeAllIdempotent(items[1..], segs, x);
      var rs := MergeAll(items, segs, x).value;
      assert rs[1..] == MergeAll(items[1..], segs, x).value;
    }
  }

  lemma {:induction false} BuildWellFormed(segs: seq<Value>, x: Value)
    requires WellFormed(x)
    ensures WellFormed(Build(segs, x))
  {
    if segs != [] {
      BuildWellFormed(segs[1..], x);
    }
  }

  /** `merge` of a well-formed value into a well-formed Hash gives a
      well-formed Hash: no key is ever bound twice. */
  lemma {:induction false} MergeKeepsWellFormed(v: Value, segs: seq<Value>, x: Value)
    requires WellFormed(v) && WellFormed(x) && MergeSegments(v, segs, x).Ok?
    ensures WellFormed(MergeSegments(v, segs, x).value)
    decreases |segs|, 1
  {
    if segs != [] {
      var es := v.entries;
      var cur := Get(es, segs[0]);
      var nv := MergeBranch(cur, segs[1..], x).value;
      GetWellFormed(es, segs[0]);
      MergeBranchKeepsWellFormed(cur, segs[1..], x);
      PutKeepsWellFormed(es, segs[0], nv);
    }
  }

  lemma {:induction false} MergeBranchKeepsWellFormed(cur: Value, rest: seq<Value>, x: Value)
    requires WellFormed(cur) && WellFormed(x) && MergeBranch(cur, rest, x).Ok?
    ensures WellFormed(MergeBranch(cur, rest, x).value)
    decreases |rest| + 1, 0
  {
    if rest != [] {
      match cur
      case Hash(_) =>
        MergeKeepsWellFormed(cur, rest, x);
      case Arr(items) =>
        MergeAllKeepsWellFormed(items, rest, x);
      case _ =>
        BuildWellFormed(rest, x);
    }
  }

  lemma {:induction false} MergeAllKeepsWellFormed(items: seq<Value>, segs: seq<Value>, x: Value)
    requires WellFormed(Arr(items)) && WellFormed(x) && MergeAll(items, segs, x).Ok?
    ensures WellFormed(Arr(MergeAll(items, segs, x).value))
    decreases |segs|, 2, |items|
  {
    var rs := MergeAll(items, segs, x).value;
    forall i | 0 <= i < |items|
      ensures WellFormed(rs[i])
    {
      MergeKeepsWellFormed(items[i], segs, x);
    }
  }

  lemma GetWellFormed(es: seq<Entry>, k: Value)
    requires WellFormed(Hash(es))
    ensures WellFormed(Get(es, k))
  {
  }

  // ---------------------------------------------------------------- paths

  /** Keys `Kernel#Array` leaves alone, `Array(k) == [k]`: not `nil`, an
      Array, a Hash or a Time (whose `to_a` lists its calendar fields). */
  predicate PlainKey(k: Value) {
    !(k.Nil? || k.Arr? || k.Hash? || k.TimeVal?)
  }

  /** Every key of every Hash reachable through Hash values is plain. */
  predicate PlainKeys(v: Value)
    decreases v
  {
    v.Hash? ==> forall i :: 0 <= i < |v.entries| ==> PlainKey(v.entries[i].key) && PlainKeys(v.entries[i].value)
  }

  /** `p` walks from the Hash `h` through Hashes only and ends on a value that
      is not a Hash: the independent definition of a leaf's key path. */
  predicate IsLeafPath(h: Value, p: seq<Value>)
    requires h.Hash?
    decreases |p|
  {
    && |p| >= 1
    && HasKey(h.entries, p[0])
    && var v := Get(h.entries, p[0]);
       if |p| == 1 then !v.Hash? else v.Hash? && IsLeafPath(v, p[1..])
  }

  /** The paths one entry contributes, described without `EntryPaths`'s
      comprehension. */
  lemma InEntryPaths(k: Value, v: Value, p: seq<Value>)
    requires PlainKey(k)
    ensures p in EntryPaths(k, v) <==>
      if v.Hash? then |p| >= 1 && p[0] == k && p[1..] in HashPaths(v) else p == [k]
  {
    if v.Hash? {
      var sub := HashPaths(v);
      var ps := seq(|sub|, j requires 0 <= j < |sub| => [k] + sub[j]);
      assert EntryPaths(k, v) == ps;
      if |p| >= 1 && p[0] == k && p[1..] in sub {
        var j :| 0 <= j < |sub| && sub[j] == p[1..];
        assert p == ps[j];
      }
      if p in ps {
        var j :| 0 <= j < |sub| && p == ps[j];
        assert p[1..] == sub[j];
      }
    } else {
      assert EntryPaths(k, v) == [[k]];
    }
  }

  /** A path of `paths` comes from the entry keyed by its first segment. */
  lemma InHashPaths(h: Value, p: seq<Value>)
    requires h.Hash? && WellFormed(h) && PlainKeys(h)
    ensures p in HashPaths(h) <==>
      && |p| >= 1 && HasKey(h.entries, p[0])
      && var v := Get(h.entries, p[0]);
         if v.Hash? then p[1..] in HashPaths(v) else |p| == 1
  {
    var es := h.entries;
    var parts := seq(|es|, i requires 0 <= i < |es| => EntryPaths(es[i].key, es[i].value));
    InConcat(parts, p);
    if p in HashPaths(h) {
      var i :| 0 <= i < |es| && p in parts[i];
      InEntryPaths(es[i].key, es[i].value, p);
      assert Keys(es)[i] == es[i].key;
      GetUnique(es, i);
    }
    if |p| >= 1 && HasKey(es, p[0]) {
      var i :| 0 <= i < |es| && Keys(es)[i] == p[0];
      GetUnique(es, i);
      InEntryPaths(es[i].key, es[i].value, p);
      assert parts[i] == EntryPaths(es[i].key, es[i].value);
    }
  }

  /** `paths` lists exactly the leaf key paths of a well-formed Hash whose keys
      are plain (empty nested Hashes contribute nothing). */
  lemma {:induction false} PathsAreLeafPaths(h: Value, p: seq<Value>)
    requires h.Hash? && WellFormed(h) && PlainKeys(h)
    ensures p in HashPaths(h) <==> IsLeafPath(h, p)
    decreases h
  {
    InHashPaths(h, p);
    if |p| >= 1 && HasKey(h.entries, p[0]) {
      var v := Get(h.entries, p[0]);
      var i :| 0 <= i < |h.entries| && Keys(h.entries)[i] == p[0];
      GetUnique(h.entries, i);
      if v.Hash? {
        PathsAreLeafPaths(v, p[1..]);
      }
    }
  }

  /** Reading a leaf path with `fetch` returns the leaf, which is not a Hash. */
  lemma {:induction false} FetchLeafPath(h: Value, p: seq<Value>)
    requires h.Hash? && IsLeafPath(h, p)
    ensures FetchSegments(h, p).Ok?
    ensures FetchSegments(h, p).value == LeafAt(h, p)
    ensures !FetchSegments(h, p).value.Hash?
    decreases |p|
  {
    var v := Get(h.entries, p[0]);
    if |p| == 1 {
      if v.Arr? {
        assert FetchAll(v.items, []).value == v.items;
      }
    } else {
      FetchLeafPath(v, p[1..]);
    }
  }

  /** The value a leaf path ends on, found by `Get` alone. */
  function LeafAt(h: Value, p: seq<Value>): Value
    requires h.Hash? && IsLeafPath(h, p)
    decreases |p|
  {
    var v := Get(h.entries, p[0]);
    if |p| == 1 then v else LeafAt(v, p[1..])
  }

  /** Every path `paths` returns resolves, through `fetch`, to a non-Hash leaf. */
  lemma EnumeratedPathsResolve(h: Value, p: seq<Value>)
    requires h.Hash? && WellFormed(h) && PlainKeys(h) && p in HashPaths(h)
    ensures FetchSegments(h, p).Ok? && !FetchSegments(h, p).value.Hash?
  {
    PathsAreLeafPaths(h, p);
    FetchLeafPath(h, p);
  }
}
