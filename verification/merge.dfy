/** `HashOp::Merge`: shallow merging of many Hashes, all together (`flat`) or
    per group of Hashes sharing the value of one key (`by_group`). */
module HashMerge {
  import opened Wrappers
  import opened Values
  import opened Seqs
  import Grouping

  /** `a.merge(b)`: `b`'s entries written into `a` one after the other, so a
      key of `b` keeps its place in `a` when present and is appended
      otherwise. */
  function MergeEntries(a: seq<Entry>, b: seq<Entry>): (r: seq<Entry>)
    ensures forall k :: HasKey(r, k) <==> HasKey(a, k) || HasKey(b, k)
    ensures UniqueKeys(a) ==> UniqueKeys(r)
    decreases |b|
  {
    if b == [] then a
    else
      assert UniqueKeys(a) ==> UniqueKeys(Put(a, b[0].key, b[0].value)) by {
        if UniqueKeys(a) {
          PutKeepsUnique(a, b[0].key, b[0].value);
        }
      }
      assert forall k :: HasKey(b, k) <==> k == b[0].key || HasKey(b[1..], k) by {
        assert Keys(b) == [b[0].key] + Keys(b[1..]);
      }
      MergeEntries(Put(a, b[0].key, b[0].value), b[1..])
  }

  /** In `a.merge(b)`, a key of `b` is bound to `b`'s value and any other key
      to `a`'s. */
  lemma {:induction false} MergeEntriesGet(a: seq<Entry>, b: seq<Entry>, k: Value)
    requires UniqueKeys(b)
    ensures Get(MergeEntries(a, b), k) == if HasKey(b, k) then Get(b, k) else Get(a, k)
    decreases |b|
  {
    if b != [] {
      var a' := Put(a, b[0].key, b[0].value);
      TailKeys(b);
      MergeEntriesGet(a', b[1..], k);
      if k != b[0].key {
        PutOther(a, b[0].key, b[0].value, k);
      }
    }
  }

  /** `flat(hashes)`: `{}` merged with every Hash in turn; anything that is not
      a Hash makes `merge` raise. */
  function Flat(hashes: seq<Value>): (r: Result<Value>)
    ensures hashes == [] ==> r == Ok(Hash([]))
    ensures r.Ok? <==> forall i :: 0 <= i < |hashes| ==> hashes[i].Hash?
    ensures r.Ok? ==> r.value.Hash? && UniqueKeys(r.value.entries)
    decreases |hashes|
  {
    if hashes == [] then Ok(Hash([]))
    else
      var n := |hashes| - 1;
      var acc :- Flat(hashes[..n]);
      if !hashes[n].Hash? then Err(TypeMismatch)
      else
        assert forall i :: 0 <= i < n ==> hashes[..n][i] == hashes[i];
        Ok(Hash(MergeEntries(acc.entries, hashes[n].entries)))
  }

  /** A successful `flat` is the `flat` of all but the last Hash, merged with
      the last. */
  lemma FlatStep(hashes: seq<Value>)
    requires hashes != [] && Flat(hashes).Ok?
    ensures Flat(hashes[..|hashes| - 1]).Ok? && hashes[|hashes| - 1].Hash?
    ensures Flat(hashes).value.entries
         == MergeEntries(Flat(hashes[..|hashes| - 1]).value.entries, hashes[|hashes| - 1].entries)
  {
  }

  /** Some Hash of the sequence has key `k`. */
  predicate SomeHasKey(hashes: seq<Value>, k: Value) {
    exists i :: 0 <= i < |hashes| && hashes[i].Hash? && HasKey(hashes[i].entries, k)
  }

  /** Splitting off the last Hash of a sequence for `SomeHasKey`. */
  lemma SomeHasKeyLast(hashes: seq<Value>, k: Value)
    requires hashes != []
    ensures SomeHasKey(hashes, k) <==>
      SomeHasKey(hashes[..|hashes| - 1], k) || (hashes[|hashes| - 1].Hash? && HasKey(hashes[|hashes| - 1].entries, k))
  {
    var n := |hashes| - 1;
    if SomeHasKey(hashes, k) {
      var i :| 0 <= i < |hashes| && hashes[i].Hash? && HasKey(hashes[i].entries, k);
      if i < n {
        assert hashes[..n][i] == hashes[i];
      }
    }
    if SomeHasKey(hashes[..n], k) {
      var i :| 0 <= i < n && hashes[..n][i].Hash? && HasKey(hashes[..n][i].entries, k);
      assert hashes[i] == hashes[..n][i];
    }
  }

  /** The keys of `flat` are the union of the keys of its Hashes. */
  lemma {:induction false} FlatKeys(hashes: seq<Value>, k: Value)
    requires Flat(hashes).Ok?
    ensures HasKey(Flat(hashes).value.entries, k) <==> SomeHasKey(hashes, k)
    decreases |hashes|
  {
    if hashes != [] {
      var n := |hashes| - 1;
      FlatStep(hashes);
      FlatKeys(hashes[..n], k);
      SomeHasKeyLast(hashes, k);
    }
  }

  /** A key of the last Hash is bound, in `flat`, to that Hash's value. */
  lemma FlatGetLast(hashes: seq<Value>, k: Value)
    requires hashes != [] && Flat(hashes).Ok?
    requires UniqueKeys(hashes[|hashes| - 1].entries) && HasKey(hashes[|hashes| - 1].entries, k)
    ensures Get(Flat(hashes).value.entries, k) == Get(hashes[|hashes| - 1].entries, k)
  {
    var n := |hashes| - 1;
    FlatStep(hashes);
    MergeEntriesGet(Flat(hashes[..n]).value.entries, hashes[n].entries, k);
  }

  /** A key the last Hash lacks is bound, in `flat`, as in the `flat` of the
      others. */
  lemma FlatGetOther(hashes: seq<Value>, k: Value)
    requires hashes != [] && Flat(hashes).Ok?
    requires UniqueKeys(hashes[|hashes| - 1].entries) && !HasKey(hashes[|hashes| - 1].entries, k)
    ensures Flat(hashes[..|hashes| - 1]).Ok?
    ensures Get(Flat(hashes).value.entries, k) == Get(Flat(hashes[..|hashes| - 1]).value.entries, k)
  {
    var n := |hashes| - 1;
    FlatStep(hashes);
    MergeEntriesGet(Flat(hashes[..n]).value.entries, hashes[n].entries, k);
  }

  /** For each key, `flat` holds the value of the last Hash that has it. */
  lemma {:induction false} FlatGet(hashes: seq<Value>, k: Value, i: nat)
    requires Flat(hashes).Ok? && forall j :: 0 <= j < |hashes| ==> UniqueKeys(hashes[j].entries)
    requires i < |hashes| && HasKey(hashes[i].entries, k)
    requires forall j :: i < j < |hashes| ==> !HasKey(hashes[j].entries, k)
    ensures Get(Flat(hashes).value.entries, k) == Get(hashes[i].entries, k)
    decreases |hashes|
  {
    var n := |hashes| - 1;
    if i == n {
      FlatGetLast(hashes, k);
    } else {
      FlatGetOther(hashes, k);
      var prefix := hashes[..n];
      assert prefix[i] == hashes[i];
      assert forall j :: 0 <= j < n ==> prefix[j] == hashes[j];
      FlatGet(prefix, k, i);
    }
  }

  /** When every Hash binds `k` to the same `v` (or lacks `k` and `v` is
      `nil`), so does `flat`. */
  lemma {:induction false} FlatCommonValue(hashes: seq<Value>, k: Value, v: Value)
    requires Flat(hashes).Ok? && forall j :: 0 <= j < |hashes| ==> UniqueKeys(hashes[j].entries)
    requires forall j :: 0 <= j < |hashes| ==> Get(hashes[j].entries, k) == v
    requires hashes != [] || v == Nil
    ensures Get(Flat(hashes).value.entries, k) == v
    decreases |hashes|
  {
    if hashes != [] {
      var n := |hashes| - 1;
      FlatStep(hashes);
      var acc := Flat(hashes[..n]).value;
      MergeEntriesGet(acc.entries, hashes[n].entries, k);
      if !HasKey(hashes[n].entries, k) {
        FlatCommonValue(hashes[..n], k, v);
      }
    }
  }

  /** `h[key]` for every element of `by_group`'s input; only a Hash answers. */
  function KeyValues(hashes: seq<Value>, key: Value): (r: Result<seq<Value>>)
    ensures r.Ok? <==> forall i :: 0 <= i < |hashes| ==> hashes[i].Hash?
    ensures r.Ok? ==> |r.value| == |hashes| && forall i :: 0 <= i < |hashes| ==> r.value[i] == Get(hashes[i].entries, key)
  {
    if hashes == [] then Ok([])
    else if !hashes[0].Hash? then Err(NotIndexable)
    else
      var rest :- KeyValues(hashes[1..], key);
      assert forall i :: 1 <= i < |hashes| ==> hashes[i] == hashes[1..][i - 1];
      Ok([Get(hashes[0].entries, key)] + rest)
  }

  /** `groups.values.map { |g| flat(g) }`. */
  function FlatGroups(g: seq<Entry>): (r: Result<seq<Value>>)
    ensures r.Ok? ==> |r.value| == |g|
    ensures r.Ok? ==> forall j :: 0 <= j < |g| ==> Flat(Grouping.GroupItems(g[j].value)) == Ok(r.value[j])
    ensures r.Ok? <==> forall j :: 0 <= j < |g| ==> Flat(Grouping.GroupItems(g[j].value)).Ok?
  {
    if g == [] then Ok([])
    else
      var first :- Flat(Grouping.GroupItems(g[0].value));
      var rest :- FlatGroups(g[1..]);
      assert forall j :: 1 <= j < |g| ==> g[j] == g[1..][j - 1];
      Ok([first] + rest)
  }

  /** `by_group(hashes, key)`: one merged Hash per distinct value of `key`. */
  function ByGroup(hashes: seq<Value>, key: Value): (r: Result<seq<Value>>)
    ensures r.Ok? <==> forall i :: 0 <= i < |hashes| ==> hashes[i].Hash?
    ensures r.Ok? ==> |r.value| == |Dedup(KeyValues(hashes, key).value)|
  {
    var vs :- KeyValues(hashes, key);
    var g := Grouping.GroupBy(hashes, vs);
    Grouping.GroupByMembersFromInput(hashes, vs);
    forall j | 0 <= j < |g|
      ensures Flat(Grouping.GroupItems(g[j].value)).Ok?
    {
      var ms := Grouping.GroupItems(g[j].value);
      forall i | 0 <= i < |ms|
        ensures ms[i].Hash?
      {
        assert ms[i] in hashes;
      }
    }
    FlatGroups(g)
  }

  /** The `j`-th output of `by_group` is `flat` of the `j`-th group (groups in
      order of first appearance of their value), and holds that value at
      `key`. */
  lemma ByGroupOutputs(hashes: seq<Value>, key: Value, j: nat)
    requires ByGroup(hashes, key).Ok? && forall i :: 0 <= i < |hashes| ==> UniqueKeys(hashes[i].entries)
    requires j < |ByGroup(hashes, key).value|
    ensures var vs := KeyValues(hashes, key).value;
      && Flat(Grouping.GroupOf(Grouping.GroupBy(hashes, vs), Dedup(vs)[j])) == Ok(ByGroup(hashes, key).value[j])
      && Get(ByGroup(hashes, key).value[j].entries, key) == Dedup(vs)[j]
  {
    var vs := KeyValues(hashes, key).value;
    var g := Grouping.GroupBy(hashes, vs);
    Grouping.GroupByPlacement(hashes, vs);
    GetUnique(g, j);
    assert Keys(g)[j] == Dedup(vs)[j];
    var members := Grouping.GroupOf(g, Dedup(vs)[j]);
    assert Flat(members) == Ok(ByGroup(hashes, key).value[j]);
    forall m | 0 <= m < |members|
      ensures Get(members[m].entries, key) == Dedup(vs)[j] && UniqueKeys(members[m].entries)
    {
      assert members[m] in members;
    }
    assert Dedup(vs)[j] in vs;
    var i :| 0 <= i < |vs| && vs[i] == Dedup(vs)[j];
    assert hashes[i] in members;
    FlatCommonValue(members, key, Dedup(vs)[j]);
  }
}
