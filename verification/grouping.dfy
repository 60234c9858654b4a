/** `HashOp::Grouping` and the grouping step shared by `Merge.by_group` and
    `Math.sum_on_groups`: items are placed, in order, into the group named by
    their key; the groups form a Hash from key to the Array of its members,
    with keys in order of first appearance (Ruby's `group_by`, or an `inject`
    doing `result[key] ||= []; result[key] << item`). */
module Grouping {
  import opened Wrappers
  import opened Values
  import opened Seqs
  import opened PathSyntax
  import Deep
  import Read

  /** The items whose key is `k`, in input order: the reference definition of
      one group's members. */
  function Members(items: seq<Value>, ks: seq<Value>, k: Value): (r: seq<Value>)
    requires |items| == |ks|
    ensures k !in ks ==> r == []
    ensures |r| <= |items|
    decreases |items|
  {
    if items == [] then []
    else
      var n := |items| - 1;
      Members(items[..n], ks[..n], k) + (if ks[n] == k then [items[n]] else [])
  }

  /** A group's members are exactly the items with that key. */
  lemma {:induction false} MembersAreKeyed(items: seq<Value>, ks: seq<Value>, k: Value)
    requires |items| == |ks|
    ensures forall i :: 0 <= i < |items| && ks[i] == k ==> items[i] in Members(items, ks, k)
    ensures forall x :: x in Members(items, ks, k) ==> exists i :: 0 <= i < |items| && items[i] == x && ks[i] == k
    decreases |items|
  {
    if items != [] {
      var n := |items| - 1;
      MembersAreKeyed(items[..n], ks[..n], k);
      var m0 := Members(items[..n], ks[..n], k);
      assert Members(items, ks, k) == m0 + (if ks[n] == k then [items[n]] else []);
      forall i | 0 <= i < n && ks[i] == k
        ensures items[i] in Members(items, ks, k)
      {
        assert items[..n][i] == items[i] && ks[..n][i] == ks[i];
      }
      forall x | x in m0
        ensures exists i :: 0 <= i < |items| && items[i] == x && ks[i] == k
      {
        var i :| 0 <= i < n && items[..n][i] == x && ks[..n][i] == k;
        assert items[i] == x && ks[i] == k;
      }
    }
  }

  /** The number of members a group value holds. */
  function GroupSize(v: Value): nat {
    |GroupItems(v)|
  }

  /** The number of items held by all the groups of a Hash. */
  function TotalMembers(es: seq<Entry>): nat {
    if es == [] then 0 else GroupSize(es[0].value) + TotalMembers(es[1..])
  }

  /** Rebinding one key changes the total by the difference of the two groups. */
  lemma {:induction false} PutTotal(es: seq<Entry>, k: Value, v: Value)
    ensures TotalMembers(Put(es, k, v)) + GroupSize(Get(es, k)) == TotalMembers(es) + GroupSize(v)
  {
    if es != [] && es[0].key != k {
      PutTotal(es[1..], k, v);
      assert Put(es, k, v)[1..] == Put(es[1..], k, v);
    }
  }

  /** The members a group value holds (`[]` for the `nil` of a missing group). */
  function GroupItems(v: Value): seq<Value> {
    if v.Arr? then v.items else []
  }

  /** The members already grouped under `k` (`result[key] ||= []`). */
  function GroupOf(g: seq<Entry>, k: Value): seq<Value> {
    GroupItems(Get(g, k))
  }

  /** One step of the grouping loop: `x` appended to the group of `k`, which
      is created, last, when `k` is new. */
  function AddToGroup(g: seq<Entry>, k: Value, x: Value): (r: seq<Entry>)
    ensures Keys(r) == if HasKey(g, k) then Keys(g) else Keys(g) + [k]
    ensures Get(r, k) == Arr(GroupOf(g, k) + [x])
    ensures forall k' :: k' != k ==> Get(r, k') == Get(g, k')
  {
    PutKeepsOthers(g, k, Arr(GroupOf(g, k) + [x]));
    Put(g, k, Arr(GroupOf(g, k) + [x]))
  }

  /** The grouping loop: item `i` goes at the end of the group of key `ks[i]`. */
  function GroupBy(items: seq<Value>, ks: seq<Value>): (g: seq<Entry>)
    requires |items| == |ks|
    ensures Keys(g) == Dedup(ks)
    decreases |items|
  {
    if items == [] then []
    else
      var n := |items| - 1;
      var g0 := GroupBy(items[..n], ks[..n]);
      LastSplit(ks);
      DedupSnoc(ks[..n], ks[n]);
      assert HasKey(g0, ks[n]) <==> ks[n] in ks[..n];
      AddToGroup(g0, ks[n], items[n])
  }

  /** Each key of the input is bound to its group, the Array of its members in
      input order; nothing else is bound. */
  lemma {:induction false} GroupByGet(items: seq<Value>, ks: seq<Value>, k: Value)
    requires |items| == |ks|
    ensures Get(GroupBy(items, ks), k) == if k in ks then Arr(Members(items, ks, k)) else Nil
    decreases |items|
  {
    if items != [] {
      var n := |items| - 1;
      var g0 := GroupBy(items[..n], ks[..n]);
      var m0 := Members(items[..n], ks[..n], k);
      assert GroupBy(items, ks) == AddToGroup(g0, ks[n], items[n]);
      LastSplit(ks);
      assert k in ks <==> k in ks[..n] || k == ks[n];
      GroupByGet(items[..n], ks[..n], k);
      assert GroupOf(g0, k) == m0;
      if k == ks[n] {
        assert Members(items, ks, k) == m0 + [items[n]];
      } else {
        assert Members(items, ks, k) == m0;
      }
    }
  }

  /** Grouping loses and duplicates nothing: the groups hold exactly as many
      items as there were. */
  lemma {:induction false} GroupByPartition(items: seq<Value>, ks: seq<Value>)
    requires |items| == |ks|
    ensures TotalMembers(GroupBy(items, ks)) == |items|
    decreases |items|
  {
    if items != [] {
      var n := |items| - 1;
      var g0 := GroupBy(items[..n], ks[..n]);
      GroupByPartition(items[..n], ks[..n]);
      assert GroupBy(items, ks) == AddToGroup(g0, ks[n], items[n]);
      PutTotal(g0, ks[n], Arr(GroupOf(g0, ks[n]) + [items[n]]));
    }
  }

  /** Every item sits in the group of its own key, and a group holds only
      items with that key. */
  lemma GroupByPlacement(items: seq<Value>, ks: seq<Value>)
    requires |items| == |ks|
    ensures UniqueKeys(GroupBy(items, ks))
    ensures forall i :: 0 <= i < |items| ==> items[i] in GroupOf(GroupBy(items, ks), ks[i])
    ensures forall k, x :: x in GroupOf(GroupBy(items, ks), k) ==>
      exists i :: 0 <= i < |items| && items[i] == x && ks[i] == k
  {
    var g := GroupBy(items, ks);
    forall k
      ensures GroupOf(g, k) == if k in ks then Members(items, ks, k) else []
    {
      GroupByGet(items, ks, k);
    }
    forall k {
      MembersAreKeyed(items, ks, k);
    }
  }

  /** Every member of every group is one of the items. */
  lemma GroupByMembersFromInput(items: seq<Value>, ks: seq<Value>)
    requires |items| == |ks|
    ensures forall j, x :: 0 <= j < |GroupBy(items, ks)| && x in GroupItems(GroupBy(items, ks)[j].value) ==> x in items
  {
    var g := GroupBy(items, ks);
    GroupByPlacement(items, ks);
    forall j, x | 0 <= j < |g| && x in GroupItems(g[j].value)
      ensures x in items
    {
      GetUnique(g, j);
      assert x in GroupOf(g, g[j].key);
    }
  }

  /** `group_on_path(hashes, path)`: the Hashes grouped on the value
      `Deep.fetch` finds at `path` (`nil` when it is missing). */
  function GroupOnPath(hashes: seq<Value>, p: Path): (r: Result<Value>)
    ensures r.Ok? <==> Read.ValuesAtPath(hashes, p).Ok?
    ensures r.Ok? ==> r.value.Hash?
    ensures r.Ok? ==> r.value.entries == GroupBy(hashes, Read.ValuesAtPath(hashes, p).value)
  {
    var vs :- Read.ValuesAtPath(hashes, p);
    Ok(Hash(GroupBy(hashes, vs)))
  }

  /** `group_on_path` partitions its input: group keys are the fetched values
      in order of first appearance, every Hash sits in the group of its own
      value (a Hash lacking the path's first key under `nil`), in input order,
      and the groups hold as many Hashes as were given. */
  lemma GroupOnPathPartition(hashes: seq<Value>, p: Path)
    requires GroupOnPath(hashes, p).Ok?
    ensures Keys(GroupOnPath(hashes, p).value.entries) == Dedup(Read.ValuesAtPath(hashes, p).value)
    ensures forall i :: 0 <= i < |hashes| ==>
      hashes[i] in GroupOf(GroupOnPath(hashes, p).value.entries, Read.ValuesAtPath(hashes, p).value[i])
    ensures forall i :: 0 <= i < |hashes| && Segments(p) != [] && !HasKey(hashes[i].entries, Segments(p)[0]) ==>
      hashes[i] in GroupOf(GroupOnPath(hashes, p).value.entries, Nil)
    ensures TotalMembers(GroupOnPath(hashes, p).value.entries) == |hashes|
  {
    var vs := Read.ValuesAtPath(hashes, p).value;
    GroupByPlacement(hashes, vs);
    GroupByPartition(hashes, vs);
    forall i | 0 <= i < |hashes| && Segments(p) != [] && !HasKey(hashes[i].entries, Segments(p)[0])
      ensures vs[i] == Nil
    {
      assert Deep.Fetch(Deep.DeepModule, hashes[i], p) == Ok(vs[i]);
    }
  }

  /** `group_on_paths(hashes, paths)`: grouped on the first path, then every
      group grouped again on the remaining paths. With no path at all,
      `paths.first` is `nil` and `Deep.fetch` raises on the first Hash, so only
      an empty input survives. */
  function GroupOnPaths(hashes: seq<Value>, paths: seq<Path>): (r: Result<Value>)
    ensures |paths| == 1 ==> r == GroupOnPath(hashes, paths[0])
    ensures paths == [] ==> (r.Ok? <==> hashes == [])
    ensures paths == [] && hashes != [] && !hashes[0].Hash? ==> r == Err(NotAHash(ArgumentError))
    ensures |paths| > 1 && r.Ok? ==> GroupOnPath(hashes, paths[0]).Ok?
    ensures r.Ok? ==> r.value.Hash?
    decreases |paths|, 1
  {
    if paths == [] then
      if hashes == [] then Ok(Hash([]))
      else if !hashes[0].Hash? then Err(NotAHash(ArgumentError))
      else Err(InvalidPath)
    else if |paths| == 1 then GroupOnPath(hashes, paths[0])
    else
      var top :- GroupOnPath(hashes, paths[0]);
      var sub :- GroupAll(top.entries, paths[1..]);
      Ok(Hash(sub))
  }

  /** The `each` of `group_on_paths`: every group regrouped on the remaining
      paths under the same key, the first group that raises making the call
      raise. */
  function GroupAll(es: seq<Entry>, paths: seq<Path>): (r: Result<seq<Entry>>)
    ensures r.Ok? ==> Keys(r.value) == Keys(es)
    ensures r.Ok? ==> forall i :: 0 <= i < |es| ==> GroupOnPaths(GroupItems(es[i].value), paths) == Ok(r.value[i].value)
    decreases |paths|, 2, |es|
  {
    if es == [] then Ok([])
    else
      var v :- GroupOnPaths(GroupItems(es[0].value), paths);
      var rest :- GroupAll(es[1..], paths);
      assert forall i :: 1 <= i < |es| ==> es[i] == es[1..][i - 1];
      Ok([Entry(es[0].key, v)] + rest)
  }

  /** Nested grouping: the top-level keys are those of `group_on_path` on the
      first path, and each binds the group's own Hashes grouped on the
      remaining paths. */
  lemma GroupOnPathsNested(hashes: seq<Value>, paths: seq<Path>, k: Value)
    requires |paths| > 1 && GroupOnPaths(hashes, paths).Ok?
    ensures GroupOnPath(hashes, paths[0]).Ok?
    ensures Keys(GroupOnPaths(hashes, paths).value.entries) == Keys(GroupOnPath(hashes, paths[0]).value.entries)
    ensures HasKey(GroupOnPath(hashes, paths[0]).value.entries, k) ==>
      GroupOnPaths(GroupOf(GroupOnPath(hashes, paths[0]).value.entries, k), paths[1..])
        == Ok(Get(GroupOnPaths(hashes, paths).value.entries, k))
  {
    var top := GroupOnPath(hashes, paths[0]).value.entries;
    var sub := GroupAll(top, paths[1..]).value;
    assert GroupOnPaths(hashes, paths).value.entries == sub;
    if HasKey(top, k) {
      var i :| 0 <= i < |top| && top[i].key == k;
      GroupByPlacement(hashes, Read.ValuesAtPath(hashes, paths[0]).value);
      GetUnique(top, i);
      assert Keys(sub)[i] == k;
      GetUnique(sub, i);
    }
  }
}
