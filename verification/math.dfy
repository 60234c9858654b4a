/** `HashOp::Math`: Hashes summed key by key, values summed per group, and the
    sum, minimum and maximum of the values found at one path. */
module HashMath {
  import opened Wrappers
  import opened Values
  import opened Seqs
  import opened PathSyntax
  import Deep
  import Read
  import Grouping
  import HashMerge

  /** Ruby's `+` on the values of the model: Integer addition, String and
      Array concatenation, and a Time moved by a number of seconds. Any other
      pair raises (`nil + 1`, `1 + nil`, `:a + :b`, `{} + {}`). */
  function Add(a: Value, b: Value): (r: Result<Value>)
    ensures a.Int? ==> (r.Ok? <==> b.Int?)
    ensures r.Ok? && a.Int? ==> r.value == Int(a.i + b.i)
    ensures a.Nil? || a.Bool? || a.Sym? || a.Hash? ==> r == Err(TypeMismatch)
  {
    match (a, b)
    case (Int(x), Int(y)) => Ok(Int(x + y))
    case (Str(x), Str(y)) => Ok(Str(x + y))
    case (Arr(x), Arr(y)) => Ok(Arr(x + y))
    case (TimeVal(t), Int(s)) => Ok(TimeVal(t + s))
    case _ => Err(TypeMismatch)
  }

  // ---------------------------------------------------------------------------
  // sum_two

  /** The `each` loop of `sum_two`: every entry of `b` in turn is added to the
      value `acc` binds to its key when that value is truthy, and written
      over it otherwise. */
  function SumInto(acc: seq<Entry>, b: seq<Entry>): (r: Result<seq<Entry>>)
    ensures r.Ok? && UniqueKeys(acc) ==> UniqueKeys(r.value)
    decreases |b|
  {
    if b == [] then Ok(acc)
    else
      var k := b[0].key;
      var v :- SumStep(acc, b[0]);
      assert UniqueKeys(acc) ==> UniqueKeys(Put(acc, k, v)) by {
        if UniqueKeys(acc) {
          PutKeepsUnique(acc, k, v);
        }
      }
      SumInto(Put(acc, k, v), b[1..])
  }

  /** `sum_two(hash_a, hash_b)`: `hash_b`'s entries summed into `hash_a`.
      Iterating anything but a Hash raises, and so does indexing a non-Hash
      `hash_a`; with nothing to iterate, `hash_a` comes back as it is. */
  function SumTwo(a: Value, b: Value): (r: Result<Value>)
    ensures !b.Hash? ==> r == Err(TypeMismatch)
    ensures b == Hash([]) ==> r == Ok(a)
    ensures b.Hash? && b.entries != [] && !a.Hash? ==> r == Err(NotIndexable)
    ensures r.Ok? && !a.Arr? ==> !r.value.Arr?
  {
    if !b.Hash? then Err(TypeMismatch)
    else if b.entries == [] then Ok(a)
    else if !a.Hash? then Err(NotIndexable)
    else
      var es :- SumInto(a.entries, b.entries);
      Ok(Hash(es))
  }

  /** One turn of the `each` loop of `sum_two`: the first entry of `b` is
      summed in, or its failure ends the loop. */
  function SumStep(acc: seq<Entry>, e: Entry): Result<Value> {
    if Truthy(Get(acc, e.key)) then Add(Get(acc, e.key), e.value) else Ok(e.value)
  }

  lemma SumIntoStep(acc: seq<Entry>, b: seq<Entry>)
    requires b != []
    ensures SumStep(acc, b[0]).Err? ==> SumInto(acc, b).Err?
    ensures SumStep(acc, b[0]).Ok? ==> SumInto(acc, b) == SumInto(Put(acc, b[0].key, SumStep(acc, b[0]).value), b[1..])
  {
  }

  /** Keys of equal Hashes stay equal under a merge. */
  lemma {:induction false} MergeKeysFollowKeys(x: seq<Entry>, y: seq<Entry>, c: seq<Entry>)
    requires Keys(x) == Keys(y)
    ensures Keys(HashMerge.MergeEntries(x, c)) == Keys(HashMerge.MergeEntries(y, c))
    decreases |c|
  {
    if c != [] {
      MergeKeysFollowKeys(Put(x, c[0].key, c[0].value), Put(y, c[0].key, c[0].value), c[1..]);
    }
  }

  /** The keys of a sum are laid out exactly as those of `hash_a.merge(hash_b)`:
      `hash_a`'s keys in place, then `hash_b`'s new keys in order. */
  lemma {:induction false} SumIntoKeys(acc: seq<Entry>, b: seq<Entry>)
    requires SumInto(acc, b).Ok?
    ensures Keys(SumInto(acc, b).value) == Keys(HashMerge.MergeEntries(acc, b))
    decreases |b|
  {
    if b != [] {
      var k := b[0].key;
      SumIntoStep(acc, b);
      var v := SumStep(acc, b[0]).value;
      SumIntoKeys(Put(acc, k, v), b[1..]);
      MergeKeysFollowKeys(Put(acc, k, v), Put(acc, k, b[0].value), b[1..]);
    }
  }

  /** What a sum binds each key to: `hash_b`'s value added to a truthy value of
      `hash_a`, `hash_b`'s value where `hash_a`'s is `nil` or `false`, and
      `hash_a`'s value for keys `hash_b` lacks. */
  lemma {:induction false} SumIntoGet(acc: seq<Entry>, b: seq<Entry>, k: Value)
    requires UniqueKeys(b) && SumInto(acc, b).Ok?
    ensures HasKey(b, k) && Truthy(Get(acc, k)) ==> Add(Get(acc, k), Get(b, k)) == Ok(Get(SumInto(acc, b).value, k))
    ensures HasKey(b, k) && !Truthy(Get(acc, k)) ==> Get(SumInto(acc, b).value, k) == Get(b, k)
    ensures !HasKey(b, k) ==> Get(SumInto(acc, b).value, k) == Get(acc, k)
    decreases |b|
  {
    if b != [] {
      var k0 := b[0].key;
      SumIntoStep(acc, b);
      var v := SumStep(acc, b[0]).value;
      var acc' := Put(acc, k0, v);
      TailKeys(b);
      SumIntoGet(acc', b[1..], k);
      if k != k0 {
        PutOther(acc, k0, v, k);
      }
    }
  }

  /** The entry `e` can be summed into `acc`: when `acc` holds a truthy value
      at its key, Ruby can add `e`'s value to it. */
  predicate AddableAt(acc: seq<Entry>, e: Entry) {
    Truthy(Get(acc, e.key)) ==> Add(Get(acc, e.key), e.value).Ok?
  }

  /** Every key of `b` with a truthy value in `acc` holds two values Ruby can
      add. */
  predicate Addable(acc: seq<Entry>, b: seq<Entry>) {
    forall i :: 0 <= i < |b| ==> AddableAt(acc, b[i])
  }

  /** `Addable` after the first entry is summed in: the other keys of `b`
      still see `acc`'s values. */
  lemma AddableTail(acc: seq<Entry>, b: seq<Entry>, v: Value)
    requires b != [] && UniqueKeys(b)
    ensures Addable(acc, b) <==> SumStep(acc, b[0]).Ok? && Addable(Put(acc, b[0].key, v), b[1..])
  {
    var acc' := Put(acc, b[0].key, v);
    var tail := b[1..];
    assert SumStep(acc, b[0]).Ok? <==> AddableAt(acc, b[0]);
    if Addable(acc, b) {
      forall j | 0 <= j < |tail|
        ensures AddableAt(acc', tail[j])
      {
        AddableAtOther(acc, b, v, j + 1);
      }
    }
    if AddableAt(acc, b[0]) && Addable(acc', tail) {
      forall i | 1 <= i < |b|
        ensures AddableAt(acc, b[i])
      {
        assert b[i] == tail[i - 1];
        AddableAtOther(acc, b, v, i);
      }
    }
  }

  /** A later key of `b` is not the first one, so binding the first leaves
      what the later one sees unchanged. */
  lemma AddableAtOther(acc: seq<Entry>, b: seq<Entry>, v: Value, i: nat)
    requires UniqueKeys(b) && 1 <= i < |b|
    ensures AddableAt(Put(acc, b[0].key, v), b[i]) == AddableAt(acc, b[i])
  {
    assert Keys(b)[i] != Keys(b)[0];
    PutOther(acc, b[0].key, v, b[i].key);
  }

  /** A sum succeeds exactly when every key both Hashes share, with a truthy
      value in `hash_a`, holds values that Ruby can add. */
  lemma {:induction false} SumIntoOk(acc: seq<Entry>, b: seq<Entry>)
    requires UniqueKeys(b)
    ensures SumInto(acc, b).Ok? <==> Addable(acc, b)
    decreases |b|
  {
    if b != [] {
      var step := SumStep(acc, b[0]);
      SumIntoStep(acc, b);
      if step.Ok? {
        TailKeys(b);
        AddableTail(acc, b, step.value);
        SumIntoOk(Put(acc, b[0].key, step.value), b[1..]);
      } else {
        AddableTail(acc, b, Nil);
      }
    }
  }

  /** A first entry whose key is new is appended. */
  lemma FreshHead(acc: seq<Entry>, b: seq<Entry>)
    requires b != [] && !HasKey(acc, b[0].key)
    ensures SumInto(acc, b) == SumInto(acc + [b[0]], b[1..])
  {
    PutAppend(acc, b[0].key, b[0].value);
    assert Entry(b[0].key, b[0].value) == b[0];
    SumIntoStep(acc, b);
  }

  /** No key of `b` is a key of `acc`. */
  predicate FreshKeys(acc: seq<Entry>, b: seq<Entry>) {
    forall i :: 0 <= i < |b| ==> !HasKey(acc, b[i].key)
  }

  /** After appending the first entry, the other keys of `b` are still new. */
  lemma FreshTail(acc: seq<Entry>, b: seq<Entry>)
    requires b != [] && UniqueKeys(b) && FreshKeys(acc, b)
    ensures UniqueKeys(b[1..]) && FreshKeys(acc + [b[0]], b[1..])
  {
    TailKeys(b);
    assert Keys(acc + [b[0]]) == Keys(acc) + [b[0].key];
    forall i | 0 <= i < |b[1..]|
      ensures !HasKey(acc + [b[0]], b[1..][i].key)
    {
      assert b[1..][i] == b[i + 1];
      assert Keys(b)[i + 1] != Keys(b)[0];
    }
  }

  /** Summing entries whose keys are all new appends them in order. */
  lemma {:induction false} SumIntoFresh(acc: seq<Entry>, b: seq<Entry>)
    requires UniqueKeys(b) && FreshKeys(acc, b)
    ensures SumInto(acc, b) == Ok(acc + b)
    decreases |b|
  {
    if b != [] {
      assert !HasKey(acc, b[0].key);
      FreshHead(acc, b);
      FreshTail(acc, b);
      SumIntoFresh(acc + [b[0]], b[1..]);
      assert acc + [b[0]] + b[1..] == acc + b;
    } else {
      assert acc + b == acc;
    }
  }

  /** `sum_two` on two Hashes: the result's keys are laid out as in
      `hash_a.merge(hash_b)`, and each key holds the sum described by
      `SumIntoGet`. */
  lemma SumTwoContents(a: Value, b: Value, k: Value)
    requires a.Hash? && b.Hash? && UniqueKeys(b.entries) && SumTwo(a, b).Ok?
    ensures SumTwo(a, b).value.Hash?
    ensures Keys(SumTwo(a, b).value.entries) == Keys(HashMerge.MergeEntries(a.entries, b.entries))
    ensures HasKey(b.entries, k) && Truthy(Get(a.entries, k)) ==>
      Add(Get(a.entries, k), Get(b.entries, k)) == Ok(Get(SumTwo(a, b).value.entries, k))
    ensures HasKey(b.entries, k) && !Truthy(Get(a.entries, k)) ==> Get(SumTwo(a, b).value.entries, k) == Get(b.entries, k)
    ensures !HasKey(b.entries, k) ==> Get(SumTwo(a, b).value.entries, k) == Get(a.entries, k)
  {
    assert SumTwo(a, b) == Ok(Hash(SumInto(a.entries, b.entries).value));
    SumIntoKeys(a.entries, b.entries);
    SumIntoGet(a.entries, b.entries, k);
  }

  /** `sum_two` on two Hashes raises exactly when a shared key with a truthy
      value in `hash_a` holds values that cannot be added. */
  lemma SumTwoOk(a: Value, b: Value)
    requires a.Hash? && b.Hash? && UniqueKeys(b.entries)
    ensures SumTwo(a, b).Ok? <==> Addable(a.entries, b.entries)
  {
    SumIntoOk(a.entries, b.entries);
  }

  /** `{}` is a left identity of `sum_two`. */
  lemma SumTwoEmptyLeft(h: Value)
    requires h.Hash? && UniqueKeys(h.entries)
    ensures SumTwo(Hash([]), h) == Ok(h)
  {
    if h.entries != [] {
      SumIntoFresh([], h.entries);
      assert [] + h.entries == h.entries;
    }
  }

  // ---------------------------------------------------------------------------
  // sum

  /** `Array#flatten` of one value: the value itself, or the leaves of an
      Array with every nested Array spliced in place. */
  function FlattenValue(v: Value): (r: seq<Value>)
    ensures forall i :: 0 <= i < |r| ==> !r[i].Arr?
    ensures !v.Arr? ==> r == [v]
    decreases v, 1, 0
  {
    if v.Arr? then FlattenFrom(v, 0) else [v]
  }

  /** The flattened items of the Array `v` from index `i` on. */
  function FlattenFrom(v: Value, i: nat): (r: seq<Value>)
    requires v.Arr? && i <= |v.items|
    ensures forall j :: 0 <= j < |r| ==> !r[j].Arr?
    decreases v, 0, |v.items| - i
  {
    if i == |v.items| then [] else FlattenValue(v.items[i]) + FlattenFrom(v, i + 1)
  }

  /** `hashes.flatten!` on the argument list of `sum`. */
  function Flatten(args: seq<Value>): (r: seq<Value>)
    ensures forall i :: 0 <= i < |r| ==> !r[i].Arr?
  {
    FlattenFrom(Arr(args), 0)
  }

  /** Flattening from index `i` of an Array without nested Arrays gives its
      items from `i` on. */
  lemma {:induction false} FlattenFromFlat(v: Value, i: nat)
    requires v.Arr? && i <= |v.items| && forall j :: 0 <= j < |v.items| ==> !v.items[j].Arr?
    ensures FlattenFrom(v, i) == v.items[i..]
    decreases |v.items| - i
  {
    if i < |v.items| {
      FlattenFromFlat(v, i + 1);
      assert v.items[i..] == [v.items[i]] + v.items[i + 1..];
    }
  }

  /** No element is an Array. */
  predicate NoArrays(hs: seq<Value>) {
    forall i :: 0 <= i < |hs| ==> !hs[i].Arr?
  }

  /** A list without Arrays is its own flattening; in particular `flatten` is
      idempotent. */
  lemma FlattenFlat(args: seq<Value>)
    requires NoArrays(args)
    ensures Flatten(args) == args
  {
    FlattenFromFlat(Arr(args), 0);
  }

  /** `sum(*hashes)`: the flattened arguments summed two by two from the left;
      no argument gives `{}` and a single argument is returned as it is. */
  function Sum(args: seq<Value>): (r: Result<Value>)
    ensures Flatten(args) == [] ==> r == Ok(Hash([]))
    ensures |Flatten(args)| == 1 ==> r == Ok(Flatten(args)[0])
  {
    SumFlat(Flatten(args))
  }

  /** Replacing the first two of a list without Arrays by a value that is not
      an Array leaves a list without Arrays. */
  lemma NoArraysCons(first: Value, hs: seq<Value>)
    requires |hs| >= 2 && NoArrays(hs) && !first.Arr?
    ensures NoArrays([first] + hs[2..])
  {
    var rest := [first] + hs[2..];
    forall i | 1 <= i < |rest|
      ensures !rest[i].Arr?
    {
      assert rest[i] == hs[i + 1];
    }
  }

  /** The body of `sum` once its arguments are flat: the first two summed by
      `sum_two`, then the call again on that sum followed by the rest. */
  function SumFlat(hs: seq<Value>): (r: Result<Value>)
    requires NoArrays(hs)
    decreases |hs|
  {
    if |hs| == 0 then Ok(Hash([]))
    else if |hs| == 1 then Ok(hs[0])
    else if |hs| == 2 then SumTwo(hs[0], hs[1])
    else
      var first :- SumTwo(hs[0], hs[1]);
      NoArraysCons(first, hs);
      SumFlat([first] + hs[2..])
  }

  /** The recursive call of `sum` flattens `[sum_two(h0, h1)] + rest` once
      more; as nothing in it is an Array this changes nothing, so `sum` on
      the arguments is `sum` on that shorter list. */
  lemma SumRecurses(args: seq<Value>)
    requires |Flatten(args)| > 2 && SumTwo(Flatten(args)[0], Flatten(args)[1]).Ok?
    ensures var hs := Flatten(args);
      Sum(args) == Sum([SumTwo(hs[0], hs[1]).value] + hs[2..])
  {
    var hs := Flatten(args);
    var first := SumTwo(hs[0], hs[1]).value;
    NoArraysCons(first, hs);
    FlattenFlat([first] + hs[2..]);
    assert SumFlat(hs) == SumFlat([first] + hs[2..]);
  }

  /** `sum_two` applied to `acc` and each Hash in turn. */
  function FoldSumTwo(acc: Value, hs: seq<Value>): (r: Result<Value>)
    ensures hs == [] ==> r == Ok(acc)
    decreases |hs|
  {
    if hs == [] then Ok(acc)
    else
      var next :- SumTwo(acc, hs[0]);
      FoldSumTwo(next, hs[1..])
  }

  /** On flat arguments, `sum` is the left fold of `sum_two` from the first. */
  lemma {:induction false} SumFlatIsFold(hs: seq<Value>)
    requires hs != [] && NoArrays(hs)
    ensures SumFlat(hs) == FoldSumTwo(hs[0], hs[1..])
    decreases |hs|
  {
    if |hs| == 2 {
      assert hs[1..][1..] == [];
    } else if |hs| > 2 {
      var step := SumTwo(hs[0], hs[1]);
      assert FoldSumTwo(hs[0], hs[1..]) == if step.Ok? then FoldSumTwo(step.value, hs[1..][1..]) else step.PropagateFailure();
      if step.Ok? {
        var rest := [step.value] + hs[2..];
        NoArraysCons(step.value, hs);
        assert SumFlat(hs) == SumFlat(rest);
        SumFlatIsFold(rest);
        assert rest[1..] == hs[1..][1..];
      }
    }
  }

  /** `sum` is the left fold of `sum_two` over the flattened arguments,
      starting from the first. */
  lemma SumIsFold(args: seq<Value>)
    requires Flatten(args) != []
    ensures Sum(args) == FoldSumTwo(Flatten(args)[0], Flatten(args)[1..])
  {
    SumFlatIsFold(Flatten(args));
  }

  /** Starting the fold from `{}` instead changes nothing when the first
      argument is a Hash: `{}` is neutral for `sum`. */
  lemma SumFromEmpty(args: seq<Value>)
    requires Flatten(args) != [] ==> Flatten(args)[0].Hash? && UniqueKeys(Flatten(args)[0].entries)
    ensures Sum(args) == FoldSumTwo(Hash([]), Flatten(args))
  {
    var hs := Flatten(args);
    if hs != [] {
      SumIsFold(args);
      SumTwoEmptyLeft(hs[0]);
    }
  }

  // ---------------------------------------------------------------------------
  // sum_on_groups

  /** `hash[key]` on an element already known to be a Hash. */
  function At(h: Value, k: Value): Value {
    if h.Hash? then Get(h.entries, k) else Nil
  }

  /** `hash[key]` of every element, in order: the group values
      `hash[group_key]` of the input, or the values `hash[value_key]` of one
      group's members. */
  function ValuesAt(hashes: seq<Value>, gk: Value): (ks: seq<Value>)
    ensures |ks| == |hashes|
    decreases |hashes|
  {
    if hashes == [] then [] else ValuesAt(hashes[..|hashes| - 1], gk) + [At(hashes[|hashes| - 1], gk)]
  }

  /** Every element is an Integer. */
  predicate AllInts(vs: seq<Value>) {
    forall i :: 0 <= i < |vs| ==> vs[i].Int?
  }

  /** The sum of a sequence of Integers. */
  function IntTotal(vs: seq<Value>): int
    requires AllInts(vs)
    decreases |vs|
  {
    if vs == [] then 0 else IntTotal(vs[..|vs| - 1]) + vs[|vs| - 1].i
  }

  /** The running `+=` of one group: its first value with every later value
      added on in turn. On Integers it is their sum. */
  function AddFold(vs: seq<Value>): (r: Result<Value>)
    requires vs != []
    ensures AllInts(vs) ==> r == Ok(Int(IntTotal(vs)))
    decreases |vs|
  {
    if |vs| == 1 then Ok(vs[0])
    else
      var n := |vs| - 1;
      var acc :- AddFold(vs[..n]);
      Add(acc, vs[n])
  }

  /** Every element is a Hash. */
  predicate AllHashes(hashes: seq<Value>) {
    forall i :: 0 <= i < |hashes| ==> hashes[i].Hash?
  }

  lemma AllHashesSnoc(hashes: seq<Value>)
    requires hashes != [] && AllHashes(hashes[..|hashes| - 1]) && hashes[|hashes| - 1].Hash?
    ensures AllHashes(hashes)
  {
    assert forall i :: 0 <= i < |hashes| - 1 ==> hashes[..|hashes| - 1][i] == hashes[i];
  }

  /** Every value of the work Hash is a Hash. */
  predicate HashValued(es: seq<Entry>) {
    forall i :: 0 <= i < |es| ==> es[i].value.Hash?
  }

  lemma {:induction false} PutHashValued(es: seq<Entry>, k: Value, v: Value)
    requires HashValued(es) && v.Hash?
    ensures HashValued(Put(es, k, v))
  {
    if es != [] && es[0].key != k {
      PutHashValued(es[1..], k, v);
      assert Put(es, k, v) == [es[0]] + Put(es[1..], k, v);
    }
  }

  /** One turn of the `inject` of `sum_on_groups` for the group `cur` of `h`:
      `{group_key => g, value_key => v}` for a new group, the group's sum
      with `v` added by `+=` otherwise. */
  function GroupSum(cur: Value, h: Value, gk: Value, vk: Value): (r: Result<seq<Entry>>)
    requires cur.Nil? || cur.Hash?
    requires h.Hash?
  {
    if cur.Nil? then Ok(Put(Put([], gk, Get(h.entries, gk)), vk, Get(h.entries, vk)))
    else
      var sum :- Add(Get(cur.entries, vk), Get(h.entries, vk));
      Ok(Put(cur.entries, vk, sum))
  }

  /** One turn of the `inject` of `sum_on_groups`: the group of `h` in the
      work Hash set to its new sum. */
  function WorkStep(work: seq<Entry>, h: Value, gk: Value, vk: Value): (r: Result<seq<Entry>>)
    requires HashValued(work) && h.Hash?
    ensures r.Ok? ==> HashValued(r.value)
  {
    var g := Get(h.entries, gk);
    var group :- GroupSum(Get(work, g), h, gk, vk);
    PutHashValued(work, g, Hash(group));
    Ok(Put(work, g, Hash(group)))
  }

  /** The `inject` of `sum_on_groups`: a work Hash from each group value to
      the Hash summing that group so far. A group seen for the first time
      gets `{group_key => g, value_key => v}`; a later member adds its value
      with `+=`. Indexing anything but a Hash raises. */
  function SumWork(hashes: seq<Value>, gk: Value, vk: Value): (r: Result<seq<Entry>>)
    ensures r.Ok? ==> AllHashes(hashes)
    ensures r.Ok? ==> HashValued(r.value)
    decreases |hashes|
  {
    if hashes == [] then Ok([])
    else
      var n := |hashes| - 1;
      var work :- SumWork(hashes[..n], gk, vk);
      if !hashes[n].Hash? then Err(NotIndexable)
      else
        AllHashesSnoc(hashes);
        WorkStep(work, hashes[n], gk, vk)
  }

  /** `sum_on_groups(hashes, group_key, value_key)`: the values of the work
      Hash, one per group. */
  function SumOnGroups(hashes: seq<Value>, gk: Value, vk: Value): (r: Result<seq<Value>>)
    ensures r.Ok? ==> forall i :: 0 <= i < |hashes| ==> hashes[i].Hash?
    ensures r.Ok? ==> forall i :: 0 <= i < |r.value| ==> r.value[i].Hash?
  {
    var work :- SumWork(hashes, gk, vk);
    Ok(seq(|work|, i requires 0 <= i < |work| => work[i].value))
  }

  /** Every value of the work Hash is a Hash holding an Integer at
      `value_key`. */
  predicate IntValued(work: seq<Entry>, vk: Value) {
    forall i :: 0 <= i < |work| ==> work[i].value.Hash? && Get(work[i].value.entries, vk).Int?
  }

  /** Every element is a Hash with an Integer at `value_key`. */
  predicate IntMembers(hashes: seq<Value>, vk: Value) {
    forall i :: 0 <= i < |hashes| ==> hashes[i].Hash? && Get(hashes[i].entries, vk).Int?
  }

  lemma PutIntValued(work: seq<Entry>, g: Value, group: seq<Entry>, vk: Value)
    requires IntValued(work, vk) && Get(group, vk).Int?
    ensures IntValued(Put(work, g, Hash(group)), vk)
  {
    var r := Put(work, g, Hash(group));
    PutEntries(work, g, Hash(group));
    forall i | 0 <= i < |r|
      ensures r[i].value.Hash? && Get(r[i].value.entries, vk).Int?
    {
      if r[i] != Entry(g, Hash(group)) {
        var j :| 0 <= j < |work| && work[j] == r[i];
      }
    }
  }

  /** A new group starts with the member's Integer at `value_key`. */
  lemma GroupSumNewInt(h: Value, gk: Value, vk: Value)
    requires h.Hash? && Get(h.entries, vk).Int?
    ensures GroupSum(Nil, h, gk, vk).Ok? && Get(GroupSum(Nil, h, gk, vk).value, vk).Int?
  {
  }

  /** A seen group's Integer sum plus the member's Integer is an Integer. */
  lemma GroupSumSeenInt(cur: Value, h: Value, gk: Value, vk: Value)
    requires cur.Hash? && Get(cur.entries, vk).Int? && h.Hash? && Get(h.entries, vk).Int?
    ensures GroupSum(cur, h, gk, vk).Ok? && Get(GroupSum(cur, h, gk, vk).value, vk).Int?
  {
  }

  /** A turn of the `inject` on a Hash with an Integer at `value_key`
      succeeds and keeps every group's sum an Integer. */
  lemma WorkStepInt(work: seq<Entry>, h: Value, gk: Value, vk: Value)
    requires IntValued(work, vk) && h.Hash? && Get(h.entries, vk).Int?
    ensures HashValued(work)
    ensures WorkStep(work, h, gk, vk).Ok? && IntValued(WorkStep(work, h, gk, vk).value, vk)
  {
    var g := Get(h.entries, gk);
    var cur := Get(work, g);
    if HasKey(work, g) {
      var i :| 0 <= i < |work| && work[i].key == g && cur == work[i].value;
      GroupSumSeenInt(cur, h, gk, vk);
    } else {
      GroupSumNewInt(h, gk, vk);
    }
    PutIntValued(work, g, GroupSum(cur, h, gk, vk).value, vk);
  }

  /** The `inject` of `sum_on_groups` never raises on Hashes whose values at
      `value_key` are Integers, and every group's sum stays an Integer. */
  lemma {:induction false} SumWorkOk(hashes: seq<Value>, gk: Value, vk: Value)
    requires IntMembers(hashes, vk)
    ensures SumWork(hashes, gk, vk).Ok? && IntValued(SumWork(hashes, gk, vk).value, vk)
    decreases |hashes|
  {
    if hashes != [] {
      var n := |hashes| - 1;
      assert IntMembers(hashes[..n], vk) by {
        assert forall i :: 0 <= i < n ==> hashes[..n][i] == hashes[i];
      }
      SumWorkOk(hashes[..n], gk, vk);
      WorkStepInt(SumWork(hashes[..n], gk, vk).value, hashes[n], gk, vk);
    }
  }

  /** `sum_on_groups` succeeds on Hashes whose values at `value_key` are
      Integers, and each Hash it returns holds an Integer sum. */
  lemma SumOnGroupsOk(hashes: seq<Value>, gk: Value, vk: Value)
    requires IntMembers(hashes, vk)
    ensures SumOnGroups(hashes, gk, vk).Ok?
    ensures forall i :: 0 <= i < |SumOnGroups(hashes, gk, vk).value| ==>
      Get(SumOnGroups(hashes, gk, vk).value[i].entries, vk).Int?
  {
    SumWorkOk(hashes, gk, vk);
  }

  /** The last group value is that of the last element. */
  lemma ValuesAtSnoc(hashes: seq<Value>, gk: Value)
    requires hashes != []
    ensures ValuesAt(hashes, gk)[..|hashes| - 1] == ValuesAt(hashes[..|hashes| - 1], gk)
    ensures ValuesAt(hashes, gk)[|hashes| - 1] == At(hashes[|hashes| - 1], gk)
  {
  }

  /** A successful `sum_on_groups` is the work Hash of all but the last
      element with the last one's group updated. */
  lemma SumWorkStep(hashes: seq<Value>, gk: Value, vk: Value)
    requires hashes != [] && SumWork(hashes, gk, vk).Ok?
    ensures SumWork(hashes[..|hashes| - 1], gk, vk).Ok? && hashes[|hashes| - 1].Hash?
    ensures SumWork(hashes, gk, vk) == WorkStep(SumWork(hashes[..|hashes| - 1], gk, vk).value, hashes[|hashes| - 1], gk, vk)
  {
  }

  /** The work Hash has one key per distinct group value, in order of first
      appearance. */
  lemma {:induction false} SumWorkKeys(hashes: seq<Value>, gk: Value, vk: Value)
    requires SumWork(hashes, gk, vk).Ok?
    ensures Keys(SumWork(hashes, gk, vk).value) == Dedup(ValuesAt(hashes, gk))
    decreases |hashes|
  {
    if hashes != [] {
      var n := |hashes| - 1;
      var ks := ValuesAt(hashes, gk);
      SumWorkStep(hashes, gk, vk);
      ValuesAtSnoc(hashes, gk);
      SumWorkKeys(hashes[..n], gk, vk);
      LastSplit(ks);
      DedupSnoc(ks[..n], ks[n]);
    }
  }

  /** Splitting off the last member of a group. */
  lemma MembersSnoc(hashes: seq<Value>, gk: Value, k: Value)
    requires hashes != []
    ensures var n := |hashes| - 1;
      Grouping.Members(hashes, ValuesAt(hashes, gk), k)
      == Grouping.Members(hashes[..n], ValuesAt(hashes[..n], gk), k) + (if At(hashes[n], gk) == k then [hashes[n]] else [])
  {
    ValuesAtSnoc(hashes, gk);
  }

  /** The running sum of a group after one more member. */
  lemma AddFoldSnoc(ms: seq<Value>, h: Value, vk: Value)
    requires ms != [] && AddFold(ValuesAt(ms, vk)).Ok?
    ensures ValuesAt(ms + [h], vk) == ValuesAt(ms, vk) + [At(h, vk)]
    ensures AddFold(ValuesAt(ms + [h], vk)) == Add(AddFold(ValuesAt(ms, vk)).value, At(h, vk))
  {
    assert (ms + [h])[..|ms|] == ms;
    var vs := ValuesAt(ms + [h], vk);
    assert vs[..|ms|] == ValuesAt(ms, vk);
  }

  /** The work Hash binds group value `k` to `{group_key => k, value_key => s}`,
      with `s` the running `+=` over the values of the members `ms`. */
  predicate GroupSummed(work: seq<Entry>, ms: seq<Value>, gk: Value, vk: Value, k: Value) {
    && ms != [] && AddFold(ValuesAt(ms, vk)).Ok?
    && Get(work, k) == Hash(Put(Put([], gk, k), vk, AddFold(ValuesAt(ms, vk)).value))
  }

  /** A turn of the `inject` leaves the other groups alone. */
  lemma WorkStepOther(work: seq<Entry>, h: Value, gk: Value, vk: Value, k: Value, ms: seq<Value>)
    requires HashValued(work) && h.Hash? && WorkStep(work, h, gk, vk).Ok? && At(h, gk) != k
    requires GroupSummed(work, ms, gk, vk, k)
    ensures GroupSummed(WorkStep(work, h, gk, vk).value, ms, gk, vk, k)
  {
    var g := Get(h.entries, gk);
    PutOther(work, g, Hash(GroupSum(Get(work, g), h, gk, vk).value), k);
  }

  /** A turn of the `inject` on a new group value starts its group. */
  lemma WorkStepNew(work: seq<Entry>, h: Value, gk: Value, vk: Value)
    requires HashValued(work) && h.Hash? && !HasKey(work, At(h, gk))
    ensures WorkStep(work, h, gk, vk).Ok?
    ensures GroupSummed(WorkStep(work, h, gk, vk).value, [h], gk, vk, At(h, gk))
  {
    var g := At(h, gk);
    var group := Put(Put([], gk, g), vk, At(h, vk));
    assert GroupSum(Get(work, g), h, gk, vk) == Ok(group);
    assert WorkStep(work, h, gk, vk) == Ok(Put(work, g, Hash(group)));
    assert ValuesAt([h], vk) == [At(h, vk)];
    assert AddFold([At(h, vk)]) == Ok(At(h, vk));
  }

  /** A turn of the `inject` on a group seen before adds to its sum. */
  lemma WorkStepSeen(work: seq<Entry>, h: Value, gk: Value, vk: Value, ms: seq<Value>)
    requires HashValued(work) && h.Hash? && WorkStep(work, h, gk, vk).Ok?
    requires GroupSummed(work, ms, gk, vk, At(h, gk))
    ensures GroupSummed(WorkStep(work, h, gk, vk).value, ms + [h], gk, vk, At(h, gk))
  {
    var g := At(h, gk);
    var s := AddFold(ValuesAt(ms, vk)).value;
    assert Get(Put(Put([], gk, g), vk, s), vk) == s;
    assert GroupSum(Get(work, g), h, gk, vk) == Ok(Put(Put(Put([], gk, g), vk, s), vk, Add(s, At(h, vk)).value));
    PutPut(Put([], gk, g), vk, s, Add(s, At(h, vk)).value);
    AddFoldSnoc(ms, h, vk);
  }

  /** Each group value `k` holds `{group_key => k, value_key => s}`, where `s`
      is the running `+=` over the values of the group's members: the items
      with that group value, as `group_by` collects them. */
  lemma {:induction false} SumWorkGroup(hashes: seq<Value>, gk: Value, vk: Value, k: Value)
    requires SumWork(hashes, gk, vk).Ok? && k in ValuesAt(hashes, gk)
    ensures GroupSummed(SumWork(hashes, gk, vk).value, Grouping.Members(hashes, ValuesAt(hashes, gk), k), gk, vk, k)
    decreases |hashes|
  {
    var n := |hashes| - 1;
    var h := hashes[n];
    var pre := hashes[..n];
    SumWorkStep(hashes, gk, vk);
    ValuesAtSnoc(hashes, gk);
    MembersSnoc(hashes, gk, k);
    var work := SumWork(pre, gk, vk).value;
    var mp := Grouping.Members(pre, ValuesAt(pre, gk), k);
    assert ValuesAt(hashes, gk) == ValuesAt(pre, gk) + [At(h, gk)];
    if At(h, gk) != k {
      assert k in ValuesAt(pre, gk);
      SumWorkGroup(pre, gk, vk, k);
      WorkStepOther(work, h, gk, vk, k, mp);
      assert Grouping.Members(hashes, ValuesAt(hashes, gk), k) == mp;
    } else if k in ValuesAt(pre, gk) {
      SumWorkGroup(pre, gk, vk, k);
      WorkStepSeen(work, h, gk, vk, mp);
      assert Grouping.Members(hashes, ValuesAt(hashes, gk), k) == mp + [h];
    } else {
      SumWorkKeys(pre, gk, vk);
      WorkStepNew(work, h, gk, vk);
      assert mp == [];
      assert Grouping.Members(hashes, ValuesAt(hashes, gk), k) == [h];
    }
  }

  /** The `j`-th Hash `sum_on_groups` returns belongs to the `j`-th distinct
      group value `k`, in order of first appearance, and is
      `{group_key => k, value_key => s}` with `s` the running `+=` of the
      group's values (their sum, when they are all Integers). */
  lemma SumOnGroupsOutputs(hashes: seq<Value>, gk: Value, vk: Value, j: nat)
    requires SumOnGroups(hashes, gk, vk).Ok? && j < |SumOnGroups(hashes, gk, vk).value|
    ensures |SumOnGroups(hashes, gk, vk).value| == |Dedup(ValuesAt(hashes, gk))|
    ensures var k := Dedup(ValuesAt(hashes, gk))[j];
      var ms := Grouping.Members(hashes, ValuesAt(hashes, gk), k);
      && ms != [] && AddFold(ValuesAt(ms, vk)).Ok?
      && SumOnGroups(hashes, gk, vk).value[j] == Hash(Put(Put([], gk, k), vk, AddFold(ValuesAt(ms, vk)).value))
  {
    var work := SumWork(hashes, gk, vk).value;
    var ks := ValuesAt(hashes, gk);
    SumWorkKeys(hashes, gk, vk);
    GetUnique(work, j);
    assert Keys(work)[j] == Dedup(ks)[j];
    assert Dedup(ks)[j] in ks;
    SumWorkGroup(hashes, gk, vk, Dedup(ks)[j]);
  }

  // ---------------------------------------------------------------------------
  // sum_at_path

  /** `Deep.fetch(hash, path) || zero`. */
  function Coerce(v: Value, zero: Value): Value {
    if Truthy(v) then v else zero
  }

  /** The `inject` of `sum_at_path` from the running sum `acc` on, over the
      outcomes of the fetches: a fetch that raises ends it, and so does a `+`
      that raises; `nil` and `false` count as `zero`. */
  function SumFetched(acc: Value, rs: seq<Result<Value>>, zero: Value): (r: Result<Value>)
    ensures acc.Int? && zero.Int? && r.Ok? ==> r.value.Int?
    decreases |rs|
  {
    if rs == [] then Ok(acc)
    else
      var v :- rs[0];
      var next :- Add(acc, Coerce(v, zero));
      SumFetched(next, rs[1..], zero)
  }

  /** `sum_at_path(hashes, path, zero)`. */
  function SumAtPath(hashes: seq<Value>, p: Path, zero: Value): (r: Result<Value>)
    ensures hashes == [] ==> r == Ok(zero)
    ensures zero.Int? && r.Ok? ==> r.value.Int?
  {
    SumFetched(zero, Read.Fetches(hashes, p), zero)
  }

  /** Every fetch succeeded and every coerced value is an Integer. */
  predicate Summable(rs: seq<Result<Value>>, z: int) {
    forall i :: 0 <= i < |rs| ==> rs[i].Ok? && Coerce(rs[i].value, Int(z)).Int?
  }

  /** The total of the coerced fetched Integers. */
  function FetchedTotal(rs: seq<Result<Value>>, z: int): int
    requires Summable(rs, z)
    decreases |rs|
  {
    if rs == [] then 0
    else
      assert forall i :: 1 <= i < |rs| ==> rs[i] == rs[1..][i - 1];
      Coerce(rs[0].value, Int(z)).i + FetchedTotal(rs[1..], z)
  }

  /** From an Integer running sum, the sum succeeds exactly when the outcomes
      are `Summable`, and it is then the running sum plus their total. */
  lemma {:induction false} SumFetchedTotal(a: int, rs: seq<Result<Value>>, z: int)
    ensures SumFetched(Int(a), rs, Int(z)).Ok? <==> Summable(rs, z)
    ensures Summable(rs, z) ==> SumFetched(Int(a), rs, Int(z)) == Ok(Int(a + FetchedTotal(rs, z)))
    decreases |rs|
  {
    if rs != [] && rs[0].Ok? && Coerce(rs[0].value, Int(z)).Int? {
      var c := Coerce(rs[0].value, Int(z));
      SumFetchedTotal(a + c.i, rs[1..], z);
      assert forall i :: 1 <= i < |rs| ==> rs[i] == rs[1..][i - 1];
    }
  }

  /** With an Integer `zero`, `sum_at_path` succeeds exactly when every fetch
      succeeds and each value, with `nil` and `false` read as `zero`, is an
      Integer; it is then `zero` plus their total. */
  lemma SumAtPathTotal(hashes: seq<Value>, p: Path, z: int)
    ensures SumAtPath(hashes, p, Int(z)).Ok? <==> Summable(Read.Fetches(hashes, p), z)
    ensures Summable(Read.Fetches(hashes, p), z) ==>
      SumAtPath(hashes, p, Int(z)) == Ok(Int(z + FetchedTotal(Read.Fetches(hashes, p), z)))
  {
    SumFetchedTotal(z, Read.Fetches(hashes, p), z);
  }

  // ---------------------------------------------------------------------------
  // deep_min and deep_max

  /** The least of a non-empty sequence of Integers. */
  function IntMin(vs: seq<Value>): (m: int)
    requires vs != [] && AllInts(vs)
    ensures Int(m) in vs
    ensures forall i :: 0 <= i < |vs| ==> m <= vs[i].i
  {
    if |vs| == 1 then vs[0].i
    else
      var m := IntMin(vs[1..]);
      assert forall i :: 1 <= i < |vs| ==> vs[i] == vs[1..][i - 1];
      if vs[0].i <= m then vs[0].i else m
  }

  /** The greatest of a non-empty sequence of Integers. */
  function IntMax(vs: seq<Value>): (m: int)
    requires vs != [] && AllInts(vs)
    ensures Int(m) in vs
    ensures forall i :: 0 <= i < |vs| ==> vs[i].i <= m
  {
    if |vs| == 1 then vs[0].i
    else
      var m := IntMax(vs[1..]);
      assert forall i :: 1 <= i < |vs| ==> vs[i] == vs[1..][i - 1];
      if vs[0].i >= m then vs[0].i else m
  }

  /** Every element is the first one; true of no element and of one. */
  predicate AllSame(vs: seq<Value>) {
    forall i :: 0 <= i < |vs| ==> vs[i] == vs[0]
  }

  /** `Array#min` (`least`) or `Array#max`: `nil` for no element; the shared
      value when all elements are equal, since `<=>` of equal objects is 0;
      otherwise a comparison, here of Integers only. */
  function Extreme(vs: seq<Value>, least: bool): (r: Result<Value>)
    ensures vs == [] ==> r == Ok(Nil)
    ensures r.Ok? <==> AllSame(vs) || AllInts(vs)
    ensures vs != [] && AllSame(vs) ==> r == Ok(vs[0])
    ensures r.Ok? && vs != [] ==> r.value in vs
    ensures r.Ok? && vs != [] && AllInts(vs) ==> r.value.Int? && forall i :: 0 <= i < |vs| ==>
      if least then r.value.i <= vs[i].i else vs[i].i <= r.value.i
  {
    if vs == [] then Ok(Nil)
    else if AllSame(vs) then Ok(vs[0])
    else if !AllInts(vs) then Err(TypeMismatch)
    else if least then Ok(Int(IntMin(vs)))
    else Ok(Int(IntMax(vs)))
  }

  /** `deep_min(hashes, path)`: the least value at the path across the
      Hashes. */
  function DeepMin(hashes: seq<Value>, p: Path): (r: Result<Value>)
    ensures hashes == [] ==> r == Ok(Nil)
    ensures r.Ok? <==> Read.ValuesAtPath(hashes, p).Ok? && (AllSame(Read.ValuesAtPath(hashes, p).value) || AllInts(Read.ValuesAtPath(hashes, p).value))
    ensures hashes != [] && Read.ValuesAtPath(hashes, p).Ok? && AllSame(Read.ValuesAtPath(hashes, p).value) ==>
      r == Ok(Read.ValuesAtPath(hashes, p).value[0])
    ensures r.Ok? && hashes != [] ==> r.value in Read.ValuesAtPath(hashes, p).value
    ensures r.Ok? && hashes != [] && AllInts(Read.ValuesAtPath(hashes, p).value) ==>
      r.value.Int? && forall i :: 0 <= i < |hashes| ==> r.value.i <= Read.ValuesAtPath(hashes, p).value[i].i
  {
    var vs :- Read.ValuesAtPath(hashes, p);
    Extreme(vs, true)
  }

  /** `deep_max(hashes, path)`: the greatest value at the path across the
      Hashes. */
  function DeepMax(hashes: seq<Value>, p: Path): (r: Result<Value>)
    ensures hashes == [] ==> r == Ok(Nil)
    ensures r.Ok? <==> Read.ValuesAtPath(hashes, p).Ok? && (AllSame(Read.ValuesAtPath(hashes, p).value) || AllInts(Read.ValuesAtPath(hashes, p).value))
    ensures hashes != [] && Read.ValuesAtPath(hashes, p).Ok? && AllSame(Read.ValuesAtPath(hashes, p).value) ==>
      r == Ok(Read.ValuesAtPath(hashes, p).value[0])
    ensures r.Ok? && hashes != [] ==> r.value in Read.ValuesAtPath(hashes, p).value
    ensures r.Ok? && hashes != [] && AllInts(Read.ValuesAtPath(hashes, p).value) ==>
      r.value.Int? && forall i :: 0 <= i < |hashes| ==> Read.ValuesAtPath(hashes, p).value[i].i <= r.value.i
  {
    var vs :- Read.ValuesAtPath(hashes, p);
    Extreme(vs, false)
  }

  /** A path whose first segment no Hash has fetches `nil` everywhere, and
      `[nil, ..., nil].min` and `.max` are `nil`, not an error. */
  lemma ExtremeOfMissing(hashes: seq<Value>, p: Path)
    requires hashes != [] && Segments(p) != []
    requires forall i :: 0 <= i < |hashes| ==> hashes[i].Hash? && !HasKey(hashes[i].entries, Segments(p)[0])
    ensures DeepMin(hashes, p) == Ok(Nil) && DeepMax(hashes, p) == Ok(Nil)
  {
    var vs := Read.ValuesAtPath(hashes, p);
    assert vs.Ok? && AllSame(vs.value) && vs.value[0] == Nil by {
      forall i | 0 <= i < |hashes|
        ensures Deep.Fetch(Deep.DeepModule, hashes[i], p) == Ok(Nil)
      {
      }
    }
  }
}
