/** The values the library manipulates: Ruby objects as they appear in parsed
    JSON-like payloads. A Ruby Hash is an insertion-ordered association list;
    its keys are values too, so a Symbol key `:a` and a String key `'a'` are
    different keys, exactly as in Ruby. */
module Values {
  import opened Seqs

  datatype Value =
    | Nil
    | Bool(b: bool)
    | Int(i: int)
    | Str(s: string)
    | Sym(name: string)
    /** A `Time`, as seconds since the epoch. */
    | TimeVal(stamp: int)
    | Hash(entries: seq<Entry>)
    | Arr(items: seq<Value>)

  datatype Entry = Entry(key: Value, value: Value)

  /** `Hash#to_a`: the entries as two-element Arrays, as `Hash#map` and
      `Kernel#Array` see them. */
  function Pairs(es: seq<Entry>): (ps: seq<Value>)
    ensures |ps| == |es|
    ensures forall i :: 0 <= i < |es| ==> ps[i] == Arr([es[i].key, es[i].value])
  {
    seq(|es|, i requires 0 <= i < |es| => Arr([es[i].key, es[i].value]))
  }

  /** Ruby truthiness: everything but `nil` and `false`. */
  predicate Truthy(v: Value) {
    !v.Nil? && v != Bool(false)
  }

  /** `Hash#keys`, in insertion order. */
  function Keys(es: seq<Entry>): (ks: seq<Value>)
    ensures |ks| == |es|
    ensures forall i :: 0 <= i < |es| ==> ks[i] == es[i].key
  {
    if es == [] then [] else [es[0].key] + Keys(es[1..])
  }

  predicate HasKey(es: seq<Entry>, k: Value) {
    k in Keys(es)
  }

  /** The representation invariant of a Ruby Hash at one level. */
  predicate UniqueKeys(es: seq<Entry>) {
    NoDuplicates(Keys(es))
  }

  /** Every Hash reachable through values, at any depth, has unique keys. */
  predicate WellFormed(v: Value)
    decreases v
  {
    match v
    case Hash(es) =>
      && UniqueKeys(es)
      && (forall i :: 0 <= i < |es| ==> WellFormed(es[i].value))
    case Arr(items) => forall i :: 0 <= i < |items| ==> WellFormed(items[i])
    case _ => true
  }

  /** `Hash#[]`: the value bound to `k`, or `nil` when `k` is missing. */
  function Get(es: seq<Entry>, k: Value): (r: Value)
    ensures !HasKey(es, k) ==> r == Nil
    ensures HasKey(es, k) ==> exists i :: 0 <= i < |es| && es[i].key == k && r == es[i].value
  {
    if es == [] then Nil
    else if es[0].key == k then es[0].value
    else Get(es[1..], k)
  }

  /** With unique keys, the value `Get` finds is the one bound to the key. */
  lemma {:induction false} GetUnique(es: seq<Entry>, i: nat)
    requires UniqueKeys(es) && i < |es|
    ensures Get(es, es[i].key) == es[i].value
  {
    if i > 0 {
      assert Keys(es)[0] != Keys(es)[i];
      assert Keys(es[1..]) == Keys(es)[1..];
      GetUnique(es[1..], i - 1);
    }
  }

  /** The keys of a Hash with one entry in front. */
  lemma KeysCons(e: Entry, es: seq<Entry>)
    ensures Keys([e] + es) == [e.key] + Keys(es)
  {
    assert ([e] + es)[1..] == es;
  }

  /** `hash.merge(k => v)` (and `hash[k] = v`): rebinds `k` in place when present,
      appends it otherwise. Every other binding and the order of keys are kept. */
  function Put(es: seq<Entry>, k: Value, v: Value): (r: seq<Entry>)
    ensures Get(r, k) == v
    ensures Keys(r) == if HasKey(es, k) then Keys(es) else Keys(es) + [k]
  {
    if es == [] then [Entry(k, v)]
    else if es[0].key == k then [Entry(k, v)] + es[1..]
    else
      KeysCons(es[0], Put(es[1..], k, v));
      assert Keys(es) == [es[0].key] + Keys(es[1..]);
      [es[0]] + Put(es[1..], k, v)
  }

  /** `Put` leaves every other key bound to its original value. */
  lemma {:induction false} PutOther(es: seq<Entry>, k: Value, v: Value, k': Value)
    requires k' != k
    ensures Get(Put(es, k, v), k') == Get(es, k')
  {
    if es != [] && es[0].key != k {
      PutOther(es[1..], k, v, k');
      assert Put(es, k, v)[1..] == Put(es[1..], k, v);
    }
  }

  lemma PutKeepsOthers(es: seq<Entry>, k: Value, v: Value)
    ensures forall k' :: k' != k ==> Get(Put(es, k, v), k') == Get(es, k')
  {
    forall k' | k' != k {
      PutOther(es, k, v, k');
    }
  }

  /** Every entry `Put` returns was already there or is the new binding. */
  lemma {:induction false} PutEntries(es: seq<Entry>, k: Value, v: Value)
    ensures forall i :: 0 <= i < |Put(es, k, v)| ==> Put(es, k, v)[i] in es || Put(es, k, v)[i] == Entry(k, v)
  {
    if es != [] && es[0].key != k {
      PutEntries(es[1..], k, v);
      assert Put(es, k, v)[1..] == Put(es[1..], k, v);
    }
  }

  /** `Put` keeps a Hash well formed. */
  lemma PutKeepsWellFormed(es: seq<Entry>, k: Value, v: Value)
    requires WellFormed(Hash(es)) && WellFormed(v)
    ensures WellFormed(Hash(Put(es, k, v)))
  {
    PutKeepsUnique(es, k, v);
    PutEntries(es, k, v);
    var r := Put(es, k, v);
    forall i | 0 <= i < |r|
      ensures WellFormed(r[i].value)
    {
      if r[i] != Entry(k, v) {
        var j :| 0 <= j < |es| && es[j] == r[i];
      }
    }
  }

  /** `Put` keeps a Hash's keys unique. */
  lemma PutKeepsUnique(es: seq<Entry>, k: Value, v: Value)
    requires UniqueKeys(es)
    ensures UniqueKeys(Put(es, k, v))
  {
    var ks := Keys(es);
    if k !in ks {
      assert Keys(Put(es, k, v)) == ks + [k];
    }
  }

  /** Binding the same value twice is binding it once. */
  lemma {:induction false} PutIdempotent(es: seq<Entry>, k: Value, v: Value)
    ensures Put(Put(es, k, v), k, v) == Put(es, k, v)
  {
    if es != [] && es[0].key != k {
      PutIdempotent(es[1..], k, v);
      assert Put(es, k, v)[1..] == Put(es[1..], k, v);
    }
  }

  /** Rebinding a key to the value it already has changes nothing. */
  lemma {:induction false} PutExisting(es: seq<Entry>, k: Value)
    requires UniqueKeys(es) && HasKey(es, k)
    ensures Put(es, k, Get(es, k)) == es
  {
    if es[0].key != k {
      assert HasKey(es[1..], k) by {
        var i :| 0 <= i < |es| && es[i].key == k;
        assert Keys(es[1..])[i - 1] == k;
      }
      PutExisting(es[1..], k);
    }
  }

  /** Binding a key twice keeps only the second value. */
  lemma {:induction false} PutPut(es: seq<Entry>, k: Value, a: Value, b: Value)
    ensures Put(Put(es, k, a), k, b) == Put(es, k, b)
  {
    if es != [] && es[0].key != k {
      PutPut(es[1..], k, a, b);
      assert Put(es, k, a)[1..] == Put(es[1..], k, a);
    }
  }

  /** Binding a missing key appends it at the end. */
  lemma {:induction false} PutAppend(es: seq<Entry>, k: Value, v: Value)
    requires !HasKey(es, k)
    ensures Put(es, k, v) == es + [Entry(k, v)]
  {
    if es != [] {
      var rest := es[1..];
      assert es == [es[0]] + rest;
      KeysCons(es[0], rest);
      assert es[0].key != k && !HasKey(rest, k);
      assert Put(es, k, v) == [es[0]] + Put(rest, k, v);
      PutAppend(rest, k, v);
    }
  }

  /** Dropping the first entry of a Hash keeps its keys unique and removes
      only the first key. */
  lemma TailKeys(b: seq<Entry>)
    requires b != [] && UniqueKeys(b)
    ensures UniqueKeys(b[1..]) && !HasKey(b[1..], b[0].key)
    ensures forall k :: k != b[0].key ==> (HasKey(b, k) <==> HasKey(b[1..], k))
  {
    assert Keys(b) == [b[0].key] + Keys(b[1..]);
    assert Keys(b[1..]) == Keys(b)[1..];
  }
}
