/** `HashOp::Read`: reading the value at one path in each of many Hashes. */
module Read {
  import opened Wrappers
  import opened Values
  import opened PathSyntax
  import Deep

  /** `Deep.fetch(hash, path)` for each element, in order. */
  function Fetches(hashes: seq<Value>, p: Path): (rs: seq<Result<Value>>)
    ensures |rs| == |hashes|
    ensures forall i :: 0 <= i < |hashes| ==> rs[i] == Deep.Fetch(Deep.DeepModule, hashes[i], p)
  {
    seq(|hashes|, i requires 0 <= i < |hashes| => Deep.Fetch(Deep.DeepModule, hashes[i], p))
  }

  /** `values_at_path(hashes, path)`: `Deep.fetch` mapped over the Hashes, in
      order; the first element that raises makes the whole call raise. */
  function ValuesAtPath(hashes: seq<Value>, p: Path): (r: Result<seq<Value>>)
    ensures r.Ok? <==> forall i :: 0 <= i < |hashes| ==> Deep.Fetch(Deep.DeepModule, hashes[i], p).Ok?
    ensures r.Ok? ==> |r.value| == |hashes|
    ensures r.Ok? ==> forall i :: 0 <= i < |hashes| ==> Deep.Fetch(Deep.DeepModule, hashes[i], p) == Ok(r.value[i])
  {
    Collect(Fetches(hashes, p))
  }

  /** Any element that is not a Hash makes `values_at_path` raise
      ArgumentError, and so does nothing else. */
  lemma ValuesAtPathRaises(hashes: seq<Value>, p: Path)
    ensures (exists i :: 0 <= i < |hashes| && !hashes[i].Hash?) ==> ValuesAtPath(hashes, p).Err?
    ensures ValuesAtPath(hashes, p).Err? && (forall i :: 0 <= i < |hashes| ==> hashes[i].Hash?) ==>
      ValuesAtPath(hashes, p).error == NotIndexable
  {
    if ValuesAtPath(hashes, p).Err? && (forall i :: 0 <= i < |hashes| ==> hashes[i].Hash?) {
      ValuesAtPathFirstError(hashes, p);
    }
  }

  /** The error of `values_at_path` is the error of the first element whose
      fetch raises. */
  lemma ValuesAtPathFirstError(hashes: seq<Value>, p: Path)
    requires ValuesAtPath(hashes, p).Err?
    ensures exists i :: (0 <= i < |hashes|
      && Deep.Fetch(Deep.DeepModule, hashes[i], p) == Err(ValuesAtPath(hashes, p).error)
      && forall j :: 0 <= j < i ==> Deep.Fetch(Deep.DeepModule, hashes[j], p).Ok?)
  {
    var rs := Fetches(hashes, p);
    CollectFirstError(rs);
    var i :| 0 <= i < |rs| && rs[i] == Err(Collect(rs).error) && forall j :: 0 <= j < i ==> rs[j].Ok?;
    assert forall j :: 0 <= j < i ==> Deep.Fetch(Deep.DeepModule, hashes[j], p).Ok?;
  }
}
