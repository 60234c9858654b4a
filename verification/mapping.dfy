/** `HashOp::Mapping`: a declarative mapping from one Hash to another. A
    mapping (a `Spec`) binds every output key to a mapping item; the item says
    where to read the raw value (`path`, through `DeepAccess.fetch`) and how to
    process it (`type`): unchanged, parsed as a time, mapped recursively as a
    Hash, parsed by regular expressions into a Hash, or mapped element-wise as
    an Array. Spec-authoring mistakes (a missing `path`, `mapping`,
    `parsing_mapping`, `item_mapping` or `regexp`) raise; data problems
    (`nil`, an unparseable time, a regular expression that does not match)
    become `nil` or an empty value. */
module Mapping {
  import opened Wrappers
  import opened Values
  import opened PathSyntax
  import Deep

  /** The `type` of a mapping item; `nil` means `Raw`. */
  datatype Kind = Raw | Time | MappedHash | ParseableString | ArrayOf

  /** A mapping item: a Hash with the optional keys `:path`, `:type`,
      `:mapping`, `:parsing_mapping`, `:item_mapping` and, inside a
      `parsing_mapping`, `:regexp`. */
  datatype MappingItem = MappingItem(
    path: Option<Path>,
    kind: Option<Kind>,
    mapping: Option<Spec>,
    parsingMapping: Option<Spec>,
    itemMapping: Option<MappingItem>,
    regexp: Option<string>)

  /** A mapping: output key => mapping item, in insertion order. */
  datatype Spec = Spec(bindings: seq<Binding>)
  datatype Binding = Binding(key: Value, item: MappingItem)

  /** What `Regexp.new(pattern).match(text)` found: nothing, or a match whose
      first capture group may be absent. */
  datatype RegexMatch = NoMatch | Matched(group1: Option<string>)

  /** The library's two foreign calls: `Time.parse` (`None` when it raises
      ArgumentError) and regular-expression matching. */
  datatype Env = Env(parseTime: string -> Option<int>, matchRegexp: (string, string) -> RegexMatch)

  /** The output keys of a mapping, in order. */
  function SpecKeys(spec: Spec): (ks: seq<Value>)
    ensures |ks| == |spec.bindings|
    ensures forall j :: 0 <= j < |ks| ==> ks[j] == spec.bindings[j].key
  {
    seq(|spec.bindings|, j requires 0 <= j < |spec.bindings| => spec.bindings[j].key)
  }

  /** One output entry of `apply_mapping`: the item's path is required, the raw
      value is fetched through `DeepAccess.fetch`, then processed. */
  function MapOne(env: Env, source: Value, item: MappingItem): (r: Result<Value>)
    ensures item.path.None? ==> r == Err(MissingPath)
    ensures item.path.Some? && !source.Hash? ==> r == Err(NotAHash(RuntimeError))
    decreases item, 1
  {
    if item.path.None? then Err(MissingPath)
    else
      var raw :- Deep.Fetch(Deep.DeepAccessModule, source, item.path.value);
      Process(env, raw, item)
  }

  /** `apply_mapping(hash, mapping)`: a Hash with exactly the mapping's keys,
      in the mapping's order, each bound to its processed value, even when
      that value is `nil`. */
  function ApplyMapping(env: Env, source: Value, spec: Spec): (r: Result<Value>)
    ensures r.Ok? ==> r.value.Hash?
    decreases spec, 1
  {
    Inject(SpecKeys(spec), MapAll(env, source, spec), 0, [])
  }

  /** The outcome of every mapping item, in the mapping's order. */
  function MapAll(env: Env, source: Value, spec: Spec): (rs: seq<Result<Value>>)
    ensures |rs| == |spec.bindings|
    ensures forall j :: 0 <= j < |rs| ==> rs[j] == MapOne(env, source, spec.bindings[j].item)
    decreases spec, 0
  {
    seq(|spec.bindings|, j requires 0 <= j < |spec.bindings| => MapOne(env, source, spec.bindings[j].item))
  }

  /** The loop shared by `apply_mapping` (`inject` with `mapped_hash[key] =`)
      and `parseable_string` (`map` then `Hash[...]`): from `i` on, `keys[j]`
      is bound to the value of outcome `rs[j]`, and the first failed outcome
      is raised. */
  function Inject(keys: seq<Value>, rs: seq<Result<Value>>, i: nat, acc: seq<Entry>): (r: Result<Value>)
    requires |keys| == |rs| && i <= |rs|
    ensures r.Ok? ==> r.value.Hash?
    decreases |rs| - i
  {
    if i == |rs| then Ok(Hash(acc))
    else
      var v :- rs[i];
      Inject(keys, rs, i + 1, Put(acc, keys[i], v))
  }

  /** `process_with_mapping_item`: dispatch on the item's type. */
  function Process(env: Env, raw: Value, item: MappingItem): (r: Result<Value>)
    ensures item.kind.GetOr(Raw) == Raw ==> r == Ok(raw)
    ensures item.kind.GetOr(Raw) == Time ==> r == ProcessTime(env, raw)
    ensures item.kind.GetOr(Raw) == MappedHash ==>
      && (raw.Nil? ==> r == Ok(Hash([])))
      && (!raw.Nil? && item.mapping.None? ==> r == Err(MissingMapping))
      && (!raw.Nil? && item.mapping.Some? ==> r == ApplyMapping(env, raw, item.mapping.value))
    ensures item.kind.GetOr(Raw) == ArrayOf ==>
      && (raw.Nil? ==> r == Ok(Arr([])))
      && (!raw.Nil? && item.itemMapping.None? ==> r == Err(MissingItemMapping))
      && (raw.Arr? && r.Ok? ==>
            && r.value.Arr? && |r.value.items| == |raw.items|
            && forall n :: 0 <= n < |raw.items| ==> Process(env, raw.items[n], item.itemMapping.value) == Ok(r.value.items[n]))
      && (raw.Hash? && r.Ok? ==>
            && r.value.Arr? && |r.value.items| == |raw.entries|
            && forall n :: 0 <= n < |raw.entries| ==>
                 Process(env, Arr([raw.entries[n].key, raw.entries[n].value]), item.itemMapping.value) == Ok(r.value.items[n]))
      && (!raw.Nil? && !raw.Arr? && !raw.Hash? && item.itemMapping.Some? ==> r == Err(TypeMismatch))
    ensures item.kind.GetOr(Raw) == ParseableString ==>
      && (raw.Nil? ==> r == Ok(Hash([])))
      && (!raw.Nil? && item.parsingMapping.None? ==> r == Err(MissingParsingMapping))
      && (!raw.Nil? && item.parsingMapping.Some? ==> r == ParseString(env, raw, item.parsingMapping.value))
    decreases item, 0
  {
    match item.kind.GetOr(Raw)
    case Raw => Ok(raw)
    case Time => ProcessTime(env, raw)
    case MappedHash =>
      if raw.Nil? then Ok(Hash([]))
      else if item.mapping.None? then Err(MissingMapping)
      else ApplyMapping(env, raw, item.mapping.value)
    case ParseableString =>
      if raw.Nil? then Ok(Hash([]))
      else if item.parsingMapping.None? then Err(MissingParsingMapping)
      else ParseString(env, raw, item.parsingMapping.value)
    case ArrayOf =>
      if raw.Nil? then Ok(Arr([]))
      else if item.itemMapping.None? then Err(MissingItemMapping)
      else
        match raw
        case Arr(items) =>
          var rs :- ProcessAll(env, items, item.itemMapping.value);
          Ok(Arr(rs))
        case Hash(es) =>
          var rs :- ProcessAll(env, Pairs(es), item.itemMapping.value);
          Ok(Arr(rs))
        case _ => Err(TypeMismatch)
  }

  /** `process_with_mapping_item_time`: `nil` stays `nil`; a String that
      `Time.parse` rejects becomes `nil` instead of raising. */
  function ProcessTime(env: Env, raw: Value): (r: Result<Value>)
    ensures raw.Nil? ==> r == Ok(Nil)
    ensures raw.Str? ==> r.Ok? && (r.value.Nil? || r.value.TimeVal?)
    ensures raw.Str? && env.parseTime(raw.s).None? ==> r == Ok(Nil)
    ensures raw.Str? && env.parseTime(raw.s).Some? ==> r == Ok(TimeVal(env.parseTime(raw.s).value))
    ensures !raw.Nil? && !raw.Str? ==> r == Err(TypeMismatch)
  {
    match raw
    case Nil => Ok(Nil)
    case Str(s) => (if env.parseTime(s).Some? then Ok(TimeVal(env.parseTime(s).value)) else Ok(Nil))
    case _ => Err(TypeMismatch)
  }

  /** The element-wise `map` of `process_with_mapping_item_array`. */
  function ProcessAll(env: Env, items: seq<Value>, itemMapping: MappingItem): (r: Result<seq<Value>>)
    ensures r.Ok? ==> |r.value| == |items|
    ensures r.Ok? ==> forall n :: 0 <= n < |items| ==> Process(env, items[n], itemMapping) == Ok(r.value[n])
    ensures r.Ok? <==> forall n :: 0 <= n < |items| ==> Process(env, items[n], itemMapping).Ok?
    decreases itemMapping, 1, |items|
  {
    if items == [] then Ok([])
    else
      var first :- Process(env, items[0], itemMapping);
      var rest :- ProcessAll(env, items[1..], itemMapping);
      Ok([first] + rest)
  }

  /** `process_with_mapping_item_parseable_string` on a non-`nil` value with a
      `parsing_mapping`: one output key per parsing entry. */
  function ParseString(env: Env, raw: Value, parsing: Spec): (r: Result<Value>)
    ensures r.Ok? ==> r.value.Hash?
    decreases parsing, 1
  {
    Inject(SpecKeys(parsing), ParseAll(env, raw, parsing), 0, [])
  }

  /** The `map` over the parsing entries: each entry's outcome, in order. */
  function ParseAll(env: Env, raw: Value, parsing: Spec): (rs: seq<Result<Value>>)
    ensures |rs| == |parsing.bindings|
    ensures forall j :: 0 <= j < |rs| ==> rs[j] == ParseOne(env, raw, parsing.bindings[j].item)
    decreases parsing, 0
  {
    seq(|parsing.bindings|, j requires 0 <= j < |parsing.bindings| => ParseOne(env, raw, parsing.bindings[j].item))
  }

  /** The text `Regexp#match` sees: a String, or a Symbol's name. */
  function Text(raw: Value): string
    requires raw.Str? || raw.Sym?
  {
    if raw.Str? then raw.s else raw.name
  }

  /** One parsing entry: the entry's `regexp` is required and matched against
      the String (or Symbol) value; no match gives `nil`, a match processes
      capture group 1 with the entry itself as mapping item. */
  function ParseOne(env: Env, raw: Value, options: MappingItem): (r: Result<Value>)
    ensures options.regexp.None? ==> r == Err(MissingRegexp)
    ensures options.regexp.Some? && !(raw.Str? || raw.Sym?) ==> r == Err(TypeMismatch)
    ensures options.regexp.Some? && (raw.Str? || raw.Sym?) && env.matchRegexp(options.regexp.value, Text(raw)) == NoMatch ==>
      r == Ok(Nil)
    ensures options.regexp.Some? && (raw.Str? || raw.Sym?) && env.matchRegexp(options.regexp.value, Text(raw)).Matched? ==>
      var g := env.matchRegexp(options.regexp.value, Text(raw)).group1;
      r == Process(env, if g.Some? then Str(g.value) else Nil, options)
    decreases options, 1
  {
    if options.regexp.None? then Err(MissingRegexp)
    else if !(raw.Str? || raw.Sym?) then Err(TypeMismatch)
    else
      match env.matchRegexp(options.regexp.value, Text(raw))
      case NoMatch => Ok(Nil)
      case Matched(g) => Process(env, if g.Some? then Str(g.value) else Nil, options)
  }

  // ---------------------------------------------------------------- contents

  /** One turn of the loop: a failed outcome is raised, a successful one is
      bound before the rest of the loop runs. */
  lemma InjectStep(keys: seq<Value>, rs: seq<Result<Value>>, i: nat, acc: seq<Entry>)
    requires |keys| == |rs| && i < |rs|
    ensures rs[i].Err? ==> Inject(keys, rs, i, acc) == Err(rs[i].error)
    ensures rs[i].Ok? ==> Inject(keys, rs, i, acc) == Inject(keys, rs, i + 1, Put(acc, keys[i], rs[i].value))
  {
  }

  /** The loop succeeds exactly when every remaining outcome does. */
  lemma {:induction false} InjectOk(keys: seq<Value>, rs: seq<Result<Value>>, i: nat, acc: seq<Entry>)
    requires |keys| == |rs| && i <= |rs|
    ensures Inject(keys, rs, i, acc).Ok? <==> forall j :: i <= j < |rs| ==> rs[j].Ok?
    decreases |rs| - i
  {
    if i < |rs| {
      InjectStep(keys, rs, i, acc);
      if rs[i].Ok? {
        InjectOk(keys, rs, i + 1, Put(acc, keys[i], rs[i].value));
        assert (forall j :: i <= j < |rs| ==> rs[j].Ok?) <==> (forall j :: i + 1 <= j < |rs| ==> rs[j].Ok?);
      }
    }
  }

  /** The loop raises the error of the first failed outcome. */
  lemma {:induction false} InjectRaises(keys: seq<Value>, rs: seq<Result<Value>>, i: nat, acc: seq<Entry>, j: nat)
    requires |keys| == |rs| && i <= j < |rs|
    requires rs[j].Err? && forall m :: i <= m < j ==> rs[m].Ok?
    ensures Inject(keys, rs, i, acc) == Err(rs[j].error)
    decreases |rs| - i
  {
    InjectStep(keys, rs, i, acc);
    if i < j {
      InjectRaises(keys, rs, i + 1, Put(acc, keys[i], rs[i].value), j);
    }
  }

  /** Binding the next of distinct keys extends the prefix of keys bound. */
  lemma PutNextKey(keys: seq<Value>, i: nat, acc: seq<Entry>, v: Value)
    requires i < |keys| && Seqs.NoDuplicates(keys) && Keys(acc) == keys[..i]
    ensures Keys(Put(acc, keys[i], v)) == keys[..i + 1]
  {
    assert keys[..i + 1] == keys[..i] + [keys[i]];
    assert keys[i] !in keys[..i];
  }

  /** With distinct keys, a loop started on the first `i` keys ends with
      exactly the keys, in order. */
  lemma {:induction false} InjectKeys(keys: seq<Value>, rs: seq<Result<Value>>, i: nat, acc: seq<Entry>)
    requires |keys| == |rs| && i <= |rs| && Inject(keys, rs, i, acc).Ok?
    requires Seqs.NoDuplicates(keys) && Keys(acc) == keys[..i]
    ensures Keys(Inject(keys, rs, i, acc).value.entries) == keys
    decreases |rs| - i
  {
    if i == |rs| {
      assert keys[..i] == keys;
    } else {
      InjectStep(keys, rs, i, acc);
      PutNextKey(keys, i, acc, rs[i].value);
      InjectKeys(keys, rs, i + 1, Put(acc, keys[i], rs[i].value));
    }
  }

  /** The loop leaves alone every key it has not yet to bind. */
  lemma {:induction false} InjectOthers(keys: seq<Value>, rs: seq<Result<Value>>, i: nat, acc: seq<Entry>, k: Value)
    requires |keys| == |rs| && i <= |rs| && Inject(keys, rs, i, acc).Ok?
    requires k !in keys[i..]
    ensures Get(Inject(keys, rs, i, acc).value.entries, k) == Get(acc, k)
    decreases |rs| - i
  {
    if i < |rs| {
      assert keys[i..][0] == keys[i];
      assert keys[i + 1..] == keys[i..][1..];
      InjectStep(keys, rs, i, acc);
      PutOther(acc, keys[i], rs[i].value, k);
      InjectOthers(keys, rs, i + 1, Put(acc, keys[i], rs[i].value), k);
    }
  }

  /** With distinct keys, the loop binds each remaining key to the value of
      its outcome. */
  lemma {:induction false} InjectValue(keys: seq<Value>, rs: seq<Result<Value>>, i: nat, acc: seq<Entry>, j: nat)
    requires |keys| == |rs| && i <= j < |rs| && Inject(keys, rs, i, acc).Ok?
    requires Seqs.NoDuplicates(keys)
    ensures rs[j] == Ok(Get(Inject(keys, rs, i, acc).value.entries, keys[j]))
    decreases |rs| - i
  {
    InjectStep(keys, rs, i, acc);
    var acc' := Put(acc, keys[i], rs[i].value);
    if j == i {
      assert keys[i] !in keys[i + 1..];
      InjectOthers(keys, rs, i + 1, acc', keys[i]);
    } else {
      InjectValue(keys, rs, i + 1, acc', j);
    }
  }

  /** `apply_mapping` succeeds exactly when every item maps without raising;
      in particular an item without a `path` anywhere in the mapping raises. */
  lemma ApplyMappingOk(env: Env, source: Value, spec: Spec)
    ensures ApplyMapping(env, source, spec).Ok? <==> forall j :: 0 <= j < |spec.bindings| ==> MapOne(env, source, spec.bindings[j].item).Ok?
    ensures (exists j :: 0 <= j < |spec.bindings| && spec.bindings[j].item.path.None?) ==> ApplyMapping(env, source, spec).Err?
  {
    InjectOk(SpecKeys(spec), MapAll(env, source, spec), 0, []);
  }

  /** `apply_mapping` raises the error of the first item that raises. */
  lemma ApplyMappingRaises(env: Env, source: Value, spec: Spec, j: nat)
    requires j < |spec.bindings| && MapOne(env, source, spec.bindings[j].item).Err?
    requires forall m :: 0 <= m < j ==> MapOne(env, source, spec.bindings[m].item).Ok?
    ensures ApplyMapping(env, source, spec) == Err(MapOne(env, source, spec.bindings[j].item).error)
  {
    InjectRaises(SpecKeys(spec), MapAll(env, source, spec), 0, [], j);
  }

  /** `apply_mapping` returns a Hash whose keys are exactly the mapping's
      keys, in the mapping's order, present even when the fetched value is
      `nil` or missing; each is bound to its item's processed value. */
  lemma ApplyMappingContents(env: Env, source: Value, spec: Spec)
    requires ApplyMapping(env, source, spec).Ok? && Seqs.NoDuplicates(SpecKeys(spec))
    ensures Keys(ApplyMapping(env, source, spec).value.entries) == SpecKeys(spec)
    ensures forall j :: 0 <= j < |spec.bindings| ==>
      MapOne(env, source, spec.bindings[j].item) == Ok(Get(ApplyMapping(env, source, spec).value.entries, spec.bindings[j].key))
  {
    var ks := SpecKeys(spec);
    var rs := MapAll(env, source, spec);
    assert ks[..0] == [];
    InjectKeys(ks, rs, 0, []);
    forall j | 0 <= j < |spec.bindings|
      ensures MapOne(env, source, spec.bindings[j].item) == Ok(Get(ApplyMapping(env, source, spec).value.entries, spec.bindings[j].key))
    {
      InjectValue(ks, rs, 0, [], j);
    }
  }

  /** A `parseable_string` succeeds exactly when every parsing entry does; an
      entry without a `regexp` anywhere raises. */
  lemma ParseStringOk(env: Env, raw: Value, parsing: Spec)
    ensures ParseString(env, raw, parsing).Ok? <==> forall j :: 0 <= j < |parsing.bindings| ==> ParseOne(env, raw, parsing.bindings[j].item).Ok?
    ensures (exists j :: 0 <= j < |parsing.bindings| && parsing.bindings[j].item.regexp.None?) ==> ParseString(env, raw, parsing).Err?
  {
    InjectOk(SpecKeys(parsing), ParseAll(env, raw, parsing), 0, []);
  }

  /** A `parseable_string` result has exactly the parsing entries' keys; each
      is `nil` when its regular expression does not match and the processed
      capture group otherwise. */
  lemma ParseStringContents(env: Env, raw: Value, parsing: Spec)
    requires ParseString(env, raw, parsing).Ok? && Seqs.NoDuplicates(SpecKeys(parsing))
    ensures Keys(ParseString(env, raw, parsing).value.entries) == SpecKeys(parsing)
    ensures forall j :: 0 <= j < |parsing.bindings| ==>
      ParseOne(env, raw, parsing.bindings[j].item) == Ok(Get(ParseString(env, raw, parsing).value.entries, parsing.bindings[j].key))
  {
    var ks := SpecKeys(parsing);
    var rs := ParseAll(env, raw, parsing);
    assert ks[..0] == [];
    InjectKeys(ks, rs, 0, []);
    forall j | 0 <= j < |parsing.bindings|
      ensures ParseOne(env, raw, parsing.bindings[j].item) == Ok(Get(ParseString(env, raw, parsing).value.entries, parsing.bindings[j].key))
    {
      InjectValue(ks, rs, 0, [], j);
    }
  }
}
