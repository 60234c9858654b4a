/** Failure-compatible wrappers and the errors the library raises.

    Ruby signals every failure by raising; the model returns `Err(e)` with the
    exception it would raise, so each error path of the library is an ordinary
    value that contracts can talk about.
 */
module Wrappers {

  /** Conventional optional value, used for the optional fields of a mapping item. */
  datatype Option<+T> = None | Some(value: T) {
    function GetOr(default: T): T {
      match this
      case Some(v) => v
      case None => default
    }
  }

  /** The two exception classes the deep-access modules raise for a non-Hash root. */
  datatype ErrorClass = ArgumentError | RuntimeError

  datatype Error =
    /** `fetch`, `merge` or `match?` was given a root that is not a Hash. */
    | NotAHash(raised: ErrorClass)
    /** `[]` or `merge` reached a non-Hash array element with path segments left. */
    | NotIndexable
    /** `Deep.fetch` was given no path at all (`nil`). */
    | InvalidPath
    /** A mapping item has no `:path`. */
    | MissingPath
    /** A `mapped_hash` item has no `:mapping`. */
    | MissingMapping
    /** A `parseable_string` item has no `:parsing_mapping`. */
    | MissingParsingMapping
    /** An `array` item has no `:item_mapping`. */
    | MissingItemMapping
    /** A `parsing_mapping` entry has no `:regexp` (`Regexp.new(nil)` raises). */
    | MissingRegexp
    /** `filter_deep` found something other than an Array at its path. */
    | NotAnArray
    /** Ruby's NoMethodError / TypeError: an operation applied to a value of the wrong class. */
    | TypeMismatch

  /** Either a value or the error raised while computing it. */
  datatype Result<+T> = Ok(value: T) | Err(error: Error) {
    predicate IsFailure() {
      Err?
    }

    function PropagateFailure<U>(): Result<U>
      requires Err?
    {
      Err(error)
    }

    function Extract(): T
      requires Ok?
    {
      value
    }
  }

  /** The values of outcomes computed in order, as `map` computes them: the
      first failure is raised and the later outcomes are never reached. */
  function Collect<T>(rs: seq<Result<T>>): (r: Result<seq<T>>)
    ensures r.Ok? <==> forall i :: 0 <= i < |rs| ==> rs[i].Ok?
    ensures r.Ok? ==> |r.value| == |rs| && forall i :: 0 <= i < |rs| ==> rs[i] == Ok(r.value[i])
  {
    if rs == [] then Ok([])
    else
      var first :- rs[0];
      var rest :- Collect(rs[1..]);
      assert forall i :: 1 <= i < |rs| ==> rs[i] == rs[1..][i - 1];
      Ok([first] + rest)
  }

  /** A failed `Collect` raises the error of its first failed outcome. */
  lemma {:induction false} CollectFirstError<T>(rs: seq<Result<T>>)
    requires Collect(rs).Err?
    ensures exists i :: (0 <= i < |rs| && rs[i] == Err(Collect(rs).error)
      && forall j :: 0 <= j < i ==> rs[j].Ok?)
  {
    if rs[0].Ok? {
      CollectFirstError(rs[1..]);
      var i :| 0 <= i < |rs[1..]| && rs[1..][i] == Err(Collect(rs[1..]).error)
        && forall j :: 0 <= j < i ==> rs[1..][j].Ok?;
      assert rs[i + 1] == rs[1..][i];
      assert forall j :: 1 <= j < i + 1 ==> rs[j] == rs[1..][j - 1];
    }
  }
}
