/** Paths as the deep-access entry points accept them: a dotted String, a
    dotted Symbol, or an explicit Array of segments. A dotted String is cut with
    Ruby's `String#split('.')`; a Symbol is cut the same way and every piece is
    turned back into a Symbol, so `:'a.b'` and `'a.b'` address different keys. */
module PathSyntax {
  import opened Values

  /** Every piece of `s` between dots, empty pieces included. */
  function SplitAll(s: string): (pieces: seq<string>)
    ensures |pieces| >= 1
    ensures forall i :: 0 <= i < |pieces| ==> '.' !in pieces[i]
  {
    if s == [] then [[]]
    else
      var rest := SplitAll(s[1..]);
      if s[0] == '.' then [[]] + rest
      else [[s[0]] + rest[0]] + rest[1..]
  }

  /** `pieces.join('.')`. */
  function Join(pieces: seq<string>): string
    requires |pieces| >= 1
  {
    if |pieces| == 1 then pieces[0] else pieces[0] + "." + Join(pieces[1..])
  }

  predicate DotFree(pieces: seq<string>) {
    forall i :: 0 <= i < |pieces| ==> '.' !in pieces[i]
  }

  /** Joining the pieces gives back the string. */
  lemma {:induction false} JoinSplitAll(s: string)
    ensures Join(SplitAll(s)) == s
  {
    if s != [] {
      JoinSplitAll(s[1..]);
      var rest := SplitAll(s[1..]);
      if s[0] != '.' && |rest| > 1 {
        assert Join(rest) == rest[0] + "." + Join(rest[1..]);
        assert [s[0]] + rest[0] + "." + Join(rest[1..]) == [s[0]] + (rest[0] + "." + Join(rest[1..]));
      }
      assert s == [s[0]] + s[1..];
    }
  }

  /** Cutting at the first dot of `a + "." + b`, where `a` has no dot. */
  lemma {:induction false} SplitAllAppend(a: string, b: string)
    requires '.' !in a
    ensures SplitAll(a + "." + b) == [a] + SplitAll(b)
  {
    var s := a + "." + b;
    if a == [] {
      assert s[1..] == b;
    } else {
      assert s[1..] == a[1..] + "." + b;
      SplitAllAppend(a[1..], b);
      assert [a[0]] + a[1..] == a;
    }
  }

  lemma {:induction false} SplitAllDotFree(a: string)
    requires '.' !in a
    ensures SplitAll(a) == [a]
  {
    if a != [] {
      SplitAllDotFree(a[1..]);
      assert [a[0]] + a[1..] == a;
    }
  }

  /** Splitting a join of dot-free pieces recovers the pieces. */
  lemma {:induction false} SplitAllJoin(pieces: seq<string>)
    requires |pieces| >= 1 && DotFree(pieces)
    ensures SplitAll(Join(pieces)) == pieces
  {
    if |pieces| == 1 {
      SplitAllDotFree(pieces[0]);
    } else {
      SplitAllJoin(pieces[1..]);
      SplitAllAppend(pieces[0], Join(pieces[1..]));
      assert [pieces[0]] + pieces[1..] == pieces;
    }
  }

  /** Ruby's `split` drops the trailing empty pieces. */
  function DropTrailingEmpty(pieces: seq<string>): (r: seq<string>)
    ensures |r| <= |pieces| && r == pieces[..|r|]
    ensures r == [] || r[|r| - 1] != []
    ensures forall i :: |r| <= i < |pieces| ==> pieces[i] == []
  {
    if pieces == [] then []
    else if pieces[|pieces| - 1] == [] then DropTrailingEmpty(pieces[..|pieces| - 1])
    else pieces
  }

  /** `String#split('.')`. */
  function Split(s: string): (segs: seq<string>)
    ensures DotFree(segs)
    ensures segs == [] || segs[|segs| - 1] != []
  {
    DropTrailingEmpty(SplitAll(s))
  }

  /** `split` inverts `join` on dot-free pieces whose last piece is not empty;
      empty pieces inside the list survive, as in Ruby. */
  lemma SplitJoin(pieces: seq<string>)
    requires |pieces| >= 1 && DotFree(pieces) && pieces[|pieces| - 1] != []
    ensures Split(Join(pieces)) == pieces
  {
    SplitAllJoin(pieces);
  }

  /** The only strings that split into no segment are made of dots. */
  lemma SplitEmpty(s: string)
    ensures Split(s) == [] <==> forall i :: 0 <= i < |s| ==> s[i] == '.'
  {
    JoinSplitAll(s);
    var all := SplitAll(s);
    if Split(s) == [] {
      assert forall i :: 0 <= i < |all| ==> all[i] == [];
      JoinOfEmpties(all);
    } else {
      var seg := Split(s)[|Split(s)| - 1];
      assert seg in all;
      var c := seg[0];
      assert c != '.';
      CharOfJoin(all, |Split(s)| - 1, 0);
    }
  }

  lemma {:induction false} JoinOfEmpties(pieces: seq<string>)
    requires |pieces| >= 1
    requires forall i :: 0 <= i < |pieces| ==> pieces[i] == []
    ensures forall i :: 0 <= i < |Join(pieces)| ==> Join(pieces)[i] == '.'
  {
    if |pieces| > 1 {
      JoinOfEmpties(pieces[1..]);
    }
  }

  /** A character of a piece is a character of the join. */
  lemma {:induction false} CharOfJoin(pieces: seq<string>, p: nat, j: nat)
    requires |pieces| >= 1 && p < |pieces| && j < |pieces[p]|
    ensures pieces[p][j] in Join(pieces)
  {
    if p > 0 {
      CharOfJoin(pieces[1..], p - 1, j);
    }
  }

  datatype Path =
    /** `'a.b.c'`: String segments. */
    | StrPath(text: string)
    /** `:'a.b.c'`: Symbol segments. */
    | SymPath(text: string)
    /** `[:a, 'b', 1]`: used as given. */
    | SegmentList(segments: seq<Value>)

  /** The segment list `fetch` and `merge` traverse. */
  function Segments(p: Path): (segs: seq<Value>)
    ensures p.StrPath? ==> |segs| == |Split(p.text)| && forall i :: 0 <= i < |segs| ==> segs[i] == Str(Split(p.text)[i])
    ensures p.SymPath? ==> |segs| == |Split(p.text)| && forall i :: 0 <= i < |segs| ==> segs[i] == Sym(Split(p.text)[i])
  {
    match p
    case StrPath(t) => var names := Split(t); seq(|names|, i requires 0 <= i < |names| => Str(names[i]))
    case SymPath(t) => var names := Split(t); seq(|names|, i requires 0 <= i < |names| => Sym(names[i]))
    case SegmentList(segs) => segs
  }

  /** A dotted path written as a String and the same path written as a Symbol
      resolve to segment lists of equal length that differ at every position:
      one is all Strings, the other all Symbols, with the same names. */
  lemma KeyDuality(names: seq<string>)
    requires |names| >= 1 && DotFree(names) && names[|names| - 1] != []
    ensures |Segments(StrPath(Join(names)))| == |names| == |Segments(SymPath(Join(names)))|
    ensures forall i :: 0 <= i < |names| ==>
      && Segments(StrPath(Join(names)))[i] == Str(names[i])
      && Segments(SymPath(Join(names)))[i] == Sym(names[i])
  {
    SplitJoin(names);
  }
}
