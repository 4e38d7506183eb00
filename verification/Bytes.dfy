/** Bytes, sequences of byte strings, and what else every component shares. */
module Bytes {

  datatype Option<T> = None | Some(value: T)

  type byte = b: int | 0 <= b < 256

  function Min(a: int, b: int): int
  {
    if a <= b then a else b
  }

  ghost predicate Distinct<T>(s: seq<T>)
  {
    forall i, j :: 0 <= i < j < |s| ==> s[i] != s[j]
  }

  /** The concatenation of a sequence of pieces. */
  function Flatten<T>(pieces: seq<seq<T>>): seq<T>
  {
    if pieces == [] then [] else pieces[0] + Flatten(pieces[1..])
  }

  lemma {:induction false} FlattenConcat<T>(a: seq<seq<T>>, b: seq<seq<T>>)
    ensures Flatten(a + b) == Flatten(a) + Flatten(b)
  {
    if a == [] {
      assert a + b == b;
    } else {
      assert (a + b)[1..] == a[1..] + b;
      FlattenConcat(a[1..], b);
    }
  }

  lemma {:induction false} FlattenSnoc<T>(a: seq<seq<T>>, p: seq<T>)
    ensures Flatten(a + [p]) == Flatten(a) + p
  {
    FlattenConcat(a, [p]);
    assert Flatten([p]) == p;
  }

  lemma {:induction false} FlattenLast<T>(a: seq<seq<T>>, p: seq<T>)
    requires a != []
    ensures Flatten(a[|a| - 1 := a[|a| - 1] + p]) == Flatten(a) + p
  {
    var i := |a| - 1;
    assert a[i := a[i] + p] == a[..i] + [a[i] + p];
    assert a == a[..i] + [a[i]];
    FlattenSnoc(a[..i], a[i] + p);
    FlattenSnoc(a[..i], a[i]);
  }
}
