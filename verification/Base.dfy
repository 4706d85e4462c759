/** Shared vocabulary: optional values, appendable vectors, and sequence helpers. */
module Base {

  datatype Option<+T> = None | Some(value: T)

  /** One-element sequence when `c` holds, else empty: an optional entry of a document. */
  function When<T>(c: bool, x: T): seq<T> {
    if c then [x] else []
  }

  /** The concatenation of the parts, in order. */
  function Flatten<T>(parts: seq<seq<T>>): seq<T> {
    if parts == [] then [] else parts[0] + Flatten(parts[1..])
  }

  lemma {:induction false} FlattenEmpty<T>(parts: seq<seq<T>>)
    ensures Flatten(parts) == [] <==> forall i :: 0 <= i < |parts| ==> parts[i] == []
  {
    if parts != [] {
      FlattenEmpty(parts[1..]);
      assert forall i :: 0 < i < |parts| ==> parts[i] == parts[1..][i - 1];
    }
  }

  lemma {:induction false} InFlatten<T>(parts: seq<seq<T>>, e: T)
    ensures e in Flatten(parts) <==> exists i :: 0 <= i < |parts| && e in parts[i]
  {
    if parts != [] {
      InFlatten(parts[1..], e);
      if e in Flatten(parts[1..]) {
        var i :| 0 <= i < |parts[1..]| && e in parts[1..][i];
        assert e in parts[i + 1];
      }
      if i :| 1 <= i < |parts| && e in parts[i] {
        assert e in parts[1..][i - 1];
      }
    }
  }

  lemma {:induction false} FlattenSnoc<T>(parts: seq<seq<T>>, n: nat)
    requires n < |parts|
    ensures Flatten(parts[..n + 1]) == Flatten(parts[..n]) + parts[n]
  {
    if n == 0 {
      assert parts[..1] == [parts[0]] && parts[..1][1..] == [];
      assert parts[..0] == [];
    } else {
      FlattenSnoc(parts[1..], n - 1);
      assert parts[..n + 1][1..] == parts[1..][..n];
      assert parts[..n][1..] == parts[1..][..n - 1];
    }
  }

  /** A growable container passed by reference: the error vectors and output strings of the source. */
  class Vector<T> {
    var items: seq<T>

    constructor ()
      ensures items == []
    {
      items := [];
    }

    method PushBack(x: T)
      modifies this
      ensures items == old(items) + [x]
    {
      items := items + [x];
    }

    method Append(xs: seq<T>)
      modifies this
      ensures items == old(items) + xs
    {
      items := items + xs;
    }
  }
}
