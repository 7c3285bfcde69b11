/** Shared value types used by several components. */
module Options {

  datatype Option<T> = None | Some(value: T)
}

/**
 * The one operation of the .NET `List<T>` that the core relies on beyond
 * `Add` (which is `+ [x]`): `Remove(x)`, which deletes the FIRST element equal
 * to `x` and leaves the list as it was when there is none.
 */
module Lists {

  /** `List<T>.IndexOf`: the position of the first element equal to `x`, or `|s|` when there is none. */
  function IndexOf<T(==)>(s: seq<T>, x: T): (k: nat)
    ensures k <= |s|
    ensures k < |s| <==> x in s
    ensures k < |s| ==> s[k] == x
    ensures x !in s[..k]
  {
    if s == [] then 0
    else if s[0] == x then 0
    else
      var k' := IndexOf(s[1..], x);
      assert s[..k' + 1] == [s[0]] + s[1..][..k'];
      k' + 1
  }

  /** `List<T>.Remove`: drop the element at `IndexOf(s, x)`, if there is one. */
  function RemoveFirst<T(==)>(s: seq<T>, x: T): (r: seq<T>)
    ensures x !in s ==> r == s
    ensures x in s ==> |r| == |s| - 1
    ensures multiset(r) == multiset(s) - multiset{x}
  {
    var k := IndexOf(s, x);
    if k == |s| then s
    else
      assert s == s[..k] + [s[k]] + s[k + 1..];
      s[..k] + s[k + 1..]
  }

  /** Removing an element that was just appended, and was not there before, undoes the append. */
  lemma RemoveFirstOfAppended<T>(s: seq<T>, x: T)
    requires x !in s
    ensures RemoveFirst(s + [x], x) == s
  {
    var t := s + [x];
    assert t[|s|] == x;
    assert t[..|s|] == s;
  }

  /** After a removal, position `i` holds what was at `i` before the removed element and at `i + 1` from there on. */
  lemma RemoveFirstAt<T>(s: seq<T>, x: T, i: int)
    requires x in s && 0 <= i < |s| - 1
    ensures RemoveFirst(s, x)[i] == s[if i < IndexOf(s, x) then i else i + 1]
  {
  }

  /** Removing can only drop an element: what remains was there, and distinct lists stay distinct. */
  lemma RemoveFirstKeepsDistinct<T>(s: seq<T>, x: T)
    requires forall i, j :: 0 <= i < j < |s| ==> s[i] != s[j]
    ensures forall i, j :: 0 <= i < j < |RemoveFirst(s, x)| ==> RemoveFirst(s, x)[i] != RemoveFirst(s, x)[j]
    ensures forall y :: y in RemoveFirst(s, x) ==> y in s
    ensures x !in RemoveFirst(s, x)
  {
    var r := RemoveFirst(s, x);
    if x in s {
      forall i, j | 0 <= i < j < |r| ensures r[i] != r[j] {
        RemoveFirstAt(s, x, i);
        RemoveFirstAt(s, x, j);
      }
      forall y | y in r ensures y in s && y != x {
        var i :| 0 <= i < |r| && r[i] == y;
        RemoveFirstAt(s, x, i);
      }
    }
  }
}
