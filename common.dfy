/** Small definitions shared by the server and client models. */
module Common {

  datatype Option<T> = None | Some(value: T)

  /** No value occurs twice in `s` (the shape of a JavaScript array built through a Set). */
  predicate NoDup<T(==)>(s: seq<T>) {
    forall i, j :: 0 <= i < j < |s| ==> s[i] != s[j]
  }

  /** The indices `0 .. n-1` as a set. */
  function Below(n: nat): (r: set<nat>)
    ensures forall i: nat :: i in r <==> i < n
    ensures |r| == n
  {
    if n == 0 then {} else Below(n - 1) + {n - 1}
  }

  lemma {:induction false} SubsetSize<T>(a: set<T>, b: set<T>)
    requires a <= b
    ensures |a| <= |b|
    decreases a
  {
    if a != {} {
      var x :| x in a;
      SubsetSize(a - {x}, b - {x});
    }
  }

  /** A subset of `Below(n)` with `n` elements is all of it. */
  lemma SubsetOfBelowWithFullSize(s: set<nat>, n: nat)
    requires s <= Below(n) && |s| == n
    ensures s == Below(n)
  {
    if s != Below(n) {
      var k :| k in Below(n) && k !in s;
      assert |Below(n) - {k}| == n - 1;
      SubsetSize(s, Below(n) - {k});
    }
  }

  /** Appending a value not yet present keeps a list duplicate-free. */
  lemma NoDupSnoc<T>(s: seq<T>, x: T)
    requires NoDup(s) && x !in s
    ensures NoDup(s + [x])
  {
  }
}
