/**
 * `Array.subscript(safe:)`: a bounds-checked read that gives nil instead of
 * trapping.  A Swift array is a value, so it is a sequence here; the read
 * cannot change it.
 */
module SafeArray {
  import opened Wrappers

  /** `self[safe: index]`: nil before the start or at and past the end, the element otherwise. */
  function SafeGet<T>(a: seq<T>, index: int): (r: Option<T>)
    ensures r.None? <==> index < 0 || index >= |a|
    ensures r.Some? ==> 0 <= index < |a| && r.value == a[index]
  {
    if index >= 0 && index < |a| then Some(a[index]) else None
  }

  /** A value the safe read finds is an element of the array, and every element can be found. */
  lemma SafeGetFinds<T>(a: seq<T>, x: T)
    ensures x in a <==> exists i :: SafeGet(a, i) == Some(x)
  {
    if x in a {
      var i :| 0 <= i < |a| && a[i] == x;
      assert SafeGet(a, i) == Some(x);
    }
  }

  /** Appending never changes what the safe read finds below the old end. */
  lemma SafeGetAppend<T>(a: seq<T>, b: seq<T>, index: int)
    requires index < |a|
    ensures SafeGet(a + b, index) == SafeGet(a, index)
  {
  }
}
