/** The two array operations the screens perform on a copy of the show
    list: the spread copy `[...xs]` and `splice(index, 1)`. A JavaScript
    array that shrinks is an array together with its current length. */
module JsArray {

  /** `[...xs]`: a new array holding the elements of `xs`. */
  method Spread<T>(xs: seq<T>) returns (a: array<T>)
    ensures fresh(a)
    ensures a[..] == xs
  {
    a := new T[|xs|](i requires 0 <= i < |xs| => xs[i]);
  }

  /** `a.splice(index, 1)` on an array of length `a.Length`: every element
      after `index` moves one place down (the element-moving loop that
      ECMA-262 gives `Array.prototype.splice` for one deleted and no
      inserted item) and the length becomes one less. Like `splice`, it
      returns the removed elements: here the one element at `index`. */
  method SpliceOne<T>(a: array<T>, index: nat) returns (removed: seq<T>, newLength: nat)
    requires index < a.Length
    modifies a
    ensures removed == [old(a[index])]
    ensures newLength == a.Length - 1
    ensures a[..newLength] == old(a[..index]) + old(a[index + 1..])
  {
    removed := [a[index]];
    newLength := a.Length - 1;
    var k := index;
    while k < newLength
      invariant index <= k <= newLength
      invariant a[..index] == old(a[..index])
      invariant forall j | index <= j < k :: a[j] == old(a[j + 1])
      invariant a[k..] == old(a[k..])
    {
      a[k] := a[k + 1];
      k := k + 1;
    }
    assert a[..newLength] == a[..index] + a[index..newLength];
    assert old(a[index + 1..]) == old(a[..])[index + 1..];
  }
}
