/**
 * `ArrayUtils`: null-aware emptiness and length of an array, and a linear
 * search. A Java array reference is an `array?`; an `Object` element that may
 * be null is an `Option`, and `Object.equals` is value equality.
 */
module ArrayUtils {
  import opened Wrappers

  /** The elements of an array, none for a null array. */
  function Elements<T>(arr: array?<T>): seq<T>
    reads arr
  {
    if arr == null then [] else arr[..]
  }

  /** True for a null array and for an array of length zero. */
  function IsEmpty<T>(arr: array?<T>): (r: bool)
    reads arr
    ensures r <==> Elements(arr) == []
  {
    null == arr || arr.Length == 0
  }

  /** Always the negation of `IsEmpty`. */
  function IsNotEmpty<T>(arr: array?<T>): (r: bool)
    reads arr
    ensures r <==> arr != null && arr.Length > 0
  {
    !IsEmpty(arr)
  }

  /** Length of the array, 0 for null. */
  function GetLength<T>(arr: array?<T>): (r: nat)
    reads arr
    ensures r == |Elements(arr)|
  {
    if IsNotEmpty(arr) then arr.Length else 0
  }

  /**
   * `contains`: true iff some element equals `target`. The source
   * dereferences the array and every element it visits, so both must be
   * non-null.
   */
  method Contains<T(==)>(arr: array<Option<T>>, target: Option<T>) returns (r: bool)
    requires forall i :: 0 <= i < arr.Length ==> arr[i].Some?
    ensures r <==> target in arr[..]
  {
    for i := 0 to arr.Length
      invariant target !in arr[..i]
    {
      if arr[i] == target {
        return true;
      }
      assert arr[..i + 1] == arr[..i] + [arr[i]];
    }
    assert arr[..arr.Length] == arr[..];
    return false;
  }

  /** The outcome of `contains` depends on the elements, not on their order. */
  lemma ContainsIgnoresOrder<T>(xs: seq<T>, ys: seq<T>, target: T)
    requires multiset(xs) == multiset(ys)
    ensures target in xs <==> target in ys
  {
    assert target in xs <==> target in multiset(xs);
    assert target in ys <==> target in multiset(ys);
  }
}
