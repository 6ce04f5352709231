/**
 * `BitUtils.isIn`: is every bit of some mask set in the target? A Java `int`
 * is its 32-bit pattern, a `bv32`.
 */
module BitUtils {

  /** All bits of `mask` are set in `target`. */
  predicate Covers(target: bv32, mask: bv32) {
    target & mask == mask
  }

  /** Some mask of `masks` is covered by `target`. */
  predicate InAny(target: bv32, masks: seq<bv32>) {
    exists m :: m in masks && Covers(target, m)
  }

  /** `isIn`: false for a null or empty mask array, else whether some mask is covered. */
  method IsIn(target: bv32, maskArray: array?<bv32>) returns (r: bool)
    ensures r <==> maskArray != null && InAny(target, maskArray[..])
  {
    if maskArray == null || maskArray.Length == 0 {
      return false;
    }
    for i := 0 to maskArray.Length
      invariant forall k :: 0 <= k < i ==> !Covers(target, maskArray[k])
    {
      var mask := maskArray[i];
      if target & mask == mask {
        assert mask in maskArray[..] && Covers(target, mask);
        return true;
      }
    }
    return false;
  }

  /** A zero mask is covered by every target. */
  lemma ZeroMaskCoversAll(target: bv32, masks: seq<bv32>)
    requires 0 in masks
    ensures InAny(target, masks)
  {
  }

  /** The all-ones target (Java's -1) is in every non-empty mask array. */
  lemma AllOnesInAny(masks: seq<bv32>)
    requires masks != []
    ensures InAny(0xFFFF_FFFF, masks)
  {
    assert masks[0] in masks && Covers(0xFFFF_FFFF, masks[0]);
  }

  /** The outcome depends only on the set of masks, not on order or repetition. */
  lemma InAnyDependsOnSet(target: bv32, xs: seq<bv32>, ys: seq<bv32>)
    requires forall m :: m in xs <==> m in ys
    ensures InAny(target, xs) <==> InAny(target, ys)
  {
  }
}
