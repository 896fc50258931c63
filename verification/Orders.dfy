/** The callers' comparisons: the sign of the result orders two blocks of data. */
module Orders {

  /** What a comparison must be: a total preorder. */
  ghost predicate Preorder<T(!new)>(cmp: (T, T) -> int) {
    && (forall x, y :: cmp(x, y) > 0 <==> cmp(y, x) < 0)
    && (forall x, y, z :: cmp(x, y) <= 0 && cmp(y, z) <= 0 ==> cmp(x, z) <= 0)
  }

  lemma Flip<T(!new)>(cmp: (T, T) -> int, x: T, y: T)
    requires Preorder(cmp)
    ensures cmp(x, y) > 0 <==> cmp(y, x) < 0
    ensures cmp(x, y) == 0 <==> cmp(y, x) == 0
  {
  }

  lemma Transitive<T(!new)>(cmp: (T, T) -> int, x: T, y: T, z: T)
    requires Preorder(cmp) && cmp(x, y) <= 0 && cmp(y, z) <= 0
    ensures cmp(x, z) <= 0
    ensures cmp(x, y) < 0 || cmp(y, z) < 0 ==> cmp(x, z) < 0
  {
    Flip(cmp, x, y);
    Flip(cmp, y, z);
    Flip(cmp, x, z);
    if cmp(x, z) == 0 {
      assert cmp(z, x) <= 0;
      assert cmp(z, y) <= 0 && cmp(y, x) <= 0;
    }
  }

  function ToInt64(x: int): (r: int)
    ensures -0x8000_0000_0000_0000 <= r < 0x8000_0000_0000_0000
  {
    var u := x % 0x1_0000_0000_0000_0000;
    if u < 0x8000_0000_0000_0000 then u else u - 0x1_0000_0000_0000_0000
  }

  /** The callbacks for 64-bit keys cast the difference of the keys.  Its sign orders two keys exactly
      if they are less than 2^63 apart (or the first is exactly 2^63 below). */
  lemma DifferenceOrders(a: int, b: int)
    requires 0 <= a < 0x1_0000_0000_0000_0000 && 0 <= b < 0x1_0000_0000_0000_0000
    ensures (ToInt64(a - b) < 0 <==> a < b) && (ToInt64(a - b) > 0 <==> a > b) <==>
            -0x8000_0000_0000_0000 <= a - b < 0x8000_0000_0000_0000
  {
  }
}
