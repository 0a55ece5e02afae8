/** The small numeric helpers of `BaseType.h`: `sqr`, `clamp` and `sign` on
    integers, the bit-twiddling macros on a 32-bit word, and the extent of an
    integer rectangle. */
module BaseType {

  /** `sqr`: the number times itself. */
  function Sqr(x: int): (r: int)
    ensures r >= 0
    ensures r == 0 <==> x == 0
    ensures x != 0 ==> r >= if x < 0 then -x else x
  {
    x * x
  }

  /** A number and its negation square alike. */
  lemma SqrEven(x: int)
    ensures Sqr(-x) == Sqr(x)
  {
  }

  /** `clamp(lo, val, hi)`: `lo` below the range, `hi` above it, `val` in it.
      With `lo > hi` a value below `lo` still gives `lo`, so the result is
      only guaranteed inside the range when the range is not empty. */
  function Clamp(lo: int, val: int, hi: int): (r: int)
    ensures val < lo ==> r == lo
    ensures lo <= val && val > hi ==> r == hi
    ensures lo <= val <= hi ==> r == val
    ensures lo <= hi ==> lo <= r <= hi
    ensures r == lo || r == val || r == hi
  {
    if val < lo then lo
    else if val > hi then hi
    else val
  }

  /** Clamping into a non-empty range twice is clamping once, and a value
      clamped is at the nearest end of the range or is the value. */
  lemma ClampIdempotent(lo: int, val: int, hi: int)
    requires lo <= hi
    ensures Clamp(lo, Clamp(lo, val, hi), hi) == Clamp(lo, val, hi)
  {
  }

  /** Clamping keeps the order of values. */
  lemma ClampMonotone(lo: int, a: int, b: int, hi: int)
    requires lo <= hi && a <= b
    ensures Clamp(lo, a, hi) <= Clamp(lo, b, hi)
  {
  }

  /** `sign`: 1, -1 or 0. */
  function Sign(x: int): (r: int)
    ensures r == 1 <==> x > 0
    ensures r == -1 <==> x < 0
    ensures r == 0 <==> x == 0
  {
    if x > 0 then 1
    else if x < 0 then -1
    else 0
  }

  /** The sign times the number is its magnitude, and negation flips the
      sign. */
  lemma SignMagnitude(x: int)
    ensures Sign(x) * x == (if x < 0 then -x else x)
    ensures Sign(-x) == -Sign(x)
  {
  }

  // ---------------------------------------------------------------------
  // Bits

  /** `BitIsSet(x, i)`: some bit of the mask is set in `x`, that is,
      clearing the mask would change `x`. */
  function BitIsSet(x: bv32, i: bv32): (r: bool)
    ensures r <==> BitClear(x, i) != x
    ensures r ==> x != 0 && i != 0
  {
    x & i != 0
  }

  /** `BitSet`: every bit of the mask set, the others as they were. */
  function BitSet(x: bv32, i: bv32): (r: bv32)
    ensures r & i == i
    ensures r & !i == x & !i
  {
    x | i
  }

  /** `BitClear`: every bit of the mask cleared, the others as they were. */
  function BitClear(x: bv32, i: bv32): (r: bv32)
    ensures r & i == 0
    ensures r & !i == x & !i
  {
    x & !i
  }

  /** `BitToggle`: every bit of the mask flipped, the others as they were. */
  function BitToggle(x: bv32, i: bv32): (r: bv32)
    ensures r & i == !x & i
    ensures r & !i == x & !i
  {
    x ^ i
  }

  /** After setting a non-empty mask it tests set; after clearing it tests
      clear. */
  lemma SetThenTest(x: bv32, i: bv32)
    ensures i != 0 ==> BitIsSet(BitSet(x, i), i)
    ensures !BitIsSet(BitClear(x, i), i)
  {
  }

  /** Toggling twice gives the word back. */
  lemma ToggleTwice(x: bv32, i: bv32)
    ensures BitToggle(BitToggle(x, i), i) == x
  {
  }

  /** Setting then clearing the same mask is clearing it, whatever was
      there. */
  lemma SetThenClear(x: bv32, i: bv32)
    ensures BitClear(BitSet(x, i), i) == BitClear(x, i)
  {
  }

  // ---------------------------------------------------------------------
  // Rectangles

  /** A corner of an integer rectangle. */
  datatype ICoord2D = ICoord2D(x: int, y: int)

  /** `IRegion2D`: the low and high corners. */
  datatype IRegion2D = IRegion2D(lo: ICoord2D, hi: ICoord2D)

  /** `width`: how far the high corner lies right of the low one, negative
      for a region given the wrong way round. */
  function Width(r: IRegion2D): (w: int)
    ensures r.lo.x + w == r.hi.x
  {
    r.hi.x - r.lo.x
  }

  function Height(r: IRegion2D): (h: int)
    ensures r.lo.y + h == r.hi.y
  {
    r.hi.y - r.lo.y
  }

  /** Swapping the corners negates both extents, and a region shifted by an
      offset keeps them. */
  lemma ExtentsOfMoved(r: IRegion2D, dx: int, dy: int)
    ensures Width(IRegion2D(r.hi, r.lo)) == -Width(r) && Height(IRegion2D(r.hi, r.lo)) == -Height(r)
    ensures var m := IRegion2D(ICoord2D(r.lo.x + dx, r.lo.y + dy), ICoord2D(r.hi.x + dx, r.hi.y + dy));
            Width(m) == Width(r) && Height(m) == Height(r)
  {
  }
}
