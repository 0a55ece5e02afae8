/** The container helpers of `STLUtils.h`: erase the first element equal to a
    value, either keeping the order of the rest or by moving the last element
    into the freed slot. A vector is a sequence. */
module StlUtils {

  /** The index of the first element equal to `v`, or `|s|`. */
  function FirstIndex<T(==)>(s: seq<T>, v: T): (k: nat)
    ensures k <= |s|
    ensures forall i :: 0 <= i < k ==> s[i] != v
    ensures k < |s| ==> s[k] == v
    ensures k == |s| <==> v !in s
  {
    if s == [] then 0 else if s[0] == v then 0 else 1 + FirstIndex(s[1..], v)
  }

  /** The first occurrence of `v` taken out, the rest kept in order. */
  function EraseFirst<T(==)>(s: seq<T>, v: T): (r: seq<T>)
    ensures v !in s ==> r == s
    ensures v in s ==> |r| == |s| - 1
  {
    var k := FirstIndex(s, v);
    if k == |s| then s else s[..k] + s[k + 1..]
  }

  /** The first occurrence of `v` overwritten by the last element, which is
      then dropped. */
  function EraseUnordered<T(==)>(s: seq<T>, v: T): (r: seq<T>)
    ensures v !in s ==> r == s
    ensures v in s ==> |r| == |s| - 1
    ensures v in s ==> forall i :: 0 <= i < |r| ==> r[i] == (if i == FirstIndex(s, v) then s[|s| - 1] else s[i])
  {
    var k := FirstIndex(s, v);
    if k == |s| then s else s[k := s[|s| - 1]][..|s| - 1]
  }

  /** Either way exactly one copy of `v` leaves the container. */
  lemma EraseFirstMultiset<T>(s: seq<T>, v: T)
    requires v in s
    ensures multiset(EraseFirst(s, v)) == multiset(s) - multiset{v}
  {
    var k := FirstIndex(s, v);
    assert s == s[..k] + [v] + s[k + 1..];
  }

  lemma EraseUnorderedMultiset<T>(s: seq<T>, v: T)
    requires v in s
    ensures multiset(EraseUnordered(s, v)) == multiset(s) - multiset{v}
  {
    var k := FirstIndex(s, v);
    var last := |s| - 1;
    var r := EraseUnordered(s, v);
    if k == last {
      assert s == r + [v];
    } else {
      UnorderedShape(s, v, k, r);
      MovedLastMultiset(s[..k], s[k + 1..last], v, s[last]);
    }
  }

  lemma UnorderedShape<T>(s: seq<T>, v: T, k: nat, r: seq<T>)
    requires k < |s| - 1 && s[k] == v && |r| == |s| - 1
    requires forall i :: 0 <= i < |r| ==> r[i] == (if i == k then s[|s| - 1] else s[i])
    ensures s == s[..k] + [v] + s[k + 1..|s| - 1] + [s[|s| - 1]]
    ensures r == s[..k] + [s[|s| - 1]] + s[k + 1..|s| - 1]
  {
  }

  lemma MovedLastMultiset<T>(a: seq<T>, b: seq<T>, v: T, x: T)
    ensures multiset(a + [x] + b) == multiset(a + [v] + b + [x]) - multiset{v}
  {
  }

  /** The two helpers remove the same element: their results are
      permutations of each other. */
  lemma EraseSameElement<T>(s: seq<T>, v: T)
    ensures multiset(EraseFirst(s, v)) == multiset(EraseUnordered(s, v))
  {
    if v in s {
      EraseFirstMultiset(s, v);
      EraseUnorderedMultiset(s, v);
    }
  }

  /** `find_and_erase`: true iff the value occurs, and then exactly its first
      occurrence is gone, the rest in their order. */
  method FindAndErase<T(==)>(s: seq<T>, v: T) returns (found: bool, r: seq<T>)
    ensures found <==> v in s
    ensures r == EraseFirst(s, v)
  {
    var i := 0;
    while i < |s|
      invariant 0 <= i <= |s|
      invariant forall j :: 0 <= j < i ==> s[j] != v
    {
      if s[i] == v {
        assert FirstIndex(s, v) == i;
        return true, s[..i] + s[i + 1..];
      }
      i := i + 1;
    }
    return false, s;
  }

  /** `find_and_erase_unordered`: the same search, then the last element moves
      into the match's slot and the vector shrinks by one. */
  method FindAndEraseUnordered<T(==)>(s: seq<T>, v: T) returns (found: bool, r: seq<T>)
    ensures found <==> v in s
    ensures r == EraseUnordered(s, v)
  {
    var i := 0;
    while i < |s|
      invariant 0 <= i <= |s|
      invariant forall j :: 0 <= j < i ==> s[j] != v
    {
      if s[i] == v {
        assert FirstIndex(s, v) == i;
        return true, s[i := s[|s| - 1]][..|s| - 1];
      }
      i := i + 1;
    }
    return false, s;
  }
}
