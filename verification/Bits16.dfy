/** Sixteen-way scans: bit s of a hit mask says that lane s matched. */
module Bits16 {

  const LANES: nat := 16

  /** A 16-bit hit mask, lowest bit first. */
  type Mask = m: seq<bool> | |m| == LANES witness CLEAR

  const CLEAR: seq<bool> := [false, false, false, false, false, false, false, false,
                             false, false, false, false, false, false, false, false]

  const NO_HITS: Mask := CLEAR

  /** Some bit is set. */
  predicate Any(mask: Mask) {
    exists i :: 0 <= i < LANES && mask[i]
  }

  /** The lanes of arr that hold val. */
  method FindX16<T(==)>(arr: seq<T>, val: T) returns (mask: Mask)
    requires |arr| == LANES
    ensures forall i :: 0 <= i < LANES ==> (mask[i] <==> arr[i] == val)
  {
    mask := NO_HITS;
    for i := 0 to LANES
      invariant forall j :: 0 <= j < i ==> (mask[j] <==> arr[j] == val)
      invariant forall j :: i <= j < LANES ==> !mask[j]
    {
      if arr[i] == val {
        mask := mask[i := true];
      }
    }
  }

  /** Both scans in one pass. */
  method FindX16Two<T(==)>(arr: seq<T>, val0: T, val1: T) returns (mask0: Mask, mask1: Mask)
    requires |arr| == LANES
    ensures forall i :: 0 <= i < LANES ==> (mask0[i] <==> arr[i] == val0)
    ensures forall i :: 0 <= i < LANES ==> (mask1[i] <==> arr[i] == val1)
  {
    mask0, mask1 := NO_HITS, NO_HITS;
    for i := 0 to LANES
      invariant forall j :: 0 <= j < i ==> (mask0[j] <==> arr[j] == val0)
      invariant forall j :: 0 <= j < i ==> (mask1[j] <==> arr[j] == val1)
      invariant forall j :: i <= j < LANES ==> !mask0[j] && !mask1[j]
    {
      var v := arr[i];
      if v == val0 {
        mask0 := mask0[i := true];
      }
      if v == val1 {
        mask1 := mask1[i := true];
      }
    }
  }

  /** The lowest set bit of a mask that is not zero. */
  method Lowest(mask: Mask) returns (s: nat)
    requires Any(mask)
    ensures s < LANES && mask[s] && forall i :: 0 <= i < s ==> !mask[i]
  {
    s := 0;
    while !mask[s]
      invariant s < LANES && forall i :: 0 <= i < s ==> !mask[i]
      decreases LANES - s
    {
      s := s + 1;
    }
  }

  /** The number of set bits. */
  function Count(mask: seq<bool>): nat {
    if mask == [] then 0 else Count(mask[..|mask| - 1]) + if mask[|mask| - 1] then 1 else 0
  }
}
