/** The resize policy shared by the array-backed collections (`_ArrayList`, `_StaticStack`,
    `_StaticQueue`, `_StaticQueue2`): grow when full, shrink by half when the free space
    exceeds a quarter more than the used space. */
module Resize {

  /** `DEFAULT_SIZE`: the capacity of a default-constructed collection, and the length an
      empty array grows to. */
  const DEFAULT_SIZE: nat := 10

  /** `(int) Math.ceil(size * 1.25)` in integer arithmetic: the least integer that is at
      least five quarters of `size`. */
  function CeilFiveQuarters(size: nat): (c: nat)
    ensures 4 * c >= 5 * size
    ensures 4 * (c - 1) < 5 * size
  {
    (5 * size + 3) / 4
  }

  /** The array length after `expandSize`: unchanged unless the array is full; a full
      array doubles, and an empty one of length 0 grows to `DEFAULT_SIZE`. Either way
      there is room for one more element and nothing is lost. */
  function Grown(length: nat, size: nat): (n: nat)
    requires size <= length
    ensures size < n
    ensures length <= n
    ensures size < length ==> n == length
    ensures size == length && length > 0 ==> n == 2 * length
    ensures length == 0 ==> n == DEFAULT_SIZE
  {
    if size != length then length
    else if length > 0 then length * 2
    else DEFAULT_SIZE
  }

  /** When `decreaseSize` acts: the array is longer than its initial capacity and the free
      space exceeds `ceil(1.25 * size)`. */
  predicate ShouldShrink(length: nat, size: nat, initial: nat) {
    length > initial && length - size > CeilFiveQuarters(size)
  }

  /** The array length after `decreaseSize`: half the old length when the policy fires,
      else unchanged. The new length still holds every element. */
  function Shrunk(length: nat, size: nat, initial: nat): (n: nat)
    requires size <= length
    ensures size <= n <= length
    ensures n < length <==> ShouldShrink(length, size, initial)
    ensures n < length ==> 2 * n <= length < 2 * n + 2
  {
    if ShouldShrink(length, size, initial) then length / 2 else length
  }
}
