/** List positions. */
module Indices {
  /** The valid position nearest to `i` in a list of this length. */
  function Clamp(i: int, length: nat): (k: nat)
    requires length > 0
    ensures k < length
  {
    if i < 0 then 0 else if i >= length then length - 1 else i
  }

  /** How many items are chosen. Among the chosen ones, in order, item `p` stands at the count of those before it. */
  function Count<T>(items: seq<T>, chosen: T -> bool): (n: nat)
    ensures n <= |items|
  {
    if items == [] then 0 else (if chosen(items[0]) then 1 else 0) + Count(items[1..], chosen)
  }

  /** The items of `part` are among those of `whole`, in the same order. */
  predicate IsSubsequence<T(==)>(part: seq<T>, whole: seq<T>)
    decreases |whole|
  {
    part == [] || (whole != [] && (
      || (part[0] == whole[0] && IsSubsequence(part[1..], whole[1..]))
      || IsSubsequence(part, whole[1..])))
  }

  lemma CountFromSecond<T>(items: seq<T>, chosen: T -> bool, p: nat)
    requires 0 < p <= |items|
    ensures Count(items[..p], chosen) == (if chosen(items[0]) then 1 else 0) + Count(items[1..][..p - 1], chosen)
  {
    assert items[..p][1..] == items[1..][..p - 1];
  }
}
