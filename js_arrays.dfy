/** The JavaScript array primitives the launcher's state code relies on,
    with their edge cases: indexOf returning -1, and splice and slice
    reading a negative position as counted from the end. */
module JsArrays {

  /** Array.prototype.indexOf (and, for strings, includes): the first
      position holding x, or -1. */
  function IndexOf<T(==)>(s: seq<T>, x: T): (i: int)
    ensures -1 <= i < |s|
    ensures i == -1 <==> x !in s
    ensures 0 <= i ==> s[i] == x && x !in s[..i]
  {
    if s == [] then -1
    else if s[0] == x then 0
    else
      var j := IndexOf(s[1..], x);
      if j == -1 then -1
      else
        assert s[..j + 1] == [s[0]] + s[1..][..j];
        j + 1
  }

  /** A sequence is what comes before a position, the element there and
      what comes after. */
  lemma Around<T>(s: seq<T>, i: int)
    requires 0 <= i < |s|
    ensures s == s[..i] + [s[i]] + s[i + 1..]
  {
  }

  /** The first position holding x is the one before which x does not
      occur. */
  lemma IndexOfAt<T>(s: seq<T>, x: T, i: int)
    requires 0 <= i < |s| && s[i] == x && x !in s[..i]
    ensures IndexOf(s, x) == i
  {
  }

  /** The position a relative start or end argument of slice/splice
      denotes in an array of length len: a negative argument counts from
      the end, and the result is clamped to 0..len. */
  function RelativeIndex(len: nat, k: int): (r: nat)
    ensures r <= len
    ensures 0 <= k <= len ==> r == k
  {
    if k < 0 then (if len + k < 0 then 0 else len + k)
    else if k > len then len
    else k
  }

  /** The sequence without the element at position i. */
  function RemoveAt<T>(s: seq<T>, i: nat): (r: seq<T>)
    requires i < |s|
    ensures |r| == |s| - 1
    ensures multiset(r) + multiset{s[i]} == multiset(s)
  {
    assert s == s[..i] + [s[i]] + s[i + 1..];
    s[..i] + s[i + 1..]
  }

  /** array.splice(start, 1) on the array s: the array that is left. */
  function SpliceOne<T>(s: seq<T>, start: int): seq<T> {
    var k := RelativeIndex(|s|, start);
    if k < |s| then RemoveAt(s, k) else s
  }

  /** array.slice(0, end). */
  function SliceTo<T>(s: seq<T>, end: int): seq<T> {
    s[..RelativeIndex(|s|, end)]
  }

  /** array.slice(start). */
  function SliceFrom<T>(s: seq<T>, start: int): seq<T> {
    s[RelativeIndex(|s|, start)..]
  }

  /** splice(indexOf(x), 1) when x is present removes exactly its first
      occurrence and keeps every other element in order. */
  lemma SpliceAtIndexOfPresent<T>(s: seq<T>, x: T)
    requires x in s
    ensures var i := IndexOf(s, x);
      && 0 <= i
      && SpliceOne(s, i) == s[..i] + s[i + 1..]
      && x !in s[..i]
      && multiset(SpliceOne(s, i)) + multiset{x} == multiset(s)
  {
    var i := IndexOf(s, x);
    assert SpliceOne(s, i) == RemoveAt(s, i);
  }

  /** splice(indexOf(x), 1) when x is absent reads the -1 as "the last
      position": the last element of a non-empty array is dropped. */
  lemma SpliceAtIndexOfAbsent<T>(s: seq<T>, x: T)
    requires x !in s
    ensures SpliceOne(s, IndexOf(s, x)) == if s == [] then [] else s[..|s| - 1]
  {
  }

  /** A slice at one position splits the sequence into two halves that
      concatenate back to it. */
  lemma SliceSplit<T>(s: seq<T>, k: int)
    ensures SliceTo(s, k) + SliceFrom(s, k) == s
  {
  }

  /** Putting x back in at a slice position adds exactly x. */
  lemma SliceInsertMultiset<T>(s: seq<T>, k: int, x: T)
    ensures multiset(SliceTo(s, k) + [x] + SliceFrom(s, k)) == multiset(s) + multiset{x}
  {
    SliceSplit(s, k);
    assert multiset(s) == multiset(SliceTo(s, k)) + multiset(SliceFrom(s, k));
  }
}
