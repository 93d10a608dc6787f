/** ECMAScript `Array.prototype.slice` over sequences, as the table component
    uses it on its record cache. Indices are relative: a negative index counts
    back from the end, and every index is clamped into the array. */
module JsArray {

  /** The absolute position a relative index denotes in an array of length `len`. */
  function Resolve(index: int, len: nat): (k: nat)
    ensures k <= len
    ensures 0 <= index <= len ==> k == index
    ensures index < 0 && -index <= len ==> k == len + index
    ensures len < index ==> k == len
    ensures index + len < 0 ==> k == 0
  {
    if index < 0 then (if len + index < 0 then 0 else len + index)
    else if index < len then index else len
  }

  /** `s.slice(start, end)` */
  function Slice<T>(s: seq<T>, start: int, end: int): (r: seq<T>)
    ensures |r| <= |s|
    ensures |r| == if Resolve(start, |s|) < Resolve(end, |s|) then Resolve(end, |s|) - Resolve(start, |s|) else 0
    ensures forall i :: 0 <= i < |r| ==> Resolve(start, |s|) + i < |s| && r[i] == s[Resolve(start, |s|) + i]
  {
    var from, to := Resolve(start, |s|), Resolve(end, |s|);
    if from < to then s[from..to] else []
  }

  /** `s.slice(start)`: the end defaults to the length of the array. */
  function SliceFrom<T>(s: seq<T>, start: int): (r: seq<T>)
    ensures |r| <= |s|
    ensures |r| == |s| - Resolve(start, |s|)
    ensures forall i :: 0 <= i < |r| ==> Resolve(start, |s|) + i < |s| && r[i] == s[Resolve(start, |s|) + i]
  {
    s[Resolve(start, |s|)..]
  }

  /** With non-negative bounds, slice is the sub-sequence between the bounds,
      each clamped to the length, and empty when the bounds cross. */
  lemma SliceNonNegative<T>(s: seq<T>, start: int, end: int)
    requires 0 <= start && 0 <= end
    ensures var from := if start < |s| then start else |s|;
            var to := if end < |s| then end else |s|;
            Slice(s, start, end) == if from < to then s[from..to] else []
  {
  }

  /** With a non-negative start, the open-ended slice is the suffix from that
      start, or empty when the start is past the end. */
  lemma SliceFromNonNegative<T>(s: seq<T>, start: int)
    requires 0 <= start
    ensures SliceFrom(s, start) == if start < |s| then s[start..] else []
  {
  }
}
