/**
 * The two JavaScript array primitives the core is built from:
 * `Array.prototype.findIndex` and `Array.prototype.slice(start)`.
 */
module JsArray {

  /** What `findIndex` returns when no element satisfies the predicate. */
  const NotFound: int := -1

  /**
   * The first position `i` with `from <= i < |s|` whose element satisfies `p`,
   * or `NotFound`. The callback receives the element and its index, as in
   * JavaScript.
   */
  function FindIndexFrom<T>(s: seq<T>, p: (T, nat) -> bool, from: nat): (r: int)
    requires from <= |s|
    ensures r == NotFound || from <= r < |s|
    ensures r != NotFound ==> p(s[r], r)
    ensures forall j :: from <= j < |s| && (r == NotFound || j < r) ==> !p(s[j], j)
    decreases |s| - from
  {
    if from == |s| then NotFound
    else if p(s[from], from) then from
    else FindIndexFrom(s, p, from + 1)
  }

  /** `s.findIndex(p)`: the first match scanning from position 0, or `NotFound`. */
  function FindIndex<T>(s: seq<T>, p: (T, nat) -> bool): (r: int)
    ensures NotFound <= r < |s|
    ensures r == NotFound <==> forall j :: 0 <= j < |s| ==> !p(s[j], j)
    ensures r != NotFound ==> p(s[r], r) && forall j :: 0 <= j < r ==> !p(s[j], j)
  {
    FindIndexFrom(s, p, 0)
  }

  /** `s.slice(start)`: a negative start counts from the end, a start past the end gives []. */
  function Slice<T>(s: seq<T>, start: int): (r: seq<T>)
    ensures 0 <= start <= |s| ==> |r| == |s| - start && forall i :: 0 <= i < |r| ==> r[i] == s[start + i]
    ensures start > |s| ==> r == []
    ensures -|s| <= start < 0 ==> |r| == -start && forall i :: 0 <= i < |r| ==> r[i] == s[|s| + start + i]
    ensures start < -|s| ==> r == s
  {
    if start < 0 then s[(if |s| + start < 0 then 0 else |s| + start)..]
    else if start > |s| then []
    else s[start..]
  }
}
