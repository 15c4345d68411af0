/** The two array searches the site relies on: `Array.prototype.findIndex` and `Array.prototype.find`. */
module JsArray {
  import opened Wrappers

  /** Position of the first element satisfying `matches`, or -1 when none does. */
  function FindIndex<T>(xs: seq<T>, matches: T -> bool): (r: int)
    ensures -1 <= r < |xs|
    ensures r == -1 <==> forall j :: 0 <= j < |xs| ==> !matches(xs[j])
    ensures 0 <= r ==> matches(xs[r]) && forall j :: 0 <= j < r ==> !matches(xs[j])
  {
    if |xs| == 0 then -1
    else if matches(xs[0]) then 0
    else
      var k := FindIndex(xs[1..], matches);
      if k == -1 then -1 else k + 1
  }

  /** The first element satisfying `matches`, or None (`undefined`) when none does. */
  function Find<T>(xs: seq<T>, matches: T -> bool): (r: Option<T>)
    ensures r.None? <==> forall j :: 0 <= j < |xs| ==> !matches(xs[j])
    ensures r.Some? ==> matches(r.value) && r.value in xs
    ensures r.Some? ==> r.value == xs[FindIndex(xs, matches)]
  {
    var i := FindIndex(xs, matches);
    if i < 0 then None else Some(xs[i])
  }
}
