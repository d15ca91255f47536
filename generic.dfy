/** The generic helpers of src/utils.js: `clamp`, `first` and `last`. */
module Generic {
  import opened Wrappers

  /** `Math.max(min, Math.min(val, max))`. */
  function Clamp(min: int, max: int, val: int): (r: int)
    ensures min <= max ==> min <= r <= max
    ensures min <= val <= max ==> r == val
    ensures val < min ==> r == min
    ensures min <= max < val ==> r == max
  {
    var low := if val < max then val else max;
    if min > low then min else low
  }

  /** `arr[0]`, `undefined` on an empty array. */
  function First<T>(arr: seq<T>): (r: Option<T>)
    ensures r.Some? <==> |arr| > 0
    ensures r.Some? ==> r.value == arr[0]
  {
    if |arr| > 0 then Some(arr[0]) else None
  }

  /** `arr[arr.length - 1]`, `undefined` on an empty array. */
  function Last<T>(arr: seq<T>): (r: Option<T>)
    ensures r.Some? <==> |arr| > 0
    ensures r.Some? ==> r.value == arr[|arr| - 1]
  {
    if |arr| > 0 then Some(arr[|arr| - 1]) else None
  }
}
