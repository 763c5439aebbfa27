/**
 * The single-selection picker behind the step list and the format tabs: one
 * key is current, every rendered button sets it to its own key, and the button
 * whose key equals the current one is drawn as active.
 */
module Selection {

  /** The buttons drawn as active, one per key of `keys`. */
  function Highlighted<K(==)>(keys: seq<K>, current: K): (h: set<K>)
    ensures current in keys ==> h == {current}
    ensures current !in keys ==> h == {}
  {
    set k | k in keys && k == current
  }

  /** A click on the button for `clicked`; buttons exist only for the keys. */
  function Select<K(==)>(keys: seq<K>, current: K, clicked: K): (r: K)
    requires clicked in keys
    ensures r in keys
    ensures |Highlighted(keys, r)| == 1
    ensures r == clicked
  {
    clicked
  }

  /** Every click lands on a rendered button. */
  predicate ClicksIn<K(==)>(keys: seq<K>, clicks: seq<K>)
  {
    forall i :: 0 <= i < |clicks| ==> clicks[i] in keys
  }

  /**
   * The current key after a sequence of clicks: the last one clicked, or the
   * initial key when there was no click; either way it names an entry.
   */
  function Run<K(==)>(keys: seq<K>, current: K, clicks: seq<K>): (r: K)
    requires current in keys && ClicksIn(keys, clicks)
    ensures r in keys
    ensures |Highlighted(keys, r)| == 1
    ensures |clicks| == 0 ==> r == current
    ensures |clicks| > 0 ==> r == clicks[|clicks| - 1]
    decreases |clicks|
  {
    if |clicks| == 0 then current
    else Select(keys, Run(keys, current, clicks[..|clicks| - 1]), clicks[|clicks| - 1])
  }

  /** The keys `0 .. n-1` of a list rendered with `map((item, index) => …)`. */
  function Indices(n: nat): (r: seq<nat>)
    ensures |r| == n
    ensures forall i :: 0 <= i < n ==> r[i] == i
    ensures forall i :: i in r ==> i < n
  {
    seq(n, i => i)
  }
}
