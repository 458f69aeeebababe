/** Calls of the comparison callback, counted in ghost state. */
module Comparing {
  import opened Ordering

  /** One call of the comparison; `calls` is the number of calls made so far. */
  method Compare<T>(lt: Less<T>, x: T, y: T, ghost calls: nat) returns (smaller: bool, ghost calls': nat)
    ensures smaller == lt(x, y) && calls' == calls + 1
  {
    smaller := lt(x, y);
    calls' := calls + 1;
  }
}
