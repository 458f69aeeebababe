/** Change versions: a 32-bit counter that skips zero, compared across its wrap. */
module Versions {
  import opened Common
  import opened Paging

  const HALF := 0x8000_0000

  type Version = v: int | 0 <= v < WRAP

  /** The 32-bit difference read as a signed number. */
  function SignedDifference(a: Version, b: Version): (d: int)
    ensures -HALF <= d < HALF
  {
    var u := (a - b) % WRAP;
    if u < HALF then u else u - WRAP
  }

  /** Whether a change is newer than what is required; anything is newer than zero. */
  predicate VersionChanged(changeVersion: Version, requiredVersion: Version) {
    requiredVersion == 0 || SignedDifference(changeVersion, requiredVersion) > 0
  }

  function Updated(v: Version): Version {
    var next := (v + 1) % WRAP;
    if next == 0 then 1 else next
  }

  class Counter {
    var version: Version

    constructor (v: Version)
      ensures version == v
    {
      version := v;
    }

    method UpdateVersion()
      modifies this
      ensures version == Updated(old(version)) && version != 0
    {
      version := (version + 1) % WRAP;
      if version == 0 {
        version := (version + 1) % WRAP;
      }
    }
  }

  /** The version after `k` updates. */
  function After(v: Version, k: nat): Version {
    if k == 0 then v else Updated(After(v, k - 1))
  }

  lemma NextRemainder(x: nat, m: nat)
    requires m > 1
    ensures (x + 1) % m == if x % m + 1 == m then 0 else x % m + 1
  {
    var q, r := x / m, x % m;
    IntDivision(x, m);
    if r + 1 == m {
      assert (q + 1) * m == q * m + m;
      RemainderOf(x + 1, m, q + 1, 0);
    } else {
      RemainderOf(x + 1, m, q, r + 1);
    }
  }

  /** Versions run round a cycle of all numbers but zero. */
  lemma {:induction false} AfterClosed(v: Version, k: nat)
    requires v != 0
    ensures After(v, k) == 1 + (v - 1 + k) % (WRAP - 1)
  {
    if k > 0 {
      AfterClosed(v, k - 1);
      NextRemainder(v - 1 + (k - 1), WRAP - 1);
    }
  }

  /** The first update can be taken by itself. */
  lemma {:induction false} AfterFirst(v: Version, k: nat)
    requires k > 0
    ensures After(v, k) == After(Updated(v), k - 1)
  {
    if k > 1 {
      AfterFirst(v, k - 1);
    }
  }

  /** From zero the cycle is entered at one. */
  lemma AfterZero(k: nat)
    requires k > 0
    ensures After(0, k) == 1 + (k - 1) % (WRAP - 1)
  {
    AfterFirst(0, k);
    AfterClosed(1, k - 1);
  }

  /**
   * No update yields zero, whatever the start: zero means that a system has never run. Such a system sees every change,
   * and nothing recorded as zero is newer than what a system has seen within half the range.
   */
  lemma NeverRun(v: Version, k: nat)
    ensures k > 0 ==> After(v, k) != 0
    ensures VersionChanged(After(v, k), 0)
    ensures v != 0 ==> (VersionChanged(0, v) <==> v > HALF)
  {
    if v == 0 && k > 0 {
      AfterZero(k);
    } else if k > 0 {
      AfterClosed(v, k);
    }
    if v != 0 {
      RemainderOf(0 - v, WRAP, -1, WRAP - v);
    }
  }

  /** Up to 2^31 - 2 updates are seen as newer, and the old version never as newer than the new, wrap or no wrap. */
  lemma ChangedAfter(v: Version, k: nat)
    requires v != 0 && 1 <= k <= HALF - 2
    ensures After(v, k) != 0
    ensures VersionChanged(After(v, k), v) && !VersionChanged(v, After(v, k))
  {
    hide After;
    AfterClosed(v, k);
    Distance(v, k);
    var u := if v + k < WRAP then k else k + 1;
    RemainderOf(After(v, k) - v, WRAP, if v + k < WRAP then 0 else -1, u);
    RemainderOf(v - After(v, k), WRAP, if v + k < WRAP then -1 else 0, WRAP - u);
  }

  /** The difference is the number of updates, and one more past the skipped zero. */
  lemma Distance(v: Version, k: nat)
    requires v != 0 && k < WRAP - 1
    ensures After(v, k) - v == if v + k < WRAP then k else k + 1 - WRAP
  {
    hide After;
    AfterClosed(v, k);
    if v + k < WRAP {
      RemainderOf(v - 1 + k, WRAP - 1, 0, v - 1 + k);
    } else {
      RemainderOf(v - 1 + k, WRAP - 1, 1, v - 1 + k - (WRAP - 1));
    }
  }

  /** Exactly how far back a change is still seen within one round. */
  lemma ChangedIff(v: Version, k: nat)
    requires v != 0 && 1 <= k < WRAP - 1
    ensures VersionChanged(After(v, k), v) <==> (if v + k < WRAP then k else k + 1) < HALF
  {
    hide After;
    Distance(v, k);
    var u := if v + k < WRAP then k else k + 1;
    RemainderOf(After(v, k) - v, WRAP, if v + k < WRAP then 0 else -1, u);
  }

  /** A version is never newer than itself, and of two versions at most one is newer. */
  lemma NotBothChanged(a: Version, b: Version)
    requires a != 0 && b != 0
    ensures !(VersionChanged(a, b) && VersionChanged(b, a))
    ensures !VersionChanged(a, a)
    ensures a != b && !VersionChanged(a, b) && !VersionChanged(b, a) ==> (a - b) % WRAP == HALF
  {
  }
}
