/** The sorting networks used for ranges of 2 to 17 elements, and what they do.

    A network is correct when it handles every threshold correctly: whatever the value `v`, the elements
    smaller than `v` must end up in front. Each network is followed comparator by comparator, and the verifier
    is left with a purely propositional question about which wires are below the threshold. */
module SortingNetworks {
  import opened Ordering

  /** A network as a list of comparators, the last one outermost. */
  datatype Network = Start | Then(prev: Network, i: nat, j: nat) {
    /** This network followed by one more comparator. */
    function Cmp(a: nat, b: nat): Network {
      Then(this, a, b)
    }
  }

  /** Every comparator connects two different wires below `n`. */
  predicate Connects(net: Network, n: nat) {
    match net
    case Start => true
    case Then(prev, i, j) => Connects(prev, n) && i < j < n
  }

  function Lower<T>(lt: Less<T>, x: T, y: T): T {
    if lt(x, y) then x else y
  }

  function Upper<T>(lt: Less<T>, x: T, y: T): T {
    if lt(x, y) then y else x
  }

  /** One comparator: positions `i` and `j` are swapped unless they are strictly in order. */
  function CompareExchange<T>(lt: Less<T>, s: seq<T>, i: nat, j: nat): (r: seq<T>)
    requires i < |s| && j < |s|
    ensures |r| == |s|
  {
    s[i := Lower(lt, s[i], s[j])][j := Upper(lt, s[i], s[j])]
  }

  /** The result of sending `s` through the network. */
  function Play<T>(lt: Less<T>, s: seq<T>, net: Network): (r: seq<T>)
    requires Connects(net, |s|)
    ensures |r| == |s|
  {
    match net
    case Start => s
    case Then(prev, i, j) => CompareExchange(lt, Play(lt, s, prev), i, j)
  }

  /** What a comparator does to a threshold: the lower output is below it when either input is. */
  ghost predicate Gate<T(!new)>(lt: Less<T>, v: T, x: T, y: T, lo: T, hi: T) {
    && lt(lo, v) == (lt(x, v) || lt(y, v))
    && lt(hi, v) == (lt(x, v) && lt(y, v))
  }

  lemma Step<T(!new)>(lt: Less<T>, v: T, s: seq<T>, net: Network, i: nat, j: nat, x: T, y: T)
    returns (lo: T, hi: T, net': Network)
    requires StrictWeak(lt) && i < j < |s| && Connects(net, |s|)
    requires Play(lt, s, net)[i] == x && Play(lt, s, net)[j] == y
    ensures net' == net.Cmp(i, j) && Connects(net', |s|)
    ensures Play(lt, s, net')[i] == lo && Play(lt, s, net')[j] == hi && Gate(lt, v, x, y, lo, hi)
    ensures lo == Lower(lt, x, y) && hi == Upper(lt, x, y)
    ensures var r, r' := Play(lt, s, net), Play(lt, s, net');
      forall k {:trigger r'[k]} :: 0 <= k < |s| && k != i && k != j ==> r'[k] == r[k]
  {
    lo, hi := Lower(lt, x, y), Upper(lt, x, y);
    net' := net.Cmp(i, j);
  }

  /** Two comparators that share no wire. */
  lemma Step2<T(!new)>(lt: Less<T>, v: T, s: seq<T>, net: Network,
                       i: nat, j: nat, x: T, y: T, i2: nat, j2: nat, x2: T, y2: T)
    returns (lo: T, hi: T, lo2: T, hi2: T, net': Network)
    requires StrictWeak(lt) && i < j < |s| && i2 < j2 < |s| && Connects(net, |s|)
    requires i2 != i && i2 != j && j2 != i && j2 != j
    requires Play(lt, s, net)[i] == x && Play(lt, s, net)[j] == y && Play(lt, s, net)[i2] == x2
      && Play(lt, s, net)[j2] == y2
    ensures net' == net.Cmp(i, j).Cmp(i2, j2) && Connects(net', |s|)
    ensures Play(lt, s, net')[i] == lo && Play(lt, s, net')[j] == hi && Gate(lt, v, x, y, lo, hi)
    ensures Play(lt, s, net')[i2] == lo2 && Play(lt, s, net')[j2] == hi2 && Gate(lt, v, x2, y2, lo2, hi2)
    ensures var r, r' := Play(lt, s, net), Play(lt, s, net');
      forall k {:trigger r'[k]} :: 0 <= k < |s| && k != i && k != j && k != i2 && k != j2 ==> r'[k] == r[k]
  {
    hide StrictWeak, Lower, Upper, Play, Connects, Network.Cmp;
    lo, hi, net' := Step(lt, v, s, net, i, j, x, y);
    lo2, hi2, net' := Step(lt, v, s, net', i2, j2, x2, y2);
  }

  /** Three comparators that share no wire. */
  lemma Step3<T(!new)>(lt: Less<T>, v: T, s: seq<T>, net: Network,
                       i: nat, j: nat, x: T, y: T, i2: nat, j2: nat, x2: T, y2: T, i3: nat, j3: nat, x3: T, y3: T)
    returns (lo: T, hi: T, lo2: T, hi2: T, lo3: T, hi3: T, net': Network)
    requires StrictWeak(lt) && i < j < |s| && i2 < j2 < |s| && i3 < j3 < |s| && Connects(net, |s|)
    requires i2 != i && i2 != j && j2 != i && j2 != j
    requires i3 != i && i3 != j && i3 != i2 && i3 != j2 && j3 != i && j3 != j && j3 != i2 && j3 != j2
    requires Play(lt, s, net)[i] == x && Play(lt, s, net)[j] == y && Play(lt, s, net)[i2] == x2
      && Play(lt, s, net)[j2] == y2
    requires Play(lt, s, net)[i3] == x3 && Play(lt, s, net)[j3] == y3
    ensures net' == net.Cmp(i, j).Cmp(i2, j2).Cmp(i3, j3) && Connects(net', |s|)
    ensures Play(lt, s, net')[i] == lo && Play(lt, s, net')[j] == hi && Gate(lt, v, x, y, lo, hi)
    ensures Play(lt, s, net')[i2] == lo2 && Play(lt, s, net')[j2] == hi2 && Gate(lt, v, x2, y2, lo2, hi2)
    ensures Play(lt, s, net')[i3] == lo3 && Play(lt, s, net')[j3] == hi3 && Gate(lt, v, x3, y3, lo3, hi3)
    ensures var r, r' := Play(lt, s, net), Play(lt, s, net');
      forall k {:trigger r'[k]} ::
        (0 <= k < |s| && k != i && k != j && k != i2 && k != j2 && k != i3 && k != j3) ==> r'[k] == r[k]
  {
    hide StrictWeak, Lower, Upper, Play, Connects, Network.Cmp;
    lo, hi, lo2, hi2, net' := Step2(lt, v, s, net, i, j, x, y, i2, j2, x2, y2);
    lo3, hi3, net' := Step(lt, v, s, net', i3, j3, x3, y3);
  }

  /** Four comparators that share no wire. */
  lemma Step4<T(!new)>(lt: Less<T>, v: T, s: seq<T>, net: Network,
                       i: nat, j: nat, x: T, y: T, i2: nat, j2: nat, x2: T, y2: T,
                       i3: nat, j3: nat, x3: T, y3: T, i4: nat, j4: nat, x4: T, y4: T)
    returns (lo: T, hi: T, lo2: T, hi2: T, lo3: T, hi3: T, lo4: T, hi4: T, net': Network)
    requires StrictWeak(lt) && i < j < |s| && i2 < j2 < |s| && i3 < j3 < |s| && i4 < j4 < |s| && Connects(net, |s|)
    requires i2 != i && i2 != j && j2 != i && j2 != j && i4 != i3 && i4 != j3 && j4 != i3 && j4 != j3
    requires i3 != i && i3 != j && i3 != i2 && i3 != j2 && j3 != i && j3 != j && j3 != i2 && j3 != j2
    requires i4 != i && i4 != j && i4 != i2 && i4 != j2 && j4 != i && j4 != j && j4 != i2 && j4 != j2
    requires Play(lt, s, net)[i] == x && Play(lt, s, net)[j] == y && Play(lt, s, net)[i2] == x2
      && Play(lt, s, net)[j2] == y2
    requires Play(lt, s, net)[i3] == x3 && Play(lt, s, net)[j3] == y3 && Play(lt, s, net)[i4] == x4
      && Play(lt, s, net)[j4] == y4
    ensures net' == net.Cmp(i, j).Cmp(i2, j2).Cmp(i3, j3).Cmp(i4, j4) && Connects(net', |s|)
    ensures Play(lt, s, net')[i] == lo && Play(lt, s, net')[j] == hi && Gate(lt, v, x, y, lo, hi)
    ensures Play(lt, s, net')[i2] == lo2 && Play(lt, s, net')[j2] == hi2 && Gate(lt, v, x2, y2, lo2, hi2)
    ensures Play(lt, s, net')[i3] == lo3 && Play(lt, s, net')[j3] == hi3 && Gate(lt, v, x3, y3, lo3, hi3)
    ensures Play(lt, s, net')[i4] == lo4 && Play(lt, s, net')[j4] == hi4 && Gate(lt, v, x4, y4, lo4, hi4)
    ensures var r, r' := Play(lt, s, net), Play(lt, s, net');
      forall k {:trigger r'[k]} ::
        (0 <= k < |s| && k != i && k != j && k != i2 && k != j2 && k != i3 && k != j3 && k != i4 && k != j4) ==>
          r'[k] == r[k]
  {
    hide StrictWeak, Lower, Upper, Play, Connects, Network.Cmp;
    lo, hi, lo2, hi2, net' := Step2(lt, v, s, net, i, j, x, y, i2, j2, x2, y2);
    lo3, hi3, lo4, hi4, net' := Step2(lt, v, s, net', i3, j3, x3, y3, i4, j4, x4, y4);
  }

  /** Among the first `n` elements of `r` those below `v` stand in front of the others. */
  ghost predicate Separated<T(!new)>(lt: Less<T>, r: seq<T>, v: T, n: nat)
    requires n <= |r|
    decreases n
  {
    n <= 1 || (Separated(lt, r, v, n - 1) && (lt(r[n - 1], v) ==> lt(r[n - 2], v)))
  }

  lemma {:induction false} SeparatedAt<T(!new)>(lt: Less<T>, r: seq<T>, v: T, n: nat, k: nat)
    requires k + 1 < n <= |r| && Separated(lt, r, v, n)
    ensures lt(r[k + 1], v) ==> lt(r[k], v)
  {
    if k + 2 < n {
      SeparatedAt(lt, r, v, n - 1, k);
    }
  }

  lemma ExtendSeparated<T(!new)>(lt: Less<T>, r: seq<T>, v: T, n: nat, x: T, y: T)
    requires 0 < n < |r| && r[n - 1] == x && r[n] == y
    requires n > 1 ==> Separated(lt, r, v, n)
    requires lt(y, v) ==> lt(x, v)
    ensures Separated(lt, r, v, n + 1)
  {
  }

  /** A range that is separated at every threshold is sorted. */
  lemma SeparatedIsSorted<T(!new)>(lt: Less<T>, r: seq<T>)
    requires StrictWeak(lt) && forall v :: Separated(lt, r, v, |r|)
    ensures Sorted(lt, r, 0, |r|)
  {
    forall k | 0 <= k < |r| - 1 ensures !lt(r[k + 1], r[k]) {
      SeparatedAt(lt, r, r[k], |r|, k);
      NotLessRefl(lt, r[k]);
    }
    NeighboursSorted(lt, r, |r|);
  }

  lemma {:induction false} NeighboursSorted<T(!new)>(lt: Less<T>, r: seq<T>, end: nat)
    requires StrictWeak(lt) && end <= |r|
    requires forall k :: 0 <= k < end - 1 ==> !lt(r[k + 1], r[k])
    ensures Sorted(lt, r, 0, end)
  {
    if end > 1 {
      NeighboursSorted(lt, r, end - 1);
      forall p | 0 <= p < end - 1 ensures !lt(r[end - 1], r[p]) {
        NotLessTrans(lt, r[end - 1], r[end - 2], r[p]);
      }
    }
  }

  lemma PlayStart<T>(lt: Less<T>, s: seq<T>)
    ensures Connects(Start, |s|) && Play(lt, s, Start) == s
  {
  }

  const NETWORK_2 := Start
    .Cmp(0, 1)

  const NETWORK_3 := Start
    .Cmp(1, 2)
    .Cmp(0, 2)
    .Cmp(0, 1)

  const NETWORK_4 := Start
    .Cmp(0, 1).Cmp(2, 3)
    .Cmp(0, 2).Cmp(1, 3)
    .Cmp(1, 2)

  const NETWORK_5 := Start
    .Cmp(0, 1).Cmp(3, 4)
    .Cmp(2, 4)
    .Cmp(2, 3).Cmp(1, 4)
    .Cmp(0, 3)
    .Cmp(0, 2).Cmp(1, 3)
    .Cmp(1, 2)

  const NETWORK_6 := Start
    .Cmp(1, 2).Cmp(4, 5)
    .Cmp(0, 2).Cmp(3, 5)
    .Cmp(0, 1).Cmp(3, 4).Cmp(2, 5)
    .Cmp(0, 3).Cmp(1, 4)
    .Cmp(2, 4).Cmp(1, 3)
    .Cmp(2, 3)

  const NETWORK_7 := Start
    .Cmp(1, 2).Cmp(3, 4).Cmp(5, 6)
    .Cmp(0, 2).Cmp(3, 5).Cmp(4, 6)
    .Cmp(0, 1).Cmp(4, 5).Cmp(2, 6)
    .Cmp(0, 4).Cmp(1, 5)
    .Cmp(0, 3).Cmp(2, 5)
    .Cmp(1, 3).Cmp(2, 4)
    .Cmp(2, 3)

  const NETWORK_8 := Start
    .Cmp(0, 1).Cmp(2, 3).Cmp(4, 5).Cmp(6, 7)
    .Cmp(0, 2).Cmp(1, 3).Cmp(4, 6).Cmp(5, 7)
    .Cmp(1, 2).Cmp(5, 6).Cmp(0, 4).Cmp(3, 7)
    .Cmp(1, 5).Cmp(2, 6)
    .Cmp(1, 4).Cmp(3, 6)
    .Cmp(2, 4).Cmp(3, 5)
    .Cmp(3, 4)

  const NETWORK_9 := Start
    .Cmp(0, 1).Cmp(3, 4).Cmp(6, 7)
    .Cmp(1, 2).Cmp(4, 5).Cmp(7, 8)
    .Cmp(0, 1).Cmp(3, 4).Cmp(6, 7)
    .Cmp(0, 3)
    .Cmp(3, 6)
    .Cmp(0, 3).Cmp(1, 4)
    .Cmp(4, 7)
    .Cmp(1, 4).Cmp(2, 5)
    .Cmp(5, 8)
    .Cmp(2, 5).Cmp(1, 3)
    .Cmp(5, 7).Cmp(2, 6)
    .Cmp(4, 6)
    .Cmp(2, 4)
    .Cmp(2, 3).Cmp(5, 6)

  const NETWORK_10 := Start
    .Cmp(0, 8).Cmp(1, 9).Cmp(2, 7).Cmp(3, 6).Cmp(4, 5)
    .Cmp(0, 2).Cmp(1, 3).Cmp(4, 8).Cmp(5, 7).Cmp(6, 9)
    .Cmp(0, 4).Cmp(1, 5).Cmp(2, 6).Cmp(3, 7)
    .Cmp(0, 1).Cmp(2, 3).Cmp(4, 6).Cmp(5, 9).Cmp(7, 8)
    .Cmp(1, 2).Cmp(3, 5).Cmp(6, 7).Cmp(8, 9)
    .Cmp(2, 4).Cmp(3, 6).Cmp(5, 8)
    .Cmp(1, 2).Cmp(3, 4).Cmp(5, 6).Cmp(7, 8)

  const NETWORK_11 := Start
    .Cmp(0, 9).Cmp(1, 6).Cmp(2, 4).Cmp(3, 7).Cmp(5, 8)
    .Cmp(0, 1).Cmp(3, 5).Cmp(4, 10).Cmp(6, 9).Cmp(7, 8)
    .Cmp(1, 3).Cmp(2, 5).Cmp(4, 7).Cmp(8, 10)
    .Cmp(0, 4).Cmp(1, 2).Cmp(3, 7).Cmp(5, 9).Cmp(6, 8)
    .Cmp(0, 1).Cmp(2, 6).Cmp(4, 5).Cmp(7, 8).Cmp(9, 10)
    .Cmp(2, 4).Cmp(3, 6).Cmp(5, 7).Cmp(8, 9)
    .Cmp(1, 2).Cmp(3, 4).Cmp(5, 6).Cmp(7, 8)
    .Cmp(2, 3).Cmp(4, 5).Cmp(6, 7)

  const NETWORK_12 := Start
    .Cmp(0, 8).Cmp(1, 7).Cmp(2, 6).Cmp(3, 11).Cmp(4, 10).Cmp(5, 9)
    .Cmp(0, 1).Cmp(2, 5).Cmp(3, 4).Cmp(6, 9).Cmp(7, 8).Cmp(10, 11)
    .Cmp(0, 2).Cmp(1, 6).Cmp(5, 10).Cmp(9, 11)
    .Cmp(0, 3).Cmp(1, 2).Cmp(4, 6).Cmp(5, 7).Cmp(8, 11).Cmp(9, 10)
    .Cmp(1, 4).Cmp(3, 5).Cmp(6, 8).Cmp(7, 10)
    .Cmp(1, 3).Cmp(2, 5).Cmp(6, 9).Cmp(8, 10)
    .Cmp(2, 3).Cmp(4, 5).Cmp(6, 7).Cmp(8, 9)
    .Cmp(4, 6).Cmp(5, 7)
    .Cmp(3, 4).Cmp(5, 6).Cmp(7, 8)

  const NETWORK_13 := Start
    .Cmp(0, 12).Cmp(1, 10).Cmp(2, 9).Cmp(3, 7).Cmp(5, 11).Cmp(6, 8)
    .Cmp(1, 6).Cmp(2, 3).Cmp(4, 11).Cmp(7, 9).Cmp(8, 10)
    .Cmp(0, 4).Cmp(1, 2).Cmp(3, 6).Cmp(7, 8).Cmp(9, 10).Cmp(11, 12)
    .Cmp(4, 6).Cmp(5, 9).Cmp(8, 11).Cmp(10, 12)
    .Cmp(0, 5).Cmp(3, 8).Cmp(4, 7).Cmp(6, 11).Cmp(9, 10)
    .Cmp(0, 1).Cmp(2, 5).Cmp(6, 9).Cmp(7, 8).Cmp(10, 11)
    .Cmp(1, 3).Cmp(2, 4).Cmp(5, 6).Cmp(9, 10)
    .Cmp(1, 2).Cmp(3, 4).Cmp(5, 7).Cmp(6, 8)
    .Cmp(2, 3).Cmp(4, 5).Cmp(6, 7).Cmp(8, 9)
    .Cmp(3, 4).Cmp(5, 6)

  const NETWORK_14 := Start
    .Cmp(0, 1).Cmp(2, 3).Cmp(4, 5).Cmp(6, 7).Cmp(8, 9).Cmp(10, 11).Cmp(12, 13)
    .Cmp(0, 2).Cmp(1, 3).Cmp(4, 8).Cmp(5, 9).Cmp(10, 12).Cmp(11, 13)
    .Cmp(0, 4).Cmp(1, 2).Cmp(3, 7).Cmp(5, 8).Cmp(6, 10).Cmp(9, 13).Cmp(11, 12)
    .Cmp(0, 6).Cmp(1, 5).Cmp(3, 9).Cmp(4, 10).Cmp(7, 13).Cmp(8, 12)
    .Cmp(2, 10).Cmp(3, 11).Cmp(4, 6).Cmp(7, 9)
    .Cmp(1, 3).Cmp(2, 8).Cmp(5, 11).Cmp(6, 7).Cmp(10, 12)
    .Cmp(1, 4).Cmp(2, 6).Cmp(3, 5).Cmp(7, 11).Cmp(8, 10).Cmp(9, 12)
    .Cmp(2, 4).Cmp(3, 6).Cmp(5, 8).Cmp(7, 10).Cmp(9, 11)
    .Cmp(3, 4).Cmp(5, 6).Cmp(7, 8).Cmp(9, 10)
    .Cmp(6, 7)

  const NETWORK_15 := Start
    .Cmp(1, 2).Cmp(3, 10).Cmp(4, 14).Cmp(5, 8).Cmp(6, 13).Cmp(7, 12).Cmp(9, 11)
    .Cmp(0, 14).Cmp(1, 5).Cmp(2, 8).Cmp(3, 7).Cmp(6, 9).Cmp(10, 12).Cmp(11, 13)
    .Cmp(0, 7).Cmp(1, 6).Cmp(2, 9).Cmp(4, 10).Cmp(5, 11).Cmp(8, 13).Cmp(12, 14)
    .Cmp(0, 6).Cmp(2, 4).Cmp(3, 5).Cmp(7, 11).Cmp(8, 10).Cmp(9, 12).Cmp(13, 14)
    .Cmp(0, 3).Cmp(1, 2).Cmp(4, 7).Cmp(5, 9).Cmp(6, 8).Cmp(10, 11).Cmp(12, 13)
    .Cmp(0, 1).Cmp(2, 3).Cmp(4, 6).Cmp(7, 9).Cmp(10, 12).Cmp(11, 13)
    .Cmp(1, 2).Cmp(3, 5).Cmp(8, 10).Cmp(11, 12)
    .Cmp(3, 4).Cmp(5, 6).Cmp(7, 8).Cmp(9, 10)
    .Cmp(2, 3).Cmp(4, 5).Cmp(6, 7).Cmp(8, 9).Cmp(10, 11)
    .Cmp(5, 6).Cmp(7, 8)

  const NETWORK_16 := Start
    .Cmp(0, 13).Cmp(1, 12).Cmp(2, 15).Cmp(3, 14).Cmp(4, 8).Cmp(5, 6).Cmp(7, 11).Cmp(9, 10)
    .Cmp(0, 5).Cmp(1, 7).Cmp(2, 9).Cmp(3, 4).Cmp(6, 13).Cmp(8, 14).Cmp(10, 15).Cmp(11, 12)
    .Cmp(0, 1).Cmp(2, 3).Cmp(4, 5).Cmp(6, 8).Cmp(7, 9).Cmp(10, 11).Cmp(12, 13).Cmp(14, 15)
    .Cmp(0, 2).Cmp(1, 3).Cmp(4, 10).Cmp(5, 11).Cmp(6, 7).Cmp(8, 9).Cmp(12, 14).Cmp(13, 15)
    .Cmp(1, 2).Cmp(3, 12).Cmp(4, 6).Cmp(5, 7).Cmp(8, 10).Cmp(9, 11).Cmp(13, 14)
    .Cmp(1, 4).Cmp(2, 6).Cmp(5, 8).Cmp(7, 10).Cmp(9, 13).Cmp(11, 14)
    .Cmp(2, 4).Cmp(3, 6).Cmp(9, 12).Cmp(11, 13)
    .Cmp(3, 5).Cmp(6, 8).Cmp(7, 9).Cmp(10, 12)
    .Cmp(3, 4).Cmp(5, 6).Cmp(7, 8).Cmp(9, 10).Cmp(11, 12)
    .Cmp(6, 7).Cmp(8, 9)

  const NETWORK_17 := Start
    .Cmp(0, 11).Cmp(1, 15).Cmp(2, 10).Cmp(3, 5).Cmp(4, 6).Cmp(8, 12).Cmp(9, 16).Cmp(13, 14)
    .Cmp(0, 6).Cmp(1, 13).Cmp(2, 8).Cmp(4, 14).Cmp(5, 15).Cmp(7, 11)
    .Cmp(0, 8).Cmp(3, 7).Cmp(4, 9).Cmp(6, 16).Cmp(10, 11).Cmp(12, 14)
    .Cmp(0, 2).Cmp(1, 4).Cmp(5, 6).Cmp(7, 13).Cmp(8, 9).Cmp(10, 12).Cmp(11, 14).Cmp(15, 16)
    .Cmp(0, 3).Cmp(2, 5).Cmp(6, 11).Cmp(7, 10).Cmp(9, 13).Cmp(12, 15).Cmp(14, 16)
    .Cmp(0, 1).Cmp(3, 4).Cmp(5, 10).Cmp(6, 9).Cmp(7, 8).Cmp(11, 15).Cmp(13, 14)
    .Cmp(1, 2).Cmp(3, 7).Cmp(4, 8).Cmp(6, 12).Cmp(11, 13).Cmp(14, 15)
    .Cmp(1, 3).Cmp(2, 7).Cmp(4, 5).Cmp(9, 11).Cmp(10, 12).Cmp(13, 14)
    .Cmp(2, 3).Cmp(4, 6).Cmp(5, 7).Cmp(8, 10)
    .Cmp(3, 4).Cmp(6, 8).Cmp(7, 9).Cmp(10, 12)
    .Cmp(5, 6).Cmp(7, 8).Cmp(9, 10).Cmp(11, 12)
    .Cmp(4, 5).Cmp(6, 7).Cmp(8, 9).Cmp(10, 11).Cmp(12, 13)

  lemma Network2Separates<T(!new)>(lt: Less<T>, s: seq<T>, v: T)
    requires StrictWeak(lt) && |s| == 2
    ensures Connects(NETWORK_2, 2) && Separated(lt, Play(lt, s, NETWORK_2), v, 2)
  {
    hide StrictWeak, Lower, Upper, CompareExchange, Play, Connects, Network.Cmp, Separated;
    PlayStart(lt, s);
    var net := Start;
    var y0, y1 := s[0], s[1];
    y0, y1, net := Step(lt, v, s, net, 0, 1, y0, y1);
    assert net == NETWORK_2;
    var r := Play(lt, s, net);
    ExtendSeparated(lt, r, v, 1, y0, y1);
  }

  lemma Network3Separates<T(!new)>(lt: Less<T>, s: seq<T>, v: T)
    requires StrictWeak(lt) && |s| == 3
    ensures Connects(NETWORK_3, 3) && Separated(lt, Play(lt, s, NETWORK_3), v, 3)
  {
    hide StrictWeak, Lower, Upper, CompareExchange, Play, Connects, Network.Cmp, Separated;
    PlayStart(lt, s);
    var net := Start;
    var y0, y1, y2 := s[0], s[1], s[2];
    y1, y2, net := Step(lt, v, s, net, 1, 2, y1, y2);
    y0, y2, net := Step(lt, v, s, net, 0, 2, y0, y2);
    y0, y1, net := Step(lt, v, s, net, 0, 1, y0, y1);
    assert net == NETWORK_3;
    var r := Play(lt, s, net);
    ExtendSeparated(lt, r, v, 1, y0, y1);
    ExtendSeparated(lt, r, v, 2, y1, y2);
  }

  lemma Network4Separates<T(!new)>(lt: Less<T>, s: seq<T>, v: T)
    requires StrictWeak(lt) && |s| == 4
    ensures Connects(NETWORK_4, 4) && Separated(lt, Play(lt, s, NETWORK_4), v, 4)
  {
    hide StrictWeak, Lower, Upper, CompareExchange, Play, Connects, Network.Cmp, Separated;
    PlayStart(lt, s);
    var net := Start;
    var y0, y1, y2, y3 := s[0], s[1], s[2], s[3];
    y0, y1, y2, y3, net := Step2(lt, v, s, net, 0, 1, y0, y1, 2, 3, y2, y3);
    y0, y2, y1, y3, net := Step2(lt, v, s, net, 0, 2, y0, y2, 1, 3, y1, y3);
    y1, y2, net := Step(lt, v, s, net, 1, 2, y1, y2);
    assert net == NETWORK_4;
    var r := Play(lt, s, net);
    ExtendSeparated(lt, r, v, 1, y0, y1);
    ExtendSeparated(lt, r, v, 2, y1, y2);
    ExtendSeparated(lt, r, v, 3, y2, y3);
  }

  lemma Network5Separates<T(!new)>(lt: Less<T>, s: seq<T>, v: T)
    requires StrictWeak(lt) && |s| == 5
    ensures Connects(NETWORK_5, 5) && Separated(lt, Play(lt, s, NETWORK_5), v, 5)
  {
    hide StrictWeak, Lower, Upper, CompareExchange, Play, Connects, Network.Cmp, Separated;
    PlayStart(lt, s);
    var net := Start;
    var y0, y1, y2, y3, y4 := s[0], s[1], s[2], s[3], s[4];
    y0, y1, y3, y4, net := Step2(lt, v, s, net, 0, 1, y0, y1, 3, 4, y3, y4);
    y2, y4, net := Step(lt, v, s, net, 2, 4, y2, y4);
    y2, y3, y1, y4, net := Step2(lt, v, s, net, 2, 3, y2, y3, 1, 4, y1, y4);
    y0, y3, net := Step(lt, v, s, net, 0, 3, y0, y3);
    y0, y2, y1, y3, net := Step2(lt, v, s, net, 0, 2, y0, y2, 1, 3, y1, y3);
    y1, y2, net := Step(lt, v, s, net, 1, 2, y1, y2);
    assert net == NETWORK_5;
    var r := Play(lt, s, net);
    ExtendSeparated(lt, r, v, 1, y0, y1);
    ExtendSeparated(lt, r, v, 2, y1, y2);
    ExtendSeparated(lt, r, v, 3, y2, y3);
    ExtendSeparated(lt, r, v, 4, y3, y4);
  }

  lemma Network6Separates<T(!new)>(lt: Less<T>, s: seq<T>, v: T)
    requires StrictWeak(lt) && |s| == 6
    ensures Connects(NETWORK_6, 6) && Separated(lt, Play(lt, s, NETWORK_6), v, 6)
  {
    hide StrictWeak, Lower, Upper, CompareExchange, Play, Connects, Network.Cmp, Separated;
    PlayStart(lt, s);
    var net := Start;
    var y0, y1, y2, y3, y4, y5 := s[0], s[1], s[2], s[3], s[4], s[5];
    y1, y2, y4, y5, net := Step2(lt, v, s, net, 1, 2, y1, y2, 4, 5, y4, y5);
    y0, y2, y3, y5, net := Step2(lt, v, s, net, 0, 2, y0, y2, 3, 5, y3, y5);
    y0, y1, y3, y4, y2, y5, net := Step3(lt, v, s, net, 0, 1, y0, y1, 3, 4, y3, y4, 2, 5, y2, y5);
    y0, y3, y1, y4, net := Step2(lt, v, s, net, 0, 3, y0, y3, 1, 4, y1, y4);
    y2, y4, y1, y3, net := Step2(lt, v, s, net, 2, 4, y2, y4, 1, 3, y1, y3);
    y2, y3, net := Step(lt, v, s, net, 2, 3, y2, y3);
    assert net == NETWORK_6;
    var r := Play(lt, s, net);
    ExtendSeparated(lt, r, v, 1, y0, y1);
    ExtendSeparated(lt, r, v, 2, y1, y2);
    ExtendSeparated(lt, r, v, 3, y2, y3);
    ExtendSeparated(lt, r, v, 4, y3, y4);
    ExtendSeparated(lt, r, v, 5, y4, y5);
  }

  lemma Network7Separates<T(!new)>(lt: Less<T>, s: seq<T>, v: T)
    requires StrictWeak(lt) && |s| == 7
    ensures Connects(NETWORK_7, 7) && Separated(lt, Play(lt, s, NETWORK_7), v, 7)
  {
    hide StrictWeak, Lower, Upper, CompareExchange, Play, Connects, Network.Cmp, Separated;
    PlayStart(lt, s);
    var net := Start;
    var y0, y1, y2, y3, y4, y5, y6 := s[0], s[1], s[2], s[3], s[4], s[5], s[6];
    y1, y2, y3, y4, y5, y6, net := Step3(lt, v, s, net, 1, 2, y1, y2, 3, 4, y3, y4, 5, 6, y5, y6);
    y0, y2, y3, y5, y4, y6, net := Step3(lt, v, s, net, 0, 2, y0, y2, 3, 5, y3, y5, 4, 6, y4, y6);
    y0, y1, y4, y5, y2, y6, net := Step3(lt, v, s, net, 0, 1, y0, y1, 4, 5, y4, y5, 2, 6, y2, y6);
    y0, y4, y1, y5, net := Step2(lt, v, s, net, 0, 4, y0, y4, 1, 5, y1, y5);
    y0, y3, y2, y5, net := Step2(lt, v, s, net, 0, 3, y0, y3, 2, 5, y2, y5);
    y1, y3, y2, y4, net := Step2(lt, v, s, net, 1, 3, y1, y3, 2, 4, y2, y4);
    y2, y3, net := Step(lt, v, s, net, 2, 3, y2, y3);
    assert net == NETWORK_7;
    var r := Play(lt, s, net);
    ExtendSeparated(lt, r, v, 1, y0, y1);
    ExtendSeparated(lt, r, v, 2, y1, y2);
    ExtendSeparated(lt, r, v, 3, y2, y3);
    ExtendSeparated(lt, r, v, 4, y3, y4);
    ExtendSeparated(lt, r, v, 5, y4, y5);
    ExtendSeparated(lt, r, v, 6, y5, y6);
  }

  lemma Network8Separates<T(!new)>(lt: Less<T>, s: seq<T>, v: T)
    requires StrictWeak(lt) && |s| == 8
    ensures Connects(NETWORK_8, 8) && Separated(lt, Play(lt, s, NETWORK_8), v, 8)
  {
    hide StrictWeak, Lower, Upper, CompareExchange, Play, Connects, Network.Cmp, Separated;
    PlayStart(lt, s);
    var net := Start;
    var y0, y1, y2, y3, y4, y5, y6, y7 := s[0], s[1], s[2], s[3], s[4], s[5], s[6], s[7];
    y0, y1, y2, y3, y4, y5, y6, y7, net := Step4(lt, v, s, net, 0, 1, y0, y1, 2, 3, y2, y3, 4, 5, y4, y5, 6, 7, y6,
      y7);
    y0, y2, y1, y3, y4, y6, y5, y7, net := Step4(lt, v, s, net, 0, 2, y0, y2, 1, 3, y1, y3, 4, 6, y4, y6, 5, 7, y5,
      y7);
    y1, y2, y5, y6, y0, y4, y3, y7, net := Step4(lt, v, s, net, 1, 2, y1, y2, 5, 6, y5, y6, 0, 4, y0, y4, 3, 7, y3,
      y7);
    y1, y5, y2, y6, net := Step2(lt, v, s, net, 1, 5, y1, y5, 2, 6, y2, y6);
    y1, y4, y3, y6, net := Step2(lt, v, s, net, 1, 4, y1, y4, 3, 6, y3, y6);
    y2, y4, y3, y5, net := Step2(lt, v, s, net, 2, 4, y2, y4, 3, 5, y3, y5);
    y3, y4, net := Step(lt, v, s, net, 3, 4, y3, y4);
    assert net == NETWORK_8;
    var r := Play(lt, s, net);
    ExtendSeparated(lt, r, v, 1, y0, y1);
    ExtendSeparated(lt, r, v, 2, y1, y2);
    ExtendSeparated(lt, r, v, 3, y2, y3);
    ExtendSeparated(lt, r, v, 4, y3, y4);
    ExtendSeparated(lt, r, v, 5, y4, y5);
    ExtendSeparated(lt, r, v, 6, y5, y6);
    ExtendSeparated(lt, r, v, 7, y6, y7);
  }

  lemma Network9Separates<T(!new)>(lt: Less<T>, s: seq<T>, v: T)
    requires StrictWeak(lt) && |s| == 9
    ensures Connects(NETWORK_9, 9) && Separated(lt, Play(lt, s, NETWORK_9), v, 9)
  {
    hide StrictWeak, Lower, Upper, CompareExchange, Play, Connects, Network.Cmp, Separated;
    PlayStart(lt, s);
    var net := Start;
    var y0, y1, y2, y3, y4, y5, y6, y7, y8 := s[0], s[1], s[2], s[3], s[4], s[5], s[6], s[7], s[8];
    y0, y1, y3, y4, y6, y7, net := Step3(lt, v, s, net, 0, 1, y0, y1, 3, 4, y3, y4, 6, 7, y6, y7);
    y1, y2, y4, y5, y7, y8, net := Step3(lt, v, s, net, 1, 2, y1, y2, 4, 5, y4, y5, 7, 8, y7, y8);
    y0, y1, y3, y4, y6, y7, net := Step3(lt, v, s, net, 0, 1, y0, y1, 3, 4, y3, y4, 6, 7, y6, y7);
    y0, y3, net := Step(lt, v, s, net, 0, 3, y0, y3);
    y3, y6, net := Step(lt, v, s, net, 3, 6, y3, y6);
    y0, y3, y1, y4, net := Step2(lt, v, s, net, 0, 3, y0, y3, 1, 4, y1, y4);
    y4, y7, net := Step(lt, v, s, net, 4, 7, y4, y7);
    y1, y4, y2, y5, net := Step2(lt, v, s, net, 1, 4, y1, y4, 2, 5, y2, y5);
    y5, y8, net := Step(lt, v, s, net, 5, 8, y5, y8);
    y2, y5, y1, y3, net := Step2(lt, v, s, net, 2, 5, y2, y5, 1, 3, y1, y3);
    y5, y7, y2, y6, net := Step2(lt, v, s, net, 5, 7, y5, y7, 2, 6, y2, y6);
    y4, y6, net := Step(lt, v, s, net, 4, 6, y4, y6);
    y2, y4, net := Step(lt, v, s, net, 2, 4, y2, y4);
    y2, y3, y5, y6, net := Step2(lt, v, s, net, 2, 3, y2, y3, 5, 6, y5, y6);
    assert net == NETWORK_9;
    var r := Play(lt, s, net);
    ExtendSeparated(lt, r, v, 1, y0, y1);
    ExtendSeparated(lt, r, v, 2, y1, y2);
    ExtendSeparated(lt, r, v, 3, y2, y3);
    ExtendSeparated(lt, r, v, 4, y3, y4);
    ExtendSeparated(lt, r, v, 5, y4, y5);
    ExtendSeparated(lt, r, v, 6, y5, y6);
    ExtendSeparated(lt, r, v, 7, y6, y7);
    ExtendSeparated(lt, r, v, 8, y7, y8);
  }

  lemma Network11Separates<T(!new)>(lt: Less<T>, s: seq<T>, v: T)
    requires StrictWeak(lt) && |s| == 11
    ensures Connects(NETWORK_11, 11) && Separated(lt, Play(lt, s, NETWORK_11), v, 11)
  {
    hide StrictWeak, Lower, Upper, CompareExchange, Play, Connects, Network.Cmp, Separated;
    PlayStart(lt, s);
    var net := Start;
    var y0, y1, y2, y3, y4, y5, y6, y7, y8, y9, y10 := s[0], s[1], s[2], s[3], s[4], s[5], s[6], s[7], s[8], s[9],
      s[10];
    y0, y9, y1, y6, y2, y4, y3, y7, net := Step4(lt, v, s, net, 0, 9, y0, y9, 1, 6, y1, y6, 2, 4, y2, y4, 3, 7, y3,
      y7);
    y5, y8, y0, y1, net := Step2(lt, v, s, net, 5, 8, y5, y8, 0, 1, y0, y1);
    y3, y5, y4, y10, y6, y9, y7, y8, net := Step4(lt, v, s, net, 3, 5, y3, y5, 4, 10, y4, y10, 6, 9, y6, y9, 7, 8,
      y7, y8);
    y1, y3, y2, y5, y4, y7, y8, y10, net := Step4(lt, v, s, net, 1, 3, y1, y3, 2, 5, y2, y5, 4, 7, y4, y7, 8, 10,
      y8, y10);
    y0, y4, y1, y2, y3, y7, y5, y9, net := Step4(lt, v, s, net, 0, 4, y0, y4, 1, 2, y1, y2, 3, 7, y3, y7, 5, 9, y5,
      y9);
    y6, y8, y0, y1, net := Step2(lt, v, s, net, 6, 8, y6, y8, 0, 1, y0, y1);
    y2, y6, y4, y5, y7, y8, y9, y10, net := Step4(lt, v, s, net, 2, 6, y2, y6, 4, 5, y4, y5, 7, 8, y7, y8, 9, 10,
      y9, y10);
    y2, y4, y3, y6, y5, y7, y8, y9, net := Step4(lt, v, s, net, 2, 4, y2, y4, 3, 6, y3, y6, 5, 7, y5, y7, 8, 9, y8,
      y9);
    y1, y2, y3, y4, y5, y6, y7, y8, net := Step4(lt, v, s, net, 1, 2, y1, y2, 3, 4, y3, y4, 5, 6, y5, y6, 7, 8, y7,
      y8);
    y2, y3, y4, y5, y6, y7, net := Step3(lt, v, s, net, 2, 3, y2, y3, 4, 5, y4, y5, 6, 7, y6, y7);
    assert net == NETWORK_11;
    var r := Play(lt, s, net);
    ExtendSeparated(lt, r, v, 1, y0, y1);
    ExtendSeparated(lt, r, v, 2, y1, y2);
    ExtendSeparated(lt, r, v, 3, y2, y3);
    ExtendSeparated(lt, r, v, 4, y3, y4);
    ExtendSeparated(lt, r, v, 5, y4, y5);
    ExtendSeparated(lt, r, v, 6, y5, y6);
    ExtendSeparated(lt, r, v, 7, y6, y7);
    ExtendSeparated(lt, r, v, 8, y7, y8);
    ExtendSeparated(lt, r, v, 9, y8, y9);
    ExtendSeparated(lt, r, v, 10, y9, y10);
  }

  lemma Network12Separates<T(!new)>(lt: Less<T>, s: seq<T>, v: T)
    requires StrictWeak(lt) && |s| == 12
    ensures Connects(NETWORK_12, 12) && Separated(lt, Play(lt, s, NETWORK_12), v, 12)
  {
    hide StrictWeak, Lower, Upper, CompareExchange, Play, Connects, Network.Cmp, Separated;
    PlayStart(lt, s);
    var net := Start;
    var y0, y1, y2, y3, y4, y5, y6, y7, y8, y9, y10, y11 := s[0], s[1], s[2], s[3], s[4], s[5], s[6], s[7], s[8],
      s[9], s[10], s[11];
    y0, y8, y1, y7, y2, y6, y3, y11, net := Step4(lt, v, s, net, 0, 8, y0, y8, 1, 7, y1, y7, 2, 6, y2, y6, 3, 11,
      y3, y11);
    y4, y10, y5, y9, y0, y1, net := Step3(lt, v, s, net, 4, 10, y4, y10, 5, 9, y5, y9, 0, 1, y0, y1);
    y2, y5, y3, y4, y6, y9, y7, y8, net := Step4(lt, v, s, net, 2, 5, y2, y5, 3, 4, y3, y4, 6, 9, y6, y9, 7, 8, y7,
      y8);
    y10, y11, y0, y2, y1, y6, net := Step3(lt, v, s, net, 10, 11, y10, y11, 0, 2, y0, y2, 1, 6, y1, y6);
    y5, y10, y9, y11, y0, y3, y1, y2, net := Step4(lt, v, s, net, 5, 10, y5, y10, 9, 11, y9, y11, 0, 3, y0, y3, 1,
      2, y1, y2);
    y4, y6, y5, y7, y8, y11, y9, y10, net := Step4(lt, v, s, net, 4, 6, y4, y6, 5, 7, y5, y7, 8, 11, y8, y11, 9, 10,
      y9, y10);
    y1, y4, y3, y5, y6, y8, y7, y10, net := Step4(lt, v, s, net, 1, 4, y1, y4, 3, 5, y3, y5, 6, 8, y6, y8, 7, 10,
      y7, y10);
    y1, y3, y2, y5, y6, y9, y8, y10, net := Step4(lt, v, s, net, 1, 3, y1, y3, 2, 5, y2, y5, 6, 9, y6, y9, 8, 10,
      y8, y10);
    y2, y3, y4, y5, y6, y7, y8, y9, net := Step4(lt, v, s, net, 2, 3, y2, y3, 4, 5, y4, y5, 6, 7, y6, y7, 8, 9, y8,
      y9);
    y4, y6, y5, y7, net := Step2(lt, v, s, net, 4, 6, y4, y6, 5, 7, y5, y7);
    y3, y4, y5, y6, y7, y8, net := Step3(lt, v, s, net, 3, 4, y3, y4, 5, 6, y5, y6, 7, 8, y7, y8);
    assert net == NETWORK_12;
    var r := Play(lt, s, net);
    ExtendSeparated(lt, r, v, 1, y0, y1);
    ExtendSeparated(lt, r, v, 2, y1, y2);
    ExtendSeparated(lt, r, v, 3, y2, y3);
    ExtendSeparated(lt, r, v, 4, y3, y4);
    ExtendSeparated(lt, r, v, 5, y4, y5);
    ExtendSeparated(lt, r, v, 6, y5, y6);
    ExtendSeparated(lt, r, v, 7, y6, y7);
    ExtendSeparated(lt, r, v, 8, y7, y8);
    ExtendSeparated(lt, r, v, 9, y8, y9);
    ExtendSeparated(lt, r, v, 10, y9, y10);
    ExtendSeparated(lt, r, v, 11, y10, y11);
  }

  lemma Network13Separates<T(!new)>(lt: Less<T>, s: seq<T>, v: T)
    requires StrictWeak(lt) && |s| == 13
    ensures Connects(NETWORK_13, 13) && Separated(lt, Play(lt, s, NETWORK_13), v, 13)
  {
    hide StrictWeak, Lower, Upper, CompareExchange, Play, Connects, Network.Cmp, Separated;
    PlayStart(lt, s);
    var net := Start;
    var y0, y1, y2, y3, y4, y5, y6, y7, y8, y9, y10, y11, y12 := s[0], s[1], s[2], s[3], s[4], s[5], s[6], s[7],
      s[8], s[9], s[10], s[11], s[12];
    y0, y12, y1, y10, y2, y9, y3, y7, net := Step4(lt, v, s, net, 0, 12, y0, y12, 1, 10, y1, y10, 2, 9, y2, y9, 3,
      7, y3, y7);
    y5, y11, y6, y8, net := Step2(lt, v, s, net, 5, 11, y5, y11, 6, 8, y6, y8);
    y1, y6, y2, y3, y4, y11, y7, y9, net := Step4(lt, v, s, net, 1, 6, y1, y6, 2, 3, y2, y3, 4, 11, y4, y11, 7, 9,
      y7, y9);
    y8, y10, y0, y4, y1, y2, y3, y6, net := Step4(lt, v, s, net, 8, 10, y8, y10, 0, 4, y0, y4, 1, 2, y1, y2, 3, 6,
      y3, y6);
    y7, y8, y9, y10, y11, y12, y4, y6, net := Step4(lt, v, s, net, 7, 8, y7, y8, 9, 10, y9, y10, 11, 12, y11, y12,
      4, 6, y4, y6);
    y5, y9, y8, y11, y10, y12, net := Step3(lt, v, s, net, 5, 9, y5, y9, 8, 11, y8, y11, 10, 12, y10, y12);
    y0, y5, y3, y8, y4, y7, y6, y11, net := Step4(lt, v, s, net, 0, 5, y0, y5, 3, 8, y3, y8, 4, 7, y4, y7, 6, 11,
      y6, y11);
    y9, y10, y0, y1, y2, y5, net := Step3(lt, v, s, net, 9, 10, y9, y10, 0, 1, y0, y1, 2, 5, y2, y5);
    y6, y9, y7, y8, y10, y11, y1, y3, net := Step4(lt, v, s, net, 6, 9, y6, y9, 7, 8, y7, y8, 10, 11, y10, y11, 1,
      3, y1, y3);
    y2, y4, y5, y6, y9, y10, net := Step3(lt, v, s, net, 2, 4, y2, y4, 5, 6, y5, y6, 9, 10, y9, y10);
    y1, y2, y3, y4, y5, y7, y6, y8, net := Step4(lt, v, s, net, 1, 2, y1, y2, 3, 4, y3, y4, 5, 7, y5, y7, 6, 8, y6,
      y8);
    y2, y3, y4, y5, y6, y7, y8, y9, net := Step4(lt, v, s, net, 2, 3, y2, y3, 4, 5, y4, y5, 6, 7, y6, y7, 8, 9, y8,
      y9);
    y3, y4, y5, y6, net := Step2(lt, v, s, net, 3, 4, y3, y4, 5, 6, y5, y6);
    assert net == NETWORK_13;
    var r := Play(lt, s, net);
    ExtendSeparated(lt, r, v, 1, y0, y1);
    ExtendSeparated(lt, r, v, 2, y1, y2);
    ExtendSeparated(lt, r, v, 3, y2, y3);
    ExtendSeparated(lt, r, v, 4, y3, y4);
    ExtendSeparated(lt, r, v, 5, y4, y5);
    ExtendSeparated(lt, r, v, 6, y5, y6);
    ExtendSeparated(lt, r, v, 7, y6, y7);
    ExtendSeparated(lt, r, v, 8, y7, y8);
    ExtendSeparated(lt, r, v, 9, y8, y9);
    ExtendSeparated(lt, r, v, 10, y9, y10);
    ExtendSeparated(lt, r, v, 11, y10, y11);
    ExtendSeparated(lt, r, v, 12, y11, y12);
  }

  lemma Network14Separates<T(!new)>(lt: Less<T>, s: seq<T>, v: T)
    requires StrictWeak(lt) && |s| == 14
    ensures Connects(NETWORK_14, 14) && Separated(lt, Play(lt, s, NETWORK_14), v, 14)
  {
    hide StrictWeak, Lower, Upper, CompareExchange, Play, Connects, Network.Cmp, Separated;
    PlayStart(lt, s);
    var net := Start;
    var y0, y1, y2, y3, y4, y5, y6, y7, y8, y9, y10, y11, y12, y13 := s[0], s[1], s[2], s[3], s[4], s[5], s[6],
      s[7], s[8], s[9], s[10], s[11], s[12], s[13];
    y0, y1, y2, y3, y4, y5, y6, y7, net := Step4(lt, v, s, net, 0, 1, y0, y1, 2, 3, y2, y3, 4, 5, y4, y5, 6, 7, y6,
      y7);
    y8, y9, y10, y11, y12, y13, y0, y2, net := Step4(lt, v, s, net, 8, 9, y8, y9, 10, 11, y10, y11, 12, 13, y12,
      y13, 0, 2, y0, y2);
    y1, y3, y4, y8, y5, y9, y10, y12, net := Step4(lt, v, s, net, 1, 3, y1, y3, 4, 8, y4, y8, 5, 9, y5, y9, 10, 12,
      y10, y12);
    y11, y13, y0, y4, y1, y2, y3, y7, net := Step4(lt, v, s, net, 11, 13, y11, y13, 0, 4, y0, y4, 1, 2, y1, y2, 3,
      7, y3, y7);
    y5, y8, y6, y10, y9, y13, y11, y12, net := Step4(lt, v, s, net, 5, 8, y5, y8, 6, 10, y6, y10, 9, 13, y9, y13,
      11, 12, y11, y12);
    y0, y6, y1, y5, y3, y9, y4, y10, net := Step4(lt, v, s, net, 0, 6, y0, y6, 1, 5, y1, y5, 3, 9, y3, y9, 4, 10,
      y4, y10);
    y7, y13, y8, y12, y2, y10, y3, y11, net := Step4(lt, v, s, net, 7, 13, y7, y13, 8, 12, y8, y12, 2, 10, y2, y10,
      3, 11, y3, y11);
    y4, y6, y7, y9, y1, y3, y2, y8, net := Step4(lt, v, s, net, 4, 6, y4, y6, 7, 9, y7, y9, 1, 3, y1, y3, 2, 8, y2,
      y8);
    y5, y11, y6, y7, y10, y12, y1, y4, net := Step4(lt, v, s, net, 5, 11, y5, y11, 6, 7, y6, y7, 10, 12, y10, y12,
      1, 4, y1, y4);
    y2, y6, y3, y5, y7, y11, y8, y10, net := Step4(lt, v, s, net, 2, 6, y2, y6, 3, 5, y3, y5, 7, 11, y7, y11, 8, 10,
      y8, y10);
    y9, y12, y2, y4, y3, y6, y5, y8, net := Step4(lt, v, s, net, 9, 12, y9, y12, 2, 4, y2, y4, 3, 6, y3, y6, 5, 8,
      y5, y8);
    y7, y10, y9, y11, y3, y4, y5, y6, net := Step4(lt, v, s, net, 7, 10, y7, y10, 9, 11, y9, y11, 3, 4, y3, y4, 5,
      6, y5, y6);
    y7, y8, y9, y10, net := Step2(lt, v, s, net, 7, 8, y7, y8, 9, 10, y9, y10);
    y6, y7, net := Step(lt, v, s, net, 6, 7, y6, y7);
    assert net == NETWORK_14;
    var r := Play(lt, s, net);
    ExtendSeparated(lt, r, v, 1, y0, y1);
    ExtendSeparated(lt, r, v, 2, y1, y2);
    ExtendSeparated(lt, r, v, 3, y2, y3);
    ExtendSeparated(lt, r, v, 4, y3, y4);
    ExtendSeparated(lt, r, v, 5, y4, y5);
    ExtendSeparated(lt, r, v, 6, y5, y6);
    ExtendSeparated(lt, r, v, 7, y6, y7);
    ExtendSeparated(lt, r, v, 8, y7, y8);
    ExtendSeparated(lt, r, v, 9, y8, y9);
    ExtendSeparated(lt, r, v, 10, y9, y10);
    ExtendSeparated(lt, r, v, 11, y10, y11);
    ExtendSeparated(lt, r, v, 12, y11, y12);
    ExtendSeparated(lt, r, v, 13, y12, y13);
  }

  lemma Network15Separates<T(!new)>(lt: Less<T>, s: seq<T>, v: T)
    requires StrictWeak(lt) && |s| == 15
    ensures Connects(NETWORK_15, 15) && Separated(lt, Play(lt, s, NETWORK_15), v, 15)
  {
    hide StrictWeak, Lower, Upper, CompareExchange, Play, Connects, Network.Cmp, Separated;
    PlayStart(lt, s);
    var net := Start;
    var y0, y1, y2, y3, y4, y5, y6, y7, y8, y9, y10, y11, y12, y13, y14 := s[0], s[1], s[2], s[3], s[4], s[5], s[6],
      s[7], s[8], s[9], s[10], s[11], s[12], s[13], s[14];
    y1, y2, y3, y10, y4, y14, y5, y8, net := Step4(lt, v, s, net, 1, 2, y1, y2, 3, 10, y3, y10, 4, 14, y4, y14, 5,
      8, y5, y8);
    y6, y13, y7, y12, y9, y11, y0, y14, net := Step4(lt, v, s, net, 6, 13, y6, y13, 7, 12, y7, y12, 9, 11, y9, y11,
      0, 14, y0, y14);
    y1, y5, y2, y8, y3, y7, y6, y9, net := Step4(lt, v, s, net, 1, 5, y1, y5, 2, 8, y2, y8, 3, 7, y3, y7, 6, 9, y6,
      y9);
    y10, y12, y11, y13, y0, y7, y1, y6, net := Step4(lt, v, s, net, 10, 12, y10, y12, 11, 13, y11, y13, 0, 7, y0,
      y7, 1, 6, y1, y6);
    y2, y9, y4, y10, y5, y11, y8, y13, net := Step4(lt, v, s, net, 2, 9, y2, y9, 4, 10, y4, y10, 5, 11, y5, y11, 8,
      13, y8, y13);
    y12, y14, y0, y6, y2, y4, y3, y5, net := Step4(lt, v, s, net, 12, 14, y12, y14, 0, 6, y0, y6, 2, 4, y2, y4, 3,
      5, y3, y5);
    y7, y11, y8, y10, y9, y12, y13, y14, net := Step4(lt, v, s, net, 7, 11, y7, y11, 8, 10, y8, y10, 9, 12, y9, y12,
      13, 14, y13, y14);
    y0, y3, y1, y2, y4, y7, y5, y9, net := Step4(lt, v, s, net, 0, 3, y0, y3, 1, 2, y1, y2, 4, 7, y4, y7, 5, 9, y5,
      y9);
    y6, y8, y10, y11, y12, y13, y0, y1, net := Step4(lt, v, s, net, 6, 8, y6, y8, 10, 11, y10, y11, 12, 13, y12,
      y13, 0, 1, y0, y1);
    y2, y3, y4, y6, y7, y9, y10, y12, net := Step4(lt, v, s, net, 2, 3, y2, y3, 4, 6, y4, y6, 7, 9, y7, y9, 10, 12,
      y10, y12);
    y11, y13, y1, y2, y3, y5, y8, y10, net := Step4(lt, v, s, net, 11, 13, y11, y13, 1, 2, y1, y2, 3, 5, y3, y5, 8,
      10, y8, y10);
    y11, y12, y3, y4, y5, y6, y7, y8, net := Step4(lt, v, s, net, 11, 12, y11, y12, 3, 4, y3, y4, 5, 6, y5, y6, 7,
      8, y7, y8);
    y9, y10, y2, y3, y4, y5, y6, y7, net := Step4(lt, v, s, net, 9, 10, y9, y10, 2, 3, y2, y3, 4, 5, y4, y5, 6, 7,
      y6, y7);
    y8, y9, y10, y11, y5, y6, net := Step3(lt, v, s, net, 8, 9, y8, y9, 10, 11, y10, y11, 5, 6, y5, y6);
    y7, y8, net := Step(lt, v, s, net, 7, 8, y7, y8);
    assert net == NETWORK_15;
    var r := Play(lt, s, net);
    ExtendSeparated(lt, r, v, 1, y0, y1);
    ExtendSeparated(lt, r, v, 2, y1, y2);
    ExtendSeparated(lt, r, v, 3, y2, y3);
    ExtendSeparated(lt, r, v, 4, y3, y4);
    ExtendSeparated(lt, r, v, 5, y4, y5);
    ExtendSeparated(lt, r, v, 6, y5, y6);
    ExtendSeparated(lt, r, v, 7, y6, y7);
    ExtendSeparated(lt, r, v, 8, y7, y8);
    ExtendSeparated(lt, r, v, 9, y8, y9);
    ExtendSeparated(lt, r, v, 10, y9, y10);
    ExtendSeparated(lt, r, v, 11, y10, y11);
    ExtendSeparated(lt, r, v, 12, y11, y12);
    ExtendSeparated(lt, r, v, 13, y12, y13);
    ExtendSeparated(lt, r, v, 14, y13, y14);
  }

  lemma Network16FirstBelow<T(!new)>(lt: Less<T>, s: seq<T>, v: T)
    requires StrictWeak(lt) && |s| == 16 && lt(s[0], v)
    ensures Connects(NETWORK_16, 16) && Separated(lt, Play(lt, s, NETWORK_16), v, 16)
  {
    hide StrictWeak, Lower, Upper, CompareExchange, Play, Connects, Network.Cmp, Separated;
    PlayStart(lt, s);
    var net := Start;
    var y0, y1, y2, y3, y4, y5, y6, y7, y8, y9, y10, y11, y12, y13, y14, y15 := s[0], s[1], s[2], s[3], s[4], s[5],
      s[6], s[7], s[8], s[9], s[10], s[11], s[12], s[13], s[14], s[15];
    y0, y13, y1, y12, y2, y15, y3, y14, net := Step4(lt, v, s, net, 0, 13, y0, y13, 1, 12, y1, y12, 2, 15, y2, y15,
      3, 14, y3, y14);
    y4, y8, y5, y6, y7, y11, y9, y10, net := Step4(lt, v, s, net, 4, 8, y4, y8, 5, 6, y5, y6, 7, 11, y7, y11, 9, 10,
      y9, y10);
    y0, y5, y1, y7, y2, y9, y3, y4, net := Step4(lt, v, s, net, 0, 5, y0, y5, 1, 7, y1, y7, 2, 9, y2, y9, 3, 4, y3,
      y4);
    y6, y13, y8, y14, y10, y15, y11, y12, net := Step4(lt, v, s, net, 6, 13, y6, y13, 8, 14, y8, y14, 10, 15, y10,
      y15, 11, 12, y11, y12);
    y0, y1, y2, y3, y4, y5, y6, y8, net := Step4(lt, v, s, net, 0, 1, y0, y1, 2, 3, y2, y3, 4, 5, y4, y5, 6, 8, y6,
      y8);
    y7, y9, y10, y11, y12, y13, y14, y15, net := Step4(lt, v, s, net, 7, 9, y7, y9, 10, 11, y10, y11, 12, 13, y12,
      y13, 14, 15, y14, y15);
    y0, y2, y1, y3, y4, y10, y5, y11, net := Step4(lt, v, s, net, 0, 2, y0, y2, 1, 3, y1, y3, 4, 10, y4, y10, 5, 11,
      y5, y11);
    y6, y7, y8, y9, y12, y14, y13, y15, net := Step4(lt, v, s, net, 6, 7, y6, y7, 8, 9, y8, y9, 12, 14, y12, y14,
      13, 15, y13, y15);
    y1, y2, y3, y12, y4, y6, y5, y7, net := Step4(lt, v, s, net, 1, 2, y1, y2, 3, 12, y3, y12, 4, 6, y4, y6, 5, 7,
      y5, y7);
    y8, y10, y9, y11, y13, y14, y1, y4, net := Step4(lt, v, s, net, 8, 10, y8, y10, 9, 11, y9, y11, 13, 14, y13,
      y14, 1, 4, y1, y4);
    y2, y6, y5, y8, y7, y10, y9, y13, net := Step4(lt, v, s, net, 2, 6, y2, y6, 5, 8, y5, y8, 7, 10, y7, y10, 9, 13,
      y9, y13);
    y11, y14, y2, y4, y3, y6, y9, y12, net := Step4(lt, v, s, net, 11, 14, y11, y14, 2, 4, y2, y4, 3, 6, y3, y6, 9,
      12, y9, y12);
    y11, y13, y3, y5, y6, y8, y7, y9, net := Step4(lt, v, s, net, 11, 13, y11, y13, 3, 5, y3, y5, 6, 8, y6, y8, 7,
      9, y7, y9);
    y10, y12, y3, y4, y5, y6, y7, y8, net := Step4(lt, v, s, net, 10, 12, y10, y12, 3, 4, y3, y4, 5, 6, y5, y6, 7,
      8, y7, y8);
    y9, y10, y11, y12, y6, y7, net := Step3(lt, v, s, net, 9, 10, y9, y10, 11, 12, y11, y12, 6, 7, y6, y7);
    y8, y9, net := Step(lt, v, s, net, 8, 9, y8, y9);
    assert net == NETWORK_16;
    var r := Play(lt, s, net);
    ExtendSeparated(lt, r, v, 1, y0, y1);
    ExtendSeparated(lt, r, v, 2, y1, y2);
    ExtendSeparated(lt, r, v, 3, y2, y3);
    ExtendSeparated(lt, r, v, 4, y3, y4);
    ExtendSeparated(lt, r, v, 5, y4, y5);
    ExtendSeparated(lt, r, v, 6, y5, y6);
    ExtendSeparated(lt, r, v, 7, y6, y7);
    ExtendSeparated(lt, r, v, 8, y7, y8);
    ExtendSeparated(lt, r, v, 9, y8, y9);
    ExtendSeparated(lt, r, v, 10, y9, y10);
    ExtendSeparated(lt, r, v, 11, y10, y11);
    ExtendSeparated(lt, r, v, 12, y11, y12);
    ExtendSeparated(lt, r, v, 13, y12, y13);
    ExtendSeparated(lt, r, v, 14, y13, y14);
    ExtendSeparated(lt, r, v, 15, y14, y15);
  }

  lemma Network16FirstNotBelow<T(!new)>(lt: Less<T>, s: seq<T>, v: T)
    requires StrictWeak(lt) && |s| == 16 && !lt(s[0], v)
    ensures Connects(NETWORK_16, 16) && Separated(lt, Play(lt, s, NETWORK_16), v, 16)
  {
    hide StrictWeak, Lower, Upper, CompareExchange, Play, Connects, Network.Cmp, Separated;
    PlayStart(lt, s);
    var net := Start;
    var y0, y1, y2, y3, y4, y5, y6, y7, y8, y9, y10, y11, y12, y13, y14, y15 := s[0], s[1], s[2], s[3], s[4], s[5],
      s[6], s[7], s[8], s[9], s[10], s[11], s[12], s[13], s[14], s[15];
    y0, y13, y1, y12, y2, y15, y3, y14, net := Step4(lt, v, s, net, 0, 13, y0, y13, 1, 12, y1, y12, 2, 15, y2, y15,
      3, 14, y3, y14);
    y4, y8, y5, y6, y7, y11, y9, y10, net := Step4(lt, v, s, net, 4, 8, y4, y8, 5, 6, y5, y6, 7, 11, y7, y11, 9, 10,
      y9, y10);
    y0, y5, y1, y7, y2, y9, y3, y4, net := Step4(lt, v, s, net, 0, 5, y0, y5, 1, 7, y1, y7, 2, 9, y2, y9, 3, 4, y3,
      y4);
    y6, y13, y8, y14, y10, y15, y11, y12, net := Step4(lt, v, s, net, 6, 13, y6, y13, 8, 14, y8, y14, 10, 15, y10,
      y15, 11, 12, y11, y12);
    y0, y1, y2, y3, y4, y5, y6, y8, net := Step4(lt, v, s, net, 0, 1, y0, y1, 2, 3, y2, y3, 4, 5, y4, y5, 6, 8, y6,
      y8);
    y7, y9, y10, y11, y12, y13, y14, y15, net := Step4(lt, v, s, net, 7, 9, y7, y9, 10, 11, y10, y11, 12, 13, y12,
      y13, 14, 15, y14, y15);
    y0, y2, y1, y3, y4, y10, y5, y11, net := Step4(lt, v, s, net, 0, 2, y0, y2, 1, 3, y1, y3, 4, 10, y4, y10, 5, 11,
      y5, y11);
    y6, y7, y8, y9, y12, y14, y13, y15, net := Step4(lt, v, s, net, 6, 7, y6, y7, 8, 9, y8, y9, 12, 14, y12, y14,
      13, 15, y13, y15);
    y1, y2, y3, y12, y4, y6, y5, y7, net := Step4(lt, v, s, net, 1, 2, y1, y2, 3, 12, y3, y12, 4, 6, y4, y6, 5, 7,
      y5, y7);
    y8, y10, y9, y11, y13, y14, y1, y4, net := Step4(lt, v, s, net, 8, 10, y8, y10, 9, 11, y9, y11, 13, 14, y13,
      y14, 1, 4, y1, y4);
    y2, y6, y5, y8, y7, y10, y9, y13, net := Step4(lt, v, s, net, 2, 6, y2, y6, 5, 8, y5, y8, 7, 10, y7, y10, 9, 13,
      y9, y13);
    y11, y14, y2, y4, y3, y6, y9, y12, net := Step4(lt, v, s, net, 11, 14, y11, y14, 2, 4, y2, y4, 3, 6, y3, y6, 9,
      12, y9, y12);
    y11, y13, y3, y5, y6, y8, y7, y9, net := Step4(lt, v, s, net, 11, 13, y11, y13, 3, 5, y3, y5, 6, 8, y6, y8, 7,
      9, y7, y9);
    y10, y12, y3, y4, y5, y6, y7, y8, net := Step4(lt, v, s, net, 10, 12, y10, y12, 3, 4, y3, y4, 5, 6, y5, y6, 7,
      8, y7, y8);
    y9, y10, y11, y12, y6, y7, net := Step3(lt, v, s, net, 9, 10, y9, y10, 11, 12, y11, y12, 6, 7, y6, y7);
    y8, y9, net := Step(lt, v, s, net, 8, 9, y8, y9);
    assert net == NETWORK_16;
    var r := Play(lt, s, net);
    ExtendSeparated(lt, r, v, 1, y0, y1);
    ExtendSeparated(lt, r, v, 2, y1, y2);
    ExtendSeparated(lt, r, v, 3, y2, y3);
    ExtendSeparated(lt, r, v, 4, y3, y4);
    ExtendSeparated(lt, r, v, 5, y4, y5);
    ExtendSeparated(lt, r, v, 6, y5, y6);
    ExtendSeparated(lt, r, v, 7, y6, y7);
    ExtendSeparated(lt, r, v, 8, y7, y8);
    ExtendSeparated(lt, r, v, 9, y8, y9);
    ExtendSeparated(lt, r, v, 10, y9, y10);
    ExtendSeparated(lt, r, v, 11, y10, y11);
    ExtendSeparated(lt, r, v, 12, y11, y12);
    ExtendSeparated(lt, r, v, 13, y12, y13);
    ExtendSeparated(lt, r, v, 14, y13, y14);
    ExtendSeparated(lt, r, v, 15, y14, y15);
  }

  lemma Network16Separates<T(!new)>(lt: Less<T>, s: seq<T>, v: T)
    requires StrictWeak(lt) && |s| == 16
    ensures Connects(NETWORK_16, 16) && Separated(lt, Play(lt, s, NETWORK_16), v, 16)
  {
    hide StrictWeak, Play, Connects, Network.Cmp, Separated, NETWORK_16;
    if lt(s[0], v) {
      Network16FirstBelow(lt, s, v);
    } else {
      Network16FirstNotBelow(lt, s, v);
    }
  }

  lemma Network17FirstBelow<T(!new)>(lt: Less<T>, s: seq<T>, v: T)
    requires StrictWeak(lt) && |s| == 17 && lt(s[0], v)
    ensures Connects(NETWORK_17, 17) && Separated(lt, Play(lt, s, NETWORK_17), v, 17)
  {
    hide StrictWeak, Lower, Upper, CompareExchange, Play, Connects, Network.Cmp, Separated;
    PlayStart(lt, s);
    var net := Start;
    var y0, y1, y2, y3, y4, y5, y6, y7, y8, y9, y10, y11, y12, y13, y14, y15, y16 := s[0], s[1], s[2], s[3], s[4],
      s[5], s[6], s[7], s[8], s[9], s[10], s[11], s[12], s[13], s[14], s[15], s[16];
    y0, y11, y1, y15, y2, y10, y3, y5, net := Step4(lt, v, s, net, 0, 11, y0, y11, 1, 15, y1, y15, 2, 10, y2, y10,
      3, 5, y3, y5);
    y4, y6, y8, y12, y9, y16, y13, y14, net := Step4(lt, v, s, net, 4, 6, y4, y6, 8, 12, y8, y12, 9, 16, y9, y16,
      13, 14, y13, y14);
    y0, y6, y1, y13, y2, y8, y4, y14, net := Step4(lt, v, s, net, 0, 6, y0, y6, 1, 13, y1, y13, 2, 8, y2, y8, 4, 14,
      y4, y14);
    y5, y15, y7, y11, y0, y8, net := Step3(lt, v, s, net, 5, 15, y5, y15, 7, 11, y7, y11, 0, 8, y0, y8);
    y3, y7, y4, y9, y6, y16, y10, y11, net := Step4(lt, v, s, net, 3, 7, y3, y7, 4, 9, y4, y9, 6, 16, y6, y16, 10,
      11, y10, y11);
    y12, y14, y0, y2, y1, y4, y5, y6, net := Step4(lt, v, s, net, 12, 14, y12, y14, 0, 2, y0, y2, 1, 4, y1, y4, 5,
      6, y5, y6);
    y7, y13, y8, y9, y10, y12, y11, y14, net := Step4(lt, v, s, net, 7, 13, y7, y13, 8, 9, y8, y9, 10, 12, y10, y12,
      11, 14, y11, y14);
    y15, y16, y0, y3, y2, y5, y6, y11, net := Step4(lt, v, s, net, 15, 16, y15, y16, 0, 3, y0, y3, 2, 5, y2, y5, 6,
      11, y6, y11);
    y7, y10, y9, y13, y12, y15, y14, y16, net := Step4(lt, v, s, net, 7, 10, y7, y10, 9, 13, y9, y13, 12, 15, y12,
      y15, 14, 16, y14, y16);
    y0, y1, y3, y4, y5, y10, y6, y9, net := Step4(lt, v, s, net, 0, 1, y0, y1, 3, 4, y3, y4, 5, 10, y5, y10, 6, 9,
      y6, y9);
    y7, y8, y11, y15, y13, y14, y1, y2, net := Step4(lt, v, s, net, 7, 8, y7, y8, 11, 15, y11, y15, 13, 14, y13,
      y14, 1, 2, y1, y2);
    y3, y7, y4, y8, y6, y12, y11, y13, net := Step4(lt, v, s, net, 3, 7, y3, y7, 4, 8, y4, y8, 6, 12, y6, y12, 11,
      13, y11, y13);
    y14, y15, y1, y3, y2, y7, y4, y5, net := Step4(lt, v, s, net, 14, 15, y14, y15, 1, 3, y1, y3, 2, 7, y2, y7, 4,
      5, y4, y5);
    y9, y11, y10, y12, y13, y14, y2, y3, net := Step4(lt, v, s, net, 9, 11, y9, y11, 10, 12, y10, y12, 13, 14, y13,
      y14, 2, 3, y2, y3);
    y4, y6, y5, y7, y8, y10, net := Step3(lt, v, s, net, 4, 6, y4, y6, 5, 7, y5, y7, 8, 10, y8, y10);
    y3, y4, y6, y8, y7, y9, y10, y12, net := Step4(lt, v, s, net, 3, 4, y3, y4, 6, 8, y6, y8, 7, 9, y7, y9, 10, 12,
      y10, y12);
    y5, y6, y7, y8, y9, y10, y11, y12, net := Step4(lt, v, s, net, 5, 6, y5, y6, 7, 8, y7, y8, 9, 10, y9, y10, 11,
      12, y11, y12);
    y4, y5, y6, y7, y8, y9, y10, y11, net := Step4(lt, v, s, net, 4, 5, y4, y5, 6, 7, y6, y7, 8, 9, y8, y9, 10, 11,
      y10, y11);
    y12, y13, net := Step(lt, v, s, net, 12, 13, y12, y13);
    assert net == NETWORK_17;
    var r := Play(lt, s, net);
    ExtendSeparated(lt, r, v, 1, y0, y1);
    ExtendSeparated(lt, r, v, 2, y1, y2);
    ExtendSeparated(lt, r, v, 3, y2, y3);
    ExtendSeparated(lt, r, v, 4, y3, y4);
    ExtendSeparated(lt, r, v, 5, y4, y5);
    ExtendSeparated(lt, r, v, 6, y5, y6);
    ExtendSeparated(lt, r, v, 7, y6, y7);
    ExtendSeparated(lt, r, v, 8, y7, y8);
    ExtendSeparated(lt, r, v, 9, y8, y9);
    ExtendSeparated(lt, r, v, 10, y9, y10);
    ExtendSeparated(lt, r, v, 11, y10, y11);
    ExtendSeparated(lt, r, v, 12, y11, y12);
    ExtendSeparated(lt, r, v, 13, y12, y13);
    ExtendSeparated(lt, r, v, 14, y13, y14);
    ExtendSeparated(lt, r, v, 15, y14, y15);
    ExtendSeparated(lt, r, v, 16, y15, y16);
  }

  lemma Network17FirstNotBelow<T(!new)>(lt: Less<T>, s: seq<T>, v: T)
    requires StrictWeak(lt) && |s| == 17 && !lt(s[0], v)
    ensures Connects(NETWORK_17, 17) && Separated(lt, Play(lt, s, NETWORK_17), v, 17)
  {
    hide StrictWeak, Lower, Upper, CompareExchange, Play, Connects, Network.Cmp, Separated;
    PlayStart(lt, s);
    var net := Start;
    var y0, y1, y2, y3, y4, y5, y6, y7, y8, y9, y10, y11, y12, y13, y14, y15, y16 := s[0], s[1], s[2], s[3], s[4],
      s[5], s[6], s[7], s[8], s[9], s[10], s[11], s[12], s[13], s[14], s[15], s[16];
    y0, y11, y1, y15, y2, y10, y3, y5, net := Step4(lt, v, s, net, 0, 11, y0, y11, 1, 15, y1, y15, 2, 10, y2, y10,
      3, 5, y3, y5);
    y4, y6, y8, y12, y9, y16, y13, y14, net := Step4(lt, v, s, net, 4, 6, y4, y6, 8, 12, y8, y12, 9, 16, y9, y16,
      13, 14, y13, y14);
    y0, y6, y1, y13, y2, y8, y4, y14, net := Step4(lt, v, s, net, 0, 6, y0, y6, 1, 13, y1, y13, 2, 8, y2, y8, 4, 14,
      y4, y14);
    y5, y15, y7, y11, y0, y8, net := Step3(lt, v, s, net, 5, 15, y5, y15, 7, 11, y7, y11, 0, 8, y0, y8);
    y3, y7, y4, y9, y6, y16, y10, y11, net := Step4(lt, v, s, net, 3, 7, y3, y7, 4, 9, y4, y9, 6, 16, y6, y16, 10,
      11, y10, y11);
    y12, y14, y0, y2, y1, y4, y5, y6, net := Step4(lt, v, s, net, 12, 14, y12, y14, 0, 2, y0, y2, 1, 4, y1, y4, 5,
      6, y5, y6);
    y7, y13, y8, y9, y10, y12, y11, y14, net := Step4(lt, v, s, net, 7, 13, y7, y13, 8, 9, y8, y9, 10, 12, y10, y12,
      11, 14, y11, y14);
    y15, y16, y0, y3, y2, y5, y6, y11, net := Step4(lt, v, s, net, 15, 16, y15, y16, 0, 3, y0, y3, 2, 5, y2, y5, 6,
      11, y6, y11);
    y7, y10, y9, y13, y12, y15, y14, y16, net := Step4(lt, v, s, net, 7, 10, y7, y10, 9, 13, y9, y13, 12, 15, y12,
      y15, 14, 16, y14, y16);
    y0, y1, y3, y4, y5, y10, y6, y9, net := Step4(lt, v, s, net, 0, 1, y0, y1, 3, 4, y3, y4, 5, 10, y5, y10, 6, 9,
      y6, y9);
    y7, y8, y11, y15, y13, y14, y1, y2, net := Step4(lt, v, s, net, 7, 8, y7, y8, 11, 15, y11, y15, 13, 14, y13,
      y14, 1, 2, y1, y2);
    y3, y7, y4, y8, y6, y12, y11, y13, net := Step4(lt, v, s, net, 3, 7, y3, y7, 4, 8, y4, y8, 6, 12, y6, y12, 11,
      13, y11, y13);
    y14, y15, y1, y3, y2, y7, y4, y5, net := Step4(lt, v, s, net, 14, 15, y14, y15, 1, 3, y1, y3, 2, 7, y2, y7, 4,
      5, y4, y5);
    y9, y11, y10, y12, y13, y14, y2, y3, net := Step4(lt, v, s, net, 9, 11, y9, y11, 10, 12, y10, y12, 13, 14, y13,
      y14, 2, 3, y2, y3);
    y4, y6, y5, y7, y8, y10, net := Step3(lt, v, s, net, 4, 6, y4, y6, 5, 7, y5, y7, 8, 10, y8, y10);
    y3, y4, y6, y8, y7, y9, y10, y12, net := Step4(lt, v, s, net, 3, 4, y3, y4, 6, 8, y6, y8, 7, 9, y7, y9, 10, 12,
      y10, y12);
    y5, y6, y7, y8, y9, y10, y11, y12, net := Step4(lt, v, s, net, 5, 6, y5, y6, 7, 8, y7, y8, 9, 10, y9, y10, 11,
      12, y11, y12);
    y4, y5, y6, y7, y8, y9, y10, y11, net := Step4(lt, v, s, net, 4, 5, y4, y5, 6, 7, y6, y7, 8, 9, y8, y9, 10, 11,
      y10, y11);
    y12, y13, net := Step(lt, v, s, net, 12, 13, y12, y13);
    assert net == NETWORK_17;
    var r := Play(lt, s, net);
    ExtendSeparated(lt, r, v, 1, y0, y1);
    ExtendSeparated(lt, r, v, 2, y1, y2);
    ExtendSeparated(lt, r, v, 3, y2, y3);
    ExtendSeparated(lt, r, v, 4, y3, y4);
    ExtendSeparated(lt, r, v, 5, y4, y5);
    ExtendSeparated(lt, r, v, 6, y5, y6);
    ExtendSeparated(lt, r, v, 7, y6, y7);
    ExtendSeparated(lt, r, v, 8, y7, y8);
    ExtendSeparated(lt, r, v, 9, y8, y9);
    ExtendSeparated(lt, r, v, 10, y9, y10);
    ExtendSeparated(lt, r, v, 11, y10, y11);
    ExtendSeparated(lt, r, v, 12, y11, y12);
    ExtendSeparated(lt, r, v, 13, y12, y13);
    ExtendSeparated(lt, r, v, 14, y13, y14);
    ExtendSeparated(lt, r, v, 15, y14, y15);
    ExtendSeparated(lt, r, v, 16, y15, y16);
  }

  lemma Network17Separates<T(!new)>(lt: Less<T>, s: seq<T>, v: T)
    requires StrictWeak(lt) && |s| == 17
    ensures Connects(NETWORK_17, 17) && Separated(lt, Play(lt, s, NETWORK_17), v, 17)
  {
    hide StrictWeak, Play, Connects, Network.Cmp, Separated, NETWORK_17;
    if lt(s[0], v) {
      Network17FirstBelow(lt, s, v);
    } else {
      Network17FirstNotBelow(lt, s, v);
    }
  }

  // The network for ten elements

  /** How many of two elements are not below the threshold. */
  ghost function Pair<T(!new)>(lt: Less<T>, x: T, y: T, v: T): (n: nat)
    ensures n <= 2
    ensures n == 0 <==> lt(x, v) && lt(y, v)
    ensures n == 2 <==> !lt(x, v) && !lt(y, v)
  {
    (if lt(x, v) then 0 else 1) + (if lt(y, v) then 0 else 1)
  }

  /** The counts, for the pairs the network compares first, that it gets wrong. */
  ghost predicate Misled(a: nat, b: nat, c: nat, d: nat, e: nat) {
    || (a == 0 && b == 0 && c == 0 && d == 2 && e == 1)
    || (a == 0 && b == 0 && c == 1 && d == 1 && e == 1)
    || (a == 0 && b == 0 && c == 1 && d == 2 && e == 0)
    || (a == 0 && b == 0 && c == 1 && d == 2 && e == 1)
    || (a == 0 && b == 1 && c == 1 && d == 0 && e == 1)
    || (a == 0 && b == 1 && c == 2 && d == 2 && e == 0)
    || (a == 0 && b == 2 && c == 0 && d == 0 && e == 1)
    || (a == 0 && b == 2 && c == 1 && d == 0 && e == 0)
    || (a == 0 && b == 2 && c == 1 && d == 0 && e == 1)
    || (a == 0 && b == 2 && c == 2 && d == 1 && e == 0)
    || (a == 0 && b == 2 && c == 2 && d == 2 && e == 1)
    || (a == 1 && b == 0 && c == 0 && d == 0 && e == 2)
    || (a == 1 && b == 0 && c == 2 && d == 0 && e == 0)
    || (a == 1 && b == 0 && c == 2 && d == 0 && e == 2)
    || (a == 1 && b == 1 && c == 0 && d == 1 && e == 2)
    || (a == 2 && b == 0 && c == 0 && d == 0 && e == 1)
    || (a == 2 && b == 0 && c == 0 && d == 0 && e == 2)
    || (a == 2 && b == 0 && c == 0 && d == 1 && e == 2)
    || (a == 2 && b == 0 && c == 1 && d == 0 && e == 0)
    || (a == 2 && b == 0 && c == 1 && d == 0 && e == 2)
    || (a == 2 && b == 0 && c == 2 && d == 0 && e == 0)
    || (a == 2 && b == 0 && c == 2 && d == 0 && e == 1)
    || (a == 2 && b == 0 && c == 2 && d == 0 && e == 2)
    || (a == 2 && b == 0 && c == 2 && d == 1 && e == 0)
    || (a == 2 && b == 0 && c == 2 && d == 1 && e == 2)
    || (a == 2 && b == 1 && c == 0 && d == 0 && e == 2)
    || (a == 2 && b == 1 && c == 0 && d == 2 && e == 2)
    || (a == 2 && b == 1 && c == 2 && d == 0 && e == 0)
    || (a == 2 && b == 1 && c == 2 && d == 0 && e == 2)
    || (a == 2 && b == 1 && c == 2 && d == 2 && e == 0)
    || (a == 2 && b == 2 && c == 0 && d == 1 && e == 2)
    || (a == 2 && b == 2 && c == 2 && d == 1 && e == 0)
  }

  /** Whether the network for ten elements leaves the range unsorted at this threshold. */
  ghost predicate MisledAt<T(!new)>(lt: Less<T>, s: seq<T>, v: T)
    requires |s| == 10
  {
    Misled(Pair(lt, s[0], s[8], v), Pair(lt, s[1], s[9], v), Pair(lt, s[2], s[7], v), Pair(lt, s[3], s[6], v),
      Pair(lt, s[4], s[5], v))
  }

  /** For ten elements the network separates exactly the thresholds with other counts. */
  lemma Network10SeparatesIff<T(!new)>(lt: Less<T>, s: seq<T>, v: T)
    requires StrictWeak(lt) && |s| == 10
    ensures Connects(NETWORK_10, 10)
    ensures Separated(lt, Play(lt, s, NETWORK_10), v, 10) <==> !MisledAt(lt, s, v)
  {
    hide StrictWeak, Lower, Upper, CompareExchange, Play, Connects, Network.Cmp, Separated;
    PlayStart(lt, s);
    var net := Start;
    var y0, y1, y2, y3, y4, y5, y6, y7, y8, y9 := s[0], s[1], s[2], s[3], s[4], s[5], s[6], s[7], s[8], s[9];
    y0, y8, y1, y9, y2, y7, y3, y6, net := Step4(lt, v, s, net, 0, 8, y0, y8, 1, 9, y1, y9, 2, 7, y2, y7, 3, 6, y3,
      y6);
    y4, y5, y0, y2, y1, y3, net := Step3(lt, v, s, net, 4, 5, y4, y5, 0, 2, y0, y2, 1, 3, y1, y3);
    y4, y8, y5, y7, y6, y9, net := Step3(lt, v, s, net, 4, 8, y4, y8, 5, 7, y5, y7, 6, 9, y6, y9);
    y0, y4, y1, y5, y2, y6, y3, y7, net := Step4(lt, v, s, net, 0, 4, y0, y4, 1, 5, y1, y5, 2, 6, y2, y6, 3, 7, y3,
      y7);
    y0, y1, y2, y3, y4, y6, y5, y9, net := Step4(lt, v, s, net, 0, 1, y0, y1, 2, 3, y2, y3, 4, 6, y4, y6, 5, 9, y5,
      y9);
    y7, y8, y1, y2, y3, y5, net := Step3(lt, v, s, net, 7, 8, y7, y8, 1, 2, y1, y2, 3, 5, y3, y5);
    y6, y7, y8, y9, y2, y4, net := Step3(lt, v, s, net, 6, 7, y6, y7, 8, 9, y8, y9, 2, 4, y2, y4);
    y3, y6, y5, y8, y1, y2, net := Step3(lt, v, s, net, 3, 6, y3, y6, 5, 8, y5, y8, 1, 2, y1, y2);
    y3, y4, y5, y6, y7, y8, net := Step3(lt, v, s, net, 3, 4, y3, y4, 5, 6, y5, y6, 7, 8, y7, y8);
    assert net == NETWORK_10;
    SeparatedTen(lt, Play(lt, s, net), v);
  }

  lemma SeparatedTen<T(!new)>(lt: Less<T>, r: seq<T>, v: T)
    requires |r| == 10
    ensures Separated(lt, r, v, 10) <==>
      (lt(r[1], v) ==> lt(r[0], v)) &&
      (lt(r[2], v) ==> lt(r[1], v)) &&
      (lt(r[3], v) ==> lt(r[2], v)) &&
      (lt(r[4], v) ==> lt(r[3], v)) &&
      (lt(r[5], v) ==> lt(r[4], v)) &&
      (lt(r[6], v) ==> lt(r[5], v)) &&
      (lt(r[7], v) ==> lt(r[6], v)) &&
      (lt(r[8], v) ==> lt(r[7], v)) &&
      (lt(r[9], v) ==> lt(r[8], v))
  {
  }

  /** A sorted range is separated at every threshold. */
  lemma SortedIsSeparated<T(!new)>(lt: Less<T>, r: seq<T>, v: T, n: nat)
    requires StrictWeak(lt) && Sorted(lt, r, 0, |r|) && n <= |r|
    ensures Separated(lt, r, v, n)
    decreases n
  {
    if n > 1 {
      SortedIsSeparated(lt, r, v, n - 1);
      if !lt(r[n - 2], v) {
        NotLessTrans(lt, r[n - 1], r[n - 2], v);
      }
    }
  }

  /** The network for ten elements is wrong: for any two values of which one is smaller there is a range
      made of them that it leaves unsorted. */
  lemma Network10Fails<T(!new)>(lt: Less<T>, a: T, b: T, s: seq<T>)
    requires StrictWeak(lt) && lt(a, b)
    requires s == [a, b, b, a, b, a, a, a, a, a]
    ensures Connects(NETWORK_10, 10)
    ensures lt(Play(lt, s, NETWORK_10)[7], Play(lt, s, NETWORK_10)[6])
  {
    NotLessRefl(lt, b);
    hide StrictWeak, Lower, Upper, CompareExchange, Play, Connects, Network.Cmp;
    PlayStart(lt, s);
    var v := b;
    var net := Start;
    var y0, y1, y2, y3, y4, y5, y6, y7, y8, y9 := a, b, b, a, b, a, a, a, a, a;
    y0, y8, y1, y9, y2, y7, y3, y6, net := Step4(lt, v, s, net, 0, 8, y0, y8, 1, 9, y1, y9, 2, 7, y2, y7, 3, 6, y3,
      y6);
    y4, y5, y0, y2, y1, y3, net := Step3(lt, v, s, net, 4, 5, y4, y5, 0, 2, y0, y2, 1, 3, y1, y3);
    y4, y8, y5, y7, y6, y9, net := Step3(lt, v, s, net, 4, 8, y4, y8, 5, 7, y5, y7, 6, 9, y6, y9);
    y0, y4, y1, y5, y2, y6, y3, y7, net := Step4(lt, v, s, net, 0, 4, y0, y4, 1, 5, y1, y5, 2, 6, y2, y6, 3, 7, y3,
      y7);
    y0, y1, y2, y3, y4, y6, y5, y9, net := Step4(lt, v, s, net, 0, 1, y0, y1, 2, 3, y2, y3, 4, 6, y4, y6, 5, 9, y5,
      y9);
    y7, y8, y1, y2, y3, y5, net := Step3(lt, v, s, net, 7, 8, y7, y8, 1, 2, y1, y2, 3, 5, y3, y5);
    y6, y7, y8, y9, y2, y4, net := Step3(lt, v, s, net, 6, 7, y6, y7, 8, 9, y8, y9, 2, 4, y2, y4);
    y3, y6, y5, y8, y1, y2, net := Step3(lt, v, s, net, 3, 6, y3, y6, 5, 8, y5, y8, 1, 2, y1, y2);
    y3, y4, y5, y6, y7, y8, net := Step3(lt, v, s, net, 3, 4, y3, y4, 5, 6, y5, y6, 7, 8, y7, y8);
    assert net == NETWORK_10;
    if !lt(y7, y6) {
      NotLessTrans(lt, y7, y6, b);
    }
  }
}
