/** Moving the generic columns of a row to a chunk of another archetype. */
module ColumnMerge {
  import opened Ordering

  /** What the destination chunk knows about a column: whether its values live in the chunk, and the value
      its default constructor makes, if it has one. */
  datatype Column<+V> = Column(inTable: bool, ctor: Ctor<V>)
  datatype Ctor<+V> = NoCtor | MakesValue(value: V)

  /** A strict total order, as entity ids have. */
  ghost predicate StrictTotal<Id(!new)>(lt: Less<Id>) {
    && (forall x, y :: lt(x, y) ==> !lt(y, x))
    && (forall x, y, z :: lt(x, y) && lt(y, z) ==> lt(x, z))
    && (forall x, y :: x != y ==> lt(x, y) || lt(y, x))
  }

  ghost predicate Ascending<Id(!new)>(lt: Less<Id>, ids: seq<Id>) {
    forall i, j :: 0 <= i < j < |ids| ==> lt(ids[i], ids[j])
  }

  /** `i` is the source column with the id of destination column `j`. */
  ghost predicate Match<Id>(srcIds: seq<Id>, dstIds: seq<Id>, i: int, j: int) {
    0 <= i < |srcIds| && 0 <= j < |dstIds| && srcIds[i] == dstIds[j]
  }

  /** What has to become of destination column `j` whose value was `was`. */
  ghost predicate Settled<Id, V>(srcIds: seq<Id>, dstIds: seq<Id>, cols: seq<Column<V>>, src: seq<V>, j: int, was: V,
      now: V)
    requires 0 <= j < |dstIds| == |cols| && |src| == |srcIds|
  {
    && (forall i :: Match(srcIds, dstIds, i, j) ==> now == if cols[j].inTable then src[i] else was)
    && ((forall i :: !Match(srcIds, dstIds, i, j)) ==>
          now == match cols[j].ctor case NoCtor => was case MakesValue(v) => v)
  }

  /** One of the first `end` destination columns takes over the value of source column `i`. */
  ghost predicate Taken<Id, V>(srcIds: seq<Id>, dstIds: seq<Id>, cols: seq<Column<V>>, i: int, end: int)
    requires end <= |dstIds| == |cols|
  {
    exists j :: 0 <= j < end && Match(srcIds, dstIds, i, j) && cols[j].inTable
  }

  lemma IdsDiffer<Id(!new)>(ids: seq<Id>, lt: Less<Id>, i: nat, k: nat)
    requires StrictTotal(lt) && Ascending(lt, ids) && i < k < |ids|
    ensures ids[i] != ids[k]
  {
    assert lt(ids[i], ids[k]);
  }

  lemma TakenNext<Id(!new), V>(srcIds: seq<Id>, dstIds: seq<Id>, cols: seq<Column<V>>, lt: Less<Id>, i: nat, j: nat)
    requires StrictTotal(lt) && Ascending(lt, srcIds) && Match(srcIds, dstIds, i, j) && |dstIds| == |cols|
    ensures forall k :: Taken(srcIds, dstIds, cols, k, j + 1) <==>
      Taken(srcIds, dstIds, cols, k, j) || (k == i && cols[j].inTable)
  {
    forall k ensures Match(srcIds, dstIds, k, j) <==> k == i {
      if 0 <= k < i {
        IdsDiffer(srcIds, lt, k, i);
      } else if i < k < |srcIds| {
        IdsDiffer(srcIds, lt, i, k);
      }
    }
    forall k ensures Taken(srcIds, dstIds, cols, k, j + 1) <==>
      Taken(srcIds, dstIds, cols, k, j) || (k == i && cols[j].inTable)
    {
      if k == i && cols[j].inTable {
        assert Match(srcIds, dstIds, k, j);
      }
    }
  }

  lemma TakenNot<Id, V>(srcIds: seq<Id>, dstIds: seq<Id>, cols: seq<Column<V>>, j: nat)
    requires j < |dstIds| == |cols| && forall k :: !Match(srcIds, dstIds, k, j)
    ensures forall k :: Taken(srcIds, dstIds, cols, k, j + 1) <==> Taken(srcIds, dstIds, cols, k, j)
  {
  }

  /** The linear merge. Each destination column is handled once: it takes over the value of the source column
      of the same id if there is one, and is default-constructed otherwise. No source column is moved from twice. */
  method MoveForeignEntityData<Id(!new, ==), V(!new)>(
      srcIds: seq<Id>, src: seq<V>, dstIds: seq<Id>, cols: seq<Column<V>>, dst: array<V>, lt: Less<Id>)
    returns (ghost order: seq<int>, ghost moved: seq<int>)
    requires StrictTotal(lt) && Ascending(lt, srcIds) && Ascending(lt, dstIds)
    requires |src| == |srcIds| && |cols| == |dstIds| == dst.Length
    modifies dst
    ensures forall j :: 0 <= j < |dstIds| ==> Settled(srcIds, dstIds, cols, src, j, old(dst[j]), dst[j])
    ensures |order| == |dstIds| && forall j :: 0 <= j < |order| ==> order[j] == j
    ensures forall x, y :: 0 <= x < y < |moved| ==> moved[x] < moved[y]
    ensures forall i :: i in moved <==> Taken(srcIds, dstIds, cols, i, |dstIds|)
  {
    var i, j := 0, 0;
    order, moved := [], [];
    while i < |srcIds| && j < |dstIds|
      invariant 0 <= i <= |srcIds| && 0 <= j <= |dstIds|
      invariant forall k :: 0 <= k < j ==> Settled(srcIds, dstIds, cols, src, k, old(dst[k]), dst[k])
      invariant forall k :: j <= k < |dstIds| ==> dst[k] == old(dst[k])
      invariant forall k :: 0 <= k < i && j < |dstIds| ==> lt(srcIds[k], dstIds[j])
      invariant |order| == j && forall k :: 0 <= k < j ==> order[k] == k
      invariant forall x, y :: 0 <= x < y < |moved| ==> moved[x] < moved[y]
      invariant forall k :: k in moved <==> Taken(srcIds, dstIds, cols, k, j)
      invariant forall k :: k in moved ==> k < i
      decreases |srcIds| - i + |dstIds| - j
    {
      if srcIds[i] == dstIds[j] {
        TakenNext(srcIds, dstIds, cols, lt, i, j);
        if cols[j].inTable {
          dst[j] := src[i];
          assert forall x :: 0 <= x < |moved| ==> moved[x] in moved;
          moved := moved + [i];
        }
        assert Match(srcIds, dstIds, i, j);
        order := order + [j];
        i, j := i + 1, j + 1;
      } else if lt(srcIds[i], dstIds[j]) {
        i := i + 1;
      } else {
        if cols[j].ctor.MakesValue? {
          dst[j] := cols[j].ctor.value;
        }
        NoMatch(srcIds, dstIds, lt, i, j);
        TakenNot(srcIds, dstIds, cols, j);
        order := order + [j];
        j := j + 1;
      }
    }
    while j < |dstIds|
      invariant i == |srcIds| || j == |dstIds|
      invariant 0 <= i <= |srcIds| && 0 <= j <= |dstIds|
      invariant forall k :: 0 <= k < j ==> Settled(srcIds, dstIds, cols, src, k, old(dst[k]), dst[k])
      invariant forall k :: j <= k < |dstIds| ==> dst[k] == old(dst[k])
      invariant forall k :: 0 <= k < i && j < |dstIds| ==> lt(srcIds[k], dstIds[j])
      invariant |order| == j && forall k :: 0 <= k < j ==> order[k] == k
      invariant forall x, y :: 0 <= x < y < |moved| ==> moved[x] < moved[y]
      invariant forall k :: k in moved <==> Taken(srcIds, dstIds, cols, k, j)
      invariant forall k :: k in moved ==> k < i
    {
      if cols[j].ctor.MakesValue? {
        dst[j] := cols[j].ctor.value;
      }
      NoMatch(srcIds, dstIds, lt, i, j);
      TakenNot(srcIds, dstIds, cols, j);
      order := order + [j];
      j := j + 1;
    }
  }

  /** When everything before `i` is smaller and everything from `i` on is larger there is no column of that id. */
  lemma NoMatch<Id(!new)>(srcIds: seq<Id>, dstIds: seq<Id>, lt: Less<Id>, i: nat, j: nat)
    requires StrictTotal(lt) && Ascending(lt, srcIds) && i <= |srcIds| && j < |dstIds|
    requires forall k :: 0 <= k < i ==> lt(srcIds[k], dstIds[j])
    requires i < |srcIds| ==> lt(dstIds[j], srcIds[i])
    ensures forall k :: !Match(srcIds, dstIds, k, j)
  {
    forall k ensures !Match(srcIds, dstIds, k, j) {
      if i < k < |srcIds| {
        assert lt(srcIds[i], srcIds[k]);
      }
    }
  }
}
