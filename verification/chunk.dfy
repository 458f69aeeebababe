/** A chunk of an archetype together with the entity records that point back into it. */
module Chunks {
  import opened ChunkViews
  import opened Ordering

  /** Where an entity is stored and whether it is disabled. */
  datatype Record<!V(!new)> = Record(chunk: Chunk<V>, row: nat, dis: bool)

  type Records<!V(!new)> = map<Entity, Record<V>>

  class EntityContainers<V(!new)> {
    var recs: Records<V>

    constructor ()
      ensures recs == map[]
    {
      recs := map[];
    }
  }

  /** Every row's entity has a record naming this chunk, the row and the side of the boundary it is on. */
  ghost predicate Matches<V(!new)>(recs: Records<V>, c: Chunk<V>, v: View<V>) {
    forall r :: 0 <= r < |v.ev| ==> v.ev[r] in recs && recs[v.ev[r]] == Record(c, r, r < v.first)
  }

  /** Records of entities outside `ev` are the same in both. */
  ghost predicate OthersKept<V(!new)>(old_: Records<V>, new_: Records<V>, ev: seq<Entity>) {
    forall e :: e !in ev ==> (e in new_ <==> e in old_) && (e in old_ ==> new_[e] == old_[e])
  }

  /** The records after the entities of two rows have traded places. */
  function SwappedRecords<V(!new)>(recs: Records<V>, eA: Entity, eB: Entity, rowA: nat, rowB: nat): Records<V>
    requires eA in recs && eB in recs
  {
    recs[eA := recs[eA].(row := rowB)][eB := recs[eB].(row := rowA)]
  }

  lemma MatchesSwapped<V(!new)>(recs: Records<V>, c: Chunk<V>, v: View<V>, a: nat, b: nat)
    requires Proper(v) && Matches(recs, c, v) && a < |v.ev| && b < |v.ev| && a != b
    requires a < v.first <==> b < v.first
    ensures v.ev[a] in recs && v.ev[b] in recs
    ensures Matches(SwappedRecords(recs, v.ev[a], v.ev[b], a, b), c, Swapped(v, a, b))
    ensures OthersKept(recs, SwappedRecords(recs, v.ev[a], v.ev[b], a, b), v.ev)
  {
  }

  class Chunk<V(!new)> {
    const capacity: nat
    var ev: seq<Entity>
    var cols: seq<seq<V>>
    var rowFirstEnabledEntity: nat
    var countEnabled: nat
    var idx: nat

    ghost function Rows(): (v: View<V>)
      reads this
    {
      View(ev, cols, rowFirstEnabledEntity)
    }

    ghost predicate Valid(recs: Records<V>)
      reads this
    {
      && Proper(Rows())
      && |ev| <= capacity
      && countEnabled + rowFirstEnabledEntity == |ev|
      && Matches(recs, this, Rows())
    }

    constructor (index: nat, cap: nat, columns: nat)
      ensures capacity == cap && idx == index && ev == [] && rowFirstEnabledEntity == 0 && countEnabled == 0
      ensures |cols| == columns && Columns(cols, 0)
      ensures forall recs :: Valid(recs)
    {
      capacity, idx := cap, index;
      ev, rowFirstEnabledEntity, countEnabled := [], 0, 0;
      cols := seq(columns, i => []);
    }

    function Size(): nat
      reads this
    {
      |ev|
    }

    predicate Enabled(row: nat)
      reads this
    {
      row >= rowFirstEnabledEntity
    }

    /** Makes the entity a part of the chunk; its component values are constructed along with it. */
    method AddEntity(entity: Entity, values: seq<V>) returns (row: nat)
      requires Columns(cols, |ev|) && |values| == |cols| && |ev| < capacity
      modifies this
      ensures row == old(|ev|)
      ensures Rows() == Appended(old(Rows()), entity, values)
      ensures countEnabled == old(countEnabled) + 1 && idx == old(idx)
    {
      row := |ev|;
      countEnabled := countEnabled + 1;
      ev := ev + [entity];
      cols := seq(|cols|, i requires 0 <= i < |cols| && |values| == |cols| reads this => cols[i] + [values[i]]);
    }

    method SwapColumns(rowA: nat, rowB: nat)
      requires rowA < |ev| && rowB < |ev| && Columns(cols, |ev|)
      modifies this`cols
      ensures cols == Swapped(old(Rows()), rowA, rowB).cols
    {
      var i := 0;
      while i < |cols|
        invariant 0 <= i <= |cols| == old(|cols|)
        invariant forall k :: 0 <= k < i ==> cols[k] == Exchange(old(cols[k]), rowA, rowB)
        invariant forall k :: i <= k < |cols| ==> cols[k] == old(cols[k])
      {
        cols := cols[i := Exchange(cols[i], rowA, rowB)];
        i := i + 1;
      }
    }

    /** Swaps two rows with everything stored in them and tells the records. */
    method SwapChunkEntities(rowA: nat, rowB: nat, recs: EntityContainers<V>)
      requires rowA < |ev| && rowB < |ev| && Columns(cols, |ev|)
      requires ev[rowA] in recs.recs && ev[rowB] in recs.recs
      modifies this`ev, this`cols, recs
      ensures Rows() == Swapped(old(Rows()), rowA, rowB)
      ensures recs.recs ==
        if rowA == rowB then old(recs.recs)
        else SwappedRecords(old(recs.recs), old(ev[rowA]), old(ev[rowB]), rowA, rowB)
      ensures var (a, b) := old((ev[rowA], ev[rowB]));
        && (forall e :: e in recs.recs <==> e in old(recs.recs))
        && (forall e :: e in old(recs.recs) && e != a && e != b ==> recs.recs[e] == old(recs.recs)[e])
        && (a != b ==>
              recs.recs[a] == old(recs.recs)[a].(row := rowB) && recs.recs[b] == old(recs.recs)[b].(row := rowA))
    {
      if |ev| <= 1 || rowA == rowB {
        SwapWithItself(Rows(), rowA);
        return;
      }
      var entityA, entityB := ev[rowA], ev[rowB];
      SwapColumns(rowA, rowB);
      ev := ev[rowA := entityB][rowB := entityA];
      recs.recs := SwappedRecords(recs.recs, entityA, entityB, rowA, rowB);
    }

    method MoveLastInto(row: nat)
      requires row < |ev| && Columns(cols, |ev|)
      modifies this`cols
      ensures |cols| == old(|cols|) && Columns(cols, |ev|)
      ensures forall k :: 0 <= k < |cols| ==> cols[k] == old(cols[k])[row := old(cols[k])[|ev| - 1]]
    {
      var i := 0;
      while i < |cols|
        invariant 0 <= i <= |cols| == old(|cols|)
        invariant forall k :: 0 <= k < i ==> cols[k] == old(cols[k])[row := old(cols[k])[|ev| - 1]]
        invariant forall k :: i <= k < |cols| ==> cols[k] == old(cols[k])
      {
        cols := cols[i := cols[i][row := cols[i][|ev| - 1]]];
        i := i + 1;
      }
    }

    /** The entity in the last row takes over `row`. */
    method RemoveEntityInter(row: nat, recs: EntityContainers<V>)
      requires row < |ev| && Columns(cols, |ev|) && ev[|ev| - 1] in recs.recs
      modifies this`ev, this`cols, recs
      ensures |ev| == old(|ev|) && Columns(cols, |ev|)
      ensures Dropped(Rows()) == Refilled(old(Rows()), row)
      ensures recs.recs ==
        if row == |ev| - 1 then old(recs.recs)
        else old(recs.recs)[old(ev[|ev| - 1]) := old(recs.recs[ev[|ev| - 1]]).(row := row)]
    {
      var rowB := |ev| - 1;
      if row < rowB {
        var entityB := ev[rowB];
        MoveLastInto(row);
        ev := ev[row := entityB];
        recs.recs := recs.recs[entityB := recs.recs[entityB].(row := row)];
      }
    }

    method RemoveLastEntity()
      requires |ev| > 0 && Columns(cols, |ev|)
      modifies this`ev, this`cols
      ensures Rows() == Dropped(old(Rows()))
    {
      var last := |ev| - 1;
      ev := ev[..last];
      cols := seq(|cols|, i requires 0 <= i < |cols| && last <= |cols[i]| reads this => cols[i][..last]);
    }

    /** Removes the entity at a row. The chunk stays consistent exactly when the row is not the first enabled one
        behind disabled ones; in that case one row too many counts as enabled. Every record still names its entity's
        row then, with the flag it had, so that the last disabled entity alone is on the wrong side. */
    method RemoveEntity(row: nat, recs: EntityContainers<V>)
      requires Valid(recs.recs) && (row < |ev| || ev == [])
      modifies this, recs
      ensures old(ev) == [] ==> Rows() == old(Rows()) && recs.recs == old(recs.recs)
      ensures old(ev) != [] ==> Rows() == Removed(old(Rows()), row)
      ensures idx == old(idx) && OthersKept(old(recs.recs), recs.recs, old(ev))
      ensures Valid(recs.recs) <==> old(ev) == [] || !(0 < old(rowFirstEnabledEntity) == row)
      ensures old(ev) != [] && 0 < old(rowFirstEnabledEntity) == row ==>
        && countEnabled + rowFirstEnabledEntity == |ev| - 1
        && forall r :: 0 <= r < |ev| ==>
          ev[r] in recs.recs && recs.recs[ev[r]] == Record(this, r, r < old(rowFirstEnabledEntity))
    {
      hide Matches, OthersKept, Proper, Contents, Refilled, Removed, Swapped, Dropped;
      if |ev| == 0 {
        OthersKeptRefl(recs.recs, ev);
        return;
      }
      ProperParts(Rows());
      ProperRemoved(Rows(), row);
      if Enabled(row) {
        RemoveEnabled(row, recs);
        MatchesAt(recs.recs, this, Rows().(first := old(rowFirstEnabledEntity)));
      } else {
        RemoveDisabled(row, recs);
      }
    }

    /** The branch for an enabled row. */
    method RemoveEnabled(row: nat, recs: EntityContainers<V>)
      requires Valid(recs.recs) && rowFirstEnabledEntity <= row < |ev|
      modifies this, recs
      ensures Rows() == Removed(old(Rows()), row) && |ev| == old(|ev|) - 1
      ensures countEnabled == old(countEnabled) - 1 && idx == old(idx)
      ensures rowFirstEnabledEntity
        == old(rowFirstEnabledEntity) - if 0 < old(rowFirstEnabledEntity) == row then 1 else 0
      ensures Matches(recs.recs, this, Rows().(first := old(rowFirstEnabledEntity)))
      ensures OthersKept(old(recs.recs), recs.recs, old(ev))
    {
      ghost var v, r0 := Rows(), recs.recs;
      LastRecorded(r0, this, v);
      MatchesRefilled(r0, this, v, row, v.first);
      RemovedEnabledIs(v, row);
      hide Matches, OthersKept, Proper, Contents, Refilled, Removed, Swapped, Dropped;
      ProperParts(v);
      RemoveEntityInter(row, recs);
      ghost var w := Rows();
      if rowFirstEnabledEntity > 0 && row == rowFirstEnabledEntity {
        rowFirstEnabledEntity := rowFirstEnabledEntity - 1;
      }
      DroppedFirst(w, rowFirstEnabledEntity);
      RemoveLastEntity();
      countEnabled := countEnabled - 1;
    }

    /** The branch for a disabled row: first the row trades places with the last disabled one. */
    method RemoveDisabled(row: nat, recs: EntityContainers<V>)
      requires Valid(recs.recs) && row < rowFirstEnabledEntity
      modifies this, recs
      ensures Rows() == Removed(old(Rows()), row) && |ev| == old(|ev|) - 1
      ensures countEnabled == old(countEnabled) && idx == old(idx)
      ensures rowFirstEnabledEntity == old(rowFirstEnabledEntity) - 1
      ensures Matches(recs.recs, this, Rows())
      ensures OthersKept(old(recs.recs), recs.recs, old(ev))
    {
      ghost var v, r0 := Rows(), recs.recs;
      var pivot := rowFirstEnabledEntity - 1;
      hide *;
      SwapDisabledPivot(row, pivot, recs);
      ghost var u, r1 := Rows(), recs.recs;
      DropDisabledPivot(pivot, recs);
      RemovedDisabledIs(v, row);
      SameEntities(v, row, pivot);
      OthersKeptTrans(r0, r1, recs.recs, v.ev, u.ev);
    }

    method SwapDisabledPivot(row: nat, pivot: nat, recs: EntityContainers<V>)
      requires Valid(recs.recs) && row <= pivot == rowFirstEnabledEntity - 1
      modifies this`ev, this`cols, recs
      ensures row < old(|ev|) && pivot < old(|ev|) && Columns(old(cols), old(|ev|))
      ensures Valid(recs.recs) && Rows() == Swapped(old(Rows()), row, pivot) && |ev| == old(|ev|)
      ensures OthersKept(old(recs.recs), recs.recs, old(ev))
    {
      MatchesMaybeSwapped(recs.recs, this, Rows(), row, pivot);
      SwappedContents(Rows(), row, pivot);
      hide Matches, OthersKept, Contents, SwappedRecords;
      SwapChunkEntities(row, pivot, recs);
    }

    method DropDisabledPivot(pivot: nat, recs: EntityContainers<V>)
      requires Valid(recs.recs) && pivot == rowFirstEnabledEntity - 1
      modifies this, recs
      ensures pivot < old(|ev|) && Columns(old(cols), old(|ev|))
      ensures Rows() == Refilled(old(Rows()), pivot).(first := pivot) && |ev| == old(|ev|) - 1
      ensures countEnabled == old(countEnabled) && idx == old(idx) && rowFirstEnabledEntity == pivot
      ensures Matches(recs.recs, this, Rows())
      ensures OthersKept(old(recs.recs), recs.recs, old(ev))
    {
      ghost var u, r1 := Rows(), recs.recs;
      LastRecorded(r1, this, u);
      MatchesRefilled(r1, this, u, pivot, pivot);
      ProperParts(u);
      hide Matches, OthersKept, Proper, Refilled, Dropped;
      RemoveEntityInter(pivot, recs);
      ghost var w := Rows();
      rowFirstEnabledEntity := rowFirstEnabledEntity - 1;
      DroppedFirst(w, rowFirstEnabledEntity);
      RemoveLastEntity();
    }

    /** The swap and the flag change common to enabling and disabling. */
    method TradeAndFlag(other: nat, row: nat, dis: bool, recs: EntityContainers<V>)
      requires other < |ev| && row < |ev| && Columns(cols, |ev|) && ev[other] in recs.recs && ev[row] in recs.recs
      modifies this`ev, this`cols, recs
      ensures Rows() == Swapped(old(Rows()), other, row)
      ensures recs.recs == ToggledRecords(old(recs.recs), old(Rows()), other, row, dis)
    {
      var entity := ev[row];
      SwapChunkEntities(other, row, recs);
      recs.recs := recs.recs[entity := recs.recs[entity].(dis := dis)];
    }

    /** Moves the boundary over the row: down to take it in among the enabled ones, or up past it. */
    method MoveBoundary(row: nat, enable: bool, recs: EntityContainers<V>)
      requires Valid(recs.recs) && row < |ev| && (enable <==> row < rowFirstEnabledEntity)
      modifies this, recs
      ensures Valid(recs.recs) && idx == old(idx)
      ensures Rows() == Toggled(old(Rows()), row, enable)
      ensures OthersKept(old(recs.recs), recs.recs, old(ev))
    {
      hide Matches, OthersKept, Proper, Contents, Swapped, Toggled, ToggledRecords, Columns, Valid;
      ghost var v, r0 := Rows(), recs.recs;
      BoundaryFacts(r0, row, enable);
      var other := if enable then rowFirstEnabledEntity - 1 else rowFirstEnabledEntity;
      rowFirstEnabledEntity := if enable then rowFirstEnabledEntity - 1 else rowFirstEnabledEntity + 1;
      TradeAndFlag(other, row, !enable, recs);
      countEnabled := if enable then countEnabled + 1 else countEnabled - 1;
      ToggledRecordsFirst(r0, v, rowFirstEnabledEntity, other, row, !enable);
      BackInOrder(recs.recs);
    }

    /** What moving the boundary over a row will need and give. */
    lemma BoundaryFacts(r0: Records<V>, row: nat, enable: bool)
      requires Valid(r0) && row < |ev| && (enable <==> row < rowFirstEnabledEntity)
      ensures Columns(cols, |ev|) && |ev| <= capacity && countEnabled + rowFirstEnabledEntity == |ev|
      ensures !enable ==> countEnabled > 0
      ensures var v, first := Rows(), if enable then rowFirstEnabledEntity - 1 else rowFirstEnabledEntity + 1;
        var other := if enable then first else rowFirstEnabledEntity;
        && v.(first := first) == View(ev, cols, first)
        && other < |ev| && ev[other] in r0 && ev[row] in r0
        && Toggled(v, row, enable) == Swapped(v.(first := first), other, row)
        && Proper(Toggled(v, row, enable)) && |Toggled(v, row, enable).ev| == |ev|
          && Toggled(v, row, enable).first == first
        && Matches(ToggledRecords(r0, v, other, row, !enable), this, Toggled(v, row, enable))
        && OthersKept(r0, ToggledRecords(r0, v, other, row, !enable), ev)
    {
      var v := Rows();
      ToggledContents(v, row, enable);
      ToggledIs(v, row, enable);
      MatchesToggled(r0, this, v, row, enable);
      hide Matches, OthersKept, Contents, ToggledRecords;
    }

    lemma BackInOrder(r: Records<V>)
      requires Proper(Rows()) && |Rows().ev| <= capacity && countEnabled + Rows().first == |Rows().ev|
      requires Matches(r, this, Rows())
      ensures Valid(r)
    {
    }

    /** Enables or disables the entity at a row. */
    method EnableEntity(row: nat, enable: bool, recs: EntityContainers<V>)
      requires Valid(recs.recs) && row < |ev|
      modifies this, recs
      ensures Valid(recs.recs) && idx == old(idx)
      ensures Rows() == Toggled(old(Rows()), row, enable)
      ensures OthersKept(old(recs.recs), recs.recs, old(ev))
    {
      ProperParts(Rows());
      ToggledIs(Rows(), row, enable);
      OthersKeptRefl(recs.recs, ev);
      hide Matches, OthersKept, Contents, Swapped, Toggled;
      if enable {
        if rowFirstEnabledEntity == 0 || Enabled(row) {
          return;
        }
      } else {
        if countEnabled == 0 || !Enabled(row) {
          return;
        }
      }
      MoveBoundary(row, enable, recs);
    }
  }

  lemma ToggledRecordsFirst<V(!new)>(recs: Records<V>, v: View<V>, first: nat, other: nat, row: nat, dis: bool)
    requires other < |v.ev| && row < |v.ev| && v.ev[other] in recs && v.ev[row] in recs
    ensures ToggledRecords(recs, v.(first := first), other, row, dis) == ToggledRecords(recs, v, other, row, dis)
  {
  }

  lemma MatchesAt<V(!new)>(recs: Records<V>, c: Chunk<V>, v: View<V>)
    requires Matches(recs, c, v)
    ensures forall r :: 0 <= r < |v.ev| ==> v.ev[r] in recs && recs[v.ev[r]] == Record(c, r, r < v.first)
  {
  }

  lemma ProperParts<V>(v: View<V>)
    requires Proper(v)
    ensures v.first <= |v.ev| && Columns(v.cols, |v.ev|)
  {
  }

  lemma OthersKeptRefl<V(!new)>(recs: Records<V>, ev: seq<Entity>)
    ensures OthersKept(recs, recs, ev)
  {
  }

  lemma OthersKeptTrans<V(!new)>(a: Records<V>, b: Records<V>, c: Records<V>, ev: seq<Entity>, ev': seq<Entity>)
    requires OthersKept(a, b, ev) && OthersKept(b, c, ev') && forall e :: e in ev <==> e in ev'
    ensures OthersKept(a, c, ev)
  {
  }

  lemma LastRecorded<V(!new)>(recs: Records<V>, c: Chunk<V>, v: View<V>)
    requires Matches(recs, c, v) && |v.ev| > 0
    ensures v.ev[|v.ev| - 1] in recs
  {
  }

  lemma DroppedFirst<V>(v: View<V>, first: nat)
    requires |v.ev| > 0 && Columns(v.cols, |v.ev|)
    ensures Dropped(v.(first := first)) == Dropped(v).(first := first)
    ensures |Dropped(v).ev| == |v.ev| - 1
  {
  }

  lemma RemovedEnabledIs<V>(v: View<V>, row: nat)
    requires Proper(v) && v.first <= row < |v.ev|
    ensures Removed(v, row)
      == Refilled(v, row).(first := if v.first > 0 && row == v.first then v.first - 1 else v.first)
    ensures Refilled(v, row).(first := v.first) == Refilled(v, row)
  {
  }

  lemma RemovedDisabledIs<V>(v: View<V>, row: nat)
    requires Proper(v) && row < v.first
    ensures var u := Swapped(v, row, v.first - 1);
      && Proper(u) && |u.ev| == |v.ev| && u.first == v.first
      && Removed(v, row) == Refilled(u, v.first - 1).(first := v.first - 1)
  {
    SwappedContents(v, row, v.first - 1);
  }

  lemma MatchesMaybeSwapped<V(!new)>(recs: Records<V>, c: Chunk<V>, v: View<V>, a: nat, b: nat)
    requires Proper(v) && Matches(recs, c, v) && a < |v.ev| && b < |v.ev|
    requires a < v.first <==> b < v.first
    ensures v.ev[a] in recs && v.ev[b] in recs
    ensures var recs' := if a == b then recs else SwappedRecords(recs, v.ev[a], v.ev[b], a, b);
      Matches(recs', c, Swapped(v, a, b)) && OthersKept(recs, recs', v.ev)
  {
    if a == b {
      SwapWithItself(v, a);
    } else {
      MatchesSwapped(recs, c, v, a, b);
    }
  }

  lemma ToggledIs<V>(v: View<V>, row: nat, enable: bool)
    requires Proper(v) && row < |v.ev|
    ensures enable && row < v.first ==>
      Toggled(v, row, true) == Swapped(v.(first := v.first - 1), v.first - 1, row)
        && |Toggled(v, row, true).ev| == |v.ev|
    ensures !enable && row >= v.first ==>
      Toggled(v, row, false) == Swapped(v.(first := v.first + 1), v.first, row) && |Toggled(v, row, false).ev| == |v.ev|
    ensures enable && row >= v.first ==> Toggled(v, row, true) == v
    ensures !enable && row < v.first ==> Toggled(v, row, false) == v
  {
  }

  /** The records after the entity in `row` has traded places with the one in `other` and changed its flag. */
  function ToggledRecords<V(!new)>(recs: Records<V>, v: View<V>, other: nat, row: nat, dis: bool): Records<V>
    requires other < |v.ev| && row < |v.ev| && v.ev[other] in recs && v.ev[row] in recs
  {
    var r1 := if other == row then recs else SwappedRecords(recs, v.ev[other], v.ev[row], other, row);
    r1[v.ev[row] := r1[v.ev[row]].(dis := dis)]
  }

  lemma MatchesToggled<V(!new)>(recs: Records<V>, c: Chunk<V>, v: View<V>, row: nat, enable: bool)
    requires Proper(v) && Matches(recs, c, v) && row < |v.ev| && (enable <==> row < v.first)
    ensures var other := if enable then v.first - 1 else v.first;
      && v.ev[other] in recs && v.ev[row] in recs
      && Matches(ToggledRecords(recs, v, other, row, !enable), c, Toggled(v, row, enable))
      && OthersKept(recs, ToggledRecords(recs, v, other, row, !enable), v.ev)
  {
    var other := if enable then v.first - 1 else v.first;
    var w := Toggled(v, row, enable);
    var recs' := ToggledRecords(recs, v, other, row, !enable);
    assert w.ev == Exchange(v.ev, other, row);
    assert recs'[v.ev[row]] == Record(c, other, !enable);
    assert other != row ==> recs'[v.ev[other]] == Record(c, row, enable);
    forall r | 0 <= r < |w.ev| ensures w.ev[r] in recs' && recs'[w.ev[r]] == Record(c, r, r < w.first) {
      if r != other && r != row {
        assert w.ev[r] == v.ev[r];
      }
    }
  }

  lemma RefilledRows<V>(v: View<V>, row: nat)
    requires Proper(v) && row < |v.ev|
    ensures |Refilled(v, row).ev| == |v.ev| - 1
    ensures forall r :: 0 <= r < |v.ev| - 1 ==> Refilled(v, row).ev[r] == if r == row then v.ev[|v.ev| - 1] else v.ev[r]
  {
  }

  lemma ProperRemoved<V>(v: View<V>, row: nat)
    requires Proper(v) && row < |v.ev|
    ensures Proper(Removed(v, row))
  {
    RemovedIff(v, row);
  }

  lemma SameEntities<V>(v: View<V>, a: nat, b: nat)
    requires a < |v.ev| && b < |v.ev| && Columns(v.cols, |v.ev|)
    ensures forall e :: e in Swapped(v, a, b).ev <==> e in v.ev
  {
    var w := Swapped(v, a, b).ev;
    forall e ensures e in w <==> e in v.ev {
      if e in v.ev {
        var r :| 0 <= r < |v.ev| && v.ev[r] == e;
        assert w[if r == a then b else if r == b then a else r] == e;
      }
    }
  }

  /** Dropping a row and moving the last one into it keeps the records right once the moved entity's row is updated. */
  lemma MatchesRefilled<V(!new)>(recs: Records<V>, c: Chunk<V>, v: View<V>, row: nat, first: nat)
    requires Proper(v) && Matches(recs, c, v) && row < |v.ev|
    requires first == (if row < v.first then v.first - 1 else v.first)
    requires row == |v.ev| - 1 || v.first <= row || row == v.first - 1
    ensures var last := v.ev[|v.ev| - 1];
      var recs' := if row == |v.ev| - 1 then recs else recs[last := recs[last].(row := row)];
      Matches(recs', c, Refilled(v, row).(first := first)) && OthersKept(recs, recs', v.ev)
  {
    RefilledRows(v, row);
  }

  lemma MatchesAppended<V(!new)>(recs: Records<V>, c: Chunk<V>, v: View<V>, e: Entity, values: seq<V>)
    requires Proper(v) && Matches(recs, c, v) && e !in v.ev && |values| == |v.cols|
    ensures Matches(recs[e := Record(c, |v.ev|, false)], c, Appended(v, e, values))
  {
    var w := Appended(v, e, values);
    forall r | 0 <= r < |v.ev| ensures w.ev[r] == v.ev[r] && v.ev[r] != e {
    }
  }

  function Dropped<V>(v: View<V>): View<V>
    requires |v.ev| > 0 && Columns(v.cols, |v.ev|)
  {
    var last := |v.ev| - 1;
    View(v.ev[..last], seq(|v.cols|, i requires 0 <= i < |v.cols| => v.cols[i][..last]), v.first)
  }

  lemma SwapWithItself<V>(v: View<V>, a: nat)
    requires a < |v.ev| && Columns(v.cols, |v.ev|)
    ensures Swapped(v, a, a) == v
  {
    assert Swapped(v, a, a).cols == v.cols by {
      forall i | 0 <= i < |v.cols| ensures Exchange(v.cols[i], a, a) == v.cols[i] {
      }
    }
  }
}
