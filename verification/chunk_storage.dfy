/** The list of chunks an archetype owns and the index below which every chunk is full. */
module ChunkStorage {
  import opened Archetypes
  import opened ArchetypeViews
  import opened Chunks
  import opened ChunkViews

  class Storage<V(!new)> {
    var chunks: seq<Chunk<V>>
    var firstFreeChunkIdx: nat
    const capacity: nat
    const columns: nat

    constructor (cap: nat, cols: nat)
      requires cap > 0
      ensures Valid() && chunks == [] && capacity == cap && columns == cols
    {
      chunks, firstFreeChunkIdx := [], 0;
      capacity, columns := cap, cols;
    }

    /** Every chunk knows its position and the chunks before the free index are full. */
    ghost predicate Valid()
      reads this, chunks
    {
      && capacity > 0
      && Indexed()
      && firstFreeChunkIdx <= |chunks|
      && forall i :: 0 <= i < firstFreeChunkIdx ==> |chunks[i].ev| == capacity
    }

    ghost predicate Indexed()
      reads this, chunks
    {
      && (forall i, j :: 0 <= i < j < |chunks| ==> chunks[i] != chunks[j])
      && (forall i :: 0 <= i < |chunks| ==>
            chunks[i].idx == i && chunks[i].capacity == capacity && |chunks[i].ev| <= capacity)
    }

    /** The first chunk with room, or a new one when every chunk is full. */
    method FocFreeChunk() returns (chunk: Chunk<V>)
      requires Valid()
      modifies this`chunks, this`firstFreeChunkIdx
      ensures Valid() && chunk in chunks && |chunk.ev| < capacity && firstFreeChunkIdx == chunk.idx
      ensures forall i :: 0 <= i < chunk.idx ==> |chunks[i].ev| == capacity
      ensures chunks == old(chunks) || (chunks == old(chunks) + [chunk] && fresh(chunk))
      ensures ViewsOf(chunks) ==
        if chunks == old(chunks) then old(ViewsOf(chunks)) else old(ViewsOf(chunks)) + [NoRows(columns)]
      ensures chunk !in old(chunks) <==> fresh(chunk)
      ensures fresh(chunk) <==> forall i :: 0 <= i < |old(chunks)| ==> |old(chunks)[i].ev| == capacity
      ensures fresh(chunk) ==> chunk.ev == [] && |chunk.cols| == columns && forall recs :: chunk.Valid(recs)
    {
      ghost var vs := ViewsOf(chunks);
      var i := firstFreeChunkIdx;
      while i < |chunks|
        invariant firstFreeChunkIdx <= i <= |chunks|
        invariant forall k :: 0 <= k < i ==> |chunks[k].ev| == capacity
      {
        if chunks[i].Size() < chunks[i].capacity {
          firstFreeChunkIdx := i;
          return chunks[i];
        }
        i := i + 1;
      }
      chunk := new Chunk<V>(|chunks|, capacity, columns);
      firstFreeChunkIdx := |chunks|;
      chunks := chunks + [chunk];
      assert chunk.Rows() == NoRows(columns);
      assert ViewsOf(chunks) == vs + [NoRows(columns)];
    }

    /** After an insertion: skips the chunk that has just become full. */
    method TryUpdateFreeChunkIdx()
      requires Valid() && firstFreeChunkIdx < |chunks|
      modifies this`firstFreeChunkIdx
      ensures Valid()
      ensures firstFreeChunkIdx ==
        old(firstFreeChunkIdx) + (if |chunks[old(firstFreeChunkIdx)].ev| == capacity then 1 else 0)
    {
      if chunks[firstFreeChunkIdx].Size() >= chunks[firstFreeChunkIdx].capacity {
        firstFreeChunkIdx := firstFreeChunkIdx + 1;
      }
    }

    /** After a removal from the given chunk. At that point the chunk may lie below the free index without being
        full. */
    method TryUpdateAfterRemoval(chunk: Chunk<V>)
      requires capacity > 0 && Indexed() && firstFreeChunkIdx <= |chunks| && chunk in chunks
      requires forall i :: 0 <= i < firstFreeChunkIdx && chunks[i] != chunk ==> |chunks[i].ev| == capacity
      modifies this`firstFreeChunkIdx
      ensures firstFreeChunkIdx == if chunk.idx <= old(firstFreeChunkIdx) then chunk.idx
        else old(firstFreeChunkIdx) + (if |chunks[old(firstFreeChunkIdx)].ev| == capacity then 1 else 0)
      ensures |chunk.ev| < capacity ==> Valid()
    {
      if chunk.idx == firstFreeChunkIdx {
        return;
      }
      if chunk.idx < firstFreeChunkIdx {
        firstFreeChunkIdx := chunk.idx;
        return;
      }
      if chunks[firstFreeChunkIdx].Size() >= chunks[firstFreeChunkIdx].capacity {
        firstFreeChunkIdx := firstFreeChunkIdx + 1;
      }
    }

    /** Adds an entity where the first free row is: the way every insertion uses the two operations in tandem.
        Afterwards the entity is stored enabled with its values, and all others as before. */
    method InsertEntity(entity: Entity, values: seq<V>, recs: EntityContainers<V>) returns (chunk: Chunk<V>)
      requires Valid() && Consistent(chunks, columns, recs.recs) && |values| == columns
      requires forall c :: c in chunks ==> entity !in c.ev
      modifies this`chunks, this`firstFreeChunkIdx, chunks, recs
      ensures Valid() && Consistent(chunks, columns, recs.recs)
      ensures chunk in chunks && (chunks == old(chunks) || chunks == old(chunks) + [chunk])
      ensures forall i :: 0 <= i < chunk.idx < |chunks| ==> |chunks[i].ev| == capacity
      ensures firstFreeChunkIdx == chunk.idx + if |chunk.ev| == capacity then 1 else 0
      ensures chunk.ev != [] && chunk.ev[|chunk.ev| - 1] == entity
      ensures recs.recs == old(recs.recs)[entity := Record(chunk, |chunk.ev| - 1, false)]
      ensures ViewsOf(chunks) == InsertedInto(
        if chunks == old(chunks) then old(ViewsOf(chunks)) else old(ViewsOf(chunks)) + [NoRows(columns)],
        chunk.idx, entity, values)
      ensures AlsoStores(old(ViewsOf(chunks)), ViewsOf(chunks), columns, entity, Slot(false, values))
    {
      hide Indexed, Consistent, Chunk.Valid, InsertedInto, AlsoStores, ProperAll, ViewsOf, NoRows;
      ghost var cs, vs := chunks, ViewsOf(chunks);
      ConsistentProper(chunks, columns, recs.recs);
      chunk := FocFreeChunk();
      StillConsistent(chunks, cs, chunk, columns, recs.recs);
      ghost var ws := ViewsOf(chunks);
      StoreInto(chunk, entity, values, recs);
      StillStored(vs, ws, ViewsOf(chunks), columns, entity, Slot(false, values));
      TryUpdateFreeChunkIdx();
    }

    /** Stores an entity at the end of a chunk that has room. */
    method StoreInto(chunk: Chunk<V>, entity: Entity, values: seq<V>, recs: EntityContainers<V>)
      requires Valid() && Consistent(chunks, columns, recs.recs) && |values| == columns
      requires chunk in chunks && |chunk.ev| < capacity && forall c :: c in chunks ==> entity !in c.ev
      modifies chunk, recs
      ensures Valid() && Consistent(chunks, columns, recs.recs)
      ensures chunk.idx == old(chunk.idx) < |chunks| && chunks[chunk.idx] == chunk
      ensures chunk.ev == old(chunk.ev) + [entity]
      ensures old(|chunk.cols|) == columns
      ensures ViewsOf(chunks) == InsertedInto(old(ViewsOf(chunks)), chunk.idx, entity, values)
      ensures AlsoStores(old(ViewsOf(chunks)), ViewsOf(chunks), columns, entity, Slot(false, values))
      ensures recs.recs == old(recs.recs)[entity := Record(chunk, |chunk.ev| - 1, false)]
    {
      hide Consistent, Chunk.Valid, Appended, AlsoStores, ProperAll;
      ghost var vs := ViewsOf(chunks);
      ConsistentProper(chunks, columns, recs.recs);
      AddRecorded(chunk, entity, values, recs);
      ConsistentProper(chunks, columns, recs.recs);
      assert ViewsOf(chunks) == vs[chunk.idx := chunk.Rows()];
      AppendedStores(vs, columns, chunk.idx, entity, values);
    }

    /** Adds the row and writes the entity's record. */
    method AddRecorded(chunk: Chunk<V>, entity: Entity, values: seq<V>, recs: EntityContainers<V>)
      requires Consistent(chunks, columns, recs.recs) && chunk in chunks && |values| == columns
      requires |chunk.ev| < chunk.capacity && forall c :: c in chunks ==> entity !in c.ev
      modifies chunk, recs
      ensures Consistent(chunks, columns, recs.recs) && old(|chunk.cols|) == columns
      ensures chunk.Rows() == Appended(old(chunk.Rows()), entity, values) && chunk.idx == old(chunk.idx)
      ensures chunk.ev == old(chunk.ev) + [entity]
      ensures recs.recs == old(recs.recs)[entity := Record(chunk, |chunk.ev| - 1, false)]
    {
      ghost var v, r0 := chunk.Rows(), recs.recs;
      assert chunk.Valid(r0);
      AppendedContents(v, entity, values);
      var row := chunk.AddEntity(entity, values);
      recs.recs := recs.recs[entity := Record(chunk, row, false)];
      MatchesAppended(r0, chunk, v, entity, values);
      assert chunk.Valid(recs.recs);
      forall c | c in chunks && c != chunk ensures c.Valid(recs.recs) {
        assert c.Valid(r0);
      }
    }

    /** Removes a row and lowers the free index when that chunk now has the first free row. The entity is then no longer
        stored and all others are as before, unless the row was the first enabled one behind disabled ones. */
    method RemoveEntityRaw(chunk: Chunk<V>, row: nat, recs: EntityContainers<V>)
      requires Valid() && Consistent(chunks, columns, recs.recs) && chunk in chunks && row < |chunk.ev|
      modifies this`firstFreeChunkIdx, chunk, recs
      ensures Valid() && chunk.idx == old(chunk.idx)
      ensures firstFreeChunkIdx == if chunk.idx <= old(firstFreeChunkIdx) then chunk.idx
        else old(firstFreeChunkIdx) + (if |chunks[old(firstFreeChunkIdx)].ev| == capacity then 1 else 0)
      ensures chunk.Rows() == Removed(old(chunk.Rows()), row)
      ensures Consistent(chunks, columns, recs.recs) <==> !(0 < old(chunk.rowFirstEnabledEntity) == row)
      ensures forall c :: c in chunks && c != chunk ==> c.Valid(recs.recs)
      ensures 0 < old(chunk.rowFirstEnabledEntity) == row ==>
        forall r :: 0 <= r < |chunk.ev| ==>
          chunk.ev[r] in recs.recs
          && recs.recs[chunk.ev[r]] == Record(chunk, r, r < old(chunk.rowFirstEnabledEntity))
      ensures !(0 < old(chunk.rowFirstEnabledEntity) == row) ==>
        StoresWithout(old(ViewsOf(chunks)), ViewsOf(chunks), columns, old(chunk.ev[row]))
    {
      hide Removed, Consistent, Chunk.Valid, StoresWithout, ViewsOf;
      RemoveStored(chunk, row, recs);
      TryUpdateAfterRemoval(chunk);
    }

    method RemoveStored(chunk: Chunk<V>, row: nat, recs: EntityContainers<V>)
      requires Indexed() && Consistent(chunks, columns, recs.recs) && chunk in chunks && row < |chunk.ev|
      modifies chunk, recs
      ensures chunk.idx == old(chunk.idx) && |chunk.ev| == old(|chunk.ev|) - 1
      ensures chunk.Rows() == Removed(old(chunk.Rows()), row)
      ensures Consistent(chunks, columns, recs.recs) <==> !(0 < old(chunk.rowFirstEnabledEntity) == row)
      ensures forall c :: c in chunks && c != chunk ==> c.Valid(recs.recs)
      ensures 0 < old(chunk.rowFirstEnabledEntity) == row ==>
        forall r :: 0 <= r < |chunk.ev| ==>
          chunk.ev[r] in recs.recs
          && recs.recs[chunk.ev[r]] == Record(chunk, r, r < old(chunk.rowFirstEnabledEntity))
      ensures !(0 < old(chunk.rowFirstEnabledEntity) == row) ==>
        StoresWithout(old(ViewsOf(chunks)), ViewsOf(chunks), columns, old(chunk.ev[row]))
    {
      ghost var vs := ViewsOf(chunks);
      ConsistentProper(chunks, columns, recs.recs);
      assert vs[chunk.idx] == chunk.Rows();
      RowsFacts(vs, columns, chunk.idx);
      hide Removed, StoresWithout, ProperAll, Consistent, Chunk.Valid, Columns;
      RemoveRow(chunk, row, recs);
      if Consistent(chunks, columns, recs.recs) {
        ConsistentProper(chunks, columns, recs.recs);
        assert ViewsOf(chunks) == vs[chunk.idx := chunk.Rows()];
        RemovedStores(vs, columns, chunk.idx, row);
      }
    }

    method RemoveRow(chunk: Chunk<V>, row: nat, recs: EntityContainers<V>)
      requires Consistent(chunks, columns, recs.recs) && chunk in chunks && row < |chunk.ev|
      modifies chunk, recs
      ensures chunk.idx == old(chunk.idx) && |chunk.ev| == old(|chunk.ev|) - 1
      ensures chunk.Rows() == Removed(old(chunk.Rows()), row)
      ensures Consistent(chunks, columns, recs.recs) <==> !(0 < old(chunk.rowFirstEnabledEntity) == row)
      ensures forall c :: c in chunks && c != chunk ==> c.Valid(recs.recs)
      ensures 0 < old(chunk.rowFirstEnabledEntity) == row ==>
        forall r :: 0 <= r < |chunk.ev| ==>
          chunk.ev[r] in recs.recs
          && recs.recs[chunk.ev[r]] == Record(chunk, r, r < old(chunk.rowFirstEnabledEntity))
    {
      ghost var v, r0 := chunk.Rows(), recs.recs;
      chunk.RemoveEntity(row, recs);
      RefilledRows(v, row);
      forall c | c in chunks && c != chunk ensures c.Valid(recs.recs) {
        assert OthersKept(r0, recs.recs, v.ev);
      }
    }

    /** Deletes a chunk by moving the last one into its place. Chunks below the free index stay full exactly
        when the deleted chunk was not below it, or the chunk that takes its place is full as well. */
    method Del(chunk: Chunk<V>)
      requires Valid() && chunk in chunks
      modifies this`chunks, chunks
      ensures Indexed() && firstFreeChunkIdx == old(firstFreeChunkIdx)
      ensures chunks == old(chunks[chunk.idx := chunks[|chunks| - 1]][..|chunks| - 1])
      ensures forall c :: c in chunks <==> c in old(chunks) && c != chunk
      ensures forall c :: c in old(chunks) ==> c.Rows() == old(c.Rows()) && c.countEnabled == old(c.countEnabled)
      ensures Valid() <==>
        (old(chunk.idx) >= firstFreeChunkIdx
         || (firstFreeChunkIdx < old(|chunks|) && old(|chunks[|chunks| - 1].ev|) == capacity))
      ensures old(chunk.ev) == [] ==> Valid()
    {
      ghost var cs := chunks;
      var at := chunk.idx;
      var last := |chunks| - 1;
      Erased(cs, at);
      chunks[last].idx := at;
      if at != last {
        chunks := chunks[at := chunks[last]];
      }
      chunks := chunks[..last];
      assert forall i :: 0 <= i < last ==> chunks[i] == if i == at then cs[last] else cs[i];
      if at < firstFreeChunkIdx && at != last {
        assert chunks[at] == cs[last];
      }
    }
  }

  /** The elements left after moving the last one into position `at`. */
  lemma Erased<V(!new)>(s: seq<Chunk<V>>, at: nat)
    requires at < |s| && forall i, j :: 0 <= i < j < |s| ==> s[i] != s[j]
    ensures var last := |s| - 1;
      forall x :: x in s[at := s[last]][..last] <==> x in s && x != s[at]
  {
    var last := |s| - 1;
    var t := s[at := s[last]][..last];
    forall x ensures x in t <==> x in s && x != s[at] {
      if x in s && x != s[at] {
        var k :| 0 <= k < |s| && s[k] == x;
        assert t[if k == last then at else k] == x;
      }
    }
  }

  /** The rows of a chunk that has just been made. */
  ghost function NoRows<V>(columns: nat): (v: View<V>)
    ensures |v.cols| == columns
  {
    View([], seq(columns, i => []), 0)
  }

  /** The rows of all chunks with the entity added to those of chunk `k`. */
  ghost function InsertedInto<V>(vs: Views<V>, k: nat, entity: Entity, values: seq<V>): Views<V>
    requires k < |vs| && |values| == |vs[k].cols|
  {
    vs[k := Appended(vs[k], entity, values)]
  }

  /** A new chunk without rows makes no difference to what is stored. */
  lemma StillStored<V(!new)>(vs: Views<V>, ws: Views<V>, us: Views<V>, columns: nat, entity: Entity, slot: Slot<V>)
    requires ProperAll(vs, columns) && (ws == vs || ws == vs + [NoRows(columns)])
    requires AlsoStores(ws, us, columns, entity, slot)
    ensures AlsoStores(vs, us, columns, entity, slot)
  {
    hide Stores, ProperAll;
    forall e: Entity, s: Slot<V> ensures Stores(ws, columns, e, s) <==> Stores(vs, columns, e, s) {
      if ws != vs {
        NothingStored(vs, NoRows(columns), columns, e, s);
      }
    }
  }

  lemma RowsFacts<V>(vs: Views<V>, columns: nat, k: nat)
    requires ProperAll(vs, columns) && k < |vs|
    ensures vs[k].first <= |vs[k].ev| && Columns(vs[k].cols, |vs[k].ev|)
  {
  }

  lemma StillConsistent<V(!new)>(
      chunks: seq<Chunk<V>>, before: seq<Chunk<V>>, chunk: Chunk<V>, columns: nat, recs: Records<V>)
    requires Consistent(before, columns, recs)
    requires chunks == before
      || (chunks == before + [chunk] && chunk !in before && chunk.Valid(recs) && |chunk.cols| == columns)
    ensures Consistent(chunks, columns, recs)
  {
  }
}
