/** Whole runs of a chunk together with the records of its entities. */
module ChunkRuns {
  import opened Chunks
  import opened ChunkViews

  /** Entities are added only while there is room. */
  ghost predicate Fits<V>(v: View<V>, ops: seq<Op<V>>, capacity: nat)
    requires Proper(v) && LegalRun(v, ops)
    decreases |ops|
  {
    ops == [] || (
      && (ops[0].Add? ==> |v.ev| < capacity)
      && (DoRefines(v, ops[0]); Fits(Do(v, ops[0]), ops[1..], capacity)))
  }

  /** The record names the row. */
  lemma RecordedRow<V(!new)>(recs: Records<V>, c: Chunk<V>, e: Entity)
    requires c.Valid(recs) && e in c.ev
    ensures Proper(c.Rows()) && e in recs && recs[e].row == RowOf(c.Rows(), e) < |c.ev|
  {
    var r := RowOf(c.Rows(), e);
  }

  /** One operation. The entity's row is read from its record, and a new entity's record is written. */
  method Perform<V(!new)>(c: Chunk<V>, recs: EntityContainers<V>, op: Op<V>)
    requires c.Valid(recs.recs) && Proper(c.Rows()) && Legal(c.Rows(), op) && (op.Add? ==> |c.ev| < c.capacity)
    modifies c, recs
    ensures c.Valid(recs.recs) && Proper(old(c.Rows())) && c.Rows() == Do(old(c.Rows()), op)
  {
    hide Contents, Matches, OthersKept, Removed, Toggled;
    ghost var v, r0 := c.Rows(), recs.recs;
    DoRefines(v, op);
    match op
    case Add(e, values) =>
      MatchesAppended(r0, c, v, e, values);
      var row := c.AddEntity(e, values);
      recs.recs := recs.recs[e := Record(c, row, false)];
    case Remove(e) =>
      RecordedRow(r0, c, e);
      c.RemoveEntity(recs.recs[e].row, recs);
    case Enable(e, on) =>
      RecordedRow(r0, c, e);
      c.EnableEntity(recs.recs[e].row, on, recs);
  }

  /**
   * Over every legal run the disabled rows are exactly those below the boundary, the counts add up, every row's record
   * names it, and the entities with their values and flags are those of the plain map.
   */
  method PerformAll<V(!new)>(c: Chunk<V>, recs: EntityContainers<V>, ops: seq<Op<V>>)
    requires c.Valid(recs.recs) && Proper(c.Rows()) && LegalRun(c.Rows(), ops) && Fits(c.Rows(), ops, c.capacity)
    modifies c, recs
    ensures c.Valid(recs.recs) && c.countEnabled + c.rowFirstEnabledEntity == |c.ev|
    ensures forall r :: 0 <= r < |c.ev| ==>
      c.ev[r] in recs.recs && recs.recs[c.ev[r]] == Record(c, r, r < c.rowFirstEnabledEntity)
    ensures Proper(old(c.Rows())) && Contents(c.Rows()) == RunMap(old(Contents(c.Rows())), ops)
    decreases |ops|
  {
    hide Contents, Legal, Do, DoMap;
    if ops != [] {
      DoRefines(c.Rows(), ops[0]);
      Perform(c, recs, ops[0]);
      PerformAll(c, recs, ops[1..]);
    }
  }
}
