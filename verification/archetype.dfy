/** The chunks of an archetype as objects: looking entities up by flat index, trading two of them across
    chunks, and sorting them. */
module Archetypes {
  import opened ArchetypeViews
  import opened Chunks
  import opened ChunkViews
  import opened Ordering

  /** A record points at a row that holds the entity. */
  ghost predicate Located<V(!new)>(recs: Records<V>, e: Entity)
    reads if e in recs then {recs[e].chunk} else {}
  {
    && e in recs
    && var rec := recs[e];
    && rec.row < |rec.chunk.ev| && rec.chunk.ev[rec.row] == e && Columns(rec.chunk.cols, |rec.chunk.ev|)
  }

  /** The two entities trade chunk and row; flags stay with the entity. */
  function TradedRecords<V(!new)>(recs: Records<V>, eA: Entity, eB: Entity): Records<V>
    requires eA in recs && eB in recs
  {
    recs[eA := Record(recs[eB].chunk, recs[eB].row, recs[eA].dis)]
        [eB := Record(recs[eA].chunk, recs[eA].row, recs[eB].dis)]
  }

  /** Swaps one component column of two rows, which may belong to different chunks. */
  method SwapColumn<V(!new)>(a: Chunk<V>, rowA: nat, b: Chunk<V>, rowB: nat, i: nat)
    requires i < |a.cols| && i < |b.cols| && rowA < |a.cols[i]| && rowB < |b.cols[i]|
    modifies a`cols, b`cols
    ensures a != b ==> a.cols == old(a.cols)[i := old(a.cols[i])[rowA := old(b.cols[i][rowB])]]
    ensures a != b ==> b.cols == old(b.cols)[i := old(b.cols[i])[rowB := old(a.cols[i][rowA])]]
    ensures a == b ==> a.cols == old(a.cols)[i := Exchange(old(a.cols[i]), rowA, rowB)]
  {
    var x, y := a.cols[i][rowA], b.cols[i][rowB];
    a.cols := a.cols[i := a.cols[i][rowA := y]];
    b.cols := b.cols[i := b.cols[i][rowB := x]];
  }

  method SwapAllColumns<V(!new)>(a: Chunk<V>, rowA: nat, b: Chunk<V>, rowB: nat)
    requires rowA < |a.ev| && rowB < |b.ev| && Columns(a.cols, |a.ev|) && Columns(b.cols, |b.ev|)
    requires |a.cols| == |b.cols| && (a == b ==> rowA != rowB)
    modifies a`cols, b`cols
    ensures a != b ==> a.cols == Stored(old(a.Rows()), rowA, 0, old(Row(b.cols, rowB))).cols
    ensures a != b ==> b.cols == Stored(old(b.Rows()), rowB, 0, old(Row(a.cols, rowA))).cols
    ensures a == b ==>
      a.cols == Stored(Stored(old(a.Rows()), rowA, 0, old(Row(a.cols, rowB))), rowB, 0, old(Row(a.cols, rowA))).cols
  {
    var i := 0;
    while i < |a.cols|
      invariant 0 <= i <= |a.cols| == |b.cols| == old(|a.cols|)
      invariant forall k :: i <= k < |a.cols| ==> a.cols[k] == old(a.cols[k]) && b.cols[k] == old(b.cols[k])
      invariant a != b ==> forall k :: 0 <= k < i ==>
        a.cols[k] == old(a.cols[k])[rowA := old(b.cols[k][rowB])]
          && b.cols[k] == old(b.cols[k])[rowB := old(a.cols[k][rowA])]
      invariant a == b ==> forall k :: 0 <= k < i ==> a.cols[k] == Exchange(old(a.cols[k]), rowA, rowB)
    {
      SwapColumn(a, rowA, b, rowB, i);
      i := i + 1;
    }
  }

  /** Trades two entities wherever their records say they are. */
  method SwapChunkEntitiesAcross<V(!new)>(recs: EntityContainers<V>, entityA: Entity, entityB: Entity)
    requires Located(recs.recs, entityA) && Located(recs.recs, entityB)
    requires |recs.recs[entityA].chunk.cols| == |recs.recs[entityB].chunk.cols|
    modifies recs, recs.recs[entityA].chunk`ev, recs.recs[entityA].chunk`cols
    modifies recs.recs[entityB].chunk`ev, recs.recs[entityB].chunk`cols
    ensures recs.recs == if entityA == entityB then old(recs.recs) else TradedRecords(old(recs.recs), entityA, entityB)
    ensures forall e :: e in recs.recs <==> e in old(recs.recs)
    ensures forall e :: e in old(recs.recs) && e != entityA && e != entityB ==> recs.recs[e] == old(recs.recs)[e]
    ensures entityA != entityB ==>
      var (a, b) := old((recs.recs[entityA], recs.recs[entityB]));
      recs.recs[entityA] == Record(b.chunk, b.row, a.dis) && recs.recs[entityB] == Record(a.chunk, a.row, b.dis)
    ensures var (a, b) := old((recs.recs[entityA], recs.recs[entityB]));
      && (entityA == entityB ==> a.chunk.Rows() == old(a.chunk.Rows()))
      && (entityA != entityB && a.chunk != b.chunk ==>
            a.chunk.Rows() == Stored(old(a.chunk.Rows()), a.row, entityB, old(Row(b.chunk.cols, b.row)))
            && b.chunk.Rows() == Stored(old(b.chunk.Rows()), b.row, entityA, old(Row(a.chunk.cols, a.row))))
      && (entityA != entityB && a.chunk == b.chunk ==>
            a.chunk.Rows() == Stored(Stored(old(a.chunk.Rows()), a.row, entityB, old(Row(b.chunk.cols, b.row))),
                                     b.row, entityA, old(Row(a.chunk.cols, a.row))))
  {
    if entityA == entityB {
      return;
    }
    var ecA, ecB := recs.recs[entityA], recs.recs[entityB];
    SwapAllColumns(ecA.chunk, ecA.row, ecB.chunk, ecB.row);
    ecA.chunk.ev := ecA.chunk.ev[ecA.row := entityB];
    ecB.chunk.ev := ecB.chunk.ev[ecB.row := entityA];
    recs.recs := TradedRecords(recs.recs, entityA, entityB);
  }

  ghost function ViewsOf<V(!new)>(chunks: seq<Chunk<V>>): (vs: Views<V>)
    reads chunks
    ensures |vs| == |chunks| && forall c :: 0 <= c < |chunks| ==> vs[c] == chunks[c].Rows()
  {
    seq(|chunks|, c requires 0 <= c < |chunks| reads chunks => chunks[c].Rows())
  }

  /** The chunks are different objects, each is consistent with the records, and all have the same columns. */
  ghost predicate Consistent<V(!new)>(chunks: seq<Chunk<V>>, columns: nat, recs: Records<V>)
    reads chunks
  {
    && (forall c, d :: 0 <= c < d < |chunks| ==> chunks[c] != chunks[d])
    && (forall c :: 0 <= c < |chunks| ==> chunks[c].Valid(recs) && |chunks[c].cols| == columns)
  }

  /** Back-pointers make it impossible for an entity to be stored twice. */
  lemma ConsistentProper<V(!new)>(chunks: seq<Chunk<V>>, columns: nat, recs: Records<V>)
    requires Consistent(chunks, columns, recs)
    ensures ProperAll(ViewsOf(chunks), columns)
  {
    var vs := ViewsOf(chunks);
    forall p, q | Holds(vs, p) && Holds(vs, q) && p != q ensures EntityAt(vs, p) != EntityAt(vs, q) {
      assert recs[EntityAt(vs, p)] == Record(chunks[p.c], p.r, p.r < vs[p.c].first);
      assert recs[EntityAt(vs, q)] == Record(chunks[q.c], q.r, q.r < vs[q.c].first);
    }
  }

  lemma ConsistentLocated<V(!new)>(chunks: seq<Chunk<V>>, columns: nat, recs: Records<V>, p: Place)
    requires Consistent(chunks, columns, recs) && Holds(ViewsOf(chunks), p)
    ensures var e := EntityAt(ViewsOf(chunks), p);
      Located(recs, e) && recs[e] == Record(chunks[p.c], p.r, p.r < chunks[p.c].rowFirstEnabledEntity)
      && |chunks[p.c].cols| == columns && |chunks[p.c].ev| == |ViewsOf(chunks)[p.c].ev|
  {
  }

  lemma ChunkFacts<V(!new)>(chunks: seq<Chunk<V>>, columns: nat, recs: Records<V>, c: nat)
    requires Consistent(chunks, columns, recs) && c < |chunks|
    ensures chunks[c].countEnabled + chunks[c].rowFirstEnabledEntity == |chunks[c].ev|
    ensures Columns(chunks[c].cols, |chunks[c].ev|)
  {
  }

  lemma PlaceFacts<V(!new)>(chunks: seq<Chunk<V>>, columns: nat, recs: Records<V>, p: Place)
    requires Consistent(chunks, columns, recs) && Bounded(ViewsOf(chunks)) && Holds(ViewsOf(chunks), p)
    ensures EntityAt(ViewsOf(chunks), p) == chunks[p.c].ev[p.r]
    ensures ProperAll(ViewsOf(chunks), columns)
    ensures RowAt(ViewsOf(chunks), columns, p) == Row(chunks[p.c].cols, p.r)
    ensures forall enabled :: InPart(ViewsOf(chunks)[p.c], p.r, enabled) ==>
      && 0 <= FlatIndex(ViewsOf(chunks), enabled, p) < |Flat(ViewsOf(chunks), enabled)|
      && Flat(ViewsOf(chunks), enabled)[FlatIndex(ViewsOf(chunks), enabled, p)] == EntityAt(ViewsOf(chunks), p)
  {
    ConsistentProper(chunks, columns, recs);
    forall enabled | InPart(ViewsOf(chunks)[p.c], p.r, enabled)
      ensures 0 <= FlatIndex(ViewsOf(chunks), enabled, p) < |Flat(ViewsOf(chunks), enabled)|
      ensures Flat(ViewsOf(chunks), enabled)[FlatIndex(ViewsOf(chunks), enabled, p)] == EntityAt(ViewsOf(chunks), p)
    {
      FlatAt(ViewsOf(chunks), enabled, p);
    }
  }

  /** An index within the current chunk's share of the flat order belongs to this row. */
  lemma FlatHere<V>(vs: Views<V>, enabled: bool, c: nat, flatIdx: nat, row: nat) returns (p: Place)
    requires Bounded(vs) && c < |vs|
    requires |Flat(vs[..c], enabled)| <= flatIdx < |Flat(vs[..c], enabled)| + |Part(vs[c], enabled)|
    requires row == flatIdx - |Flat(vs[..c], enabled)| + (if enabled then vs[c].first else 0)
    ensures p == Place(c, row) && Holds(vs, p) && InPart(vs[c], row, enabled) && FlatIndex(vs, enabled, p) == flatIdx
  {
    p := Place(c, row);
  }

  /** The flat lookup: walks the chunks with a running offset. */
  method GetFlat<V(!new)>(chunks: seq<Chunk<V>>, enabled: bool, flatIdx: nat, ghost columns: nat,
      ghost recs: Records<V>)
    returns (entity: Entity, values: seq<V>, ghost p: Place)
    requires Consistent(chunks, columns, recs) && Bounded(ViewsOf(chunks))
    requires flatIdx < |Flat(ViewsOf(chunks), enabled)|
    ensures entity == Flat(ViewsOf(chunks), enabled)[flatIdx]
    ensures Holds(ViewsOf(chunks), p) && InPart(ViewsOf(chunks)[p.c], p.r, enabled)
    ensures FlatIndex(ViewsOf(chunks), enabled, p) == flatIdx && EntityAt(ViewsOf(chunks), p) == entity
    ensures ProperAll(ViewsOf(chunks), columns) && values == RowAt(ViewsOf(chunks), columns, p)
  {
    ghost var vs := ViewsOf(chunks);
    ConsistentProper(chunks, columns, recs);
    var offset := 0;
    var c := 0;
    FlatSome(vs, enabled, flatIdx, 0);
    hide Consistent, Chunk.Valid, Flat, FlatIndex, Part, InPart, ProperAll, Bounded, Proper, Matches, Row;
    // The walk never runs past the last chunk, so it has no other way out than the return.
    while true
      invariant 0 <= c < |chunks|
      invariant offset == |Flat(vs[..c], enabled)| <= flatIdx
      decreases |chunks| - c
    {
      var chunk := chunks[c];
      ChunkFacts(chunks, columns, recs, c);
      PartSize(vs[c], enabled);
      FlatNext(vs, enabled, c);
      if chunk.Size() > 0 {
        var cnt := if enabled then chunk.countEnabled else chunk.rowFirstEnabledEntity;
        if flatIdx < offset + cnt {
          var row := if enabled then flatIdx - offset + chunk.rowFirstEnabledEntity else flatIdx - offset;
          p := FlatHere(vs, enabled, c, flatIdx, row);
          PlaceFacts(chunks, columns, recs, p);
          return chunk.ev[row], Row(chunk.cols, row), p;
        }
        offset := offset + cnt;
      }
      c := c + 1;
      FlatSome(vs, enabled, flatIdx, c);
    }
  }

  /** While the running offset has not passed the index there is another chunk. */
  lemma FlatSome<V>(vs: Views<V>, enabled: bool, flatIdx: nat, c: nat)
    requires Bounded(vs) && c <= |vs| && |Flat(vs[..c], enabled)| <= flatIdx < |Flat(vs, enabled)|
    ensures c < |vs|
  {
    assert vs[..|vs|] == vs;
  }

  lemma FlatNext<V>(vs: Views<V>, enabled: bool, c: nat)
    requires Bounded(vs) && c < |vs|
    ensures Flat(vs[..c + 1], enabled) == Flat(vs[..c], enabled) + Part(vs[c], enabled)
  {
    assert vs[..c + 1] == vs[..c] + [vs[c]];
    FlatAppend(vs[..c], [vs[c]], enabled);
    assert [vs[c]][1..] == [];
  }

  /** The records stay right when two rows of the same group trade their entities. */
  lemma TradedConsistent<V(!new)>(vs: Views<V>, columns: nat, recs: Records<V>, chunks: seq<Chunk<V>>, p: Place,
      q: Place, c: nat)
    requires ProperAll(vs, columns) && |vs| == |chunks| && c < |vs| && Holds(vs, p) && Holds(vs, q) && p != q
    requires forall a, b :: 0 <= a < b < |chunks| ==> chunks[a] != chunks[b]
    requires forall k :: 0 <= k < |vs| ==> Matches(recs, chunks[k], vs[k])
    requires p.r < vs[p.c].first <==> q.r < vs[q.c].first
    ensures EntityAt(vs, p) in recs && EntityAt(vs, q) in recs
    ensures Matches(TradedRecords(recs, EntityAt(vs, p), EntityAt(vs, q)), chunks[c], Traded(vs, p, q)[c])
  {
    TradedAt(vs, columns, p, q);
    var us := Traded(vs, p, q);
    var (a, b) := (EntityAt(vs, p), EntityAt(vs, q));
    assert recs[a] == Record(chunks[p.c], p.r, p.r < vs[p.c].first);
    assert recs[b] == Record(chunks[q.c], q.r, q.r < vs[q.c].first);
    var recs' := TradedRecords(recs, a, b);
    hide Traded;
    forall r | 0 <= r < |us[c].ev|
      ensures us[c].ev[r] in recs' && recs'[us[c].ev[r]] == Record(chunks[c], r, r < us[c].first)
    {
      var m := Place(c, r);
      assert Holds(vs, m) && us[c].ev[r] == EntityAt(vs, Origin(p, q, m));
      if m != p && m != q {
        assert EntityAt(vs, m) != a && EntityAt(vs, m) != b;
      }
    }
  }

  /** Flags stay with the entities, so the records are right after a trade exactly when both rows are on the same side
      of their boundaries. */
  lemma TradedMatchIff<V(!new)>(vs: Views<V>, columns: nat, recs: Records<V>, chunks: seq<Chunk<V>>, p: Place, q: Place)
    requires ProperAll(vs, columns) && |vs| == |chunks| && Holds(vs, p) && Holds(vs, q) && p != q
    requires forall a, b :: 0 <= a < b < |chunks| ==> chunks[a] != chunks[b]
    requires forall k :: 0 <= k < |vs| ==> Matches(recs, chunks[k], vs[k])
    ensures EntityAt(vs, p) in recs && EntityAt(vs, q) in recs
    ensures var us, recs' := Traded(vs, p, q), TradedRecords(recs, EntityAt(vs, p), EntityAt(vs, q));
      (forall c :: 0 <= c < |us| ==> Matches(recs', chunks[c], us[c])) <==>
        (p.r < vs[p.c].first <==> q.r < vs[q.c].first)
  {
    var (a, b) := (EntityAt(vs, p), EntityAt(vs, q));
    assert Matches(recs, chunks[p.c], vs[p.c]) && Matches(recs, chunks[q.c], vs[q.c]);
    assert recs[a] == Record(chunks[p.c], p.r, p.r < vs[p.c].first);
    assert recs[b] == Record(chunks[q.c], q.r, q.r < vs[q.c].first);
    var us, recs' := Traded(vs, p, q), TradedRecords(recs, a, b);
    if p.r < vs[p.c].first <==> q.r < vs[q.c].first {
      forall c | 0 <= c < |us| ensures Matches(recs', chunks[c], us[c]) {
        TradedConsistent(vs, columns, recs, chunks, p, q, c);
      }
    } else {
      TradedAt(vs, columns, p, q);
      assert us[p.c].ev[p.r] == b && recs'[b].dis == (q.r < vs[q.c].first);
      assert !Matches(recs', chunks[p.c], us[p.c]);
    }
  }

  /** A trade chunk by chunk. */
  lemma TradedChunks<V>(vs: Views<V>, columns: nat, p: Place, q: Place)
    requires ProperAll(vs, columns) && Holds(vs, p) && Holds(vs, q) && p != q
    ensures forall c :: 0 <= c < |vs| && c != p.c && c != q.c ==> Traded(vs, p, q)[c] == vs[c]
    ensures p.c != q.c ==>
      && Traded(vs, p, q)[p.c] == Stored(vs[p.c], p.r, EntityAt(vs, q), RowAt(vs, columns, q))
      && Traded(vs, p, q)[q.c] == Stored(vs[q.c], q.r, EntityAt(vs, p), RowAt(vs, columns, p))
    ensures p.c == q.c ==>
      Traded(vs, p, q)[p.c] == Stored(Stored(vs[p.c], p.r, EntityAt(vs, q), RowAt(vs, columns, q)),
                                      q.r, EntityAt(vs, p), RowAt(vs, columns, p))
  {
  }

  /** Trades the entities of two different rows, which may lie in different chunks. */
  method TradeRows<V(!new)>(chunks: seq<Chunk<V>>, recs: EntityContainers<V>, entityA: Entity, entityB: Entity,
                            ghost columns: nat, ghost p: Place, ghost q: Place)
    requires Consistent(chunks, columns, recs.recs)
    requires ProperAll(ViewsOf(chunks), columns) && Holds(ViewsOf(chunks), p) && Holds(ViewsOf(chunks), q)
    requires EntityAt(ViewsOf(chunks), p) == entityA && EntityAt(ViewsOf(chunks), q) == entityB
    modifies recs, chunks`ev, chunks`cols
    ensures entityA in old(recs.recs) && entityB in old(recs.recs)
    ensures recs.recs == if p == q then old(recs.recs) else TradedRecords(old(recs.recs), entityA, entityB)
    ensures ViewsOf(chunks) == if p == q then old(ViewsOf(chunks)) else old(Traded(ViewsOf(chunks), p, q))
  {
    ghost var vs := ViewsOf(chunks);
    ConsistentLocated(chunks, columns, recs.recs, p);
    ConsistentLocated(chunks, columns, recs.recs, q);
    if p != q {
      TradedChunks(vs, columns, p, q);
      assert entityA != entityB;
    }
    assert forall c, d :: 0 <= c < d < |chunks| ==> chunks[c] != chunks[d];
    hide Consistent, ProperAll, Traded, Stored, Columns;
    SwapChunkEntitiesAcross(recs, entityA, entityB);
    ghost var us := if p == q then vs else Traded(vs, p, q);
    forall c | 0 <= c < |vs| ensures chunks[c].Rows() == us[c] {
    }
    assert ViewsOf(chunks) == us;
  }

  /** As `TradeRows`, for two rows of the same group: everything stays consistent. */
  method Trade<V(!new)>(chunks: seq<Chunk<V>>, recs: EntityContainers<V>, entityA: Entity, entityB: Entity,
                        ghost columns: nat, ghost p: Place, ghost q: Place)
    requires Consistent(chunks, columns, recs.recs)
    requires ProperAll(ViewsOf(chunks), columns) && Holds(ViewsOf(chunks), p) && Holds(ViewsOf(chunks), q)
    requires EntityAt(ViewsOf(chunks), p) == entityA && EntityAt(ViewsOf(chunks), q) == entityB
    requires p.r < chunks[p.c].rowFirstEnabledEntity <==> q.r < chunks[q.c].rowFirstEnabledEntity
    modifies recs, chunks`ev, chunks`cols
    ensures Consistent(chunks, columns, recs.recs)
    ensures ViewsOf(chunks) == if p == q then old(ViewsOf(chunks)) else old(Traded(ViewsOf(chunks), p, q))
  {
    ghost var vs, r0 := ViewsOf(chunks), recs.recs;
    if p != q {
      forall c | 0 <= c < |vs|
        ensures EntityAt(vs, p) in r0 && EntityAt(vs, q) in r0
        ensures Matches(TradedRecords(r0, EntityAt(vs, p), EntityAt(vs, q)), chunks[c], Traded(vs, p, q)[c])
      {
        TradedConsistent(vs, columns, r0, chunks, p, q, c);
      }
      TradedProper(vs, columns, p, q);
      TradedAt(vs, columns, p, q);
    }
    hide Traded, TradedRecords;
    TradeRows(chunks, recs, entityA, entityB, columns, p, q);
    if p != q {
      assert forall c :: 0 <= c < |chunks| ==> chunks[c].Rows() == Traded(vs, p, q)[c];
    }
  }
}
