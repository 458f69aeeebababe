/** Sorting all entities of an archetype in place, through the flat order that spans its chunks. */
module ArchetypeSort {
  import opened Archetypes
  import opened ArchetypeViews
  import opened Chunks
  import opened ChunkViews
  import opened Introsort
  import opened Ordering

  type ItemLess<!V> = Less<(Entity, seq<V>)>

  /** The archetype is consistent and `vals` are the component values of its entities. */
  ghost predicate Ready<V(!new)>(chunks: seq<Chunk<V>>, recs: Records<V>, columns: nat, vals: map<Entity, seq<V>>)
    reads chunks
  {
    && Consistent(chunks, columns, recs)
    && ProperAll(ViewsOf(chunks), columns)
    && Keyed(ViewsOf(chunks), columns, vals)
  }

  ghost function FlatOf<V(!new)>(chunks: seq<Chunk<V>>, recs: Records<V>, columns: nat, vals: map<Entity, seq<V>>,
      enabled: bool): seq<Entity>
    requires Ready(chunks, recs, columns, vals)
    reads chunks
  {
    Flat(ViewsOf(chunks), enabled)
  }

  /** The element at a flat index: the entity and the values the comparison is made on. */
  method Item<V(!new)>(chunks: seq<Chunk<V>>, enabled: bool, k: nat, ghost recs: Records<V>, ghost columns: nat,
      ghost vals: map<Entity, seq<V>>)
    returns (entity: Entity, values: seq<V>, ghost p: Place)
    requires Ready(chunks, recs, columns, vals) && k < |FlatOf(chunks, recs, columns, vals, enabled)|
    ensures entity == FlatOf(chunks, recs, columns, vals, enabled)[k] && values == ValuesIn(vals, entity)
    ensures Holds(ViewsOf(chunks), p) && InPart(ViewsOf(chunks)[p.c], p.r, enabled)
    ensures FlatIndex(ViewsOf(chunks), enabled, p) == k && EntityAt(ViewsOf(chunks), p) == entity
  {
    hide Consistent, Flat, FlatIndex, InPart;
    entity, values, p := GetFlat(chunks, enabled, k, columns, recs);
  }

  /** Trades the elements at two flat indices. */
  method TradeItems<V(!new)>(chunks: seq<Chunk<V>>, recs: EntityContainers<V>, enabled: bool, entityA: Entity,
      entityB: Entity, ghost p: Place, ghost q: Place, ghost i: nat, ghost j: nat, ghost low: nat,
      ghost high: nat, ghost columns: nat, ghost vals: map<Entity, seq<V>>)
    requires Ready(chunks, recs.recs, columns, vals)
    requires Holds(ViewsOf(chunks), p) && InPart(ViewsOf(chunks)[p.c], p.r, enabled)
    requires Holds(ViewsOf(chunks), q) && InPart(ViewsOf(chunks)[q.c], q.r, enabled)
    requires FlatIndex(ViewsOf(chunks), enabled, p) == i && FlatIndex(ViewsOf(chunks), enabled, q) == j
    requires EntityAt(ViewsOf(chunks), p) == entityA && EntityAt(ViewsOf(chunks), q) == entityB
    requires low <= i < high <= |FlatOf(chunks, recs.recs, columns, vals, enabled)| && low <= j < high
    modifies recs, chunks`ev, chunks`cols
    ensures Ready(chunks, recs.recs, columns, vals)
    ensures FlatOf(chunks, recs.recs, columns, vals, enabled)
      == Exchange(old(FlatOf(chunks, recs.recs, columns, vals, enabled)), i, j)
    ensures Rearranged(old(ViewsOf(chunks)), ViewsOf(chunks), columns, enabled, low, high, vals)
  {
    ghost var vs := ViewsOf(chunks);
    if p != q {
      TradedRearranged(vs, columns, enabled, p, q, low, high, vals);
      TradedKeyed(vs, columns, p, q, vals);
    } else {
      RearrangedRefl(vs, columns, enabled, low, high, vals);
      ExchangeSame(Flat(vs, enabled), i);
    }
    hide Consistent, ProperAll, Flat, FlatIndex, Traded, Rearranged, Keyed, Exchange, Holds, EntityAt;
    Trade(chunks, recs, entityA, entityB, columns, p, q);
  }

  lemma ExchangeSame<T>(s: seq<T>, i: int)
    requires 0 <= i < |s|
    ensures Exchange(s, i, i) == s
  {
  }

  /** The partition so far: the group was rearranged within [low, high], the entities before `i` are smaller
      than the one at `high`, and those from `i` to before `j` are not. */
  ghost predicate Partial<V(!new)>(chunks: seq<Chunk<V>>, recs: Records<V>, columns: nat, vals: map<Entity, seq<V>>,
      enabled: bool, vs0: Views<V>, lt: ItemLess<V>, low: nat, high: nat, i: nat, j: nat)
    reads chunks
  {
    && Ready(chunks, recs, columns, vals)
    && Scanning(ByItem(lt, vals), FlatOf(chunks, recs, columns, vals, enabled), low, high, i, j)
    && Bounded(vs0) && |FlatOf(chunks, recs, columns, vals, enabled)| == |Flat(vs0, enabled)|
    && Rearranged(vs0, ViewsOf(chunks), columns, enabled, low, high + 1, vals)
  }

  /** One round of the partition loop. */
  method PartitionStep<V(!new)>(chunks: seq<Chunk<V>>, recs: EntityContainers<V>, enabled: bool, ghost low: nat,
      ghost high: nat, i0: nat, j: nat, pivotEntity: Entity, pivotValues: seq<V>, lt: ItemLess<V>,
      ghost columns: nat, ghost vals: map<Entity, seq<V>>, ghost vs0: Views<V>)
    returns (i: nat)
    requires Partial(chunks, recs.recs, columns, vals, enabled, vs0, lt, low, high, i0, j) && low <= i0 <= j < high
    requires high < |FlatOf(chunks, recs.recs, columns, vals, enabled)|
    requires FlatOf(chunks, recs.recs, columns, vals, enabled)[high] == pivotEntity
      && pivotValues == ValuesIn(vals, pivotEntity)
    modifies recs, chunks`ev, chunks`cols
    ensures Partial(chunks, recs.recs, columns, vals, enabled, vs0, lt, low, high, i, j + 1) && low <= i <= j + 1
    ensures high < |FlatOf(chunks, recs.recs, columns, vals, enabled)|
    ensures FlatOf(chunks, recs.recs, columns, vals, enabled)[high] == pivotEntity
  {
    hide *;
    PartialParts(chunks, recs.recs, columns, vals, enabled, vs0, lt, low, high, i0, j);
    ghost var f, vs1 := FlatOf(chunks, recs.recs, columns, vals, enabled), ViewsOf(chunks);
    var jEntity, jValues;
    ghost var pj;
    jEntity, jValues, pj := Item(chunks, enabled, j, recs.recs, columns, vals);
    ByItemIs(lt, vals, jEntity, pivotEntity);
    if lt((jEntity, jValues), (pivotEntity, pivotValues)) {
      ScanSmaller(ByItem(lt, vals), f, low, high, i0, j);
      i := i0 + 1;
      if i0 != j {
        var iEntity, iValues;
        ghost var pi;
        iEntity, iValues, pi := Item(chunks, enabled, i0, recs.recs, columns, vals);
        TradeItems(chunks, recs, enabled, iEntity, jEntity, pi, pj, i0, j, low, high + 1, columns, vals);
        RearrangedTrans(vs0, vs1, ViewsOf(chunks), columns, enabled, low, high + 1, low, high + 1, vals);
      } else {
        ExchangeSame(f, i0);
      }
    } else {
      ScanOther(ByItem(lt, vals), f, low, high, i0, j);
      i := i0;
    }
    PartialWhole(chunks, recs.recs, columns, vals, enabled, vs0, lt, low, high, i, j + 1);
  }

  lemma PartialParts<V(!new)>(chunks: seq<Chunk<V>>, recs: Records<V>, columns: nat, vals: map<Entity, seq<V>>,
      enabled: bool, vs0: Views<V>, lt: ItemLess<V>, low: nat, high: nat, i: nat, j: nat)
    requires Partial(chunks, recs, columns, vals, enabled, vs0, lt, low, high, i, j)
    ensures Ready(chunks, recs, columns, vals) && low <= i <= j <= high < |FlatOf(chunks, recs, columns, vals, enabled)|
    ensures Scanning(ByItem(lt, vals), FlatOf(chunks, recs, columns, vals, enabled), low, high, i, j)
    ensures Bounded(vs0) && |FlatOf(chunks, recs, columns, vals, enabled)| == |Flat(vs0, enabled)|
    ensures Rearranged(vs0, ViewsOf(chunks), columns, enabled, low, high + 1, vals)
  {
  }

  lemma PartialWhole<V(!new)>(chunks: seq<Chunk<V>>, recs: Records<V>, columns: nat, vals: map<Entity, seq<V>>,
      enabled: bool, vs0: Views<V>, lt: ItemLess<V>, low: nat, high: nat, i: nat, j: nat)
    requires Ready(chunks, recs, columns, vals)
    requires Scanning(ByItem(lt, vals), FlatOf(chunks, recs, columns, vals, enabled), low, high, i, j)
    requires Rearranged(vs0, ViewsOf(chunks), columns, enabled, low, high + 1, vals)
    ensures Partial(chunks, recs, columns, vals, enabled, vs0, lt, low, high, i, j)
  {
  }

  /** Partitions [low, high] of the flat order around the entity at `high`. */
  method PartitionFlat<V(!new)>(chunks: seq<Chunk<V>>, recs: EntityContainers<V>, enabled: bool, low: nat, high: nat,
                                lt: ItemLess<V>, ghost columns: nat, ghost vals: map<Entity, seq<V>>)
    returns (i: nat)
    requires StrictWeak(lt) && Ready(chunks, recs.recs, columns, vals)
    requires Bounded(ViewsOf(chunks)) && low < high < |Flat(ViewsOf(chunks), enabled)|
    modifies recs, chunks`ev, chunks`cols
    ensures Ready(chunks, recs.recs, columns, vals)
    ensures PartitionedAt(old(ViewsOf(chunks)), ViewsOf(chunks), columns, enabled, low, high, i, vals, ByItem(lt, vals))
    ensures i <= high < |FlatOf(chunks, recs.recs, columns, vals, enabled)|
    ensures FlatOf(chunks, recs.recs, columns, vals, enabled)[i]
      == old(FlatOf(chunks, recs.recs, columns, vals, enabled)[high])
  {
    hide *;
    ghost var vs0 := ViewsOf(chunks);
    FlatOfIs(chunks, recs.recs, columns, vals, enabled);
    var pivotEntity, pivotValues;
    ghost var ph;
    pivotEntity, pivotValues, ph := Item(chunks, enabled, high, recs.recs, columns, vals);
    PartialStart(chunks, recs.recs, columns, vals, enabled, lt, low, high);
    i := low;
    var j := low;
    while j < high
      invariant low <= i <= j <= high
      invariant Partial(chunks, recs.recs, columns, vals, enabled, vs0, lt, low, high, i, j)
      invariant Ready(chunks, recs.recs, columns, vals) && high < |FlatOf(chunks, recs.recs, columns, vals, enabled)|
      invariant FlatOf(chunks, recs.recs, columns, vals, enabled)[high] == pivotEntity
    {
      i := PartitionStep(chunks, recs, enabled, low, high, i, j, pivotEntity, pivotValues, lt, columns, vals, vs0);
      PartialParts(chunks, recs.recs, columns, vals, enabled, vs0, lt, low, high, i, j + 1);
      j := j + 1;
    }
    PlacePivotEntity(chunks, recs, enabled, low, high, i, pivotEntity, lt, columns, vals, vs0);
  }

  /** After the loop the pivot trades places with the first entity that is not smaller. */
  method PlacePivotEntity<V(!new)>(chunks: seq<Chunk<V>>, recs: EntityContainers<V>, enabled: bool, low: nat,
      high: nat, i: nat, pivotEntity: Entity, lt: ItemLess<V>, ghost columns: nat, ghost vals: map<Entity, seq<V>>,
      ghost vs0: Views<V>)
    requires StrictWeak(lt) && Partial(chunks, recs.recs, columns, vals, enabled, vs0, lt, low, high, i, high)
    requires low <= i <= high < |FlatOf(chunks, recs.recs, columns, vals, enabled)|
    requires FlatOf(chunks, recs.recs, columns, vals, enabled)[high] == pivotEntity
    modifies recs, chunks`ev, chunks`cols
    ensures Ready(chunks, recs.recs, columns, vals)
    ensures PartitionedAt(vs0, ViewsOf(chunks), columns, enabled, low, high, i, vals, ByItem(lt, vals))
    ensures high < |FlatOf(chunks, recs.recs, columns, vals, enabled)|
    ensures FlatOf(chunks, recs.recs, columns, vals, enabled)[i] == pivotEntity
  {
    hide *;
    PartialParts(chunks, recs.recs, columns, vals, enabled, vs0, lt, low, high, i, high);
    ByItemStrictWeak(lt, vals);
    ScanDone(ByItem(lt, vals), FlatOf(chunks, recs.recs, columns, vals, enabled), low, high, i);
    ghost var vs1 := ViewsOf(chunks);
    var iEntity, iValues;
    ghost var pi;
    iEntity, iValues, pi := Item(chunks, enabled, i, recs.recs, columns, vals);
    ghost var ph := PlaceOf(chunks, recs.recs, columns, vals, enabled, high);
    ExchangedEnd(FlatOf(chunks, recs.recs, columns, vals, enabled), i, high);
    TradeItems(chunks, recs, enabled, iEntity, pivotEntity, pi, ph, i, high, low, high + 1, columns, vals);
    RearrangedTrans(vs0, vs1, ViewsOf(chunks), columns, enabled, low, high + 1, low, high + 1, vals);
    PartitionedWhole(chunks, recs.recs, vs0, columns, enabled, low, high, i, vals, ByItem(lt, vals));
  }

  lemma ExchangedEnd<T>(f: seq<T>, i: nat, high: nat)
    requires i <= high < |f|
    ensures |Exchange(f, i, high)| == |f| && Exchange(f, i, high)[i] == f[high]
  {
  }

  lemma PartitionedWhole<V(!new)>(chunks: seq<Chunk<V>>, recs: Records<V>, vs: Views<V>, columns: nat, enabled: bool,
                                  low: nat, high: nat, i: nat, vals: map<Entity, seq<V>>, ord: Less<Entity>)
    requires Ready(chunks, recs, columns, vals)
    requires low <= i <= high < |FlatOf(chunks, recs, columns, vals, enabled)|
    requires Rearranged(vs, ViewsOf(chunks), columns, enabled, low, high + 1, vals)
    requires Split(ord, FlatOf(chunks, recs, columns, vals, enabled), low, i, high + 1)
    requires Split(ord, FlatOf(chunks, recs, columns, vals, enabled), low, i + 1, high + 1)
    ensures PartitionedAt(vs, ViewsOf(chunks), columns, enabled, low, high, i, vals, ord)
  {
  }

  lemma FlatOfIs<V(!new)>(chunks: seq<Chunk<V>>, recs: Records<V>, columns: nat, vals: map<Entity, seq<V>>,
      enabled: bool)
    requires Ready(chunks, recs, columns, vals)
    ensures Bounded(ViewsOf(chunks)) && FlatOf(chunks, recs, columns, vals, enabled) == Flat(ViewsOf(chunks), enabled)
  {
  }

  lemma PartialStart<V(!new)>(chunks: seq<Chunk<V>>, recs: Records<V>, columns: nat, vals: map<Entity, seq<V>>,
      enabled: bool, lt: ItemLess<V>, low: nat, high: nat)
    requires Ready(chunks, recs, columns, vals) && low <= high < |FlatOf(chunks, recs, columns, vals, enabled)|
    ensures Partial(chunks, recs, columns, vals, enabled, ViewsOf(chunks), lt, low, high, low, low)
    ensures Bounded(ViewsOf(chunks))
      && |Flat(ViewsOf(chunks), enabled)| == |FlatOf(chunks, recs, columns, vals, enabled)|
  {
    RearrangedRefl(ViewsOf(chunks), columns, enabled, low, high + 1, vals);
  }

  /** The row behind a flat index. */
  lemma PlaceOf<V(!new)>(chunks: seq<Chunk<V>>, recs: Records<V>, columns: nat, vals: map<Entity, seq<V>>,
      enabled: bool, k: nat)
    returns (p: Place)
    requires Ready(chunks, recs, columns, vals) && k < |FlatOf(chunks, recs, columns, vals, enabled)|
    ensures Holds(ViewsOf(chunks), p) && InPart(ViewsOf(chunks)[p.c], p.r, enabled)
    ensures FlatIndex(ViewsOf(chunks), enabled, p) == k
    ensures EntityAt(ViewsOf(chunks), p) == FlatOf(chunks, recs, columns, vals, enabled)[k]
  {
    p := FlatPlace(ViewsOf(chunks), enabled, k);
    FlatAt(ViewsOf(chunks), enabled, p);
  }

  /** `us` arises from `vs` by sorting [lo, end) of one group's flat order. */
  ghost predicate SortedBy<V(!new)>(vs: Views<V>, us: Views<V>, columns: nat, enabled: bool, lo: nat, end: nat,
                                    vals: map<Entity, seq<V>>, ord: Less<Entity>)
  {
    && Bounded(vs) && Bounded(us)
    && lo <= end <= |Flat(vs, enabled)| == |Flat(us, enabled)|
    && Rearranged(vs, us, columns, enabled, lo, end, vals)
    && Sorted(ord, Flat(us, enabled), lo, end)
  }

  /** `us` arises from `vs` by partitioning [low, high] of one group's flat order around index `i`. */
  ghost predicate PartitionedAt<V(!new)>(vs: Views<V>, us: Views<V>, columns: nat, enabled: bool, low: nat,
      high: nat, i: nat, vals: map<Entity, seq<V>>, ord: Less<Entity>)
  {
    && Bounded(vs) && Bounded(us)
    && low <= i <= high < |Flat(vs, enabled)| == |Flat(us, enabled)|
    && Rearranged(vs, us, columns, enabled, low, high + 1, vals)
    && Split(ord, Flat(us, enabled), low, i, high + 1) && Split(ord, Flat(us, enabled), low, i + 1, high + 1)
  }

  /** Partitioning and sorting both parts sorts the whole. */
  lemma SortCombine<V(!new)>(vs0: Views<V>, vs1: Views<V>, vs2: Views<V>, vs3: Views<V>, columns: nat, enabled: bool,
                             low: nat, high: nat, i: nat, vals: map<Entity, seq<V>>, ord: Less<Entity>)
    requires PartitionedAt(vs0, vs1, columns, enabled, low, high, i, vals, ord)
    requires SortedBy(vs1, vs2, columns, enabled, low, i, vals, ord)
    requires SortedBy(vs2, vs3, columns, enabled, i + 1, high + 1, vals, ord)
    ensures SortedBy(vs0, vs3, columns, enabled, low, high + 1, vals, ord)
  {
    hide *;
    PartitionedParts(vs0, vs1, columns, enabled, low, high, i, vals, ord);
    SortedParts(vs1, vs2, columns, enabled, low, i, vals, ord);
    SortedParts(vs2, vs3, columns, enabled, i + 1, high + 1, vals, ord);
    var f0, f1, f2, f3 := Flat(vs0, enabled), Flat(vs1, enabled), Flat(vs2, enabled), Flat(vs3, enabled);
    UnsortedStart(ord, f0, low, high + 1);
    UnsortedPerm(ord, f0, f0, f1, low, high + 1, low, high + 1);
    UnsortedLeft(ord, f0, f1, f2, low, high + 1, low, i, i + 1, high + 1);
    UnsortedFinish(ord, f0, f2, f3, low, high + 1, i + 1, high + 1);
    RearrangedTrans(vs0, vs1, vs2, columns, enabled, low, high + 1, low, i, vals);
    RearrangedTrans(vs0, vs2, vs3, columns, enabled, low, high + 1, i + 1, high + 1, vals);
    SortedWhole(vs0, vs3, columns, enabled, low, high + 1, vals, ord);
  }

  lemma SortedWhole<V(!new)>(vs: Views<V>, us: Views<V>, columns: nat, enabled: bool, lo: nat, end: nat,
                             vals: map<Entity, seq<V>>, ord: Less<Entity>)
    requires Rearranged(vs, us, columns, enabled, lo, end, vals) && Bounded(us) && end <= |Flat(us, enabled)|
    requires Sorted(ord, Flat(us, enabled), lo, end)
    ensures SortedBy(vs, us, columns, enabled, lo, end, vals, ord)
  {
  }

  lemma SortNothing<V(!new)>(vs: Views<V>, columns: nat, enabled: bool, lo: nat, end: nat, vals: map<Entity, seq<V>>,
      ord: Less<Entity>)
    requires ProperAll(vs, columns) && Keyed(vs, columns, vals) && lo <= end <= |Flat(vs, enabled)| && end <= lo + 1
    ensures SortedBy(vs, vs, columns, enabled, lo, end, vals, ord)
  {
    RearrangedRefl(vs, columns, enabled, lo, end, vals);
  }

  lemma PartitionedParts<V(!new)>(vs: Views<V>, us: Views<V>, columns: nat, enabled: bool, low: nat, high: nat, i: nat,
                                  vals: map<Entity, seq<V>>, ord: Less<Entity>)
    requires PartitionedAt(vs, us, columns, enabled, low, high, i, vals, ord)
    ensures Bounded(vs) && Bounded(us) && low <= i <= high < |Flat(vs, enabled)| == |Flat(us, enabled)|
    ensures Perm(Flat(vs, enabled), Flat(us, enabled), low, high + 1)
    ensures Rearranged(vs, us, columns, enabled, low, high + 1, vals)
    ensures Split(ord, Flat(us, enabled), low, i, high + 1) && Split(ord, Flat(us, enabled), low, i + 1, high + 1)
  {
  }

  lemma SortedParts<V(!new)>(vs: Views<V>, us: Views<V>, columns: nat, enabled: bool, lo: nat, end: nat,
                             vals: map<Entity, seq<V>>, ord: Less<Entity>)
    requires SortedBy(vs, us, columns, enabled, lo, end, vals, ord)
    ensures Bounded(vs) && Bounded(us) && lo <= end <= |Flat(vs, enabled)| == |Flat(us, enabled)|
    ensures Perm(Flat(vs, enabled), Flat(us, enabled), lo, end)
    ensures Rearranged(vs, us, columns, enabled, lo, end, vals) && Sorted(ord, Flat(us, enabled), lo, end)
  {
  }

  /** Sorts the flat indices from `low` to `high` of one group. */
  method SortEntitiesInter<V(!new)>(chunks: seq<Chunk<V>>, recs: EntityContainers<V>, enabled: bool, low: nat,
      high: nat, lt: ItemLess<V>, ghost columns: nat, ghost vals: map<Entity, seq<V>>)
    requires StrictWeak(lt) && Ready(chunks, recs.recs, columns, vals)
    requires Bounded(ViewsOf(chunks)) && (if low <= high then high + 1 else low) <= |Flat(ViewsOf(chunks), enabled)|
    modifies recs, chunks`ev, chunks`cols
    ensures Ready(chunks, recs.recs, columns, vals)
    ensures SortedBy(old(ViewsOf(chunks)), ViewsOf(chunks), columns, enabled, low,
      if low <= high then high + 1 else low,
                     vals, ByItem(lt, vals))
    decreases if low <= high then high - low + 1 else 0
  {
    hide *;
    ghost var vs0, ord := ViewsOf(chunks), ByItem(lt, vals);
    if low >= high {
      ReadyParts(chunks, recs.recs, columns, vals);
      SortNothing(vs0, columns, enabled, low, if low <= high then high + 1 else low, vals, ord);
      return;
    }
    var i := PartitionFlat(chunks, recs, enabled, low, high, lt, columns, vals);
    ghost var vs1 := ViewsOf(chunks);
    PartitionedParts(vs0, vs1, columns, enabled, low, high, i, vals, ord);
    if i > 0 {
      SortEntitiesInter(chunks, recs, enabled, low, i - 1, lt, columns, vals);
    } else {
      ReadyParts(chunks, recs.recs, columns, vals);
      SortNothing(vs1, columns, enabled, low, i, vals, ord);
    }
    ghost var vs2 := ViewsOf(chunks);
    SortedParts(vs1, vs2, columns, enabled, low, i, vals, ord);
    SortEntitiesInter(chunks, recs, enabled, i + 1, high, lt, columns, vals);
    SortCombine(vs0, vs1, vs2, ViewsOf(chunks), columns, enabled, low, high, i, vals, ord);
  }

  lemma ReadyParts<V(!new)>(chunks: seq<Chunk<V>>, recs: Records<V>, columns: nat, vals: map<Entity, seq<V>>)
    requires Ready(chunks, recs, columns, vals)
    ensures ProperAll(ViewsOf(chunks), columns) && Keyed(ViewsOf(chunks), columns, vals) && Bounded(ViewsOf(chunks))
  {
  }

  ghost function PlaceFor<V>(vs: Views<V>, e: Entity): (p: Place)
    requires exists p :: Holds(vs, p) && EntityAt(vs, p) == e
    ensures Holds(vs, p) && EntityAt(vs, p) == e
  {
    var p :| Holds(vs, p) && EntityAt(vs, p) == e; p
  }

  ghost function EntitiesOf<V>(vs: Views<V>): (entities: set<Entity>)
    ensures forall p :: Holds(vs, p) ==> EntityAt(vs, p) in entities
    ensures forall e :: e in entities ==> exists p :: Holds(vs, p) && EntityAt(vs, p) == e
  {
    var entities := set c: nat, r: nat | c < |vs| && r < |vs[c].ev| :: EntityAt(vs, Place(c, r));
    assert forall p :: Holds(vs, p) ==> EntityAt(vs, Place(p.c, p.r)) in entities;
    assert forall c: nat, r: nat :: c < |vs| && r < |vs[c].ev| ==> Holds(vs, Place(c, r));
    entities
  }

  /** The component values of all stored entities. */
  ghost function ValuesOf<V>(vs: Views<V>, columns: nat): (vals: map<Entity, seq<V>>)
    requires ProperAll(vs, columns)
    ensures Keyed(vs, columns, vals)
  {
    map e | e in EntitiesOf(vs) :: RowAt(vs, columns, PlaceFor(vs, e))
  }

  /** The number of enabled or disabled entities, counted chunk by chunk. */
  method CountGroup<V(!new)>(chunks: seq<Chunk<V>>, enabled: bool, ghost columns: nat,
      ghost recs: Records<V>) returns (entities: nat)
    requires Consistent(chunks, columns, recs) && Bounded(ViewsOf(chunks))
    ensures entities == |Flat(ViewsOf(chunks), enabled)|
  {
    ghost var vs := ViewsOf(chunks);
    hide Consistent, Chunk.Valid, Flat, Part;
    entities := 0;
    var c := 0;
    FlatNone(vs, enabled);
    while c < |chunks|
      invariant 0 <= c <= |chunks|
      invariant entities == |Flat(vs[..c], enabled)|
    {
      ChunkFacts(chunks, columns, recs, c);
      PartSize(vs[c], enabled);
      FlatNext(vs, enabled, c);
      entities := entities + (if enabled then chunks[c].countEnabled else chunks[c].rowFirstEnabledEntity);
      c := c + 1;
    }
    assert vs[..c] == vs;
  }

  lemma FlatNone<V>(vs: Views<V>, enabled: bool)
    requires Bounded(vs)
    ensures Bounded(vs[..0]) && Flat(vs[..0], enabled) == []
  {
  }

  /** Sorts one group. */
  method SortGroup<V(!new)>(chunks: seq<Chunk<V>>, recs: EntityContainers<V>, enabled: bool, lt: ItemLess<V>,
      ghost columns: nat, ghost vals: map<Entity, seq<V>>)
    requires StrictWeak(lt) && Ready(chunks, recs.recs, columns, vals)
    modifies recs, chunks`ev, chunks`cols
    ensures Ready(chunks, recs.recs, columns, vals) && Bounded(ViewsOf(chunks))
    ensures SortedBy(old(ViewsOf(chunks)), ViewsOf(chunks), columns, enabled, 0, |Flat(ViewsOf(chunks), enabled)|,
      vals, ByItem(lt, vals))
  {
    ReadyParts(chunks, recs.recs, columns, vals);
    ghost var vs := ViewsOf(chunks);
    hide Flat, Bounded, SortedBy, Consistent, ProperAll, Keyed, StrictWeak;
    var entities := CountGroup(chunks, enabled, columns, recs.recs);
    if entities != 0 {
      SortEntitiesInter(chunks, recs, enabled, 0, entities - 1, lt, columns, vals);
      SortedParts(vs, ViewsOf(chunks), columns, enabled, 0, entities, vals, ByItem(lt, vals));
    } else {
      SortNothing(vs, columns, enabled, 0, 0, vals, ByItem(lt, vals));
    }
  }

  /** Sorts the enabled entities and then the disabled ones. Within each group no later row holds a smaller item, an
        item
      being an entity with the values stored in its row; both groups are permuted only within themselves, and every
      entity keeps its flag, its values and a record that says where it is. */
  method SortEntities<V(!new)>(chunks: seq<Chunk<V>>, recs: EntityContainers<V>, lt: ItemLess<V>, ghost columns: nat)
    returns (ghost vals: map<Entity, seq<V>>)
    requires StrictWeak(lt) && Consistent(chunks, columns, recs.recs)
    modifies recs, chunks`ev, chunks`cols
    ensures Consistent(chunks, columns, recs.recs)
    ensures old(ProperAll(ViewsOf(chunks), columns)) && vals == old(ValuesOf(ViewsOf(chunks), columns))
    ensures SameStores(old(ViewsOf(chunks)), ViewsOf(chunks), columns)
    ensures old(Bounded(ViewsOf(chunks))) && Bounded(ViewsOf(chunks))
    ensures forall enabled ::
      && Sorted(ByItem(lt, vals), Flat(ViewsOf(chunks), enabled), 0, |Flat(ViewsOf(chunks), enabled)|)
      && multiset(Flat(ViewsOf(chunks), enabled)) == multiset(old(Flat(ViewsOf(chunks), enabled)))
    ensures forall enabled, p, q :: var vs := ViewsOf(chunks);
      && Holds(vs, p) && Holds(vs, q) && Before(p, q)
      && InPart(vs[p.c], p.r, enabled) && InPart(vs[q.c], q.r, enabled)
      ==> !lt((EntityAt(vs, q), RowAt(vs, columns, q)), (EntityAt(vs, p), RowAt(vs, columns, p)))
  {
    ConsistentProper(chunks, columns, recs.recs);
    ghost var vs0 := ViewsOf(chunks);
    vals := ValuesOf(vs0, columns);
    ghost var ord := ByItem(lt, vals);
    assert Bounded(vs0) && Ready(chunks, recs.recs, columns, vals);
    SortGroup(chunks, recs, true, lt, columns, vals);
    ghost var vs1 := ViewsOf(chunks);
    SortGroup(chunks, recs, false, lt, columns, vals);
    ghost var vs2 := ViewsOf(chunks);
    BothSorted(vs0, vs1, vs2, columns, vals, ord);
    forall enabled, p, q
      | Holds(vs2, p) && Holds(vs2, q) && Before(p, q) && InPart(vs2[p.c], p.r, enabled)
        && InPart(vs2[q.c], q.r, enabled)
      ensures !lt((EntityAt(vs2, q), RowAt(vs2, columns, q)), (EntityAt(vs2, p), RowAt(vs2, columns, p)))
    {
      SortedRows(vs2, columns, enabled, lt, vals, p, q);
    }
  }

  lemma BothSorted<V(!new)>(vs0: Views<V>, vs1: Views<V>, vs2: Views<V>, columns: nat, vals: map<Entity, seq<V>>,
      ord: Less<Entity>)
    requires Bounded(vs0) && Bounded(vs1) && Bounded(vs2)
    requires SortedBy(vs0, vs1, columns, true, 0, |Flat(vs1, true)|, vals, ord)
    requires SortedBy(vs1, vs2, columns, false, 0, |Flat(vs2, false)|, vals, ord)
    ensures SameStores(vs0, vs2, columns)
    ensures forall enabled ::
      && Sorted(ord, Flat(vs2, enabled), 0, |Flat(vs2, enabled)|)
      && multiset(Flat(vs2, enabled)) == multiset(Flat(vs0, enabled))
  {
    assert Flat(vs2, true) == Flat(vs1, true) && Flat(vs1, false) == Flat(vs0, false);
    GroupMultiset(Flat(vs0, true), Flat(vs1, true));
    GroupMultiset(Flat(vs1, false), Flat(vs2, false));
  }

  lemma GroupMultiset(a: seq<Entity>, b: seq<Entity>)
    requires Perm(a, b, 0, |a|)
    ensures multiset(b) == multiset(a)
  {
    assert a[0..|a|] == a && b[0..|b|] == b;
  }
}
