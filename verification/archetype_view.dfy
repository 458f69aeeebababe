/** The chunks of an archetype as a sequence of views, the flat order that runs through all of them, and
    what trading two entities across chunks does to it. */
module ArchetypeViews {
  import opened ChunkViews
  import opened Ordering

  type Views<V> = seq<View<V>>

  /** A row of a chunk. */
  datatype Place = Place(c: nat, r: nat)

  ghost predicate Holds<V>(vs: Views<V>, p: Place) {
    p.c < |vs| && p.r < |vs[p.c].ev|
  }

  ghost function EntityAt<V>(vs: Views<V>, p: Place): Entity
    requires Holds(vs, p)
  {
    vs[p.c].ev[p.r]
  }

  /** Every chunk is proper, all have the same columns, and no entity is stored twice. */
  ghost predicate ProperAll<V>(vs: Views<V>, columns: nat) {
    && (forall c :: 0 <= c < |vs| ==> Proper(vs[c]) && |vs[c].cols| == columns)
    && (forall p, q :: Holds(vs, p) && Holds(vs, q) && p != q ==> EntityAt(vs, p) != EntityAt(vs, q))
  }

  ghost function SlotAt<V>(vs: Views<V>, columns: nat, p: Place): Slot<V>
    requires ProperAll(vs, columns) && Holds(vs, p)
  {
    Slot(p.r < vs[p.c].first, Row(vs[p.c].cols, p.r))
  }

  /** `slot` is what the archetype stores for `e`. */
  ghost predicate Stores<V>(vs: Views<V>, columns: nat, e: Entity, slot: Slot<V>)
    requires ProperAll(vs, columns)
  {
    exists p :: Holds(vs, p) && EntityAt(vs, p) == e && SlotAt(vs, columns, p) == slot
  }

  /** `slot` is what the chunk stores for `e`. */
  ghost predicate Holding<V>(v: View<V>, e: Entity, slot: Slot<V>)
    requires Proper(v)
  {
    e in Contents(v) && Contents(v)[e] == slot
  }

  lemma StoresIff<V>(vs: Views<V>, columns: nat, e: Entity, slot: Slot<V>)
    requires ProperAll(vs, columns)
    ensures Stores(vs, columns, e, slot) <==> exists c :: 0 <= c < |vs| && Holding(vs[c], e, slot)
  {
    if c :| 0 <= c < |vs| && Holding(vs[c], e, slot) {
      ContentsKeys(vs[c], e);
      var r := RowOf(vs[c], e);
      ContentsAt(vs[c], r);
      assert Holds(vs, Place(c, r)) && SlotAt(vs, columns, Place(c, r)) == slot;
    }
    if Stores(vs, columns, e, slot) {
      var p :| Holds(vs, p) && EntityAt(vs, p) == e && SlotAt(vs, columns, p) == slot;
      ContentsAt(vs[p.c], p.r);
      assert Holding(vs[p.c], e, slot);
    }
  }

  /** What changes in one chunk changes in the archetype. */
  lemma StoresUpdated<V>(vs: Views<V>, w: View<V>, columns: nat, k: nat, e: Entity, slot: Slot<V>)
    requires ProperAll(vs, columns) && Proper(w) && k < |vs| && ProperAll(vs[k := w], columns)
    ensures Stores(vs[k := w], columns, e, slot) <==>
      Holding(w, e, slot) || exists c :: 0 <= c < |vs| && c != k && Holding(vs[c], e, slot)
    ensures Stores(vs, columns, e, slot) <==>
      Holding(vs[k], e, slot) || exists c :: 0 <= c < |vs| && c != k && Holding(vs[c], e, slot)
  {
    var us := vs[k := w];
    StoresIff(vs, columns, e, slot);
    StoresIff(us, columns, e, slot);
    hide Stores, Holding, ProperAll;
    assert us[k] == w;
    assert forall c :: 0 <= c < |vs| && c != k ==> us[c] == vs[c];
  }

  /** `us` stores `slot` for `entity`, and for all others what `vs` stores for them. */
  ghost predicate AlsoStores<V(!new)>(vs: Views<V>, us: Views<V>, columns: nat, entity: Entity, slot: Slot<V>) {
    && ProperAll(vs, columns) && ProperAll(us, columns)
    && (forall e: Entity, s: Slot<V> ::
          Stores(us, columns, e, s) <==> if e == entity then s == slot else Stores(vs, columns, e, s))
  }

  /** `us` stores nothing for `entity`, and for all others what `vs` stores for them. */
  ghost predicate StoresWithout<V(!new)>(vs: Views<V>, us: Views<V>, columns: nat, entity: Entity) {
    && ProperAll(vs, columns) && ProperAll(us, columns)
    && (forall e: Entity, s: Slot<V> :: Stores(us, columns, e, s) <==> e != entity && Stores(vs, columns, e, s))
  }

  /** Adding an entity to a chunk stores it enabled with its values and changes nothing for the others. */
  lemma AppendedStores<V(!new)>(vs: Views<V>, columns: nat, k: nat, entity: Entity, values: seq<V>)
    requires ProperAll(vs, columns) && k < |vs| && |values| == columns && |vs[k].cols| == columns
    requires forall c :: 0 <= c < |vs| ==> entity !in vs[c].ev
    requires ProperAll(vs[k := Appended(vs[k], entity, values)], columns)
    ensures AlsoStores(vs, vs[k := Appended(vs[k], entity, values)], columns, entity, Slot(false, values))
  {
    AppendedContents(vs[k], entity, values);
    forall c | 0 <= c < |vs| ensures entity !in Contents(vs[c]) {
      ContentsKeys(vs[c], entity);
    }
    hide Stores, Appended, Contents;
    forall e: Entity, s: Slot<V>
      ensures Stores(vs[k := Appended(vs[k], entity, values)], columns, e, s) <==>
        if e == entity then s == Slot(false, values) else Stores(vs, columns, e, s)
    {
      StoresUpdated(vs, Appended(vs[k], entity, values), columns, k, e, s);
    }
  }

  /** Removing an entity from a chunk takes it out and changes nothing for the others. */
  lemma RemovedStores<V(!new)>(vs: Views<V>, columns: nat, k: nat, row: nat)
    requires ProperAll(vs, columns) && k < |vs| && row < |vs[k].ev| && !(0 < vs[k].first == row)
    requires vs[k].first <= |vs[k].ev| && Columns(vs[k].cols, |vs[k].ev|)
    requires ProperAll(vs[k := Removed(vs[k], row)], columns)
    ensures StoresWithout(vs, vs[k := Removed(vs[k], row)], columns, vs[k].ev[row])
  {
    RemovedContents(vs[k], row);
    hide Stores, Removed, Contents;
    forall c | 0 <= c < |vs| && c != k ensures vs[k].ev[row] !in Contents(vs[c]) {
      NotElsewhere(vs, columns, Place(k, row), c);
    }
    forall e: Entity, s: Slot<V>
      ensures Stores(vs[k := Removed(vs[k], row)], columns, e, s) <==>
        e != vs[k].ev[row] && Stores(vs, columns, e, s)
    {
      StoresUpdated(vs, Removed(vs[k], row), columns, k, e, s);
    }
  }

  lemma NotElsewhere<V>(vs: Views<V>, columns: nat, p: Place, c: nat)
    requires ProperAll(vs, columns) && Holds(vs, p) && c < |vs| && c != p.c
    ensures EntityAt(vs, p) !in Contents(vs[c])
  {
    if EntityAt(vs, p) in Contents(vs[c]) {
      ContentsKeys(vs[c], EntityAt(vs, p));
      assert Holds(vs, Place(c, RowOf(vs[c], EntityAt(vs, p))));
    }
  }

  /** A chunk without rows stores nothing. */
  lemma NothingStored<V>(vs: Views<V>, v: View<V>, columns: nat, e: Entity, slot: Slot<V>)
    requires ProperAll(vs, columns) && ProperAll(vs + [v], columns) && v.ev == []
    ensures Stores(vs + [v], columns, e, slot) <==> Stores(vs, columns, e, slot)
  {
    var us := vs + [v];
    if Stores(us, columns, e, slot) {
      var p :| Holds(us, p) && EntityAt(us, p) == e && SlotAt(us, columns, p) == slot;
      assert Holds(vs, p) && EntityAt(vs, p) == e && SlotAt(vs, columns, p) == slot;
    }
    if Stores(vs, columns, e, slot) {
      var p :| Holds(vs, p) && EntityAt(vs, p) == e && SlotAt(vs, columns, p) == slot;
      assert Holds(us, p) && EntityAt(us, p) == e && SlotAt(us, columns, p) == slot;
    }
  }

  // The flat order

  /** The enabled or the disabled entities of one chunk. */
  ghost function Part<V>(v: View<V>, enabled: bool): seq<Entity>
    requires v.first <= |v.ev|
  {
    if enabled then v.ev[v.first..] else v.ev[..v.first]
  }

  ghost predicate Bounded<V>(vs: Views<V>) {
    forall c :: 0 <= c < |vs| ==> vs[c].first <= |vs[c].ev|
  }

  /** The enabled or the disabled entities of all chunks, chunk after chunk. */
  ghost function Flat<V>(vs: Views<V>, enabled: bool): (f: seq<Entity>)
    requires Bounded(vs)
    decreases |vs|
  {
    if vs == [] then [] else Part(vs[0], enabled) + Flat(vs[1..], enabled)
  }

  lemma {:induction false} FlatAppend<V>(a: Views<V>, b: Views<V>, enabled: bool)
    requires Bounded(a) && Bounded(b)
    ensures Bounded(a + b) && Flat(a + b, enabled) == Flat(a, enabled) + Flat(b, enabled)
    decreases |a|
  {
    if a == [] {
      assert a + b == b;
    } else {
      FlatAppend(a[1..], b, enabled);
      assert (a + b)[1..] == a[1..] + b;
    }
  }

  ghost predicate InPart<V>(v: View<V>, r: nat, enabled: bool) {
    r < |v.ev| && (enabled <==> r >= v.first)
  }

  /** The flat index of a row. */
  ghost function FlatIndex<V>(vs: Views<V>, enabled: bool, p: Place): (k: int)
    requires Bounded(vs) && Holds(vs, p) && InPart(vs[p.c], p.r, enabled)
  {
    |Flat(vs[..p.c], enabled)| + (if enabled then p.r - vs[p.c].first else p.r)
  }

  /** The flat order around one chunk. */
  lemma FlatSplit<V>(vs: Views<V>, enabled: bool, c: nat)
    requires Bounded(vs) && c < |vs|
    ensures Flat(vs, enabled) == Flat(vs[..c], enabled) + Part(vs[c], enabled) + Flat(vs[c + 1..], enabled)
  {
    assert vs == vs[..c] + vs[c..];
    FlatAppend(vs[..c], vs[c..], enabled);
    assert vs[c..][1..] == vs[c + 1..];
  }

  lemma FlatAt<V>(vs: Views<V>, enabled: bool, p: Place)
    requires Bounded(vs) && Holds(vs, p) && InPart(vs[p.c], p.r, enabled)
    ensures 0 <= FlatIndex(vs, enabled, p) < |Flat(vs, enabled)|
    ensures Flat(vs, enabled)[FlatIndex(vs, enabled, p)] == EntityAt(vs, p)
  {
    FlatSplit(vs, enabled, p.c);
  }

  /** Every flat index belongs to a row of that group. */
  lemma {:induction false} FlatPlace<V>(vs: Views<V>, enabled: bool, k: nat) returns (p: Place)
    requires Bounded(vs) && k < |Flat(vs, enabled)|
    ensures Holds(vs, p) && InPart(vs[p.c], p.r, enabled) && FlatIndex(vs, enabled, p) == k
    decreases |vs|
  {
    var n := |Part(vs[0], enabled)|;
    if k < n {
      p := Place(0, if enabled then vs[0].first + k else k);
      assert vs[..0] == [];
    } else {
      var q := FlatPlace(vs[1..], enabled, k - n);
      p := Place(q.c + 1, q.r);
      assert vs[..p.c] == [vs[0]] + vs[1..][..q.c];
      FlatAppend([vs[0]], vs[1..][..q.c], enabled);
      assert Flat([vs[0]], enabled) == Part(vs[0], enabled) by {
        assert [vs[0]][1..] == [];
      }
    }
  }

  /** Different rows have different flat indices. */
  lemma FlatInjective<V>(vs: Views<V>, columns: nat, enabled: bool, p: Place, q: Place)
    requires ProperAll(vs, columns) && Holds(vs, p) && Holds(vs, q) && p != q
    requires InPart(vs[p.c], p.r, enabled) && InPart(vs[q.c], q.r, enabled)
    ensures FlatIndex(vs, enabled, p) != FlatIndex(vs, enabled, q)
  {
    FlatAt(vs, enabled, p);
    FlatAt(vs, enabled, q);
  }

  /** Rows in the order of iteration: chunk after chunk, and within a chunk row after row. */
  predicate Before(p: Place, q: Place) {
    p.c < q.c || (p.c == q.c && p.r < q.r)
  }

  /** Flat indices follow exactly that order. */
  lemma FlatIndexOrder<V>(vs: Views<V>, enabled: bool, p: Place, q: Place)
    requires Bounded(vs) && Holds(vs, p) && Holds(vs, q)
    requires InPart(vs[p.c], p.r, enabled) && InPart(vs[q.c], q.r, enabled)
    ensures FlatIndex(vs, enabled, p) < FlatIndex(vs, enabled, q) <==> Before(p, q)
  {
    if Before(p, q) {
      FlatIndexGrows(vs, enabled, p, q);
    } else if p != q {
      FlatIndexGrows(vs, enabled, q, p);
    }
  }

  lemma FlatIndexGrows<V>(vs: Views<V>, enabled: bool, p: Place, q: Place)
    requires Bounded(vs) && Holds(vs, p) && Holds(vs, q)
    requires InPart(vs[p.c], p.r, enabled) && InPart(vs[q.c], q.r, enabled) && Before(p, q)
    ensures FlatIndex(vs, enabled, p) < FlatIndex(vs, enabled, q)
  {
    if p.c < q.c {
      FlatSplit(vs[..q.c], enabled, p.c);
      assert vs[..q.c][..p.c] == vs[..p.c];
      PartSize(vs[p.c], enabled);
    }
  }

  lemma PartSize<V>(v: View<V>, enabled: bool)
    requires v.first <= |v.ev|
    ensures |Part(v, enabled)| == if enabled then |v.ev| - v.first else v.first
  {
  }

  /** The entities of the flat order are all different. */
  lemma FlatDistinct<V>(vs: Views<V>, columns: nat, enabled: bool, k: nat, m: nat)
    requires ProperAll(vs, columns) && k < m < |Flat(vs, enabled)|
    ensures Flat(vs, enabled)[k] != Flat(vs, enabled)[m]
  {
    var p := FlatPlace(vs, enabled, k);
    var q := FlatPlace(vs, enabled, m);
    FlatAt(vs, enabled, p);
    FlatAt(vs, enabled, q);
  }

  // Storing into one row

  /** The chunk with another entity and other values in row `r`. */
  function Stored<V>(v: View<V>, r: nat, e: Entity, values: seq<V>): (w: View<V>)
    requires r < |v.ev| && Columns(v.cols, |v.ev|) && |values| == |v.cols|
    ensures |w.ev| == |v.ev| && w.first == v.first && |w.cols| == |v.cols| && Columns(w.cols, |w.ev|)
    ensures w.ev == v.ev[r := e] && Row(w.cols, r) == values
    ensures forall q :: 0 <= q < |v.ev| && q != r ==> Row(w.cols, q) == Row(v.cols, q)
  {
    View(v.ev[r := e], seq(|v.cols|, i requires 0 <= i < |v.cols| => v.cols[i][r := values[i]]), v.first)
  }

  /** The index of a row among the rows of its group in the chunk. */
  ghost function PartIndex<V>(v: View<V>, r: nat, enabled: bool): (k: int)
    requires v.first <= |v.ev| && InPart(v, r, enabled)
    ensures 0 <= k < |Part(v, enabled)| && Part(v, enabled)[k] == v.ev[r]
  {
    if enabled then r - v.first else r
  }

  lemma PartStored<V>(v: View<V>, r: nat, e: Entity, values: seq<V>, enabled: bool)
    requires v.first <= |v.ev| && r < |v.ev| && Columns(v.cols, |v.ev|) && |values| == |v.cols|
    ensures InPart(v, r, enabled) ==>
      Part(Stored(v, r, e, values), enabled) == Part(v, enabled)[PartIndex(v, r, enabled) := e]
    ensures !InPart(v, r, enabled) ==> Part(Stored(v, r, e, values), enabled) == Part(v, enabled)
  {
  }

  lemma UpdateMiddle<T>(a: seq<T>, b: seq<T>, c: seq<T>, k: int, x: T)
    requires 0 <= k < |b|
    ensures a + b[k := x] + c == (a + b + c)[|a| + k := x]
  {
  }

  lemma StoredBounded<V>(vs: Views<V>, p: Place, e: Entity, values: seq<V>)
    requires Bounded(vs) && p.c < |vs| && p.r < |vs[p.c].ev|
    requires Columns(vs[p.c].cols, |vs[p.c].ev|) && |values| == |vs[p.c].cols|
    ensures Bounded(vs[p.c := Stored(vs[p.c], p.r, e, values)])
  {
  }

  lemma FlatStored<V>(vs: Views<V>, enabled: bool, p: Place, e: Entity, values: seq<V>)
    requires Bounded(vs) && p.c < |vs| && p.r < |vs[p.c].ev|
    requires Columns(vs[p.c].cols, |vs[p.c].ev|) && |values| == |vs[p.c].cols|
    ensures Bounded(vs[p.c := Stored(vs[p.c], p.r, e, values)]) && Holds(vs, p)
    ensures !InPart(vs[p.c], p.r, enabled) ==>
      Flat(vs[p.c := Stored(vs[p.c], p.r, e, values)], enabled) == Flat(vs, enabled)
    ensures InPart(vs[p.c], p.r, enabled) ==> 0 <= FlatIndex(vs, enabled, p) < |Flat(vs, enabled)|
    ensures InPart(vs[p.c], p.r, enabled) ==>
      Flat(vs[p.c := Stored(vs[p.c], p.r, e, values)], enabled) == Flat(vs, enabled)[FlatIndex(vs, enabled, p) := e]
  {
    hide Flat, Stored;
    var us := vs[p.c := Stored(vs[p.c], p.r, e, values)];
    var a, c := Flat(vs[..p.c], enabled), Flat(vs[p.c + 1..], enabled);
    assert us[..p.c] == vs[..p.c] && us[p.c + 1..] == vs[p.c + 1..];
    PartStored(vs[p.c], p.r, e, values, enabled);
    StoredBounded(vs, p, e, values);
    hide Part, Bounded;
    FlatSplit(vs, enabled, p.c);
    FlatSplit(us, enabled, p.c);
    if InPart(vs[p.c], p.r, enabled) {
      UpdateMiddle(a, Part(vs[p.c], enabled), c, PartIndex(vs[p.c], p.r, enabled), e);
    }
  }

  /** Trading the entities of two rows, with their values. */
  function Traded<V>(vs: Views<V>, p: Place, q: Place): (us: Views<V>)
    requires p.c < |vs| && p.r < |vs[p.c].ev| && q.c < |vs| && q.r < |vs[q.c].ev|
    requires Columns(vs[p.c].cols, |vs[p.c].ev|) && Columns(vs[q.c].cols, |vs[q.c].ev|)
    requires |vs[p.c].cols| == |vs[q.c].cols|
    ensures |us| == |vs|
  {
    var (e, x) := (vs[p.c].ev[p.r], Row(vs[p.c].cols, p.r));
    var (d, y) := (vs[q.c].ev[q.r], Row(vs[q.c].cols, q.r));
    var ts := vs[p.c := Stored(vs[p.c], p.r, d, y)];
    ts[q.c := Stored(ts[q.c], q.r, e, x)]
  }

  lemma TradedAt<V>(vs: Views<V>, columns: nat, p: Place, q: Place)
    requires ProperAll(vs, columns) && Holds(vs, p) && Holds(vs, q) && p != q
    ensures |Traded(vs, p, q)| == |vs|
    ensures forall c :: 0 <= c < |vs| ==>
      && Traded(vs, p, q)[c].first == vs[c].first && |Traded(vs, p, q)[c].ev| == |vs[c].ev|
      && |Traded(vs, p, q)[c].cols| == columns && Columns(Traded(vs, p, q)[c].cols, |vs[c].ev|)
    ensures forall m :: Holds(vs, m) ==>
      && Traded(vs, p, q)[m.c].ev[m.r] == EntityAt(vs, if m == p then q else if m == q then p else m)
      && Row(Traded(vs, p, q)[m.c].cols, m.r) == RowAt(vs, columns, if m == p then q else if m == q then p else m)
  {
  }

  ghost function RowAt<V>(vs: Views<V>, columns: nat, p: Place): seq<V>
    requires ProperAll(vs, columns) && Holds(vs, p)
  {
    Row(vs[p.c].cols, p.r)
  }

  lemma TradedProper<V>(vs: Views<V>, columns: nat, p: Place, q: Place)
    requires ProperAll(vs, columns) && Holds(vs, p) && Holds(vs, q) && p != q
    ensures ProperAll(Traded(vs, p, q), columns)
  {
    var us := Traded(vs, p, q);
    TradedAt(vs, columns, p, q);
    hide Traded;
    forall m, n | Holds(us, m) && Holds(us, n) && m != n ensures EntityAt(us, m) != EntityAt(us, n) {
      assert Holds(vs, m) && Holds(vs, n);
    }
    forall c | 0 <= c < |us| ensures Proper(us[c]) {
      forall a, b | 0 <= a < b < |us[c].ev| ensures us[c].ev[a] != us[c].ev[b] {
        assert Holds(us, Place(c, a)) && Holds(us, Place(c, b));
        assert EntityAt(us, Place(c, a)) != EntityAt(us, Place(c, b));
      }
    }
  }

  /** The place whose content a trade puts at `m`; trading is its own inverse. */
  function Origin(p: Place, q: Place, m: Place): Place {
    if m == p then q else if m == q then p else m
  }

  lemma TradedSlot<V>(vs: Views<V>, columns: nat, p: Place, q: Place, m: Place)
    requires ProperAll(vs, columns) && Holds(vs, p) && Holds(vs, q) && p != q && Holds(vs, m)
    requires p.r < vs[p.c].first <==> q.r < vs[q.c].first
    ensures var us := Traded(vs, p, q);
      && ProperAll(us, columns) && Holds(us, m) && Holds(vs, Origin(p, q, m))
      && EntityAt(us, m) == EntityAt(vs, Origin(p, q, m))
      && SlotAt(us, columns, m) == SlotAt(vs, columns, Origin(p, q, m))
  {
    TradedProper(vs, columns, p, q);
    TradedAt(vs, columns, p, q);
  }

  /** Trading within a group loses nothing and changes nothing that is stored for any entity. */
  lemma TradedStores<V>(vs: Views<V>, columns: nat, p: Place, q: Place, e: Entity, slot: Slot<V>)
    requires ProperAll(vs, columns) && Holds(vs, p) && Holds(vs, q) && p != q
    requires p.r < vs[p.c].first <==> q.r < vs[q.c].first
    ensures ProperAll(Traded(vs, p, q), columns)
    ensures Stores(Traded(vs, p, q), columns, e, slot) <==> Stores(vs, columns, e, slot)
  {
    var us := Traded(vs, p, q);
    TradedSlot(vs, columns, p, q, p);
    forall m ensures Holds(us, m) <==> Holds(vs, m) {
      TradedAt(vs, columns, p, q);
    }
    hide Traded, ProperAll, Holds, EntityAt, SlotAt;
    if Stores(us, columns, e, slot) {
      var m :| Holds(us, m) && EntityAt(us, m) == e && SlotAt(us, columns, m) == slot;
      TradedSlot(vs, columns, p, q, m);
    }
    if Stores(vs, columns, e, slot) {
      var m :| Holds(vs, m) && EntityAt(vs, m) == e && SlotAt(vs, columns, m) == slot;
      TradedSlot(vs, columns, p, q, m);
      TradedSlot(vs, columns, p, q, Origin(p, q, m));
    }
  }

  /** Trading within a group exchanges the two flat positions; the other group is not touched. */
  lemma TradedFlat<V>(vs: Views<V>, columns: nat, p: Place, q: Place, enabled: bool)
    requires ProperAll(vs, columns) && Holds(vs, p) && Holds(vs, q) && p != q
    requires InPart(vs[p.c], p.r, enabled) && InPart(vs[q.c], q.r, enabled)
    ensures Bounded(vs) && Bounded(Traded(vs, p, q))
    ensures 0 <= FlatIndex(vs, enabled, p) < |Flat(vs, enabled)| && 0 <= FlatIndex(vs, enabled, q) < |Flat(vs, enabled)|
    ensures Flat(Traded(vs, p, q), enabled)
      == Exchange(Flat(vs, enabled), FlatIndex(vs, enabled, p), FlatIndex(vs, enabled, q))
    ensures Flat(Traded(vs, p, q), !enabled) == Flat(vs, !enabled)
  {
    var (e, x) := (vs[p.c].ev[p.r], Row(vs[p.c].cols, p.r));
    var (d, y) := (vs[q.c].ev[q.r], Row(vs[q.c].cols, q.r));
    var ts := vs[p.c := Stored(vs[p.c], p.r, d, y)];
    FlatAt(vs, enabled, p);
    FlatAt(vs, enabled, q);
    FlatStored(vs, enabled, p, d, y);
    FlatStored(ts, enabled, q, e, x);
    FlatStored(vs, !enabled, p, d, y);
    FlatStored(ts, !enabled, q, e, x);
    FlatIndexSame(vs, ts, enabled, q);
  }

  /** Flat indices depend only on how many rows each chunk has in each group. */
  lemma {:induction false} FlatSizeSame<V>(vs: Views<V>, us: Views<V>, enabled: bool)
    requires Bounded(vs) && |us| == |vs|
    requires forall c :: 0 <= c < |vs| ==> us[c].first == vs[c].first && |us[c].ev| == |vs[c].ev|
    ensures Bounded(us) && |Flat(us, enabled)| == |Flat(vs, enabled)|
    decreases |vs|
  {
    if vs != [] {
      FlatSizeSame(vs[1..], us[1..], enabled);
    }
  }

  lemma FlatIndexSame<V>(vs: Views<V>, us: Views<V>, enabled: bool, p: Place)
    requires Bounded(vs) && |us| == |vs| && Holds(vs, p) && InPart(vs[p.c], p.r, enabled)
    requires forall c :: 0 <= c < |vs| ==> us[c].first == vs[c].first && |us[c].ev| == |vs[c].ev|
    ensures Bounded(us) && Holds(us, p) && FlatIndex(us, enabled, p) == FlatIndex(vs, enabled, p)
  {
    FlatSizeSame(vs[..p.c], us[..p.c], enabled);
  }

  /** Both arrangements store the same things for the same entities. */
  ghost predicate SameStores<V(!new)>(vs: Views<V>, us: Views<V>, columns: nat) {
    && ProperAll(vs, columns) && ProperAll(us, columns)
    && (forall e: Entity, slot: Slot<V> :: Stores(us, columns, e, slot) <==> Stores(vs, columns, e, slot))
  }

  /** `vals` gives the component values of every stored entity. */
  ghost predicate Keyed<V>(vs: Views<V>, columns: nat, vals: map<Entity, seq<V>>)
    requires ProperAll(vs, columns)
  {
    forall p :: Holds(vs, p) ==> EntityAt(vs, p) in vals && vals[EntityAt(vs, p)] == RowAt(vs, columns, p)
  }

  /** What sorting one group may change: only the order within that group. */
  ghost predicate Rearranged<V(!new)>(vs: Views<V>, us: Views<V>, columns: nat, enabled: bool, lo: nat, end: nat,
      vals: map<Entity, seq<V>>) {
    && SameStores(vs, us, columns)
    && Keyed(us, columns, vals)
    && Perm(Flat(vs, enabled), Flat(us, enabled), lo, end)
    && Flat(us, !enabled) == Flat(vs, !enabled)
  }

  lemma RearrangedRefl<V(!new)>(vs: Views<V>, columns: nat, enabled: bool, lo: nat, end: nat, vals: map<Entity, seq<V>>)
    requires ProperAll(vs, columns) && Keyed(vs, columns, vals) && lo <= end <= |Flat(vs, enabled)|
    ensures Rearranged(vs, vs, columns, enabled, lo, end, vals)
  {
  }

  lemma RearrangedTrans<V(!new)>(vs: Views<V>, us: Views<V>, ws: Views<V>, columns: nat, enabled: bool,
                                 lo: nat, end: nat, low: nat, high: nat, vals: map<Entity, seq<V>>)
    requires Rearranged(vs, us, columns, enabled, lo, end, vals)
    requires Rearranged(us, ws, columns, enabled, low, high, vals)
    requires lo <= low <= high <= end
    ensures Rearranged(vs, ws, columns, enabled, lo, end, vals)
  {
    var a, b, c := Flat(vs, enabled), Flat(us, enabled), Flat(ws, enabled);
    assert SameStores(vs, ws, columns);
    assert Perm(a, c, lo, end) by {
      hide *;
      PermWiden(b, c, low, high, lo, end);
      PermTrans(a, b, c, lo, end);
    }
  }

  lemma TradedKeyed<V>(vs: Views<V>, columns: nat, p: Place, q: Place, vals: map<Entity, seq<V>>)
    requires ProperAll(vs, columns) && Holds(vs, p) && Holds(vs, q) && p != q && Keyed(vs, columns, vals)
    ensures ProperAll(Traded(vs, p, q), columns) && Keyed(Traded(vs, p, q), columns, vals)
  {
    TradedProper(vs, columns, p, q);
    TradedAt(vs, columns, p, q);
    var us := Traded(vs, p, q);
    hide Traded, ProperAll;
    forall m | Holds(us, m) ensures EntityAt(us, m) in vals && vals[EntityAt(us, m)] == RowAt(us, columns, m) {
      assert Holds(vs, m) && Holds(vs, Origin(p, q, m));
    }
  }

  /** A trade within the group rearranges it. */
  lemma TradedRearranged<V(!new)>(vs: Views<V>, columns: nat, enabled: bool, p: Place, q: Place, lo: nat, end: nat,
      vals: map<Entity, seq<V>>)
    requires ProperAll(vs, columns) && Holds(vs, p) && Holds(vs, q) && p != q && Keyed(vs, columns, vals)
    requires InPart(vs[p.c], p.r, enabled) && InPart(vs[q.c], q.r, enabled)
    requires lo <= FlatIndex(vs, enabled, p) < end <= |Flat(vs, enabled)| && lo <= FlatIndex(vs, enabled, q) < end
    ensures Rearranged(vs, Traded(vs, p, q), columns, enabled, lo, end, vals)
    ensures Flat(Traded(vs, p, q), enabled)
      == Exchange(Flat(vs, enabled), FlatIndex(vs, enabled, p), FlatIndex(vs, enabled, q))
  {
    var us := Traded(vs, p, q);
    var i, j := FlatIndex(vs, enabled, p), FlatIndex(vs, enabled, q);
    assert p.r < vs[p.c].first <==> q.r < vs[q.c].first;
    hide Traded, ProperAll, FlatIndex, Flat, InPart, Stores, Perm, Keyed;
    TradedKeyed(vs, columns, p, q, vals);
    forall e: Entity, slot: Slot<V> ensures Stores(us, columns, e, slot) <==> Stores(vs, columns, e, slot) {
      TradedStores(vs, columns, p, q, e, slot);
    }
    TradedFlat(vs, columns, p, q, enabled);
    PermExchange(Flat(vs, enabled), i, j, lo, end);
  }

  // The order the flat sequence is sorted by

  function ValuesIn<V>(vals: map<Entity, seq<V>>, e: Entity): seq<V> {
    if e in vals then vals[e] else []
  }

  /** The order on entities that comparing what is stored for them induces. */
  ghost function ByItem<V(!new)>(lt: Less<(Entity, seq<V>)>, vals: map<Entity, seq<V>>): Less<Entity> {
    (e, d) => lt((e, ValuesIn(vals, e)), (d, ValuesIn(vals, d)))
  }

  /** When the flat order is sorted, no later row holds a smaller item. */
  lemma SortedRows<V(!new)>(vs: Views<V>, columns: nat, enabled: bool, lt: Less<(Entity, seq<V>)>,
                            vals: map<Entity, seq<V>>, p: Place, q: Place)
    requires ProperAll(vs, columns) && Keyed(vs, columns, vals)
    requires Sorted(ByItem(lt, vals), Flat(vs, enabled), 0, |Flat(vs, enabled)|)
    requires Holds(vs, p) && Holds(vs, q) && Before(p, q)
    requires InPart(vs[p.c], p.r, enabled) && InPart(vs[q.c], q.r, enabled)
    ensures !lt((EntityAt(vs, q), RowAt(vs, columns, q)), (EntityAt(vs, p), RowAt(vs, columns, p)))
  {
    hide *;
    assert Bounded(vs) by {
      ProperBounded(vs, columns);
    }
    FlatIndexOrder(vs, enabled, p, q);
    FlatAt(vs, enabled, p);
    FlatAt(vs, enabled, q);
    SortedAt(ByItem(lt, vals), Flat(vs, enabled), FlatIndex(vs, enabled, p), FlatIndex(vs, enabled, q));
    KeyedAt(vs, columns, vals, p);
    KeyedAt(vs, columns, vals, q);
    ByItemIs(lt, vals, EntityAt(vs, q), EntityAt(vs, p));
  }

  lemma ProperBounded<V>(vs: Views<V>, columns: nat)
    requires ProperAll(vs, columns)
    ensures Bounded(vs)
  {
  }

  lemma SortedAt<T(!new)>(lt: Less<T>, f: seq<T>, i: int, j: int)
    requires 0 <= i < j < |f| && Sorted(lt, f, 0, |f|)
    ensures !lt(f[j], f[i])
  {
  }

  lemma KeyedAt<V>(vs: Views<V>, columns: nat, vals: map<Entity, seq<V>>, p: Place)
    requires ProperAll(vs, columns) && Keyed(vs, columns, vals) && Holds(vs, p)
    ensures ValuesIn(vals, EntityAt(vs, p)) == RowAt(vs, columns, p)
  {
  }

  lemma ByItemIs<V(!new)>(lt: Less<(Entity, seq<V>)>, vals: map<Entity, seq<V>>, e: Entity, d: Entity)
    ensures ByItem(lt, vals)(e, d) == lt((e, ValuesIn(vals, e)), (d, ValuesIn(vals, d)))
  {
  }

  lemma ByItemStrictWeak<V(!new)>(lt: Less<(Entity, seq<V>)>, vals: map<Entity, seq<V>>)
    requires StrictWeak(lt)
    ensures StrictWeak(ByItem(lt, vals))
  {
    var ord := ByItem(lt, vals);
    forall x, y | ord(x, y) ensures !ord(y, x) {
      LessAsym(lt, (x, ValuesIn(vals, x)), (y, ValuesIn(vals, y)));
    }
    forall x, y, z | !ord(x, y) && !ord(y, z) ensures !ord(x, z) {
      NotLessTrans(lt, (x, ValuesIn(vals, x)), (y, ValuesIn(vals, y)), (z, ValuesIn(vals, z)));
    }
  }

  /** Before `i` everything is smaller than the element at `high`, from `i` to before `j` nothing is. */
  ghost predicate Scanning<T(!new)>(lt: Less<T>, f: seq<T>, low: nat, high: nat, i: nat, j: nat) {
    && low <= i <= j <= high < |f|
    && (forall k :: low <= k < i ==> lt(f[k], f[high]))
    && (forall k :: i <= k < j ==> !lt(f[k], f[high]))
  }

  lemma ScanSmaller<T(!new)>(lt: Less<T>, f: seq<T>, low: nat, high: nat, i: nat, j: nat)
    requires Scanning(lt, f, low, high, i, j) && j < high && lt(f[j], f[high])
    ensures Scanning(lt, Exchange(f, i, j), low, high, i + 1, j + 1)
    ensures Exchange(f, i, j)[high] == f[high]
  {
  }

  lemma ScanOther<T(!new)>(lt: Less<T>, f: seq<T>, low: nat, high: nat, i: nat, j: nat)
    requires Scanning(lt, f, low, high, i, j) && j < high && !lt(f[j], f[high])
    ensures Scanning(lt, f, low, high, i, j + 1)
  {
  }

  lemma ScanDone<T(!new)>(lt: Less<T>, f: seq<T>, low: nat, high: nat, i: nat)
    requires StrictWeak(lt) && Scanning(lt, f, low, high, i, high)
    ensures |Exchange(f, i, high)| == |f|
    ensures Split(lt, Exchange(f, i, high), low, i, high + 1) && Split(lt, Exchange(f, i, high), low, i + 1, high + 1)
  {
    var g := Exchange(f, i, high);
    assert forall k :: low <= k < i ==> lt(g[k], g[i]);
    assert forall k :: i < k <= high ==> !lt(g[k], g[i]);
    forall p, q | low <= p <= i <= q <= high && p < q ensures !lt(g[q], g[p]) {
      if p < i {
        LessAsym(lt, g[p], g[i]);
        if i < q {
          NotLessTrans(lt, g[q], g[i], g[p]);
        }
      }
    }
  }
}
