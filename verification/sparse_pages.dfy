/** Pages of a sparse storage as values: where every id stands in the dense array, and its datum. */
module SparsePages {
  import opened Common
  import opened Paging
  import opened Powers

  /** The id no item may have. */
  const INVALID_SPARSE_ID := 0xFFFF_FFFF_FFFF_FFFF

  /** Marks a slot without a dense position; one below the all-ones index. */
  const INVALID_DENSE_ID := 0xFFFF_FFFE

  /** `sparse` is the slot to dense-position array, absent when its memory is released. */
  datatype PageView<V> = PageView(sparse: Option<seq<nat>>, data: map<nat, V>, cnt: nat)

  /** The page number of an id, cut to 32 bits. */
  function Pid(sid: nat, cap: nat): (p: nat)
    requires cap > 0
    ensures p < WRAP
  {
    PageIdx(sid, cap) % WRAP
  }

  /** Page capacities are 32-bit powers of two. */
  ghost predicate PageSize(cap: nat) {
    exists k: nat :: k < 32 && cap == Pow2(k)
  }

  /** So the all-ones id is on the page with the largest number. */
  lemma AllOnesOnLastPage(cap: nat)
    requires PageSize(cap)
    ensures cap > 0 && Pid(INVALID_SPARSE_ID, cap) == WRAP - 1
  {
    var k: nat :| k < 32 && cap == Pow2(k);
    PowerSum(32 - k, k);
    PowerOf32();
    var a := Pow2(32 - k);
    hide Pow2, PageIdx, SlotIdx, Index;
    AllOnesIndex(a, cap);
    IndexSplits(a * WRAP - 1, cap - 1, cap);
    LastBelowMultiple(a);
  }

  lemma AllOnesIndex(a: nat, cap: nat)
    requires a * cap == WRAP && cap > 0 && a > 0
    ensures a * WRAP - 1 >= 0 && Index(a * WRAP - 1, cap - 1, cap) == INVALID_SPARSE_ID
  {
    Regroup(a, WRAP, cap);
    LessOne(a * WRAP, cap);
  }

  lemma Regroup(a: nat, b: nat, c: nat)
    ensures a * b * c == a * c * b
  {
    assert a * b * c == a * (b * c);
  }

  lemma LessOne(x: nat, c: nat)
    ensures (x - 1) * c == x * c - c
  {
  }

  lemma {:induction false} PowerSum(j: nat, k: nat)
    ensures Pow2(j) * Pow2(k) == Pow2(j + k)
    decreases j
  {
    if j > 0 {
      PowerSum(j - 1, k);
      assert Pow2(j) * Pow2(k) == 2 * (Pow2(j - 1) * Pow2(k));
    }
  }

  lemma PowerOf32()
    ensures Pow2(32) == WRAP
  {
    assert Pow2(8) == 256;
    PowerSum(8, 8);
    PowerSum(16, 16);
  }

  lemma LastBelowMultiple(q: nat)
    requires q > 0
    ensures (q * WRAP - 1) % WRAP == WRAP - 1
  {
    var x := q * WRAP - 1;
    assert x == (q - 1) * WRAP + (WRAP - 1);
    Division(x, WRAP);
    hide PageIdx, SlotIdx;
    QuotientUnique(q - 1, WRAP - 1, PageIdx(x, WRAP), SlotIdx(x, WRAP), WRAP);
    SlotIsRemainder(x);
  }

  lemma SlotIsRemainder(x: nat)
    ensures SlotIdx(x, WRAP) == x % WRAP
  {
  }

  /** What is left of an id after the cut. */
  function Key(sid: nat, cap: nat): (k: nat)
    requires cap > 0
  {
    Index(Pid(sid, cap), SlotIdx(sid, cap), cap)
  }

  lemma KeySplits(sid: nat, cap: nat)
    requires cap > 0
    ensures PageIdx(Key(sid, cap), cap) == Pid(sid, cap) && SlotIdx(Key(sid, cap), cap) == SlotIdx(sid, cap)
  {
    hide PageIdx, SlotIdx;
    IndexSplits(Pid(sid, cap), SlotIdx(sid, cap), cap);
  }

  /** The cut keeps exactly the ids whose page number fits 32 bits. */
  lemma KeyExactIffNarrow(sid: nat, cap: nat)
    requires cap > 0
    ensures Key(sid, cap) == sid <==> PageIdx(sid, cap) < WRAP
  {
    hide PageIdx, SlotIdx;
    SplitUnique(sid, cap);
    KeySplits(sid, cap);
  }

  /** Ids one full range apart are the same to the storage. */
  lemma WideIdsAlias(sid: nat, cap: nat)
    requires cap > 0
    ensures Key(sid + WRAP * cap, cap) == Key(sid, cap)
  {
    hide PageIdx, SlotIdx;
    var p, s := PageIdx(sid, cap), SlotIdx(sid, cap);
    SplitUnique(sid, cap);
    assert Index(p + WRAP, s, cap) == sid + WRAP * cap by {
      assert (p + WRAP) * cap == p * cap + WRAP * cap;
    }
    IndexSplits(p + WRAP, s, cap);
    SameCut(p);
  }

  lemma SameCut(p: nat)
    ensures (p + WRAP) % WRAP == p % WRAP
  {
  }

  // Cells

  datatype Cell<V> = Cell(id: nat, datum: Option<V>)

  /** Released pages and pages never made look empty. */
  function CellOn<V>(v: PageView<V>, s: nat): Cell<V> {
    if v.sparse.Some? && s < |v.sparse.value|
      then Cell(v.sparse.value[s], Find(v.data, s)) else Cell(INVALID_DENSE_ID, None)
  }

  ghost function CellAt<V>(vs: seq<PageView<V>>, cap: nat, key: nat): Cell<V>
    requires cap > 0
  {
    if PageIdx(key, cap) < |vs| then CellOn(vs[PageIdx(key, cap)], SlotIdx(key, cap)) else Cell(INVALID_DENSE_ID, None)
  }

  function NullView<V>(): PageView<V> {
    PageView(None, map[], 0)
  }

  function EnsuredSparse<V>(v: PageView<V>, cap: nat): seq<nat> {
    if v.sparse.Some? then v.sparse.value else seq(cap, _ => INVALID_DENSE_ID)
  }

  function Counted<V>(v: PageView<V>, cap: nat): PageView<V> {
    PageView(Some(EnsuredSparse(v, cap)), v.data, v.cnt + 1)
  }

  function WithId<V>(v: PageView<V>, s: nat, id: nat): PageView<V>
    requires v.sparse.Some? && s < |v.sparse.value|
  {
    v.(sparse := Some(v.sparse.value[s := id]))
  }

  function WithDatum<V>(v: PageView<V>, s: nat, x: V): PageView<V> {
    v.(data := v.data[s := x])
  }

  function WithoutDatum<V>(v: PageView<V>, s: nat): PageView<V>
    requires v.cnt > 0
  {
    if v.cnt == 1 then NullView() else v.(data := v.data - {s}, cnt := v.cnt - 1)
  }

  /** A page at rest: data exactly where there is an id, counted exactly, memory held exactly while non-empty. */
  ghost predicate AtRest<V>(v: PageView<V>, cap: nat) {
    && v.cnt == |v.data|
    && (v.sparse.None? <==> v.cnt == 0)
    && (v.sparse.Some? ==> |v.sparse.value| == cap)
    && (v.sparse.Some? ==> forall s :: 0 <= s < cap ==> (s in v.data <==> v.sparse.value[s] != INVALID_DENSE_ID))
    && (forall s :: s in v.data ==> s < cap)
  }

  /** The page after an item was added to one of its free slots. */
  function Filled<V>(v: PageView<V>, cap: nat, s: nat, id: nat, x: V): PageView<V>
    requires s < cap && (v.sparse.Some? ==> |v.sparse.value| == cap)
  {
    WithDatum(WithId(Counted(v, cap), s, id), s, x)
  }

  lemma FilledAtRest<V>(v: PageView<V>, cap: nat, s: nat, id: nat, x: V)
    requires AtRest(v, cap) && s < cap && CellOn(v, s).id == INVALID_DENSE_ID && id != INVALID_DENSE_ID
    ensures AtRest(Filled(v, cap, s, id, x), cap)
    ensures CellOn(Filled(v, cap, s, id, x), s) == Cell(id, Some(x))
    ensures forall t: nat :: t != s ==> CellOn(Filled(v, cap, s, id, x), t) == CellOn(v, t)
  {
    assert s !in v.data;
    if v.cnt == 0 {
      assert v.data == map[];
    }
  }

  lemma RenumberedAtRest<V>(v: PageView<V>, cap: nat, s: nat, id: nat)
    requires AtRest(v, cap) && s < cap && CellOn(v, s).id != INVALID_DENSE_ID && id != INVALID_DENSE_ID
    ensures v.sparse.Some? && |v.sparse.value| == cap
    ensures AtRest(WithId(v, s, id), cap)
    ensures CellOn(WithId(v, s, id), s) == Cell(id, CellOn(v, s).datum)
    ensures forall t: nat :: t != s ==> CellOn(WithId(v, s, id), t) == CellOn(v, t)
  {
  }

  /** The page after the item in one of its slots was deleted. */
  function Emptied<V>(v: PageView<V>, s: nat): PageView<V>
    requires v.sparse.Some? && s < |v.sparse.value| && v.cnt > 0
  {
    WithoutDatum(WithId(v, s, INVALID_DENSE_ID), s)
  }

  lemma EmptiedAtRest<V>(v: PageView<V>, cap: nat, s: nat)
    requires AtRest(v, cap) && s < cap && CellOn(v, s).id != INVALID_DENSE_ID
    ensures v.sparse.Some? && |v.sparse.value| == cap && v.cnt > 0
    ensures AtRest(Emptied(v, s), cap)
    ensures CellOn(Emptied(v, s), s) == Cell(INVALID_DENSE_ID, None)
    ensures forall t: nat :: t != s ==> CellOn(Emptied(v, s), t) == CellOn(v, t)
  {
    assert s in v.data;
    assert |v.data - {s}| == |v.data| - 1 by {
      assert (v.data - {s})[s := v.data[s]] == v.data;
    }
    if v.cnt == 1 {
      assert v.data - {s} == map[];
    }
    forall t: nat | t != s ensures CellOn(Emptied(v, s), t) == CellOn(v, t) {
      if v.cnt == 1 {
        assert t !in v.data - {s};
      }
    }
  }

  ghost predicate AllAtRest<V>(vs: seq<PageView<V>>, cap: nat) {
    forall p :: 0 <= p < |vs| ==> AtRest(vs[p], cap)
  }

  /** Replacing a page that differs in one slot changes one cell. */
  lemma OneCell<V>(vs: seq<PageView<V>>, cap: nat, key: nat, v: PageView<V>)
    requires cap > 0 && PageIdx(key, cap) < |vs|
    requires forall t: nat :: t != SlotIdx(key, cap) ==> CellOn(v, t) == CellOn(vs[PageIdx(key, cap)], t)
    ensures var us := vs[PageIdx(key, cap) := v];
      && CellAt(us, cap, key) == CellOn(v, SlotIdx(key, cap))
      && forall j: nat :: j != key ==> CellAt(us, cap, j) == CellAt(vs, cap, j)
  {
    hide PageIdx, SlotIdx, CellOn;
    var us := vs[PageIdx(key, cap) := v];
    forall j: nat | j != key ensures CellAt(us, cap, j) == CellAt(vs, cap, j) {
      if PageIdx(j, cap) == PageIdx(key, cap) && SlotIdx(j, cap) == SlotIdx(key, cap) {
        SplitInjective(j, key, cap);
      }
    }
  }

  // Dense and sparse side

  /** Dense positions and cells are mutual inverses. */
  ghost predicate Linked<V>(vs: seq<PageView<V>>, cap: nat, dense: seq<nat>) {
    && cap > 0 && |dense| <= INVALID_DENSE_ID
    && (forall d :: 0 <= d < |dense| ==> CellAt(vs, cap, Key(dense[d], cap)).id == d)
    && (forall key: nat :: CellAt(vs, cap, key).id != INVALID_DENSE_ID ==>
        CellAt(vs, cap, key).id < |dense| && Key(dense[CellAt(vs, cap, key).id], cap) == key)
  }

  lemma LinkedAdd<V>(vs: seq<PageView<V>>, us: seq<PageView<V>>, cap: nat, dense: seq<nat>, sid: nat)
    requires Linked(vs, cap, dense) && |dense| < INVALID_DENSE_ID
    requires CellAt(vs, cap, Key(sid, cap)).id == INVALID_DENSE_ID
    requires CellAt(us, cap, Key(sid, cap)).id == |dense|
    requires forall j: nat :: j != Key(sid, cap) ==> CellAt(us, cap, j).id == CellAt(vs, cap, j).id
    ensures Linked(us, cap, dense + [sid])
  {
    hide CellAt, Key;
    var dense' := dense + [sid];
    forall d | 0 <= d < |dense'| ensures CellAt(us, cap, Key(dense'[d], cap)).id == d {
      if d < |dense| {
        assert CellAt(vs, cap, Key(dense[d], cap)).id == d;
      }
    }
  }

  function SwapRemoved(dense: seq<nat>, id: nat): seq<nat>
    requires id < |dense|
  {
    dense[id := dense[|dense| - 1]][..|dense| - 1]
  }

  lemma LinkedDel<V>(vs: seq<PageView<V>>, us: seq<PageView<V>>, cap: nat, dense: seq<nat>, id: nat)
    requires Linked(vs, cap, dense) && id < |dense|
    requires CellAt(us, cap, Key(dense[id], cap)).id == INVALID_DENSE_ID
    requires id < |dense| - 1 ==> CellAt(us, cap, Key(dense[|dense| - 1], cap)).id == id
    requires forall j: nat :: j != Key(dense[id], cap) && j != Key(dense[|dense| - 1], cap) ==>
      CellAt(us, cap, j).id == CellAt(vs, cap, j).id
    ensures Linked(us, cap, SwapRemoved(dense, id))
  {
    hide CellAt, Key;
    var dense' := SwapRemoved(dense, id);
    var last := |dense| - 1;
    forall d | 0 <= d < |dense'| ensures CellAt(us, cap, Key(dense'[d], cap)).id == d {
      assert CellAt(vs, cap, Key(dense[d], cap)).id == d;
      assert CellAt(vs, cap, Key(dense[id], cap)).id == id;
      assert CellAt(vs, cap, Key(dense[last], cap)).id == last;
    }
    forall key: nat | CellAt(us, cap, key).id != INVALID_DENSE_ID
      ensures CellAt(us, cap, key).id < |dense'| && Key(dense'[CellAt(us, cap, key).id], cap) == key
    {
      assert CellAt(vs, cap, Key(dense[id], cap)).id == id;
      assert CellAt(vs, cap, Key(dense[last], cap)).id == last;
    }
  }

  /** The items by key; together with `Linked`, the dense array lists every item once. */
  ghost predicate Holding<V>(vs: seq<PageView<V>>, cap: nat, items: map<nat, V>)
    requires cap > 0
  {
    forall key: nat :: CellAt(vs, cap, key).datum == Find(items, key)
  }

  lemma CellComplete<V>(vs: seq<PageView<V>>, cap: nat, key: nat)
    requires cap > 0 && AllAtRest(vs, cap)
    ensures CellAt(vs, cap, key).datum.Some? <==> CellAt(vs, cap, key).id != INVALID_DENSE_ID
  {
  }

  /** The dense array names every key once and no other. */
  lemma DenseCovers<V>(vs: seq<PageView<V>>, cap: nat, dense: seq<nat>, items: map<nat, V>)
    requires Linked(vs, cap, dense) && AllAtRest(vs, cap) && Holding(vs, cap, items)
    ensures forall j, k :: 0 <= j < k < |dense| ==> Key(dense[j], cap) != Key(dense[k], cap)
    ensures forall d :: 0 <= d < |dense| ==> Key(dense[d], cap) in items
    ensures forall key: nat :: key in items ==> exists d :: 0 <= d < |dense| && Key(dense[d], cap) == key
  {
    hide CellAt, Key, AtRest;
    forall d | 0 <= d < |dense| ensures Key(dense[d], cap) in items {
      CellComplete(vs, cap, Key(dense[d], cap));
    }
    forall key: nat | key in items ensures exists d :: 0 <= d < |dense| && Key(dense[d], cap) == key {
      CellComplete(vs, cap, key);
    }
  }
}
