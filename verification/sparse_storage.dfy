/** The paged sparse set with data: a dense array of ids and pages that map an id to its dense position. */
module SparseStorages {
  import opened Common
  import opened Paging
  import opened SparsePages

  class SparsePage<V(!new)> {
    const cap: nat
    var m_pSparse: Option<seq<nat>>
    /** The objects constructed in the page's data memory. */
    var m_pData: map<nat, V>
    var m_cnt: nat

    ghost function View(): PageView<V>
      reads this
    {
      PageView(m_pSparse, m_pData, m_cnt)
    }

    constructor (cap: nat)
      ensures View() == NullView() && this.cap == cap
    {
      this.cap := cap;
      m_pSparse, m_pData, m_cnt := None, map[], 0;
    }

    method Add()
      modifies this
      ensures View() == Counted(old(View()), cap)
    {
      if m_pSparse.None? {
        m_pSparse := Some(seq(cap, _ => INVALID_DENSE_ID));
      }
      m_cnt := m_cnt + 1;
    }

    method SetId(pos: nat, id: nat)
      requires m_pSparse.Some? && pos < |m_pSparse.value|
      modifies this
      ensures View() == old(WithId(View(), pos, id))
    {
      m_pSparse := Some(m_pSparse.value[pos := id]);
    }

    method AddData(pos: nat, x: V)
      modifies this
      ensures View() == old(WithDatum(View(), pos, x))
    {
      m_pData := m_pData[pos := x];
    }

    method DelData(pos: nat)
      requires m_cnt > 0
      modifies this
      ensures View() == old(WithoutDatum(View(), pos))
    {
      m_pData := m_pData - {pos};
      m_cnt := m_cnt - 1;
      if m_cnt == 0 {
        m_pSparse, m_pData := None, map[];
      }
    }
  }

  ghost function ViewsOf<V(!new)>(pages: seq<SparsePage<V>>): (vs: seq<PageView<V>>)
    reads pages
    ensures |vs| == |pages| && forall p :: 0 <= p < |pages| ==> vs[p] == pages[p].View()
  {
    seq(|pages|, p requires 0 <= p < |pages| reads pages => pages[p].View())
  }

  ghost predicate Separate<V(!new)>(pages: seq<SparsePage<V>>, cap: nat) {
    && (forall p, q :: 0 <= p < q < |pages| ==> pages[p] != pages[q])
    && (forall p :: 0 <= p < |pages| ==> pages[p].cap == cap)
  }

  /** Everything a storage at rest promises about its fields, as values. */
  ghost predicate Whole<V>(vs: seq<PageView<V>>, cap: nat, dense: seq<nat>, items: map<nat, V>) {
    && Linked(vs, cap, dense)
    && INVALID_SPARSE_ID !in dense
    && AllAtRest(vs, cap)
    && Holding(vs, cap, items)
  }

  /** An id the storage has an item for; the id must also not be the reserved one. */
  ghost predicate Present<V>(items: map<nat, V>, cap: nat, sid: nat)
    requires cap > 0
  {
    sid != INVALID_SPARSE_ID && Key(sid, cap) in items
  }

  lemma WholeAdd<V>(vs: seq<PageView<V>>, cap: nat, dense: seq<nat>, items: map<nat, V>, sid: nat, x: V)
    requires Whole(vs, cap, dense, items) && |dense| < INVALID_DENSE_ID
    requires Key(sid, cap) !in items && Pid(sid, cap) < |vs| && sid != INVALID_SPARSE_ID
    ensures cap > 0 && AtRest(vs[Pid(sid, cap)], cap)
    ensures Whole(vs[Pid(sid, cap) := Filled(vs[Pid(sid, cap)], cap, SlotIdx(sid, cap), |dense|, x)], cap,
              dense + [sid], items[Key(sid, cap) := x])
  {
    assert cap > 0;
    hide PageIdx, SlotIdx, CellAt, CellOn, Key, Pid, AtRest, Filled;
    var v, s, key := vs[Pid(sid, cap)], SlotIdx(sid, cap), Key(sid, cap);
    KeySplits(sid, cap);
    CellComplete(vs, cap, key);
    CellPage(vs, cap, key);
    FilledAtRest(v, cap, s, |dense|, x);
    var us := vs[Pid(sid, cap) := Filled(v, cap, s, |dense|, x)];
    OneCell(vs, cap, key, Filled(v, cap, s, |dense|, x));
    LinkedAdd(vs, us, cap, dense, sid);
  }

  lemma CellPage<V>(vs: seq<PageView<V>>, cap: nat, key: nat)
    requires cap > 0 && PageIdx(key, cap) < |vs|
    ensures CellAt(vs, cap, key) == CellOn(vs[PageIdx(key, cap)], SlotIdx(key, cap))
  {
  }

  /** Making room for a page adds empty pages only. */
  function Grown<V>(vs: seq<PageView<V>>, pid: nat): (us: seq<PageView<V>>)
    ensures |us| == (if pid < |vs| then |vs| else pid + 1) && vs <= us
    ensures forall p :: |vs| <= p < |us| ==> us[p] == NullView()
  {
    if pid < |vs| then vs else vs + seq(pid + 1 - |vs|, _ => NullView())
  }

  lemma WholeGrown<V>(vs: seq<PageView<V>>, cap: nat, dense: seq<nat>, items: map<nat, V>, pid: nat)
    requires Whole(vs, cap, dense, items)
    ensures Whole(Grown(vs, pid), cap, dense, items)
  {
    GrownCells(vs, cap, pid);
    hide CellAt, Key;
  }

  lemma GrownCells<V>(vs: seq<PageView<V>>, cap: nat, pid: nat)
    requires cap > 0
    ensures forall key: nat :: CellAt(Grown(vs, pid), cap, key) == CellAt(vs, cap, key)
  {
    hide PageIdx, SlotIdx;
  }

  /** The id of the last item moves into the gap; its cell follows on whatever page it lives. */
  function Renumbered<V>(vs: seq<PageView<V>>, p: nat, s: nat, id: nat): seq<PageView<V>>
    requires p < |vs| && vs[p].sparse.Some? && s < |vs[p].sparse.value|
  {
    vs[p := WithId(vs[p], s, id)]
  }

  lemma RenumberedCells<V>(vs: seq<PageView<V>>, cap: nat, key: nat, id: nat)
    requires cap > 0 && AllAtRest(vs, cap) && CellAt(vs, cap, key).id != INVALID_DENSE_ID && id != INVALID_DENSE_ID
    ensures var p, s := PageIdx(key, cap), SlotIdx(key, cap);
      && p < |vs| && vs[p].sparse.Some? && |vs[p].sparse.value| == cap
      && var us := Renumbered(vs, p, s, id);
      && AllAtRest(us, cap)
      && CellAt(us, cap, key) == CellAt(vs, cap, key).(id := id)
      && forall j: nat :: j != key ==> CellAt(us, cap, j) == CellAt(vs, cap, j)
  {
    var p, s := PageIdx(key, cap), SlotIdx(key, cap);
    assert p < |vs|;
    hide PageIdx, SlotIdx, AtRest;
    assert AtRest(vs[p], cap);
    RenumberedAtRest(vs[p], cap, s, id);
    OneCell(vs, cap, key, WithId(vs[p], s, id));
  }

  lemma EmptiedCells<V>(vs: seq<PageView<V>>, cap: nat, key: nat)
    requires cap > 0 && AllAtRest(vs, cap) && CellAt(vs, cap, key).id != INVALID_DENSE_ID
    ensures var p, s := PageIdx(key, cap), SlotIdx(key, cap);
      && p < |vs| && vs[p].sparse.Some? && |vs[p].sparse.value| == cap && vs[p].cnt > 0
      && var us := vs[p := Emptied(vs[p], s)];
      && AllAtRest(us, cap)
      && CellAt(us, cap, key) == Cell(INVALID_DENSE_ID, None)
      && forall j: nat :: j != key ==> CellAt(us, cap, j) == CellAt(vs, cap, j)
  {
    var p, s := PageIdx(key, cap), SlotIdx(key, cap);
    assert p < |vs|;
    hide PageIdx, SlotIdx, AtRest, Emptied;
    assert AtRest(vs[p], cap);
    EmptiedAtRest(vs[p], cap, s);
    OneCell(vs, cap, key, Emptied(vs[p], s));
  }

  /** The dense position of a key and the key of the last item, as a deletion uses them. */
  lemma DelPositions<V>(vs: seq<PageView<V>>, cap: nat, dense: seq<nat>, items: map<nat, V>, key: nat)
    requires Whole(vs, cap, dense, items) && key in items
    ensures |dense| > 0 && CellAt(vs, cap, key).id < |dense| && Key(dense[CellAt(vs, cap, key).id], cap) == key
    ensures CellAt(vs, cap, Key(dense[|dense| - 1], cap)).id == |dense| - 1
  {
    hide CellAt, Key;
    CellComplete(vs, cap, key);
  }

  lemma WholeDel<V>(vs: seq<PageView<V>>, vs1: seq<PageView<V>>, us: seq<PageView<V>>,
                    cap: nat, dense: seq<nat>, items: map<nat, V>, key: nat, id: nat, last: nat)
    requires Whole(vs, cap, dense, items) && key in items
    requires id == CellAt(vs, cap, key).id && |dense| > 0 && last == Key(dense[|dense| - 1], cap)
    requires AllAtRest(us, cap)
    requires CellAt(vs1, cap, last) == CellAt(vs, cap, last).(id := id)
    requires forall j: nat :: j != last ==> CellAt(vs1, cap, j) == CellAt(vs, cap, j)
    requires CellAt(us, cap, key) == Cell(INVALID_DENSE_ID, None)
    requires forall j: nat :: j != key ==> CellAt(us, cap, j) == CellAt(vs1, cap, j)
    ensures id < |dense| && Whole(us, cap, SwapRemoved(dense, id), items - {key})
  {
    hide CellAt, Key, AllAtRest;
    DelPositions(vs, cap, dense, items, key);
    LinkedDel(vs, us, cap, dense, id);
  }

  // The page array

  /** Resizes the page array so that `pid` is inside. */
  method Reserve<V(!new)>(pages: seq<SparsePage<V>>, cap: nat, pid: nat) returns (r: seq<SparsePage<V>>)
    requires Separate(pages, cap)
    ensures Separate(r, cap) && ViewsOf(r) == Grown(ViewsOf(pages), pid)
    ensures pages <= r && forall p :: |pages| <= p < |r| ==> fresh(r[p])
  {
    r := pages;
    ghost var vs := ViewsOf(pages);
    while |r| <= pid
      invariant Separate(r, cap)
      invariant pages <= r && forall p :: |pages| <= p < |r| ==> fresh(r[p])
      invariant |vs| <= |r| <= if pid < |vs| then |vs| else pid + 1
      invariant ViewsOf(r) == vs + seq(|r| - |vs|, _ => NullView())
      decreases pid + 1 - |r|
    {
      var page := new SparsePage<V>(cap);
      r := r + [page];
    }
  }

  method CountOn<V(!new)>(pages: seq<SparsePage<V>>, cap: nat, pid: nat)
    requires Separate(pages, cap) && pid < |pages|
    modifies pages
    ensures ViewsOf(pages) == old(ViewsOf(pages)[pid := Counted(ViewsOf(pages)[pid], cap)])
  {
    pages[pid].Add();
  }

  method FillOn<V(!new)>(pages: seq<SparsePage<V>>, cap: nat, pid: nat, did: nat, id: nat, x: V)
    requires Separate(pages, cap) && pid < |pages|
    requires ViewsOf(pages)[pid].sparse.Some? && did < |ViewsOf(pages)[pid].sparse.value|
    modifies pages
    ensures ViewsOf(pages) == old(ViewsOf(pages)[pid := WithDatum(WithId(ViewsOf(pages)[pid], did, id), did, x)])
  {
    pages[pid].SetId(did, id);
    pages[pid].AddData(did, x);
  }

  method SetIdOn<V(!new)>(pages: seq<SparsePage<V>>, cap: nat, pid: nat, did: nat, id: nat)
    requires Separate(pages, cap) && pid < |pages|
    requires ViewsOf(pages)[pid].sparse.Some? && did < |ViewsOf(pages)[pid].sparse.value|
    modifies pages
    ensures ViewsOf(pages) == old(Renumbered(ViewsOf(pages), pid, did, id))
  {
    pages[pid].SetId(did, id);
  }

  method DropOn<V(!new)>(pages: seq<SparsePage<V>>, cap: nat, pid: nat, did: nat)
    requires Separate(pages, cap) && pid < |pages| && ViewsOf(pages)[pid].cnt > 0
    requires ViewsOf(pages)[pid].sparse.Some? && did < |ViewsOf(pages)[pid].sparse.value|
    modifies pages
    ensures ViewsOf(pages) == old(ViewsOf(pages)[pid := Emptied(ViewsOf(pages)[pid], did)])
  {
    pages[pid].SetId(did, INVALID_DENSE_ID);
    pages[pid].DelData(did);
  }

  class SparseStorage<V(!new)> {
    const cap: nat
    var m_dense: seq<nat>
    var m_pages: seq<SparsePage<V>>
    var m_cnt: nat

    /** The items by what is left of their ids after the page number is cut to 32 bits. */
    ghost var items: map<nat, V>

    ghost predicate Valid()
      reads this, m_pages
    {
      && PageSize(cap)
      && m_cnt == |m_dense|
      && Separate(m_pages, cap)
      && Whole(ViewsOf(m_pages), cap, m_dense, items)
    }

    constructor (cap: nat)
      requires PageSize(cap)
      ensures Valid() && m_dense == [] && items == map[] && this.cap == cap && m_pages == []
    {
      this.cap := cap;
      m_dense, m_pages, m_cnt, items := [], [], 0, map[];
    }

    /** The page holding a key, seen through the views. */
    lemma PageOf(p: nat)
      requires p < |m_pages|
      ensures ViewsOf(m_pages)[p] == m_pages[p].View()
      ensures ViewsOf(m_pages)[p] == PageView(m_pages[p].m_pSparse, m_pages[p].m_pData, m_pages[p].m_cnt)
    {
    }

    lemma Unfold()
      requires Valid()
      ensures PageSize(cap) && cap > 0 && m_cnt == |m_dense| <= INVALID_DENSE_ID && Separate(m_pages, cap)
      ensures Whole(ViewsOf(m_pages), cap, m_dense, items) && AllAtRest(ViewsOf(m_pages), cap)
        && Holding(ViewsOf(m_pages), cap, items)
      ensures Linked(ViewsOf(m_pages), cap, m_dense)
      ensures forall d :: 0 <= d < |m_dense| ==> m_dense[d] != INVALID_SPARSE_ID
    {
    }

    /** Answers for any id, also on released pages. */
    method Has(sid: nat) returns (ok: bool)
      requires Valid()
      ensures cap > 0 && (ok <==> Present(items, cap, sid))
    {
      hide *;
      Unfold();
      if sid == INVALID_SPARSE_ID {
        NotPresent(items, cap, sid);
        return false;
      }
      PresentCell(ViewsOf(m_pages), cap, items, sid);
      var pid := Pid(sid, cap);
      if pid >= |m_pages| {
        return false;
      }
      var did := SlotIdx(sid, cap);
      PageOf(pid);
      if m_pages[pid].m_pSparse.None? {
        return false;
      }
      ok := m_pages[pid].m_pSparse.value[did] != INVALID_DENSE_ID;
    }

    /** Room for one more dense entry, pages up to `pid`, and one more item counted on that page. */
    method TryGrow(pid: nat)
      requires Separate(m_pages, cap) && pid + 1 < WRAP
      modifies this`m_dense, this`m_pages, m_pages
      ensures m_dense == old(m_dense) + [0]
      ensures Separate(m_pages, cap) && old(m_pages) <= m_pages
      ensures forall p :: 0 <= p < |m_pages| ==> m_pages[p] in old(m_pages) || fresh(m_pages[p])
      ensures var grown := old(Grown(ViewsOf(m_pages), pid));
        ViewsOf(m_pages) == grown[pid := Counted(grown[pid], cap)]
    {
      hide *;
      m_dense := m_dense + [0];
      m_pages := Reserve(m_pages, cap, pid);
      CountOn(m_pages, cap, pid);
    }

    /**
     * A new id goes to the end of the dense array with its datum; an id already present changes nothing.
     * Making the page numbered 2^32 - 1 would wrap the page count, so no id may lie there; the reserved one does.
     */
    method Add(sid: nat, x: V)
      requires Valid() && |m_dense| < INVALID_DENSE_ID
      requires cap > 0 && Pid(sid, cap) + 1 < WRAP
      modifies this, m_pages
      ensures Valid()
      ensures forall p :: 0 <= p < |m_pages| ==> m_pages[p] in old(m_pages) || fresh(m_pages[p])
      ensures cap > 0 && if old(Present(items, cap, sid))
        then m_dense == old(m_dense) && items == old(items)
        else m_dense == old(m_dense) + [sid] && items == old(items)[Key(sid, cap) := x]
      ensures if old(Present(items, cap, sid)) || Pid(sid, cap) < |old(m_pages)|
        then m_pages == old(m_pages) else |m_pages| == Pid(sid, cap) + 1 && old(m_pages) <= m_pages
    {
      hide *;
      Unfold();
      AllOnesOnLastPage(cap);
      var ok := Has(sid);
      if ok {
        return;
      }
      var pid, did := Pid(sid, cap), SlotIdx(sid, cap);
      WholeGrown(ViewsOf(m_pages), cap, m_dense, items, pid);
      ghost var us, dense, its := Grown(ViewsOf(m_pages), pid), m_dense, items;
      AddFacts(us, cap, dense, its, sid, x);
      TryGrow(pid);
      m_dense := m_dense[m_cnt := sid];
      FillOn(m_pages, cap, pid, did, m_cnt, x);
      m_cnt := m_cnt + 1;
      items := its[Key(sid, cap) := x];
      assert m_dense == dense + [sid];
      Fold();
    }

    /** The datum of an id that is present. */
    method Get(sid: nat) returns (x: V)
      requires Valid() && cap > 0 && Present(items, cap, sid)
      ensures Key(sid, cap) in items && x == items[Key(sid, cap)]
    {
      hide *;
      Unfold();
      PresentHas(items, cap, sid);
      PresentCell(ViewsOf(m_pages), cap, items, sid);
      PageOf(Pid(sid, cap));
      x := m_pages[Pid(sid, cap)].m_pData[SlotIdx(sid, cap)];
    }

    /** The last dense entry takes the place of the deleted one; its page learns where it went. */
    method Del(sid: nat)
      requires Valid() && m_cnt > 0 && sid != INVALID_SPARSE_ID
      modifies this, m_pages
      ensures Valid() && m_pages == old(m_pages) && cap > 0
      ensures !old(Present(items, cap, sid)) ==> m_dense == old(m_dense) && items == old(items)
      ensures old(Present(items, cap, sid)) ==> items == old(items) - {Key(sid, cap)}
      ensures old(Present(items, cap, sid)) ==>
        exists id :: 0 <= id < |old(m_dense)| && Key(old(m_dense)[id], cap) == Key(sid, cap)
          && m_dense == SwapRemoved(old(m_dense), id)
    {
      hide *;
      Unfold();
      var ok := Has(sid);
      if !ok {
        return;
      }
      ghost var vs, dense, its, key := ViewsOf(m_pages), m_dense, items, Key(sid, cap);
      PresentHas(items, cap, sid);
      PresentCell(vs, cap, items, sid);
      DelFacts(vs, cap, dense, its, sid);
      var pid, did := Pid(sid, cap), SlotIdx(sid, cap);
      var sidPrev := m_dense[m_cnt - 1];
      var pidPrev, didPrev := Pid(sidPrev, cap), SlotIdx(sidPrev, cap);
      PageOf(pid);
      var id := m_pages[pid].m_pSparse.value[did];
      SetIdOn(m_pages, cap, pidPrev, didPrev, id);
      DropOn(m_pages, cap, pid, did);
      m_dense := m_dense[id := sidPrev];
      m_dense := m_dense[..m_cnt - 1];
      m_cnt := m_cnt - 1;
      items := its - {key};
      SwapRemovedIs(dense, id);
      Fold();
    }

    /** Iteration in dense order: every item once, with its datum. */
    method Iterate() returns (sids: seq<nat>, data: seq<V>)
      requires Valid()
      ensures sids == m_dense
      ensures cap > 0 && |sids| == |data| == |items|
      ensures forall j, k :: 0 <= j < k < |sids| ==> Key(sids[j], cap) != Key(sids[k], cap)
      ensures forall k :: 0 <= k < |sids| ==> Key(sids[k], cap) in items && data[k] == items[Key(sids[k], cap)]
      ensures forall key: nat :: key in items ==> exists k :: 0 <= k < |sids| && Key(sids[k], cap) == key
    {
      hide *;
      Unfold();
      DenseCovers(ViewsOf(m_pages), cap, m_dense, items);
      DenseCount(m_dense, cap, items);
      sids, data := [], [];
      ReadNothing(items, cap);
      for i := 0 to m_cnt
        invariant sids == m_dense[..i] && Read(items, cap, sids, data)
      {
        PresentFor(items, cap, m_dense[i]);
        var x := Get(m_dense[i]);
        ReadMore(items, cap, sids, data, m_dense[i], x);
        sids, data := sids + [m_dense[i]], data + [x];
      }
      ReadMeans(items, cap, sids, data);
      assert sids == m_dense;
    }

    lemma Fold()
      requires PageSize(cap) && m_cnt == |m_dense| && Separate(m_pages, cap)
        && Whole(ViewsOf(m_pages), cap, m_dense, items)
      ensures Valid()
    {
    }
  }

  lemma NotPresent<V>(items: map<nat, V>, cap: nat, sid: nat)
    requires cap > 0 && sid == INVALID_SPARSE_ID
    ensures !Present(items, cap, sid)
  {
  }

  /** What the lookup reads decides presence. */
  lemma PresentCell<V>(vs: seq<PageView<V>>, cap: nat, items: map<nat, V>, sid: nat)
    requires cap > 0 && AllAtRest(vs, cap) && Holding(vs, cap, items) && sid != INVALID_SPARSE_ID
    ensures Present(items, cap, sid) <==>
      && Pid(sid, cap) < |vs|
      && vs[Pid(sid, cap)].sparse.Some?
      && SlotIdx(sid, cap) < |vs[Pid(sid, cap)].sparse.value|
      && vs[Pid(sid, cap)].sparse.value[SlotIdx(sid, cap)] != INVALID_DENSE_ID
    ensures Pid(sid, cap) < |vs| && vs[Pid(sid, cap)].sparse.Some? ==>
      SlotIdx(sid, cap) < |vs[Pid(sid, cap)].sparse.value|
    ensures Present(items, cap, sid) ==>
      && vs[Pid(sid, cap)].sparse.value[SlotIdx(sid, cap)] == CellAt(vs, cap, Key(sid, cap)).id
      && SlotIdx(sid, cap) in vs[Pid(sid, cap)].data
      && vs[Pid(sid, cap)].data[SlotIdx(sid, cap)] == items[Key(sid, cap)]
  {
    KeySplits(sid, cap);
    hide PageIdx, SlotIdx, Key, Pid;
    CellComplete(vs, cap, Key(sid, cap));
    if Pid(sid, cap) < |vs| {
      assert AtRest(vs[Pid(sid, cap)], cap);
    }
  }

  /** How growing, counting and filling a slot fit together. */
  lemma AddFacts<V>(us: seq<PageView<V>>, cap: nat, dense: seq<nat>, items: map<nat, V>, sid: nat, x: V)
    requires Whole(us, cap, dense, items) && |dense| < INVALID_DENSE_ID && cap > 0
    requires !Present(items, cap, sid) && sid != INVALID_SPARSE_ID && Pid(sid, cap) < |us|
    ensures var p, s := Pid(sid, cap), SlotIdx(sid, cap);
      var counted := us[p := Counted(us[p], cap)];
      && counted[p].sparse.Some? && s < |counted[p].sparse.value|
      && Whole(counted[p := WithDatum(WithId(counted[p], s, |dense|), s, x)], cap,
        dense + [sid], items[Key(sid, cap) := x])
  {
    hide PageIdx, SlotIdx, Key, Pid, CellAt, Linked, Holding;
    WholeAdd(us, cap, dense, items, sid, x);
    var p, s := Pid(sid, cap), SlotIdx(sid, cap);
    assert us[p := Counted(us[p], cap)][p := Filled(us[p], cap, s, |dense|, x)]
      == us[p := Filled(us[p], cap, s, |dense|, x)];
  }

  /** The data read so far are those of the ids read so far. */
  ghost predicate Read<V>(items: map<nat, V>, cap: nat, sids: seq<nat>, data: seq<V>)
    requires cap > 0
  {
    |data| == |sids| && forall k :: 0 <= k < |sids| ==>
      Key(sids[k], cap) in items && data[k] == items[Key(sids[k], cap)]
  }

  lemma ReadNothing<V>(items: map<nat, V>, cap: nat)
    requires cap > 0
    ensures Read(items, cap, [], [])
  {
  }

  lemma ReadMore<V>(items: map<nat, V>, cap: nat, sids: seq<nat>, data: seq<V>, sid: nat, x: V)
    requires cap > 0 && Read(items, cap, sids, data) && Key(sid, cap) in items && x == items[Key(sid, cap)]
    ensures Read(items, cap, sids + [sid], data + [x])
  {
    hide Key;
  }

  lemma ReadMeans<V>(items: map<nat, V>, cap: nat, sids: seq<nat>, data: seq<V>)
    requires cap > 0 && Read(items, cap, sids, data)
    ensures |data| == |sids|
    ensures forall k :: 0 <= k < |sids| ==> Key(sids[k], cap) in items && data[k] == items[Key(sids[k], cap)]
  {
    hide Key;
  }

  lemma PresentHas<V>(items: map<nat, V>, cap: nat, sid: nat)
    requires cap > 0 && Present(items, cap, sid)
    ensures sid != INVALID_SPARSE_ID && Key(sid, cap) in items
  {
  }

  lemma PresentFor<V>(items: map<nat, V>, cap: nat, sid: nat)
    requires cap > 0 && sid != INVALID_SPARSE_ID && Key(sid, cap) in items
    ensures Present(items, cap, sid)
  {
  }

  lemma SwapRemovedIs(dense: seq<nat>, id: nat)
    requires id < |dense|
    ensures dense[id := dense[|dense| - 1]][..|dense| - 1] == SwapRemoved(dense, id)
  {
  }

  /** The two page writes of a deletion, whether or not they hit the same page or the same slot. */
  lemma DelFacts<V>(vs: seq<PageView<V>>, cap: nat, dense: seq<nat>, items: map<nat, V>, sid: nat)
    requires Whole(vs, cap, dense, items) && cap > 0 && Key(sid, cap) in items
    ensures |dense| > 0 && CellAt(vs, cap, Key(sid, cap)).id < |dense|
    ensures Key(dense[CellAt(vs, cap, Key(sid, cap)).id], cap) == Key(sid, cap)
    ensures var prev, id := dense[|dense| - 1], CellAt(vs, cap, Key(sid, cap)).id;
      && Pid(prev, cap) < |vs| && vs[Pid(prev, cap)].sparse.Some?
      && SlotIdx(prev, cap) < |vs[Pid(prev, cap)].sparse.value|
      && var vs1 := Renumbered(vs, Pid(prev, cap), SlotIdx(prev, cap), id);
      && Pid(sid, cap) < |vs1| && vs1[Pid(sid, cap)].sparse.Some? && vs1[Pid(sid, cap)].cnt > 0
      && SlotIdx(sid, cap) < |vs1[Pid(sid, cap)].sparse.value|
      && Whole(vs1[Pid(sid, cap) := Emptied(vs1[Pid(sid, cap)], SlotIdx(sid, cap))], cap,
        SwapRemoved(dense, id), items - {Key(sid, cap)})
  {
    hide PageIdx, SlotIdx, Key, Pid, CellAt, Linked, Holding, AllAtRest, Renumbered, Emptied, SwapRemoved;
    DelPositions(vs, cap, dense, items, Key(sid, cap));
    var prev := dense[|dense| - 1];
    KeySplits(sid, cap);
    KeySplits(prev, cap);
    var id := CellAt(vs, cap, Key(sid, cap)).id;
    DensePositionsValid(vs, cap, dense);
    RenumberedCells(vs, cap, Key(prev, cap), id);
    var vs1 := Renumbered(vs, Pid(prev, cap), SlotIdx(prev, cap), id);
    EmptiedCells(vs1, cap, Key(sid, cap));
    var us := vs1[Pid(sid, cap) := Emptied(vs1[Pid(sid, cap)], SlotIdx(sid, cap))];
    WholeDel(vs, vs1, us, cap, dense, items, Key(sid, cap), id, Key(prev, cap));
  }

  lemma DensePositionsValid<V>(vs: seq<PageView<V>>, cap: nat, dense: seq<nat>)
    requires Linked(vs, cap, dense)
    ensures |dense| <= INVALID_DENSE_ID
  {
  }

  ghost function KeysOf(dense: seq<nat>, cap: nat): (keys: set<nat>)
    requires cap > 0
    ensures forall d :: 0 <= d < |dense| ==> Key(dense[d], cap) in keys
  {
    if dense == [] then {} else KeysOf(dense[..|dense| - 1], cap) + {Key(dense[|dense| - 1], cap)}
  }

  lemma {:induction false} KeysOfIn(dense: seq<nat>, cap: nat, key: nat)
    requires cap > 0 && key in KeysOf(dense, cap)
    ensures exists d :: 0 <= d < |dense| && Key(dense[d], cap) == key
  {
    var n := |dense| - 1;
    if key == Key(dense[n], cap) {
    } else {
      KeysOfIn(dense[..n], cap, key);
      var d :| 0 <= d < n && Key(dense[..n][d], cap) == key;
      assert Key(dense[d], cap) == key;
    }
  }

  lemma {:induction false} KeysOfCount(dense: seq<nat>, cap: nat)
    requires cap > 0
    requires forall j, k :: 0 <= j < k < |dense| ==> Key(dense[j], cap) != Key(dense[k], cap)
    ensures |KeysOf(dense, cap)| == |dense|
  {
    hide Key;
    if dense != [] {
      var n := |dense| - 1;
      KeysOfCount(dense[..n], cap);
      if Key(dense[n], cap) in KeysOf(dense[..n], cap) {
        KeysOfIn(dense[..n], cap, Key(dense[n], cap));
        assert false;
      }
    }
  }

  /** Distinct keys that cover the items are as many as the items. */
  lemma DenseCount<V>(dense: seq<nat>, cap: nat, items: map<nat, V>)
    requires cap > 0
    requires forall j, k :: 0 <= j < k < |dense| ==> Key(dense[j], cap) != Key(dense[k], cap)
    requires forall d :: 0 <= d < |dense| ==> Key(dense[d], cap) in items
    requires forall key: nat :: key in items ==> exists d :: 0 <= d < |dense| && Key(dense[d], cap) == key
    ensures |dense| == |items|
  {
    hide Key, KeysOf;
    KeysOfCount(dense, cap);
    forall key: nat ensures key in items <==> key in KeysOf(dense, cap) {
      if key in KeysOf(dense, cap) {
        KeysOfIn(dense, cap, key);
      }
    }
    assert items.Keys == KeysOf(dense, cap);
  }

  /**
   * While the listed ids fit, the storage answers rightly for an id exactly when the id fits too, or what is left of it
   * is not listed.
   */
  lemma PresenceExactIff<V>(vs: seq<PageView<V>>, cap: nat, dense: seq<nat>, items: map<nat, V>, sid: nat)
    requires Whole(vs, cap, dense, items) && sid != INVALID_SPARSE_ID
    requires cap > 0 && forall d :: 0 <= d < |dense| ==> PageIdx(dense[d], cap) < WRAP
    ensures (Present(items, cap, sid) <==> sid in dense) <==> PageIdx(sid, cap) < WRAP || Key(sid, cap) !in dense
  {
    hide PageIdx, SlotIdx, Key, CellAt, Linked, AllAtRest, Holding;
    DenseCovers(vs, cap, dense, items);
    KeyExactIffNarrow(sid, cap);
    forall d | 0 <= d < |dense| ensures Key(dense[d], cap) == dense[d] {
      KeyExactIffNarrow(dense[d], cap);
    }
  }

  /** Ids any number of full ranges above a listed one are found although they were never added. */
  lemma WideIdsFound<V>(vs: seq<PageView<V>>, cap: nat, dense: seq<nat>, items: map<nat, V>, d: nat, k: nat)
    requires Whole(vs, cap, dense, items) && d < |dense|
    requires dense[d] + k * (WRAP * cap) < INVALID_SPARSE_ID
    ensures cap > 0 && Present(items, cap, dense[d] + k * (WRAP * cap))
  {
    hide PageIdx, SlotIdx, Key, CellAt, AllAtRest, Holding;
    DenseCovers(vs, cap, dense, items);
    RangesAlias(dense[d], cap, k);
  }

  lemma {:induction false} RangesAlias(sid: nat, cap: nat, k: nat)
    requires cap > 0
    ensures Key(sid + k * (WRAP * cap), cap) == Key(sid, cap)
    decreases k
  {
    hide Key;
    if k > 0 {
      var range := WRAP * cap;
      assert k * range == (k - 1) * range + range;
      RangesAlias(sid, cap, k - 1);
      WideIdsAlias(sid + (k - 1) * range, cap);
    }
  }
}
