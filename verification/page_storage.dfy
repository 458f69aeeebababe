/** Paged storage: a partial map from ids to items, with a counted and masked page for every block of ids. */
module PageStorages {
  import opened Common
  import opened Paging

  /** What an allocated page holds: its counter, its mask, and the objects constructed in its data. */
  datatype PageData<V> = PageData(cnt: nat, mask: set<nat>, data: map<nat, V>)

  type PageView<V> = Option<PageData<V>>

  const INVALID_ID := 0xFFFF_FFFF

  function Ensured<V>(v: PageView<V>): PageData<V> {
    if v.Some? then v.value else PageData(0, {}, map[])
  }

  function Counted<V>(v: PageView<V>): PageView<V> {
    Some(Ensured(v).(cnt := Ensured(v).cnt + 1))
  }

  function WithItem<V>(v: PageView<V>, s: nat, x: V): PageView<V>
    requires v.Some?
  {
    Some(v.value.(mask := v.value.mask + {s}, data := v.value.data[s := x]))
  }

  function WithoutItem<V>(v: PageView<V>, s: nat): PageView<V>
    requires v.Some? && v.value.cnt > 0
  {
    if v.value.cnt == 1 then None else Some(PageData(v.value.cnt - 1, v.value.mask - {s}, v.value.data - {s}))
  }

  function CellOn<V>(v: PageView<V>, s: nat): Option<V> {
    if v.Some? && s in v.value.data then Some(v.value.data[s]) else None
  }

  /** A page at rest: the counter is the number of mask bits, each bit has its object, memory only while non-empty. */
  ghost predicate AtRest<V>(v: PageView<V>, cap: nat) {
    v.Some? ==>
      && v.value.cnt > 0
      && v.value.cnt == |v.value.mask|
      && v.value.data.Keys == v.value.mask
      && forall s :: s in v.value.mask ==> s < cap
  }

  function Count<V>(v: PageView<V>): nat {
    if v.Some? then v.value.cnt else 0
  }

  lemma FilledAtRest<V>(v: PageView<V>, cap: nat, s: nat, x: V)
    requires AtRest(v, cap) && s < cap && CellOn(v, s).None?
    ensures AtRest(WithItem(Counted(v), s, x), cap)
    ensures CellOn(WithItem(Counted(v), s, x), s) == Some(x)
    ensures Count(WithItem(Counted(v), s, x)) == Count(v) + 1
    ensures forall t: nat :: t != s ==> CellOn(WithItem(Counted(v), s, x), t) == CellOn(v, t)
  {
  }

  lemma EmptiedAtRest<V>(v: PageView<V>, cap: nat, s: nat)
    requires AtRest(v, cap) && CellOn(v, s).Some?
    ensures v.Some? && v.value.cnt > 0
    ensures AtRest(WithoutItem(v, s), cap)
    ensures CellOn(WithoutItem(v, s), s) == None
    ensures Count(WithoutItem(v, s)) == Count(v) - 1
    ensures forall t: nat :: t != s ==> CellOn(WithoutItem(v, s), t) == CellOn(v, t)
  {
    var d := v.value;
    assert s in d.mask;
    if d.cnt == 1 {
      assert |d.mask - {s}| == |d.mask| - 1;
      assert d.mask - {s} == {};
      forall t: nat | t != s ensures CellOn(v, t).None? {
        assert t !in d.mask - {s};
      }
    } else {
      assert (d.data - {s}).Keys == d.mask - {s};
    }
  }

  ghost function CellAt<V>(vs: seq<PageView<V>>, cap: nat, id: nat): Option<V>
    requires cap > 0
  {
    if PageIdx(id, cap) < |vs| then CellOn(vs[PageIdx(id, cap)], SlotIdx(id, cap)) else None
  }

  ghost function SumCounts<V>(vs: seq<PageView<V>>): nat {
    if vs == [] then 0 else SumCounts(vs[..|vs| - 1]) + Count(vs[|vs| - 1])
  }

  lemma {:induction false} SumUpdate<V>(vs: seq<PageView<V>>, p: nat, v: PageView<V>)
    requires p < |vs|
    ensures SumCounts(vs[p := v]) == SumCounts(vs) - Count(vs[p]) + Count(v)
  {
    var n := |vs| - 1;
    assert vs[p := v][..n] == if p < n then vs[..n][p := v] else vs[..n];
    if p < n {
      SumUpdate(vs[..n], p, v);
    }
  }

  lemma {:induction false} SumGrown<V>(vs: seq<PageView<V>>, n: nat)
    ensures SumCounts(vs + seq(n, _ => None)) == SumCounts(vs)
    decreases n
  {
    var us := vs + seq(n, _ => None);
    if n == 0 {
      assert us == vs;
    } else {
      assert us[..|us| - 1] == vs + seq(n - 1, _ => None);
      SumGrown(vs, n - 1);
    }
  }

  /** The pages are at rest, together they are this map, and the item count is the sum of their counters. */
  ghost predicate Whole<V>(vs: seq<PageView<V>>, cap: nat, itemCnt: nat, items: map<nat, V>) {
    && cap > 0
    && (forall p :: 0 <= p < |vs| ==> AtRest(vs[p], cap))
    && (forall id: nat :: CellAt(vs, cap, id) == Find(items, id))
    && itemCnt == SumCounts(vs) == |items|
  }

  lemma OneCell<V>(vs: seq<PageView<V>>, cap: nat, id: nat, v: PageView<V>)
    requires cap > 0 && PageIdx(id, cap) < |vs|
    requires forall t: nat :: t != SlotIdx(id, cap) ==> CellOn(v, t) == CellOn(vs[PageIdx(id, cap)], t)
    ensures var us := vs[PageIdx(id, cap) := v];
      && CellAt(us, cap, id) == CellOn(v, SlotIdx(id, cap))
      && forall j: nat :: j != id ==> CellAt(us, cap, j) == CellAt(vs, cap, j)
  {
    hide PageIdx, SlotIdx, CellOn;
    var us := vs[PageIdx(id, cap) := v];
    forall j: nat | j != id ensures CellAt(us, cap, j) == CellAt(vs, cap, j) {
      if PageIdx(j, cap) == PageIdx(id, cap) && SlotIdx(j, cap) == SlotIdx(id, cap) {
        SplitInjective(j, id, cap);
      }
    }
  }

  function Grown<V>(vs: seq<PageView<V>>, pid: nat): (us: seq<PageView<V>>)
    ensures |us| == (if pid < |vs| then |vs| else pid + 1) && vs <= us
    ensures forall p :: |vs| <= p < |us| ==> us[p] == None
  {
    if pid < |vs| then vs else vs + seq(pid + 1 - |vs|, _ => None)
  }

  lemma WholeGrown<V>(vs: seq<PageView<V>>, cap: nat, itemCnt: nat, items: map<nat, V>, pid: nat)
    requires Whole(vs, cap, itemCnt, items)
    ensures Whole(Grown(vs, pid), cap, itemCnt, items)
  {
    hide PageIdx, SlotIdx;
    if pid >= |vs| {
      SumGrown(vs, pid + 1 - |vs|);
    }
    assert forall id: nat :: CellAt(Grown(vs, pid), cap, id) == CellAt(vs, cap, id);
  }

  lemma WholeAdd<V>(vs: seq<PageView<V>>, cap: nat, itemCnt: nat, items: map<nat, V>, id: nat, x: V)
    requires Whole(vs, cap, itemCnt, items) && id !in items && PageIdx(id, cap) < |vs|
    ensures var p, s := PageIdx(id, cap), SlotIdx(id, cap);
      var counted := vs[p := Counted(vs[p])];
      Whole(counted[p := WithItem(counted[p], s, x)], cap, itemCnt + 1, items[id := x])
  {
    assert cap > 0;
    hide PageIdx, SlotIdx, SumCounts, WithItem, Counted;
    var p, s := PageIdx(id, cap), SlotIdx(id, cap);
    assert AtRest(vs[p], cap) && CellAt(vs, cap, id) == CellOn(vs[p], s);
    CountedSome(vs[p]);
    hide AtRest, CellOn;
    var v := WithItem(Counted(vs[p]), s, x);
    FilledAtRest(vs[p], cap, s, x);
    OneCell(vs, cap, id, v);
    SumUpdate(vs, p, v);
    assert vs[p := Counted(vs[p])][p := v] == vs[p := v];
    hide CellAt;
  }

  lemma CountedSome<V>(v: PageView<V>)
    ensures Counted(v).Some?
  {
  }

  lemma WholeDel<V>(vs: seq<PageView<V>>, cap: nat, itemCnt: nat, items: map<nat, V>, id: nat)
    requires Whole(vs, cap, itemCnt, items) && id in items
    ensures itemCnt > 0 && var p, s := PageIdx(id, cap), SlotIdx(id, cap);
      && p < |vs| && vs[p].Some? && vs[p].value.cnt > 0
      && Whole(vs[p := WithoutItem(vs[p], s)], cap, itemCnt - 1, items - {id})
  {
    assert cap > 0;
    hide PageIdx, SlotIdx, SumCounts, WithoutItem;
    var p, s := PageIdx(id, cap), SlotIdx(id, cap);
    assert CellAt(vs, cap, id) == Some(items[id]);
    assert p < |vs| && AtRest(vs[p], cap) && CellAt(vs, cap, id) == CellOn(vs[p], s);
    assert |items - {id}| == |items| - 1 by {
      assert (items - {id})[id := items[id]] == items;
    }
    hide AtRest, CellOn;
    EmptiedAtRest(vs[p], cap, s);
    OneCell(vs, cap, id, WithoutItem(vs[p], s));
    SumUpdate(vs, p, WithoutItem(vs[p], s));
    hide CellAt;
  }

  class MemPage<V(!new)> {
    var m_pData: PageView<V>

    constructor ()
      ensures m_pData == None
    {
      m_pData := None;
    }

    method Add()
      modifies this
      ensures m_pData == Counted(old(m_pData))
    {
      if m_pData.None? {
        m_pData := Some(PageData(0, {}, map[]));
      }
      m_pData := Some(m_pData.value.(cnt := m_pData.value.cnt + 1));
    }

    method AddData(idx: nat, x: V)
      requires m_pData.Some?
      modifies this
      ensures m_pData == old(WithItem(m_pData, idx, x))
    {
      m_pData := Some(m_pData.value.(mask := m_pData.value.mask + {idx}));
      m_pData := Some(m_pData.value.(data := m_pData.value.data[idx := x]));
    }

    method DelData(idx: nat)
      requires m_pData.Some? && m_pData.value.cnt > 0
      modifies this
      ensures m_pData == old(WithoutItem(m_pData, idx))
    {
      var d := m_pData.value;
      m_pData := Some(PageData(d.cnt - 1, d.mask - {idx}, d.data - {idx}));
      if m_pData.value.cnt == 0 {
        m_pData := None;
      }
    }

    method HasData(idx: nat) returns (ok: bool)
      ensures ok <==> m_pData.Some? && idx in m_pData.value.mask
    {
      ok := if m_pData.Some? then idx in m_pData.value.mask else false;
    }
  }

  ghost function ViewsOf<V(!new)>(pages: seq<MemPage<V>>): (vs: seq<PageView<V>>)
    reads pages
    ensures |vs| == |pages| && forall p :: 0 <= p < |pages| ==> vs[p] == pages[p].m_pData
  {
    seq(|pages|, p requires 0 <= p < |pages| reads pages => pages[p].m_pData)
  }

  ghost predicate Separate<V(!new)>(pages: seq<MemPage<V>>) {
    forall p, q :: 0 <= p < q < |pages| ==> pages[p] != pages[q]
  }

  lemma WholeCell<V>(vs: seq<PageView<V>>, cap: nat, itemCnt: nat, items: map<nat, V>, id: nat)
    requires Whole(vs, cap, itemCnt, items)
    ensures id in items <==>
      PageIdx(id, cap) < |vs| && vs[PageIdx(id, cap)].Some? && SlotIdx(id, cap) in vs[PageIdx(id, cap)].value.mask
    ensures id in items ==>
      && SlotIdx(id, cap) in vs[PageIdx(id, cap)].value.data
      && vs[PageIdx(id, cap)].value.data[SlotIdx(id, cap)] == items[id]
  {
    hide PageIdx, SlotIdx;
    assert CellAt(vs, cap, id) == Find(items, id);
    if PageIdx(id, cap) < |vs| {
      assert AtRest(vs[PageIdx(id, cap)], cap);
    }
  }

  // Iteration

  function Mask<V>(v: PageView<V>): set<nat> {
    if v.Some? then v.value.mask else {}
  }

  /** Where a mask iterator stands when it looks for a set bit from `s` on: on one, or past the end. */
  function FirstFrom(mask: set<nat>, s: nat, cap: nat): (r: nat)
    requires s <= cap
    ensures s <= r <= cap && (r < cap ==> r in mask) && forall t :: s <= t < r ==> t !in mask
    decreases cap - s
  {
    if s == cap || s in mask then s else FirstFrom(mask, s + 1, cap)
  }

  /** A page with items, then one without: what deleting all items of a page leaves behind. */
  ghost predicate Gap<V>(vs: seq<PageView<V>>) {
    exists p, q :: 0 <= p < q < |vs| && vs[p].Some? && vs[q].None?
  }

  /** The first page without items after one with items. */
  ghost predicate FirstGap<V>(vs: seq<PageView<V>>, page: nat) {
    && page < |vs| && vs[page].None?
    && (exists p :: 0 <= p < page && vs[p].Some?)
    && forall p, q :: 0 <= p < q < page && vs[p].Some? ==> vs[q].Some?
  }

  /** The ids met are those of the items before the first such page. */
  ghost predicate StrandedAt<V>(vs: seq<PageView<V>>, cap: nat, items: map<nat, V>, visited: seq<nat>)
    requires cap > 0
  {
    exists page :: FirstGap(vs, page) && forall id: nat :: id in visited <==> id in items && PageIdx(id, cap) < page
  }

  ghost predicate Before(id: nat, cap: nat, page: nat, pos: nat)
    requires cap > 0
  {
    PageIdx(id, cap) < page || (PageIdx(id, cap) == page && SlotIdx(id, cap) < pos)
  }

  lemma BeforeIsBelow(id: nat, cap: nat, page: nat, pos: nat)
    requires cap > 0 && pos < cap && Before(id, cap, page, pos)
    ensures id < Index(page, pos, cap)
  {
    hide PageIdx, SlotIdx;
    Division(id, cap);
    if PageIdx(id, cap) < page {
      MultipleGap(PageIdx(id, cap), page, cap);
    }
  }

  /** How far an iteration has come: the ids met, in order, are the items before the position. */
  ghost predicate Met<V>(vs: seq<PageView<V>>, cap: nat, items: map<nat, V>, visited: seq<nat>, page: nat, pos: nat)
    requires cap > 0
  {
    && (forall j, k :: 0 <= j < k < |visited| ==> visited[j] < visited[k])
    && (forall id: nat :: id in visited <==> id in items && Before(id, cap, page, pos))
  }

  /** An iterator's position on page `page`: on an item, or past the end of a page without items. */
  ghost predicate Stands<V>(vs: seq<PageView<V>>, cap: nat, page: nat, pos: nat) {
    && page < |vs| && pos <= cap && (pos < cap ==> pos in Mask(vs[page]))
    && (pos == cap <==> vs[page].None?)
  }

  lemma MetOne<V>(vs: seq<PageView<V>>, cap: nat, itemCnt: nat, items: map<nat, V>, visited: seq<nat>, page: nat,
      pos: nat)
    requires Whole(vs, cap, itemCnt, items) && Met(vs, cap, items, visited, page, pos)
    requires Stands(vs, cap, page, pos) && pos < cap
    ensures Index(page, pos, cap) in items
    ensures Met(vs, cap, items, visited + [Index(page, pos, cap)], page, pos + 1)
  {
    var here := Index(page, pos, cap);
    IndexSplits(page, pos, cap);
    WholeCell(vs, cap, itemCnt, items, here);
    hide PageIdx, SlotIdx, Whole, Index;
    var now := visited + [here];
    forall j, k | 0 <= j < k < |now| ensures now[j] < now[k] {
      if k == |visited| {
        assert visited[j] in visited;
        BeforeIsBelow(visited[j], cap, page, pos);
      }
    }
    forall id: nat ensures id in now <==> id in items && Before(id, cap, page, pos + 1) {
      assert id in now <==> id in visited || id == here;
      if PageIdx(id, cap) == page && SlotIdx(id, cap) == pos {
        SplitInjective(id, here, cap);
      }
    }
  }

  /** Skipping clear bits of a page passes no item. */
  lemma MetSkip<V>(vs: seq<PageView<V>>, cap: nat, itemCnt: nat, items: map<nat, V>, visited: seq<nat>,
                   page: nat, pos: nat, pos': nat)
    requires Whole(vs, cap, itemCnt, items) && Met(vs, cap, items, visited, page, pos) && page < |vs|
    requires pos <= pos' && forall t :: pos <= t < pos' ==> t !in Mask(vs[page])
    ensures Met(vs, cap, items, visited, page, pos')
  {
    assert cap > 0;
    hide PageIdx, SlotIdx, Whole;
    forall id: nat ensures id in visited <==> id in items && Before(id, cap, page, pos') {
      WholeCell(vs, cap, itemCnt, items, id);
      assert PageIdx(id, cap) == page && pos <= SlotIdx(id, cap) < pos' ==> SlotIdx(id, cap) !in Mask(vs[page]);
    }
  }

  /** The end of a page is the start of the next. */
  lemma MetTurn<V>(vs: seq<PageView<V>>, cap: nat, items: map<nat, V>, visited: seq<nat>, page: nat)
    requires cap > 0 && Met(vs, cap, items, visited, page, cap)
    ensures Met(vs, cap, items, visited, page + 1, 0)
  {
    hide PageIdx, SlotIdx;
    forall id: nat ensures Before(id, cap, page, cap) <==> Before(id, cap, page + 1, 0) {
    }
  }

  lemma SomePage<V>(vs: seq<PageView<V>>, cap: nat, itemCnt: nat, items: map<nat, V>)
    requires Whole(vs, cap, itemCnt, items) && itemCnt > 0
    ensures exists q :: 0 <= q < |vs| && vs[q].Some?
  {
    var id :| id in items;
    WholeCell(vs, cap, itemCnt, items, id);
  }

  lemma MetNothing<V>(vs: seq<PageView<V>>, cap: nat, items: map<nat, V>)
    requires cap > 0
    ensures Met(vs, cap, items, [], 0, 0)
  {
  }

  lemma PageEmpty<V>(vs: seq<PageView<V>>, cap: nat, itemCnt: nat, items: map<nat, V>, page: nat)
    requires Whole(vs, cap, itemCnt, items) && page < |vs|
    ensures vs[page].None? <==> forall t: nat :: t < cap ==> t !in Mask(vs[page])
  {
    assert AtRest(vs[page], cap);
    if vs[page].Some? {
      assert vs[page].value.mask != {};
      var t :| t in vs[page].value.mask;
      assert t < cap && t in Mask(vs[page]);
    }
  }

  class PageStorage<V(!new)> {
    const cap: nat
    var m_pages: seq<MemPage<V>>
    var m_itemCnt: nat

    /** The map the storage stands for. */
    ghost var items: map<nat, V>

    ghost predicate Valid()
      reads this, m_pages
    {
      Separate(m_pages) && Whole(ViewsOf(m_pages), cap, m_itemCnt, items)
    }

    constructor (cap: nat)
      requires cap > 0
      ensures Valid() && items == map[] && this.cap == cap && m_pages == []
    {
      this.cap := cap;
      m_pages, m_itemCnt, items := [], 0, map[];
    }

    lemma Unfold()
      requires Valid()
      ensures cap > 0 && Separate(m_pages) && Whole(ViewsOf(m_pages), cap, m_itemCnt, items) && m_itemCnt == |items|
    {
    }

    lemma Fold()
      requires Separate(m_pages) && Whole(ViewsOf(m_pages), cap, m_itemCnt, items)
      ensures Valid()
    {
    }

    lemma PageOf(p: nat)
      requires p < |m_pages|
      ensures ViewsOf(m_pages)[p] == m_pages[p].m_pData
    {
    }

    method Has(id: nat) returns (ok: bool)
      requires Valid()
      ensures ok <==> id in items
    {
      hide *;
      Unfold();
      WholeCell(ViewsOf(m_pages), cap, m_itemCnt, items, id);
      var pid := PageIdx(id, cap);
      if pid >= |m_pages| {
        return false;
      }
      var did := SlotIdx(id, cap);
      PageOf(pid);
      ok := m_pages[pid].HasData(did);
    }

    method Get(id: nat) returns (x: V)
      requires Valid() && id in items
      ensures x == items[id]
    {
      hide *;
      Unfold();
      WholeCell(ViewsOf(m_pages), cap, m_itemCnt, items, id);
      PageOf(PageIdx(id, cap));
      x := m_pages[PageIdx(id, cap)].m_pData.value.data[SlotIdx(id, cap)];
    }

    /** Resizes the page array so that `pid` is inside. */
    method Reserve(pid: nat)
      requires Separate(m_pages)
      modifies this`m_pages
      ensures Separate(m_pages) && old(m_pages) <= m_pages && ViewsOf(m_pages) == old(Grown(ViewsOf(m_pages), pid))
      ensures forall p :: 0 <= p < |m_pages| ==> m_pages[p] in old(m_pages) || fresh(m_pages[p])
    {
      ghost var vs := ViewsOf(m_pages);
      while |m_pages| <= pid
        invariant Separate(m_pages)
        invariant forall p :: 0 <= p < |m_pages| ==> m_pages[p] in old(m_pages) || fresh(m_pages[p])
        invariant old(m_pages) <= m_pages
        invariant |vs| <= |m_pages| <= if pid < |vs| then |vs| else pid + 1
        invariant ViewsOf(m_pages) == vs + seq(|m_pages| - |vs|, _ => None)
        decreases pid + 1 - |m_pages|
      {
        var page := new MemPage<V>();
        m_pages := m_pages + [page];
      }
    }

    method CountOn(pid: nat)
      requires Separate(m_pages) && pid < |m_pages|
      modifies m_pages
      ensures ViewsOf(m_pages) == old(ViewsOf(m_pages)[pid := Counted(ViewsOf(m_pages)[pid])])
    {
      m_pages[pid].Add();
    }

    method FillOn(pid: nat, did: nat, x: V)
      requires Separate(m_pages) && pid < |m_pages| && ViewsOf(m_pages)[pid].Some?
      modifies m_pages
      ensures ViewsOf(m_pages) == old(ViewsOf(m_pages)[pid := WithItem(ViewsOf(m_pages)[pid], did, x)])
    {
      m_pages[pid].AddData(did, x);
    }

    method DropOn(pid: nat, did: nat)
      requires Separate(m_pages) && pid < |m_pages| && ViewsOf(m_pages)[pid].Some?
        && ViewsOf(m_pages)[pid].value.cnt > 0
      modifies m_pages
      ensures ViewsOf(m_pages) == old(ViewsOf(m_pages)[pid := WithoutItem(ViewsOf(m_pages)[pid], did)])
    {
      m_pages[pid].DelData(did);
    }

    method TryGrow(pid: nat)
      requires Separate(m_pages)
      modifies this`m_pages, this`m_itemCnt, m_pages
      ensures Separate(m_pages) && old(m_pages) <= m_pages && m_itemCnt == old(m_itemCnt) + 1
      ensures forall p :: 0 <= p < |m_pages| ==> m_pages[p] in old(m_pages) || fresh(m_pages[p])
      ensures var grown := old(Grown(ViewsOf(m_pages), pid));
        ViewsOf(m_pages) == grown[pid := Counted(grown[pid])]
    {
      Reserve(pid);
      CountOn(pid);
      m_itemCnt := m_itemCnt + 1;
    }

    /** An id already present keeps its item; nothing changes. */
    method Add(id: nat, x: V)
      requires Valid()
      modifies this, m_pages
      ensures Valid()
      ensures forall p :: 0 <= p < |m_pages| ==> m_pages[p] in old(m_pages) || fresh(m_pages[p])
      ensures items == if id in old(items) then old(items) else old(items)[id := x]
      ensures id in old(items) ==> m_pages == old(m_pages) && ViewsOf(m_pages) == old(ViewsOf(m_pages))
      ensures if id in old(items) || (cap > 0 && PageIdx(id, cap) < |old(m_pages)|)
        then m_pages == old(m_pages) else cap > 0 && |m_pages| == PageIdx(id, cap) + 1 && old(m_pages) <= m_pages
    {
      hide *;
      Unfold();
      var ok := Has(id);
      if ok {
        return;
      }
      var pid, did := PageIdx(id, cap), SlotIdx(id, cap);
      ghost var us := Grown(ViewsOf(m_pages), pid);
      WholeGrown(ViewsOf(m_pages), cap, m_itemCnt, items, pid);
      WholeAdd(us, cap, m_itemCnt, items, id, x);
      CountedSome(us[pid]);
      TryGrow(pid);
      FillOn(pid, did, x);
      items := items[id := x];
      Fold();
    }

    method Del(id: nat)
      requires Valid() && m_itemCnt > 0 && id != INVALID_ID
      modifies this, m_pages
      ensures Valid() && m_pages == old(m_pages)
      ensures items == old(items) - {id}
      ensures id !in old(items) ==> ViewsOf(m_pages) == old(ViewsOf(m_pages))
    {
      hide *;
      Unfold();
      var ok := Has(id);
      if !ok {
        return;
      }
      var pid, did := PageIdx(id, cap), SlotIdx(id, cap);
      WholeDel(ViewsOf(m_pages), cap, m_itemCnt, items, id);
      DropOn(pid, did);
      m_itemCnt := m_itemCnt - 1;
      items := items - {id};
      Fold();
    }

    /** A new iterator searches the pages for the first one with items. */
    method Begin() returns (page: nat, pos: nat)
      requires Valid() && m_itemCnt > 0
      ensures cap > 0 && Stands(ViewsOf(m_pages), cap, page, pos) && pos < cap
      ensures forall p :: 0 <= p < page ==> ViewsOf(m_pages)[p].None?
      ensures Met(ViewsOf(m_pages), cap, items, [], page, pos)
    {
      Unfold();
      ghost var vs := ViewsOf(m_pages);
      SomePage(vs, cap, m_itemCnt, items);
      MetNothing(vs, cap, items);
      hide Valid, Whole, Met, PageIdx, SlotIdx;
      page := 0;
      pos := FirstFrom(Mask(m_pages[0].m_pData), 0, cap);
      MetSkip(vs, cap, m_itemCnt, items, [], 0, 0, pos);
      while pos == cap
        invariant page < |m_pages| && pos <= cap && (pos < cap ==> pos in Mask(vs[page]))
        invariant forall t :: 0 <= t < pos ==> t !in Mask(vs[page])
        invariant forall p :: 0 <= p < page ==> m_pages[p].m_pData.None?
        invariant Met(vs, cap, items, [], page, pos)
        decreases |m_pages| - page
      {
        PageEmpty(vs, cap, m_itemCnt, items, page);
        MetTurn(vs, cap, items, [], page);
        page := page + 1;
        assert exists q :: page <= q < |vs| && vs[q].Some?;
        pos := FirstFrom(Mask(m_pages[page].m_pData), 0, cap);
        MetSkip(vs, cap, m_itemCnt, items, [], page, 0, pos);
      }
    }

    /** One step: the next set bit on the page, or else the first one on the page after it, if that has any. */
    method Next(page: nat, pos: nat, ghost visited: seq<nat>) returns (page': nat, pos': nat)
      requires Valid() && cap > 0 && Stands(ViewsOf(m_pages), cap, page, pos) && pos < cap
      requires Met(ViewsOf(m_pages), cap, items, visited, page, pos + 1)
      ensures page <= page' <= |m_pages| && (page' == page ==> pos < pos' < cap) && page' <= page + 1
      ensures page' < |m_pages| ==> Stands(ViewsOf(m_pages), cap, page', pos')
      ensures Met(ViewsOf(m_pages), cap, items, visited, page', pos')
    {
      Unfold();
      ghost var vs := ViewsOf(m_pages);
      hide Valid, Whole, Met, PageIdx, SlotIdx;
      page', pos' := page, FirstFrom(Mask(m_pages[page].m_pData), pos + 1, cap);
      MetSkip(vs, cap, m_itemCnt, items, visited, page, pos + 1, pos');
      if pos' == cap {
        MetTurn(vs, cap, items, visited, page);
        page', pos' := page + 1, 0;
        if page' == |m_pages| {
          return;
        }
        pos' := FirstFrom(Mask(m_pages[page'].m_pData), 0, cap);
        MetSkip(vs, cap, m_itemCnt, items, visited, page', 0, pos');
        PageEmpty(vs, cap, m_itemCnt, items, page');
      }
    }

    /**
     * A whole iteration. It meets every item once in increasing order, unless a page without items follows one
     * with items: the step onto the first such page leaves the iterator past the page's end and not at the end, when it
     * has met exactly the items before that page.
     */
    method Iterate() returns (visited: seq<nat>, stranded: bool)
      requires Valid() && m_itemCnt > 0
      ensures stranded <==> Gap(ViewsOf(m_pages))
      ensures forall j, k :: 0 <= j < k < |visited| ==> visited[j] < visited[k]
      ensures forall id :: id in visited ==> id in items
      ensures !stranded ==> forall id :: id in items ==> id in visited
      ensures stranded ==> cap > 0 && StrandedAt(ViewsOf(m_pages), cap, items, visited)
    {
      hide *;
      Unfold();
      ghost var vs := ViewsOf(m_pages);
      var page, pos := Begin();
      StandsMeans(vs, cap, page, pos);
      ghost var start := page;
      visited := [];
      while page != |m_pages|
        invariant 0 <= start <= page <= |m_pages| && 0 <= pos && (page < |vs| ==> Stands(vs, cap, page, pos))
        invariant start < page || pos < cap
        invariant vs[start].Some?
        invariant forall p :: 0 <= p < start ==> vs[p].None?
        invariant forall p :: start <= p < page ==> vs[p].Some?
        invariant Met(vs, cap, items, visited, page, pos)
        decreases |m_pages| - page, if page < |m_pages| then cap - pos else 0
      {
        StandsMeans(vs, cap, page, pos);
        if pos == cap {
          GapAt(vs, start, page);
          Stranded(vs, cap, m_itemCnt, items, visited, start, page);
          MetFacts(vs, cap, items, visited, page, pos);
          return visited, true;
        }
        MetOne(vs, cap, m_itemCnt, items, visited, page, pos);
        visited := visited + [Index(page, pos, cap)];
        page, pos := Next(page, pos, visited);
      }
      MetFacts(vs, cap, items, visited, page, pos);
      MetAll(vs, cap, m_itemCnt, items, visited, page, pos);
      NoGap(vs, start);
      stranded := false;
    }
  }

  lemma MetFacts<V>(vs: seq<PageView<V>>, cap: nat, items: map<nat, V>, visited: seq<nat>, page: nat, pos: nat)
    requires cap > 0 && Met(vs, cap, items, visited, page, pos)
    ensures forall j, k :: 0 <= j < k < |visited| ==> visited[j] < visited[k]
    ensures forall id :: id in visited ==> id in items
  {
  }

  lemma MetAll<V>(vs: seq<PageView<V>>, cap: nat, itemCnt: nat, items: map<nat, V>, visited: seq<nat>, page: nat,
      pos: nat)
    requires Whole(vs, cap, itemCnt, items) && Met(vs, cap, items, visited, page, pos) && page == |vs|
    ensures forall id :: id in items ==> id in visited
  {
    forall id | id in items ensures id in visited {
      WholeCell(vs, cap, itemCnt, items, id);
    }
  }

  lemma StandsMeans<V>(vs: seq<PageView<V>>, cap: nat, page: nat, pos: nat)
    requires Stands(vs, cap, page, pos)
    ensures page < |vs| && pos <= cap && (pos == cap <==> vs[page].None?)
  {
  }

  lemma GapAt<V>(vs: seq<PageView<V>>, p: nat, q: nat)
    requires p < q < |vs| && vs[p].Some? && vs[q].None?
    ensures Gap(vs)
  {
  }

  lemma NoGap<V>(vs: seq<PageView<V>>, start: nat)
    requires forall p :: 0 <= p < start && p < |vs| ==> vs[p].None?
    requires forall p :: start <= p < |vs| ==> vs[p].Some?
    ensures !Gap(vs)
  {
  }

  lemma Stranded<V>(vs: seq<PageView<V>>, cap: nat, itemCnt: nat, items: map<nat, V>, visited: seq<nat>,
                    start: nat, page: nat)
    requires Whole(vs, cap, itemCnt, items) && start < page < |vs| && vs[page].None?
    requires vs[start].Some? && (forall p :: 0 <= p < start ==> vs[p].None?)
    requires forall p :: start <= p < page ==> vs[p].Some?
    requires Met(vs, cap, items, visited, page, cap)
    ensures StrandedAt(vs, cap, items, visited)
  {
    hide PageIdx, SlotIdx;
    forall id: nat ensures id in visited <==> id in items && PageIdx(id, cap) < page {
      WholeCell(vs, cap, itemCnt, items, id);
    }
    assert FirstGap(vs, page);
  }
}
