/** The paged sparse set without data: deletion never lowers a page's counter, so no page is ever released. */
module TagStorages {
  import opened Common
  import opened Paging
  import opened SparsePages
  import opened SparseStorages

  type TagView = PageView<()>

  /** Memory is held exactly when the counter is not zero; there is no data. */
  ghost predicate TagPage(v: TagView, cap: nat) {
    && v.data == map[]
    && (v.sparse.None? <==> v.cnt == 0)
    && (v.sparse.Some? ==> |v.sparse.value| == cap)
  }

  /** Everything a tag storage promises about its fields, as values. */
  ghost predicate TagWhole(vs: seq<TagView>, cap: nat, dense: seq<nat>, keys: set<nat>) {
    && Linked(vs, cap, dense)
    && INVALID_SPARSE_ID !in dense
    && (forall p :: 0 <= p < |vs| ==> TagPage(vs[p], cap))
    && (forall key: nat :: key in keys <==> CellAt(vs, cap, key).id != INVALID_DENSE_ID)
  }

  function Counters(vs: seq<TagView>): seq<nat> {
    seq(|vs|, p requires 0 <= p < |vs| => vs[p].cnt)
  }

  /** Page `pid` counts one more, which may need new pages up to it; no other counter changes. */
  ghost predicate CountedUp(was: seq<nat>, now: seq<nat>, pid: nat) {
    && |now| == (if pid < |was| then |was| else pid + 1)
    && (forall p :: 0 <= p < |now| ==> now[p] == (if p < |was| then was[p] else 0) + if p == pid then 1 else 0)
  }

  lemma CountersUp(vs: seq<TagView>, cap: nat, us: seq<TagView>, pid: nat)
    requires var grown := Grown(vs, pid); us == grown[pid := Counted(grown[pid], cap)]
    ensures CountedUp(Counters(vs), Counters(us), pid)
  {
  }

  lemma TagGrown(vs: seq<TagView>, cap: nat, dense: seq<nat>, keys: set<nat>, pid: nat)
    requires TagWhole(vs, cap, dense, keys)
    ensures TagWhole(Grown(vs, pid), cap, dense, keys)
  {
    GrownCells(vs, cap, pid);
    hide CellAt, Key;
  }

  lemma TagAdd(vs: seq<TagView>, cap: nat, dense: seq<nat>, keys: set<nat>, sid: nat)
    requires TagWhole(vs, cap, dense, keys) && cap > 0 && |dense| < INVALID_DENSE_ID && sid != INVALID_SPARSE_ID
    requires Pid(sid, cap) < |vs| && Key(sid, cap) !in keys
    ensures var p, s := Pid(sid, cap), SlotIdx(sid, cap);
      var counted := vs[p := Counted(vs[p], cap)];
      && counted[p].sparse.Some? && s < |counted[p].sparse.value|
      && TagWhole(Renumbered(counted, p, s, |dense|), cap, dense + [sid], keys + {Key(sid, cap)})
  {
    KeySplits(sid, cap);
    hide PageIdx, SlotIdx, Key, Pid, CellAt;
    var p, s := Pid(sid, cap), SlotIdx(sid, cap);
    var counted := vs[p := Counted(vs[p], cap)];
    assert TagPage(vs[p], cap);
    var us := Renumbered(counted, p, s, |dense|);
    FilledTag(vs[p], cap, s, |dense|);
    OneCell(vs, cap, Key(sid, cap), us[p]);
    assert us == vs[p := us[p]];
    LinkedAdd(vs, us, cap, dense, sid);
  }

  lemma FilledTag(v: TagView, cap: nat, s: nat, id: nat)
    requires TagPage(v, cap) && s < cap
    ensures TagPage(WithId(Counted(v, cap), s, id), cap)
    ensures CellOn(WithId(Counted(v, cap), s, id), s) == Cell(id, None)
    ensures forall t: nat :: t != s ==> CellOn(WithId(Counted(v, cap), s, id), t) == CellOn(v, t)
  {
  }

  lemma CountersKept(vs: seq<TagView>, p: nat, s: nat, id: nat)
    requires p < |vs| && vs[p].sparse.Some? && s < |vs[p].sparse.value|
    ensures Counters(Renumbered(vs, p, s, id)) == Counters(vs)
  {
  }

  lemma RenumberedTag(vs: seq<TagView>, cap: nat, key: nat, id: nat)
    requires cap > 0 && (forall p :: 0 <= p < |vs| ==> TagPage(vs[p], cap))
    requires CellAt(vs, cap, key).id != INVALID_DENSE_ID
    ensures var p, s := PageIdx(key, cap), SlotIdx(key, cap);
      && p < |vs| && vs[p].sparse.Some? && |vs[p].sparse.value| == cap
      && var us := Renumbered(vs, p, s, id);
      && (forall p :: 0 <= p < |us| ==> TagPage(us[p], cap))
      && Counters(us) == Counters(vs)
      && CellAt(us, cap, key).id == id
      && forall j: nat :: j != key ==> CellAt(us, cap, j) == CellAt(vs, cap, j)
  {
    var p, s := PageIdx(key, cap), SlotIdx(key, cap);
    assert p < |vs| && TagPage(vs[p], cap);
    hide PageIdx, SlotIdx;
    OneCell(vs, cap, key, WithId(vs[p], s, id));
  }

  /** The two page writes of a deletion, whether or not they hit the same page or the same slot. */
  lemma TagDel(vs: seq<TagView>, cap: nat, dense: seq<nat>, keys: set<nat>, sid: nat)
    requires TagWhole(vs, cap, dense, keys) && cap > 0 && Key(sid, cap) in keys
    ensures |dense| > 0 && CellAt(vs, cap, Key(sid, cap)).id < |dense|
    ensures Key(dense[CellAt(vs, cap, Key(sid, cap)).id], cap) == Key(sid, cap)
    ensures var prev, id := dense[|dense| - 1], CellAt(vs, cap, Key(sid, cap)).id;
      && Pid(prev, cap) < |vs| && vs[Pid(prev, cap)].sparse.Some?
      && SlotIdx(prev, cap) < |vs[Pid(prev, cap)].sparse.value|
      && var vs1 := Renumbered(vs, Pid(prev, cap), SlotIdx(prev, cap), id);
      && Pid(sid, cap) < |vs1| && vs1[Pid(sid, cap)].sparse.Some?
      && SlotIdx(sid, cap) < |vs1[Pid(sid, cap)].sparse.value|
      && var us := Renumbered(vs1, Pid(sid, cap), SlotIdx(sid, cap), INVALID_DENSE_ID);
      && TagWhole(us, cap, SwapRemoved(dense, id), keys - {Key(sid, cap)})
      && Counters(us) == Counters(vs)
  {
    hide PageIdx, SlotIdx, Key, Pid, CellAt, TagPage, Counters, Renumbered;
    var key := Key(sid, cap);
    var id := CellAt(vs, cap, key).id;
    assert Key(dense[id], cap) == key;
    var prev := dense[|dense| - 1];
    assert CellAt(vs, cap, Key(prev, cap)).id == |dense| - 1;
    KeySplits(sid, cap);
    KeySplits(prev, cap);
    RenumberedTag(vs, cap, Key(prev, cap), id);
    var vs1 := Renumbered(vs, Pid(prev, cap), SlotIdx(prev, cap), id);
    RenumberedTag(vs1, cap, key, INVALID_DENSE_ID);
    var us := Renumbered(vs1, Pid(sid, cap), SlotIdx(sid, cap), INVALID_DENSE_ID);
    LinkedDel(vs, us, cap, dense, id);
  }

  /** What the lookup reads decides presence. */
  lemma TagCell(vs: seq<TagView>, cap: nat, dense: seq<nat>, keys: set<nat>, sid: nat)
    requires TagWhole(vs, cap, dense, keys) && cap > 0
    ensures Key(sid, cap) in keys <==>
      && Pid(sid, cap) < |vs|
      && vs[Pid(sid, cap)].sparse.Some?
      && SlotIdx(sid, cap) < |vs[Pid(sid, cap)].sparse.value|
      && vs[Pid(sid, cap)].sparse.value[SlotIdx(sid, cap)] != INVALID_DENSE_ID
    ensures Pid(sid, cap) < |vs| && vs[Pid(sid, cap)].sparse.Some? ==>
      SlotIdx(sid, cap) < |vs[Pid(sid, cap)].sparse.value|
    ensures Key(sid, cap) in keys ==>
      vs[Pid(sid, cap)].sparse.value[SlotIdx(sid, cap)] == CellAt(vs, cap, Key(sid, cap)).id
  {
    KeySplits(sid, cap);
    hide PageIdx, SlotIdx, Key, Pid;
    if Pid(sid, cap) < |vs| {
      assert TagPage(vs[Pid(sid, cap)], cap);
    }
  }

  class TagStorage {
    const cap: nat
    var m_dense: seq<nat>
    var m_pages: seq<SparsePage<()>>
    var m_cnt: nat

    /** What is left of the registered ids after the page number is cut to 32 bits. */
    ghost var keys: set<nat>

    ghost predicate Valid()
      reads this, m_pages
    {
      && m_cnt == |m_dense|
      && Separate(m_pages, cap)
      && TagWhole(ViewsOf(m_pages), cap, m_dense, keys)
    }

    constructor (cap: nat)
      requires cap > 0
      ensures Valid() && m_dense == [] && keys == {} && this.cap == cap && m_pages == []
    {
      this.cap := cap;
      m_dense, m_pages, m_cnt, keys := [], [], 0, {};
    }

    lemma Unfold()
      requires Valid()
      ensures cap > 0 && m_cnt == |m_dense| && Separate(m_pages, cap)
      ensures TagWhole(ViewsOf(m_pages), cap, m_dense, keys) && Linked(ViewsOf(m_pages), cap, m_dense)
    {
    }

    lemma Fold()
      requires m_cnt == |m_dense| && Separate(m_pages, cap) && TagWhole(ViewsOf(m_pages), cap, m_dense, keys)
      ensures Valid()
    {
    }

    lemma PageOf(p: nat)
      requires p < |m_pages|
      ensures ViewsOf(m_pages)[p] == PageView(m_pages[p].m_pSparse, m_pages[p].m_pData, m_pages[p].m_cnt)
    {
    }

    method HasInternal(sid: nat) returns (ok: bool)
      requires Valid()
      ensures cap > 0 && (ok <==> Key(sid, cap) in keys)
    {
      hide *;
      Unfold();
      TagCell(ViewsOf(m_pages), cap, m_dense, keys, sid);
      var pid, did := Pid(sid, cap), SlotIdx(sid, cap);
      if pid >= |m_pages| {
        return false;
      }
      PageOf(pid);
      if m_pages[pid].m_pSparse.None? {
        return false;
      }
      ok := m_pages[pid].m_pSparse.value[did] != INVALID_DENSE_ID;
    }

    method TryGrow(pid: nat)
      requires Separate(m_pages, cap) && pid + 1 < WRAP
      modifies this`m_dense, this`m_pages, m_pages
      ensures m_dense == old(m_dense) + [0]
      ensures Separate(m_pages, cap)
      ensures forall p :: 0 <= p < |m_pages| ==> m_pages[p] in old(m_pages) || fresh(m_pages[p])
      ensures var grown := old(Grown(ViewsOf(m_pages), pid));
        ViewsOf(m_pages) == grown[pid := Counted(grown[pid], cap)]
    {
      hide *;
      m_dense := m_dense + [0];
      m_pages := Reserve(m_pages, cap, pid);
      CountOn(m_pages, cap, pid);
    }

    /** A new id goes to the end of the dense array; an id already present changes nothing. */
    method Add(sid: nat)
      requires Valid() && sid != INVALID_SPARSE_ID && |m_dense| < INVALID_DENSE_ID
      requires cap > 0 && Pid(sid, cap) + 1 < WRAP
      modifies this, m_pages
      ensures Valid()
      ensures forall p :: 0 <= p < |m_pages| ==> m_pages[p] in old(m_pages) || fresh(m_pages[p])
      ensures if Key(sid, cap) in old(keys)
        then m_dense == old(m_dense) && keys == old(keys)
        else m_dense == old(m_dense) + [sid] && keys == old(keys) + {Key(sid, cap)}
      ensures if Key(sid, cap) in old(keys)
        then Counters(ViewsOf(m_pages)) == old(Counters(ViewsOf(m_pages)))
        else CountedUp(old(Counters(ViewsOf(m_pages))), Counters(ViewsOf(m_pages)), Pid(sid, cap))
    {
      hide *;
      Unfold();
      var ok := HasInternal(sid);
      if ok {
        return;
      }
      var pid, did := Pid(sid, cap), SlotIdx(sid, cap);
      TagGrown(ViewsOf(m_pages), cap, m_dense, keys, pid);
      ghost var us, dense := Grown(ViewsOf(m_pages), pid), m_dense;
      TagAdd(us, cap, dense, keys, sid);
      ghost var vs := ViewsOf(m_pages);
      TryGrow(pid);
      CountersUp(vs, cap, ViewsOf(m_pages), pid);
      CountersKept(ViewsOf(m_pages), pid, did, m_cnt);
      m_dense := m_dense[m_cnt := sid];
      SetIdOn(m_pages, cap, pid, did, m_cnt);
      m_cnt := m_cnt + 1;
      keys := keys + {Key(sid, cap)};
      assert m_dense == dense + [sid];
      Fold();
    }

    /** The last dense entry takes the place of the deleted one; every page keeps its counter and its memory. */
    method Del(sid: nat)
      requires Valid() && m_cnt > 0 && sid != INVALID_SPARSE_ID
      modifies this, m_pages
      ensures Valid() && m_pages == old(m_pages) && cap > 0
      ensures keys == old(keys) - {Key(sid, cap)}
      ensures Key(sid, cap) !in old(keys) ==> m_dense == old(m_dense)
      ensures Key(sid, cap) in old(keys) ==>
        exists id :: 0 <= id < |old(m_dense)| && Key(old(m_dense)[id], cap) == Key(sid, cap)
          && m_dense == SwapRemoved(old(m_dense), id)
      ensures Counters(ViewsOf(m_pages)) == old(Counters(ViewsOf(m_pages)))
    {
      hide *;
      Unfold();
      var ok := HasInternal(sid);
      if !ok {
        return;
      }
      ghost var vs, dense := ViewsOf(m_pages), m_dense;
      TagCell(vs, cap, dense, keys, sid);
      TagDel(vs, cap, dense, keys, sid);
      var pid, did := Pid(sid, cap), SlotIdx(sid, cap);
      var sidPrev := m_dense[m_cnt - 1];
      var pidPrev, didPrev := Pid(sidPrev, cap), SlotIdx(sidPrev, cap);
      PageOf(pid);
      var id := m_pages[pid].m_pSparse.value[did];
      SetIdOn(m_pages, cap, pidPrev, didPrev, id);
      SetIdOn(m_pages, cap, pid, did, INVALID_DENSE_ID);
      m_dense := m_dense[id := sidPrev];
      m_dense := m_dense[..m_cnt - 1];
      m_cnt := m_cnt - 1;
      keys := keys - {Key(sid, cap)};
      SwapRemovedIs(dense, id);
      Fold();
    }
  }
}
