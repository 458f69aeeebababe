/** The implicit list: slots in one array, the dead ones linked through their own index field. */
module ImplicitLists {
  import opened SlotSpec

  datatype Item = Item(idx: nat, gen: nat)

  function Links(items: seq<Item>): (r: seq<nat>) {
    seq(|items|, i requires 0 <= i < |items| => items[i].idx)
  }

  function Gens(items: seq<Item>): (r: seq<nat>) {
    seq(|items|, i requires 0 <= i < |items| => items[i].gen)
  }

  lemma GrownItems(items: seq<Item>, item: Item)
    ensures Gens(items + [item]) == Gens(items) + [item.gen]
    ensures Links(items + [item]) == Links(items) + [item.idx]
  {
  }

  lemma RewrittenItem(items: seq<Item>, i: nat, item: Item)
    requires i < |items|
    ensures Links(items[i := item]) == Links(items)[i := item.idx]
    ensures Gens(items[i := item]) == Gens(items)[i := item.gen]
  {
  }

  lemma ItemAt(items: seq<Item>, i: nat)
    requires i < |items|
    ensures Links(items)[i] == items[i].idx && Gens(items)[i] == items[i].gen
  {
  }

  lemma SameGen(items: seq<Item>, i: nat, idx: nat)
    requires i < |items|
    ensures Gens(items[i := Item(idx, items[i].gen)]) == Gens(items)
  {
  }

  class IList {
    /** The tail mark of the free list; slot numbers stay below it. */
    const idMask: nat
    var m_items: seq<Item>
    var m_nextFreeIdx: nat
    var m_freeItems: nat

    /** What the list stands for. */
    ghost var slots: Slots

    ghost function State(): Fields
      reads this
    {
      Fields(Gens(m_items), Links(m_items), m_nextFreeIdx, m_freeItems)
    }

    ghost predicate Valid()
      reads this
    {
      Represents(State(), idMask, slots)
    }

    constructor (idMask: nat)
      ensures Valid() && slots == Empty && this.idMask == idMask
    {
      this.idMask := idMask;
      m_items, m_nextFreeIdx, m_freeItems, slots := [], EMPTY_HEAD, 0, Empty;
    }

    /**
     * The form without a creation context: a reused slot keeps its link as its index, so that an item's index is its
     * own slot exactly when the slot is new.
     */
    method Alloc() returns (h: Handle)
      requires Valid()
      requires m_freeItems == 0 ==> |m_items| < idMask
      modifies this
      ensures Valid()
      ensures slots.Valid() && old(slots).Valid() && (slots, h) == old(slots).Alloc(idMask)
      ensures m_items == if old(m_freeItems) == 0 then old(m_items) + [Item(h.id, h.gen)] else old(m_items)
      ensures h.id < |m_items| && (m_items[h.id].idx == h.id <==> old(m_freeItems) == 0)
    {
      hide Represents, Slots.Alloc;
      if m_freeItems == 0 {
        var itemCnt := |m_items|;
        GrownItems(m_items, Item(itemCnt, 0));
        RepresentsGrow(State(), idMask, slots, itemCnt);
        m_items, slots := m_items + [Item(itemCnt, 0)], slots.Alloc(idMask).0;
        return Handle(itemCnt, 0);
      }
      RepresentsPop(State(), idMask, slots);
      LinkElsewhere(State(), idMask, slots);
      ItemAt(m_items, m_nextFreeIdx);
      m_freeItems, slots := m_freeItems - 1, slots.Alloc(idMask).0;
      var index := m_nextFreeIdx;
      m_nextFreeIdx := m_items[index].idx;
      return Handle(index, m_items[index].gen);
    }

    /** The form that creates the item anew: its index names its own slot. */
    method AllocCreated() returns (h: Handle)
      requires Valid()
      requires m_freeItems == 0 ==> |m_items| < idMask
      modifies this
      ensures Valid()
      ensures slots.Valid() && old(slots).Valid() && (slots, h) == old(slots).Alloc(idMask)
      ensures old(m_freeItems) == 0 ==> m_items == old(m_items) + [Item(h.id, h.gen)]
      ensures old(m_freeItems) > 0 ==> h.id < |old(m_items)| && m_items == old(m_items)[h.id := Item(h.id, h.gen)]
    {
      hide Represents;
      if m_freeItems == 0 {
        var itemCnt := |m_items|;
        GrownItems(m_items, Item(itemCnt, 0));
        RepresentsGrow(State(), idMask, slots, itemCnt);
        m_items, slots := m_items + [Item(itemCnt, 0)], slots.Alloc(idMask).0;
        return Handle(itemCnt, 0);
      }
      ghost var f, s := State(), slots;
      RepresentsPop(f, idMask, s);
      var index := m_nextFreeIdx;
      var gen := m_items[index].gen;
      RepresentsRelink(f.(head := f.links[index], freeItems := f.freeItems - 1), idMask, s.Alloc(idMask).0, index,
        index);
      RewrittenItem(m_items, index, Item(index, gen));
      SameGen(m_items, index, index);
      m_freeItems, slots := m_freeItems - 1, s.Alloc(idMask).0;
      m_nextFreeIdx := m_items[index].idx;
      m_items := m_items[index := Item(index, gen)];
      return Handle(index, gen);
    }

    /** Nothing checks the handle: the slot must exist, and the list stays a list unless the slot is free already. */
    method Free(handle: Handle)
      requires Valid() && handle.id < |m_items|
      modifies this
      ensures old(slots).gens == old(Gens(m_items)) && slots == old(slots).Free(handle.id)
      ensures State() == Pushed(old(State()), handle.id, idMask)
      ensures Valid() <==> handle.id !in old(slots.stack)
      ensures handle.id in old(slots.stack) ==> Endless(Links(m_items), m_nextFreeIdx, idMask)
    {
      hide Represents, Endless;
      ghost var f := State();
      var item := m_items[handle.id];
      var idx := if m_freeItems == 0 then idMask else m_nextFreeIdx;
      RewrittenItem(m_items, handle.id, Item(idx, item.gen + 1));
      RepresentsPush(f, idMask, slots, handle.id);
      m_items := m_items[handle.id := Item(idx, item.gen + 1)];
      slots := slots.Free(handle.id);
      m_nextFreeIdx := handle.id;
      m_freeItems := m_freeItems + 1;
    }

    /** The verdict of the assertions in the original loop. */
    method Validate() returns (ok: bool)
      ensures ok <==> m_freeItems == 0 || Walk(Links(m_items), m_nextFreeIdx, m_freeItems, idMask)
      ensures Valid() ==> ok
    {
      ghost var links := Links(m_items);
      if Valid() {
        RepresentsWalk(State(), idMask, slots);
      }
      if m_freeItems == 0 {
        return true;
      }
      var freeItems, nextFreeItem := m_freeItems, m_nextFreeIdx;
      while freeItems > 0
        invariant freeItems >= 0 && nextFreeItem >= 0
        invariant Walk(links, m_nextFreeIdx, m_freeItems, idMask) <==> Walk(links, nextFreeItem, freeItems, idMask)
      {
        if nextFreeItem >= |m_items| {
          return false;
        }
        nextFreeItem := m_items[nextFreeItem].idx;
        freeItems := freeItems - 1;
      }
      return nextFreeItem == idMask;
    }
  }
}
