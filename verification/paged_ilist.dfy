/** The paged implicit list: slot metadata by page, payload storage only where something lives. */
module PagedLists {
  import opened Common
  import opened SlotSpec
  import opened Paging

  datatype Payload = Payload(id: nat, gen: nat, data: int)

  /** A page as its slots hold it: constructed objects, stored handles, free-list links. */
  datatype PageView = PageView(objects: map<nat, Payload>, handles: seq<Handle>, links: seq<nat>)

  class Page {
    const cap: nat
    var aliveMask: set<nat>
    var handles: seq<Handle>
    var nextFree: seq<nat>
    var liveCount: nat
    /** The objects constructed in the payload storage; `None` when the storage is not allocated. */
    var storage: Option<map<nat, Payload>>

    ghost function Objects(): map<nat, Payload>
      reads this
    {
      if storage.None? then map[] else storage.value
    }

    ghost function View(): PageView
      reads this
    {
      PageView(Objects(), handles, nextFree)
    }

    /** The mask marks exactly the constructed objects, and storage is allocated exactly when there is one. */
    ghost predicate Valid()
      reads this
    {
      && |handles| == cap && |nextFree| == cap
      && aliveMask == Objects().Keys
      && liveCount == |aliveMask|
      && (storage.Some? <==> liveCount > 0)
      && (forall s :: s in aliveMask ==> s < cap)
    }

    constructor (cap: nat, idMask: nat)
      ensures Valid() && View() == FreshView(cap, idMask) && this.cap == cap
    {
      this.cap := cap;
      aliveMask, liveCount, storage := {}, 0, None;
      handles := seq(cap, _ => Handle(0, 0));
      nextFree := seq(cap, _ => idMask);
    }

    /** Nothing checks that the slot is empty: constructing over an object loses the count. */
    method Construct(slot: nat, payload: Payload)
      requires Valid() && slot < cap
      modifies this
      ensures Valid() <==> slot !in old(aliveMask)
      ensures View() == old(View()).(objects := old(Objects())[slot := payload])
    {
      if storage.None? {
        storage := Some(map[]);
      }
      storage := Some(storage.value[slot := payload]);
      aliveMask := aliveMask + {slot};
      liveCount := liveCount + 1;
      assert Objects() == old(Objects())[slot := payload];
    }

    method Destroy(slot: nat)
      requires Valid() && slot in aliveMask
      modifies this
      ensures Valid()
      ensures View() == old(View()).(objects := old(Objects()) - {slot})
    {
      storage := Some(storage.value - {slot});
      assert |aliveMask - {slot}| == |aliveMask| - 1;
      aliveMask := aliveMask - {slot};
      liveCount := liveCount - 1;
      if liveCount == 0 {
        assert aliveMask == {} && storage.value == map[];
        storage := None;
      }
      assert Objects() == old(Objects()) - {slot};
    }

    method Relabel(slot: nat, handle: Handle, link: nat)
      requires Valid() && slot < cap
      modifies this
      ensures Valid() && aliveMask == old(aliveMask)
      ensures View() == PageView(old(Objects()), old(handles)[slot := handle], old(nextFree)[slot := link])
    {
      handles := handles[slot := handle];
      nextFree := nextFree[slot := link];
    }

    /** Puts a new object into an empty slot and labels the slot. */
    method Occupy(slot: nat, payload: Payload, link: nat)
      requires Valid() && slot < cap && slot !in aliveMask
      modifies this
      ensures Valid()
      ensures View() == old(Put(View(), slot, Cell(Handle(payload.id, payload.gen), link, Some(payload))))
    {
      Construct(slot, payload);
      Relabel(slot, Handle(payload.id, payload.gen), link);
    }

    /** Destroys the object of a slot and puts the slot on the free list under its next handle. */
    method Release(slot: nat, handle: Handle, link: nat)
      requires Valid() && slot in aliveMask
      modifies this
      ensures Valid()
      ensures View() == old(Put(View(), slot, Cell(handle, link, None)))
    {
      Destroy(slot);
      Relabel(slot, handle, link);
    }

    /** As `Release`, but the object stays until the slot is reused. */
    method ReleaseKept(slot: nat, handle: Handle, link: nat)
      requires Valid() && slot in aliveMask
      modifies this
      ensures Valid()
      ensures View() == old(Put(View(), slot, Cell(handle, link, Find(Objects(), slot))))
    {
      Relabel(slot, handle, link);
      assert old(Objects())[slot := old(Objects())[slot]] == old(Objects());
    }

    /** Takes a slot off the free list; an object kept in it is destroyed only now. */
    method Recycle(slot: nat, link: nat) returns (next: nat, generation: nat)
      requires Valid() && slot < cap
      modifies this
      ensures Valid()
      ensures next == old(nextFree)[slot] && generation == old(handles)[slot].gen
      ensures View() == old(Put(View(), slot, Cell(handles[slot], link, None)))
    {
      next := nextFree[slot];
      Relabel(slot, handles[slot], link);
      generation := handles[slot].gen;
      if slot in aliveMask {
        Destroy(slot);
      } else {
        assert old(Objects()) - {slot} == old(Objects());
      }
    }
  }

  function FreshView(cap: nat, idMask: nat): PageView {
    PageView(map[], seq(cap, _ => Handle(0, 0)), seq(cap, _ => idMask))
  }

  // Pages side by side

  /** What all pages together hold for one slot number. */
  datatype Cell = Cell(handle: Handle, link: nat, item: Option<Payload>)

  function With<T>(m: map<nat, T>, i: nat, x: Option<T>): map<nat, T> {
    if x.None? then m - {i} else m[i := x.value]
  }

  ghost predicate Sized(v: PageView, cap: nat) {
    && |v.handles| == cap && |v.links| == cap
    && (forall s :: s in v.objects ==> s < cap)
  }

  function CellOn(v: PageView, s: nat): Cell
    requires s < |v.handles| && s < |v.links|
  {
    Cell(v.handles[s], v.links[s], Find(v.objects, s))
  }

  const NoCell := Cell(Handle(0, 0), 0, None)

  ghost function CellAt(vs: seq<PageView>, cap: nat, i: nat): Cell
    requires cap > 0
  {
    var p, s := PageIdx(i, cap), SlotIdx(i, cap);
    if p < |vs| && s < |vs[p].handles| && s < |vs[p].links| then CellOn(vs[p], s) else NoCell
  }

  function Put(v: PageView, s: nat, c: Cell): PageView
    requires s < |v.handles| && s < |v.links|
  {
    PageView(With(v.objects, s, c.item), v.handles[s := c.handle], v.links[s := c.link])
  }

  lemma PutChangesOne(vs: seq<PageView>, cap: nat, i: nat, c: Cell)
    requires cap > 0 && PageIdx(i, cap) < |vs| && forall v :: v in vs ==> Sized(v, cap)
    ensures Sized(vs[PageIdx(i, cap)], cap)
    ensures var vs' := vs[PageIdx(i, cap) := Put(vs[PageIdx(i, cap)], SlotIdx(i, cap), c)];
      && (forall v :: v in vs' ==> Sized(v, cap))
      && CellAt(vs', cap, i) == c
      && forall j: nat :: j != i ==> CellAt(vs', cap, j) == CellAt(vs, cap, j)
  {
    hide PageIdx, SlotIdx;
    var p, s := PageIdx(i, cap), SlotIdx(i, cap);
    var v := vs[p];
    assert Sized(v, cap);
    var v' := Put(v, s, c);
    var vs' := vs[p := v'];
    assert Sized(v', cap);
    forall j: nat | j != i ensures CellAt(vs', cap, j) == CellAt(vs, cap, j) {
      if PageIdx(j, cap) == p {
        if SlotIdx(j, cap) == s {
          SplitInjective(i, j, cap);
        }
        PutElsewhere(v, s, c, SlotIdx(j, cap));
      }
    }
  }

  lemma PutElsewhere(v: PageView, s: nat, c: Cell, t: nat)
    requires s < |v.handles| && s < |v.links| && t < |v.handles| && t < |v.links|
    ensures t != s ==> CellOn(Put(v, s, c), t) == CellOn(v, t)
  {
  }

  /** The pages are those of `n` slots, and together they hold these objects. */
  ghost predicate Stored(vs: seq<PageView>, cap: nat, n: nat, objects: map<nat, Payload>) {
    && cap > 0
    && |vs| == PageCountFor(n, cap)
    && (forall v :: v in vs ==> Sized(v, cap))
    && (forall i: nat :: CellAt(vs, cap, i).item == Find(objects, i))
  }

  /** Every slot number is written in its own handle. */
  ghost predicate Named(vs: seq<PageView>, cap: nat, n: nat)
    requires cap > 0
  {
    forall i: nat :: i < n ==> CellAt(vs, cap, i).handle.id == i
  }

  ghost function Gens(vs: seq<PageView>, cap: nat, n: nat): (r: seq<nat>)
    requires cap > 0
    ensures |r| == n
  {
    seq(n, i requires 0 <= i < n => CellAt(vs, cap, i).handle.gen)
  }

  ghost function Links(vs: seq<PageView>, cap: nat, n: nat): (r: seq<nat>)
    requires cap > 0
    ensures |r| == n
  {
    seq(n, i requires 0 <= i < n => CellAt(vs, cap, i).link)
  }

  lemma StoredPut(vs: seq<PageView>, cap: nat, n: nat, objects: map<nat, Payload>, i: nat, c: Cell)
    requires Stored(vs, cap, n, objects) && Named(vs, cap, n) && i < n && c.handle.id == i
    ensures PageIdx(i, cap) < |vs| && Sized(vs[PageIdx(i, cap)], cap)
    ensures var vs' := vs[PageIdx(i, cap) := Put(vs[PageIdx(i, cap)], SlotIdx(i, cap), c)];
      && Stored(vs', cap, n, With(objects, i, c.item)) && Named(vs', cap, n)
      && Gens(vs', cap, n) == Gens(vs, cap, n)[i := c.handle.gen]
      && Links(vs', cap, n) == Links(vs, cap, n)[i := c.link]
  {
    PageCount(n, cap);
    hide PageIdx, SlotIdx, CellAt, Put, Sized, PageCountFor;
    PutChangesOne(vs, cap, i, c);
  }

  /** The pages with room for slot `n`: one more when it starts a page. */
  ghost function WithRoom(vs: seq<PageView>, cap: nat, n: nat, idMask: nat): seq<PageView>
    requires cap > 0
  {
    if PageIdx(n, cap) == |vs| then vs + [FreshView(cap, idMask)] else vs
  }

  /** Room alone changes no cell of an existing slot, and no object. */
  lemma RoomCells(vs: seq<PageView>, cap: nat, n: nat, objects: map<nat, Payload>, idMask: nat)
    requires Stored(vs, cap, n, objects)
    ensures PageIdx(n, cap) <= |vs| && PageIdx(n, cap) < |WithRoom(vs, cap, n, idMask)| == PageCountFor(n + 1, cap)
    ensures forall v :: v in WithRoom(vs, cap, n, idMask) ==> Sized(v, cap)
    ensures forall i: nat :: CellAt(WithRoom(vs, cap, n, idMask), cap, i).item == Find(objects, i)
    ensures forall i: nat :: i < n ==> CellAt(WithRoom(vs, cap, n, idMask), cap, i) == CellAt(vs, cap, i)
  {
    PageCount(n, cap);
    FreshPage(vs, cap, idMask);
    hide PageIdx, SlotIdx, CellAt, Sized, PageCountFor, FreshView, Find;
  }

  lemma RoomSlot(us: seq<PageView>, cap: nat, n: nat)
    requires cap > 0 && PageIdx(n, cap) < |us| && forall v :: v in us ==> Sized(v, cap)
    ensures Sized(us[PageIdx(n, cap)], cap)
    ensures CellAt(us, cap, n) == CellOn(us[PageIdx(n, cap)], SlotIdx(n, cap))
  {
    hide PageIdx, SlotIdx;
    assert Sized(us[PageIdx(n, cap)], cap);
  }

  /** One slot more: it is on the last page, or on a new one. */
  lemma StoredGrow(vs: seq<PageView>, cap: nat, n: nat, objects: map<nat, Payload>, idMask: nat, c: Cell)
    requires Stored(vs, cap, n, objects) && Named(vs, cap, n) && c.handle.id == n
    ensures PageIdx(n, cap) <= |vs|
    ensures var us := WithRoom(vs, cap, n, idMask);
      && PageIdx(n, cap) < |us| && Sized(us[PageIdx(n, cap)], cap)
      && CellOn(us[PageIdx(n, cap)], SlotIdx(n, cap)).item == Find(objects, n)
      && var vs' := us[PageIdx(n, cap) := Put(us[PageIdx(n, cap)], SlotIdx(n, cap), c)];
      && Stored(vs', cap, n + 1, With(objects, n, c.item)) && Named(vs', cap, n + 1)
      && Gens(vs', cap, n + 1) == Gens(vs, cap, n) + [c.handle.gen]
      && Links(vs', cap, n + 1) == Links(vs, cap, n) + [c.link]
  {
    assert cap > 0;
    var us := WithRoom(vs, cap, n, idMask);
    RoomCells(vs, cap, n, objects, idMask);
    RoomSlot(us, cap, n);
    hide PageIdx, SlotIdx, CellAt, CellOn, Put, Sized, PageCountFor, WithRoom;
    PutChangesOne(us, cap, n, c);
  }

  lemma FreshPage(vs: seq<PageView>, cap: nat, idMask: nat)
    requires cap > 0
    ensures Sized(FreshView(cap, idMask), cap)
    ensures forall i: nat ::
      CellAt(vs + [FreshView(cap, idMask)], cap, i).item == CellAt(vs, cap, i).item
    ensures forall i: nat :: PageIdx(i, cap) < |vs| ==>
      CellAt(vs + [FreshView(cap, idMask)], cap, i) == CellAt(vs, cap, i)
  {
    hide PageIdx, SlotIdx;
  }

  /** Every slot in use holds its object, which knows its handle; a freed slot may still hold an old one. */
  ghost predicate Owned(s: Slots, objects: map<nat, Payload>) {
    && (forall i :: i in objects ==> i < |s.gens| && objects[i].id == i)
    && (forall i: nat :: i < |s.gens| && i !in s.stack ==> i in objects && objects[i].gen == s.gens[i])
  }

  lemma OwnedAlloc(s: Slots, tail: nat, objects: map<nat, Payload>, x: Payload)
    requires s.Valid() && Owned(s, objects)
    requires s.Alloc(tail).1 == Handle(x.id, x.gen)
    ensures Owned(s.Alloc(tail).0, objects[x.id := x])
  {
    var t := s.Alloc(tail).0;
    if s.stack != [] {
      assert s.stack == [s.head] + t.stack;
    }
  }

  lemma OwnedFree(s: Slots, objects: map<nat, Payload>, id: nat)
    requires Owned(s, objects) && id < |s.gens|
    ensures Owned(s.Free(id), objects) && Owned(s.Free(id), objects - {id})
  {
    var t := s.Free(id);
    assert id in t.stack;
    forall i: nat | i in s.stack ensures i in t.stack {
    }
  }

  /** The pages, the free list and the objects all fit together. */
  ghost predicate Whole(vs: seq<PageView>, cap: nat, n: nat, head: nat, freeItems: nat, idMask: nat,
                        s: Slots, objects: map<nat, Payload>) {
    && Stored(vs, cap, n, objects)
    && Named(vs, cap, n)
    && Represents(Fields(Gens(vs, cap, n), Links(vs, cap, n), head, freeItems), idMask, s)
    && Owned(s, objects)
  }

  ghost predicate HasSlot(vs: seq<PageView>, cap: nat, i: nat) {
    && cap > 0 && PageIdx(i, cap) < |vs|
    && |vs[PageIdx(i, cap)].handles| == cap && |vs[PageIdx(i, cap)].links| == cap
  }

  ghost function Written(vs: seq<PageView>, cap: nat, i: nat, c: Cell): seq<PageView>
    requires HasSlot(vs, cap, i)
  {
    vs[PageIdx(i, cap) := Put(vs[PageIdx(i, cap)], SlotIdx(i, cap), c)]
  }

  lemma WrittenTwice(vs: seq<PageView>, cap: nat, i: nat, c: Cell, d: Cell)
    requires HasSlot(vs, cap, i)
    ensures HasSlot(Written(vs, cap, i, c), cap, i)
    ensures Written(Written(vs, cap, i, c), cap, i, d) == Written(vs, cap, i, d)
    ensures cap > 0 && PageIdx(i, cap) < |vs| == |Written(vs, cap, i, c)|
    ensures forall idMask :: WithRoom(Written(vs, cap, i, c), cap, i, idMask) == Written(vs, cap, i, c)
    ensures c.item.None? ==> SlotIdx(i, cap) !in Written(vs, cap, i, c)[PageIdx(i, cap)].objects
  {
    hide PageIdx, SlotIdx;
    var v, s := vs[PageIdx(i, cap)], SlotIdx(i, cap);
    assert Put(Put(v, s, c), s, d) == Put(v, s, d);
  }

  function Occupant(h: Handle, link: nat, data: int): Cell {
    Cell(h, link, Some(Payload(h.id, h.gen, data)))
  }

  lemma StoredSlot(vs: seq<PageView>, cap: nat, n: nat, objects: map<nat, Payload>, i: nat)
    requires Stored(vs, cap, n, objects) && i < n
    ensures HasSlot(vs, cap, i)
    ensures CellOn(vs[PageIdx(i, cap)], SlotIdx(i, cap)) == CellAt(vs, cap, i)
  {
    PageCount(n, cap);
    hide PageIdx, SlotIdx;
    assert Sized(vs[PageIdx(i, cap)], cap);
  }

  lemma WholeSlot(vs: seq<PageView>, cap: nat, n: nat, head: nat, freeItems: nat, idMask: nat,
                  s: Slots, objects: map<nat, Payload>, i: nat)
    requires Whole(vs, cap, n, head, freeItems, idMask, s, objects) && i < n
    ensures n == |s.gens| && HasSlot(vs, cap, i) && s.gens == Gens(vs, cap, n)
    ensures CellOn(vs[PageIdx(i, cap)], SlotIdx(i, cap)) == CellAt(vs, cap, i)
    ensures CellAt(vs, cap, i) == Cell(Handle(i, s.gens[i]), Links(vs, cap, n)[i], Find(objects, i))
  {
    PageCount(n, cap);
    hide PageIdx, SlotIdx;
    assert Sized(vs[PageIdx(i, cap)], cap);
    assert s.gens == Gens(vs, cap, n);
    assert Gens(vs, cap, n)[i] == CellAt(vs, cap, i).handle.gen;
  }

  /** Taking the head of the free list and constructing in its slot. */
  lemma WholeReused(vs: seq<PageView>, cap: nat, n: nat, head: nat, freeItems: nat, idMask: nat,
                    s: Slots, objects: map<nat, Payload>, data: int)
    requires Whole(vs, cap, n, head, freeItems, idMask, s, objects) && freeItems > 0
    ensures head < n == |s.gens| && HasSlot(vs, cap, head)
    ensures s.Valid() && s.Alloc(idMask).1 == Handle(head, s.gens[head])
    ensures Whole(Written(vs, cap, head, Occupant(Handle(head, s.gens[head]), idMask, data)), cap, n,
        Links(vs, cap, n)[head], freeItems - 1, idMask,
        s.Alloc(idMask).0, objects[head := Payload(head, s.gens[head], data)])
  {
    assert cap > 0;
    hide PageIdx, SlotIdx, Put, CellAt, Stored, Named, Owned, Gens, Links, Chained;
    var f := Fields(Gens(vs, cap, n), Links(vs, cap, n), head, freeItems);
    RepresentsPop(f, idMask, s);
    WholeSlot(vs, cap, n, head, freeItems, idMask, s, objects, head);
    var g := f.(head := f.links[head], freeItems := freeItems - 1);
    RepresentsRelink(g, idMask, s.Alloc(idMask).0, head, idMask);
    var c := Occupant(Handle(head, s.gens[head]), idMask, data);
    StoredPut(vs, cap, n, objects, head, c);
    OwnedAlloc(s, idMask, objects, Payload(head, s.gens[head], data));
    assert f.gens[head := s.gens[head]] == f.gens;
  }

  /** Constructing in a slot that did not exist. */
  lemma WholeGrown(vs: seq<PageView>, cap: nat, n: nat, head: nat, idMask: nat,
                   s: Slots, objects: map<nat, Payload>, data: int)
    requires Whole(vs, cap, n, head, 0, idMask, s, objects) && n < idMask
    ensures cap > 0 && PageIdx(n, cap) <= |vs|
    ensures s.Valid() && s.Alloc(idMask).1 == Handle(n, 0)
    ensures var us := WithRoom(vs, cap, n, idMask);
      && HasSlot(us, cap, n) && SlotIdx(n, cap) !in us[PageIdx(n, cap)].objects
      && Whole(Written(us, cap, n, Occupant(Handle(n, 0), idMask, data)), cap, n + 1,
        head, 0, idMask, s.Alloc(idMask).0, objects[n := Payload(n, 0, data)])
  {
    assert cap > 0;
    hide PageIdx, SlotIdx, Put, CellAt, Stored, Named, Gens, Links, Chained, FreshView, Owned;
    StoredGrow(vs, cap, n, objects, idMask, Occupant(Handle(n, 0), idMask, data));
    RepresentsGrow(Fields(Gens(vs, cap, n), Links(vs, cap, n), head, 0), idMask, s, idMask);
    OwnedAlloc(s, idMask, objects, Payload(n, 0, data));
    OwnedBound(s, objects, n);
  }

  lemma OwnedBound(s: Slots, objects: map<nat, Payload>, n: nat)
    requires Owned(s, objects) && n >= |s.gens|
    ensures n !in objects
  {
  }

  function Freed(s: Slots, head: nat, freeItems: nat, idMask: nat, i: nat, item: Option<Payload>): Cell
    requires i < |s.gens|
  {
    Cell(Handle(i, s.gens[i] + 1), if freeItems == 0 then idMask else head, item)
  }

  /** The free list sees the pages of a freed slot as its own push. */
  lemma FreedFields(us: seq<PageView>, vs: seq<PageView>, cap: nat, n: nat, head: nat, freeItems: nat, idMask: nat,
                    s: Slots, i: nat)
    requires cap > 0 && i < n == |s.gens| && s.gens == Gens(vs, cap, n)
    requires Gens(us, cap, n) == Gens(vs, cap, n)[i := s.gens[i] + 1]
    requires Links(us, cap, n) == Links(vs, cap, n)[i := if freeItems == 0 then idMask else head]
    requires Represents(Fields(Gens(vs, cap, n), Links(vs, cap, n), head, freeItems), idMask, s)
    ensures Represents(Fields(Gens(us, cap, n), Links(us, cap, n), i, freeItems + 1), idMask, s.Free(i)) <==>
      i !in s.stack
    ensures i in s.stack ==> Endless(Links(us, cap, n), i, idMask)
  {
    hide Gens, Links, Endless;
    RepresentsPush(Fields(Gens(vs, cap, n), Links(vs, cap, n), head, freeItems), idMask, s, i);
  }

  lemma OwnedWith(s: Slots, objects: map<nat, Payload>, i: nat, item: Option<Payload>)
    requires Owned(s, objects) && i < |s.gens|
    requires item.None? || item == Find(objects, i)
    ensures Owned(s.Free(i), With(objects, i, item))
  {
    OwnedFree(s, objects, i);
    assert With(objects, i, item) == objects || With(objects, i, item) == objects - {i};
  }

  /** Freeing keeps everything fitting exactly when the slot is not free yet; otherwise the links never end. */
  lemma WholeFreed(vs: seq<PageView>, cap: nat, n: nat, head: nat, freeItems: nat, idMask: nat,
                   s: Slots, objects: map<nat, Payload>, i: nat, item: Option<Payload>)
    requires Whole(vs, cap, n, head, freeItems, idMask, s, objects) && i < n
    requires item.None? || item == Find(objects, i)
    ensures n == |s.gens| && HasSlot(vs, cap, i)
    ensures var us := Written(vs, cap, i, Freed(s, head, freeItems, idMask, i, item));
      && (Whole(us, cap, n, i, freeItems + 1, idMask, s.Free(i), With(objects, i, item)) <==> i !in s.stack)
      && (i in s.stack ==> Endless(Links(us, cap, n), i, idMask))
  {
    hide PageIdx, SlotIdx, Put, CellAt, CellOn, Stored, Named, Gens, Links, With, Represents, Owned, Slots.Free,
      Endless, Find;
    WholeSlot(vs, cap, n, head, freeItems, idMask, s, objects, i);
    OwnedWith(s, objects, i, item);
    var c := Freed(s, head, freeItems, idMask, i, item);
    var us := Written(vs, cap, i, c);
    StoredPut(vs, cap, n, objects, i, c);
    FreedFields(us, vs, cap, n, head, freeItems, idMask, s, i);
  }

  /** How freeing slot `head` ends, by whether it was on the stack before. */
  ghost predicate Outcome(vs: seq<PageView>, cap: nat, n: nat, head: nat, freeItems: nat, idMask: nat,
                          s: Slots, objects: map<nat, Payload>, stack: seq<nat>) {
    && (Whole(vs, cap, n, head, freeItems, idMask, s, objects) <==> head !in stack)
    && (head in stack ==> cap > 0 && Endless(Links(vs, cap, n), head, idMask))
  }

  lemma OutcomeIs(vs: seq<PageView>, cap: nat, n: nat, head: nat, freeItems: nat, idMask: nat,
                  s: Slots, objects: map<nat, Payload>, stack: seq<nat>)
    requires cap > 0 && (Whole(vs, cap, n, head, freeItems, idMask, s, objects) <==> head !in stack)
    requires head in stack ==> Endless(Links(vs, cap, n), head, idMask)
    ensures Outcome(vs, cap, n, head, freeItems, idMask, s, objects, stack)
  {
    hide Whole, Links, Endless;
  }

  ghost function ViewsOf(pages: seq<Page>): (vs: seq<PageView>)
    reads pages
    ensures |vs| == |pages| && forall p :: 0 <= p < |pages| ==> vs[p] == pages[p].View()
  {
    seq(|pages|, p requires 0 <= p < |pages| reads pages => pages[p].View())
  }

  class PagedIList {
    const cap: nat
    const idMask: nat
    var m_pages: seq<Page>
    var m_size: nat
    var m_nextFreeIdx: nat
    var m_freeItems: nat

    /** What the list stands for, and the objects it keeps constructed. */
    ghost var slots: Slots
    ghost var objects: map<nat, Payload>

    ghost predicate Pages()
      reads this`m_pages, m_pages
    {
      && (forall p, q :: 0 <= p < q < |m_pages| ==> m_pages[p] != m_pages[q])
      && (forall p :: 0 <= p < |m_pages| ==> m_pages[p].Valid() && m_pages[p].cap == cap)
    }

    ghost function Views(): (vs: seq<PageView>)
      reads this`m_pages, m_pages
      ensures |vs| == |m_pages| && forall p :: 0 <= p < |m_pages| ==> vs[p] == m_pages[p].View()
    {
      ViewsOf(m_pages)
    }

    ghost predicate Valid()
      reads this, m_pages
    {
      Pages() && Whole(Views(), cap, m_size, m_nextFreeIdx, m_freeItems, idMask, slots, objects)
    }

    constructor (cap: nat, idMask: nat)
      requires cap > 0
      ensures Valid() && slots == Empty && objects == map[]
      ensures this.idMask == idMask && this.cap == cap && m_pages == []
    {
      this.cap, this.idMask := cap, idMask;
      m_pages, m_size, m_nextFreeIdx, m_freeItems := [], 0, EMPTY_HEAD, 0;
      slots, objects := Empty, map[];
    }

    lemma PageOf(i: nat)
      requires Pages() && HasSlot(Views(), cap, i)
      ensures cap > 0 && PageIdx(i, cap) < |m_pages|
      ensures var page, s := m_pages[PageIdx(i, cap)], SlotIdx(i, cap);
        && page.Valid() && page.cap == cap && page.View() == Views()[PageIdx(i, cap)]
        && |page.handles| == cap && |page.nextFree| == cap
        && CellOn(page.View(), s) == Cell(page.handles[s], page.nextFree[s], Find(page.Objects(), s))
        && (s in page.aliveMask <==> s in page.Objects())
        && page.View().objects == page.Objects()
    {
      hide PageIdx, SlotIdx;
    }

    /** One page has a new view: so have the pages. */
    twostate lemma OnePageChanged(p: nat)
      requires old(Pages()) && m_pages == old(m_pages) && p < |m_pages|
      requires m_pages[p].Valid()
      requires forall q :: 0 <= q < |m_pages| && q != p ==> unchanged(m_pages[q])
      ensures Pages() && Views() == old(Views())[p := m_pages[p].View()]
    {
    }

    /** The page of an index, made when the index is on the page after the last. */
    method EnsurePage(index: nat) returns (page: Page)
      requires cap > 0 && Pages() && PageIdx(index, cap) <= |m_pages|
      modifies this`m_pages
      ensures Pages() && PageIdx(index, cap) < |m_pages| && page == m_pages[PageIdx(index, cap)]
      ensures PageIdx(index, cap) < |old(m_pages)| ==> m_pages == old(m_pages)
      ensures PageIdx(index, cap) == |old(m_pages)| ==> m_pages == old(m_pages) + [page] && fresh(page)
      ensures Views() == WithRoom(old(Views()), cap, index, idMask)
    {
      hide PageIdx, FreshView, Page.Valid;
      var pageIdx := PageIdx(index, cap);
      if pageIdx >= |m_pages| {
        var added := new Page(cap, idMask);
        m_pages := m_pages + [added];
      }
      page := m_pages[pageIdx];
    }

    /** `Page.Occupy` on the page of an index. */
    method OccupySlot(index: nat, payload: Payload)
      requires Pages() && HasSlot(Views(), cap, index)
      requires SlotIdx(index, cap) !in Views()[PageIdx(index, cap)].objects
      modifies m_pages
      ensures Pages()
      ensures Views()
        == old(Written(Views(), cap, index, Occupant(Handle(payload.id, payload.gen), idMask, payload.data)))
    {
      PageOf(index);
      hide PageIdx, SlotIdx, Put, Page.Valid, CellOn, Find;
      m_pages[PageIdx(index, cap)].Occupy(SlotIdx(index, cap), payload, idMask);
      OnePageChanged(PageIdx(index, cap));
    }

    /** `Page.Recycle` on the page of an index. */
    method RecycleSlot(index: nat) returns (next: nat, generation: nat)
      requires Pages() && HasSlot(Views(), cap, index)
      modifies m_pages
      ensures Pages()
      ensures var c := old(CellOn(Views()[PageIdx(index, cap)], SlotIdx(index, cap)));
        && next == c.link && generation == c.handle.gen
        && Views() == old(Written(Views(), cap, index, Cell(c.handle, idMask, None)))
    {
      PageOf(index);
      hide PageIdx, SlotIdx, Put, Page.Valid, Find;
      next, generation := m_pages[PageIdx(index, cap)].Recycle(SlotIdx(index, cap), idMask);
      OnePageChanged(PageIdx(index, cap));
    }

    /** Takes the slot freed last, with its generation, or a new slot, and constructs the payload there. */
    method Alloc(data: int) returns (h: Handle)
      requires Valid()
      requires m_freeItems == 0 ==> m_size < idMask
      modifies this, m_pages
      ensures Valid()
      ensures slots.Valid() && old(slots).Valid() && (slots, h) == old(slots).Alloc(idMask)
      ensures objects == old(objects)[h.id := Payload(h.id, h.gen, data)]
      ensures forall i :: 0 <= i < |m_pages| ==> m_pages[i] in old(m_pages) || fresh(m_pages[i])
    {
      hide *;
      if m_freeItems == 0 {
        h := AllocNew(data);
      } else {
        h := AllocReused(data);
      }
    }

    /** `Alloc` when no slot is free. */
    method AllocNew(data: int) returns (h: Handle)
      requires Valid() && m_freeItems == 0 && m_size < idMask
      modifies this, m_pages
      ensures Valid()
      ensures slots.Valid() && old(slots).Valid() && (slots, h) == old(slots).Alloc(idMask)
      ensures objects == old(objects)[h.id := Payload(h.id, h.gen, data)]
      ensures forall i :: 0 <= i < |m_pages| ==> m_pages[i] in old(m_pages) || fresh(m_pages[i])
    {
      hide *;
      UnfoldValid();
      ghost var s, objs := slots, objects;
      WholeGrown(Views(), cap, m_size, m_nextFreeIdx, idMask, s, objs, data);
      var index := m_size;
      m_size := m_size + 1;
      var page := EnsurePage(index);
      OccupySlot(index, Payload(index, 0, data));
      h := Handle(index, 0);
      slots, objects := s.Alloc(idMask).0, objs[index := Payload(index, 0, data)];
      FoldValid();
    }

    /** `Alloc` when some slot is free. */
    method AllocReused(data: int) returns (h: Handle)
      requires Valid() && m_freeItems > 0
      modifies this, m_pages
      ensures Valid() && m_pages == old(m_pages)
      ensures slots.Valid() && old(slots).Valid() && (slots, h) == old(slots).Alloc(idMask)
      ensures objects == old(objects)[h.id := Payload(h.id, h.gen, data)]
    {
      hide *;
      UnfoldValid();
      ghost var vs, s, objs := Views(), slots, objects;
      WholeReused(vs, cap, m_size, m_nextFreeIdx, m_freeItems, idMask, s, objs, data);
      WholeSlot(vs, cap, m_size, m_nextFreeIdx, m_freeItems, idMask, s, objs, m_nextFreeIdx);
      var index, generation := m_nextFreeIdx, 0;
      m_nextFreeIdx, generation := RecycleSlot(index);
      m_freeItems := m_freeItems - 1;
      h := Handle(index, generation);
      WrittenTwice(vs, cap, index, Cell(h, idMask, None), Occupant(h, idMask, data));
      var page := EnsurePage(index);
      OccupySlot(index, Payload(index, generation, data));
      slots, objects := s.Alloc(idMask).0, objs[index := Payload(index, generation, data)];
      FoldValid();
    }

    /** A handle the list answers for: its slot holds an object and its generation is the current one. */
    ghost predicate Answers(h: Handle)
      reads this
    {
      h.id in objects && h.id < |slots.gens| && slots.gens[h.id] == h.gen
    }

    /** `has(index)`: an object lives there, also one kept by `FreeKeepLive`. */
    method HasIndex(index: nat) returns (ok: bool)
      requires Valid()
      ensures ok <==> index in objects
    {
      if index >= m_size {
        return false;
      }
      WholeSlot(Views(), cap, m_size, m_nextFreeIdx, m_freeItems, idMask, slots, objects, index);
      PageOf(index);
      hide *;
      ok := SlotIdx(index, cap) in m_pages[PageIdx(index, cap)].aliveMask;
      FindIn(m_pages[PageIdx(index, cap)].Objects(), SlotIdx(index, cap), objects, index);
    }

    /** `operator[]`: the object that lives at an index. */
    method Get(index: nat) returns (x: Payload)
      requires Valid() && index in objects
      ensures x == objects[index]
    {
      hide *;
      ObjectsBelow();
      UnfoldValid();
      ObjectAt(index);
      x := m_pages[PageIdx(index, cap)].storage.value[SlotIdx(index, cap)];
    }

    lemma ObjectAt(index: nat)
      requires Valid() && index in objects && index < m_size
      ensures cap > 0 && PageIdx(index, cap) < |m_pages|
      ensures var page := m_pages[PageIdx(index, cap)];
        && page.storage.Some? && SlotIdx(index, cap) in page.storage.value
        && page.storage.value[SlotIdx(index, cap)] == objects[index]
    {
      WholeSlot(Views(), cap, m_size, m_nextFreeIdx, m_freeItems, idMask, slots, objects, index);
      PageOf(index);
      hide PageIdx, SlotIdx, CellAt, HasSlot, Stored, Named, Gens, Links;
    }

    /** `has(handle)` answers for every handle in use and for no retired one, whatever objects are kept. */
    method Has(h: Handle) returns (ok: bool)
      requires Valid()
      ensures ok <==> Answers(h)
      ensures slots.Has(h) ==> ok
      ensures Retired(slots, h) ==> !ok
      ensures ok && h.id !in slots.stack ==> slots.Has(h)
    {
      ok := HasIndex(h.id);
      if ok {
        WholeSlot(Views(), cap, m_size, m_nextFreeIdx, m_freeItems, idMask, slots, objects, h.id);
        PageOf(h.id);
        hide PageIdx, SlotIdx, CellAt, CellOn, HasSlot, Stored, Named, Gens, Links;
        ok := m_pages[PageIdx(h.id, cap)].handles[SlotIdx(h.id, cap)] == h;
      }
    }

    /** The cell a freed handle leaves behind. */
    ghost function FreedCell(h: Handle, item: Option<Payload>): Cell
      reads this
    {
      Cell(Handle(h.id, h.gen + 1), if m_freeItems == 0 then idMask else m_nextFreeIdx, item)
    }

    /** The page that holds the object of a handle answered for. */
    lemma FreePage(h: Handle)
      requires Valid() && Answers(h)
      ensures Pages() && cap > 0 && h.id < m_size == |slots.gens| && HasSlot(Views(), cap, h.id)
      ensures SlotIdx(h.id, cap) in Views()[PageIdx(h.id, cap)].objects
      ensures Find(Views()[PageIdx(h.id, cap)].objects, SlotIdx(h.id, cap)) == Find(objects, h.id)
      ensures With(objects, h.id, None) == objects - {h.id} && With(objects, h.id, Find(objects, h.id)) == objects
    {
      hide PageIdx, SlotIdx, CellAt, Stored, Named, Links, Owned, Chained;
      WholeSlot(Views(), cap, m_size, m_nextFreeIdx, m_freeItems, idMask, slots, objects, h.id);
      assert objects[h.id := objects[h.id]] == objects;
    }

    lemma FreeOutcome(h: Handle, item: Option<Payload>)
      requires Valid() && Answers(h) && cap > 0 && HasSlot(Views(), cap, h.id)
      requires item.None? || item == Find(objects, h.id)
      ensures h.id < |slots.gens|
      ensures Outcome(Written(Views(), cap, h.id, FreedCell(h, item)), cap, m_size, h.id, m_freeItems + 1, idMask,
                slots.Free(h.id), With(objects, h.id, item), slots.stack)
    {
      hide *;
      FreePage(h);
      UnfoldValid();
      FreedCellIs(h, item);
      WholeFreed(Views(), cap, m_size, m_nextFreeIdx, m_freeItems, idMask, slots, objects, h.id, item);
      OutcomeIs(Written(Views(), cap, h.id, FreedCell(h, item)), cap, m_size, h.id, m_freeItems + 1, idMask,
        slots.Free(h.id), With(objects, h.id, item), slots.stack);
    }

    lemma FreedCellIs(h: Handle, item: Option<Payload>)
      requires Answers(h)
      ensures h.id < |slots.gens|
      ensures FreedCell(h, item) == Freed(slots, m_nextFreeIdx, m_freeItems, idMask, h.id, item)
    {
    }

    /** `Page.Release` on the page of a handle. */
    method ReleaseSlot(handle: Handle)
      requires Pages() && HasSlot(Views(), cap, handle.id)
      requires SlotIdx(handle.id, cap) in Views()[PageIdx(handle.id, cap)].objects
      modifies m_pages
      ensures Pages() && cap > 0 && HasSlot(old(Views()), cap, handle.id)
      ensures Views() == Written(old(Views()), cap, handle.id, old(FreedCell(handle, None)))
    {
      PageOf(handle.id);
      hide PageIdx, SlotIdx, Put, Page.Valid, CellOn, Find;
      var link := if m_freeItems == 0 then idMask else m_nextFreeIdx;
      m_pages[PageIdx(handle.id, cap)].Release(SlotIdx(handle.id, cap), Handle(handle.id, handle.gen + 1), link);
      OnePageChanged(PageIdx(handle.id, cap));
    }

    /** `Page.ReleaseKept` on the page of a handle. */
    method ReleaseSlotKept(handle: Handle)
      requires Pages() && HasSlot(Views(), cap, handle.id)
      requires SlotIdx(handle.id, cap) in Views()[PageIdx(handle.id, cap)].objects
      modifies m_pages
      ensures Pages() && cap > 0 && HasSlot(old(Views()), cap, handle.id)
      ensures Views() == Written(old(Views()), cap, handle.id,
        old(FreedCell(handle, Find(Views()[PageIdx(handle.id, cap)].objects, SlotIdx(handle.id, cap)))))
    {
      PageOf(handle.id);
      hide PageIdx, SlotIdx, Put, Page.Valid, CellOn, Find;
      var link := if m_freeItems == 0 then idMask else m_nextFreeIdx;
      m_pages[PageIdx(handle.id, cap)].ReleaseKept(SlotIdx(handle.id, cap), Handle(handle.id, handle.gen + 1), link);
      OnePageChanged(PageIdx(handle.id, cap));
    }

    /** The list stays a list unless the handle was one not issued yet; then the links never end. */
    method Free(handle: Handle)
      requires Valid() && Answers(handle)
      modifies this, m_pages
      ensures handle.id < |old(slots).gens| && slots == old(slots).Free(handle.id)
      ensures m_size == old(m_size) && m_nextFreeIdx == handle.id && m_freeItems == old(m_freeItems) + 1
      ensures objects == old(objects) - {handle.id} && m_pages == old(m_pages)
      ensures Valid() <==> handle.id !in old(slots).stack
      ensures handle.id in old(slots).stack ==> cap > 0 && Endless(Links(Views(), cap, m_size), handle.id, idMask)
    {
      hide *;
      FreePage(handle);
      FreeOutcome(handle, None);
      ghost var s, stack := slots.Free(handle.id), slots.stack;
      ReleaseSlot(handle);
      slots, objects := s, objects - {handle.id};
      m_nextFreeIdx := handle.id;
      m_freeItems := m_freeItems + 1;
      Concluded(stack);
    }

    /** As `Free`, but the object stays: iteration still visits it, no retired handle reaches it. */
    method FreeKeepLive(handle: Handle)
      requires Valid() && Answers(handle)
      modifies this, m_pages
      ensures handle.id < |old(slots).gens| && slots == old(slots).Free(handle.id)
      ensures m_size == old(m_size) && m_nextFreeIdx == handle.id && m_freeItems == old(m_freeItems) + 1
      ensures objects == old(objects) && m_pages == old(m_pages)
      ensures Valid() <==> handle.id !in old(slots).stack
      ensures handle.id in old(slots).stack ==> cap > 0 && Endless(Links(Views(), cap, m_size), handle.id, idMask)
    {
      hide *;
      FreePage(handle);
      FreeOutcome(handle, Find(objects, handle.id));
      ghost var s, stack := slots.Free(handle.id), slots.stack;
      ReleaseSlotKept(handle);
      slots := s;
      m_nextFreeIdx := handle.id;
      m_freeItems := m_freeItems + 1;
      Concluded(stack);
    }

    /** The verdict of the assertions in the original loop. */
    method Validate() returns (ok: bool)
      requires cap > 0 && Pages() && Stored(Views(), cap, m_size, objects)
      ensures ok <==> m_freeItems == 0 || Walk(Links(Views(), cap, m_size), m_nextFreeIdx, m_freeItems, idMask)
      ensures Valid() ==> ok
    {
      hide *;
      ghost var links := Links(Views(), cap, m_size);
      ValidWalk();
      if m_freeItems == 0 {
        return true;
      }
      var freeItems, nextFreeItem := m_freeItems, m_nextFreeIdx;
      while freeItems > 0
        invariant freeItems >= 0 && nextFreeItem >= 0
        invariant Walk(links, m_nextFreeIdx, m_freeItems, idMask) <==> Walk(links, nextFreeItem, freeItems, idMask)
      {
        WalkStep(links, nextFreeItem, freeItems, idMask);
        if nextFreeItem >= m_size {
          return false;
        }
        nextFreeItem := NextFree(nextFreeItem);
        freeItems := freeItems - 1;
      }
      WalkStep(links, nextFreeItem, freeItems, idMask);
      return nextFreeItem == idMask;
    }

    lemma ValidWalk()
      requires cap > 0
      ensures Valid() && m_freeItems > 0 ==> Walk(Links(Views(), cap, m_size), m_nextFreeIdx, m_freeItems, idMask)
    {
      hide Stored, Named, Gens, Links, Owned, Pages, Views;
      if Valid() {
        RepresentsWalk(Fields(Gens(Views(), cap, m_size), Links(Views(), cap, m_size), m_nextFreeIdx, m_freeItems),
          idMask, slots);
      }
    }

    method NextFree(index: nat) returns (link: nat)
      requires cap > 0 && Pages() && Stored(Views(), cap, m_size, objects) && index < m_size
      ensures link == Links(Views(), cap, m_size)[index]
    {
      StoredSlot(Views(), cap, m_size, objects, index);
      PageOf(index);
      hide PageIdx, SlotIdx, CellAt, Stored;
      link := m_pages[PageIdx(index, cap)].nextFree[SlotIdx(index, cap)];
    }

    /** Iteration: skips slots without an object. */
    method SkipDead(from: nat) returns (index: nat)
      requires Valid()
      ensures from <= index && (from <= m_size ==> index <= m_size)
      ensures index < m_size ==> index in objects
      ensures forall i :: from <= i < index ==> i !in objects
    {
      hide *;
      index := from;
      while index < m_size
        invariant from <= index && (from <= m_size ==> index <= m_size)
        invariant forall i :: from <= i < index ==> i !in objects
      {
        var ok := HasIndex(index);
        if ok {
          return;
        }
        index := index + 1;
      }
    }

    /** A whole iteration meets every object once in increasing order: those in use and those kept after freeing. */
    method Iterate() returns (visited: seq<nat>)
      requires Valid()
      ensures forall j, k :: 0 <= j < k < |visited| ==> visited[j] < visited[k]
      ensures forall i :: i in visited <==> i in objects
    {
      hide *;
      ObjectsBelow();
      visited := [];
      var index := SkipDead(0);
      while index < m_size
        invariant index <= m_size
        invariant index < m_size ==> index in objects
        invariant forall k :: 0 <= k < |visited| ==> visited[k] < index
        invariant forall j, k :: 0 <= j < k < |visited| ==> visited[j] < visited[k]
        invariant forall i :: i in visited <==> i in objects && i < index
      {
        ghost var was := visited;
        visited := visited + [index];
        ghost var at := index;
        index := SkipDead(index + 1);
        forall i ensures i in visited <==> i in objects && i < index {
          assert i in visited <==> i in was || i == at;
        }
      }
    }

    lemma ObjectsBelow()
      requires Valid()
      ensures forall i :: i in objects ==> i < m_size
    {
      hide Stored, Named, Links, Chained;
    }

    lemma Concluded(stack: seq<nat>)
      requires Pages() && Outcome(Views(), cap, m_size, m_nextFreeIdx, m_freeItems, idMask, slots, objects, stack)
      ensures Valid() <==> m_nextFreeIdx !in stack
      ensures m_nextFreeIdx in stack ==> cap > 0 && Endless(Links(Views(), cap, m_size), m_nextFreeIdx, idMask)
    {
    }

    lemma UnfoldValid()
      requires Valid()
      ensures Pages() && Whole(Views(), cap, m_size, m_nextFreeIdx, m_freeItems, idMask, slots, objects)
      ensures slots.Valid()
    {
    }

    lemma FoldValid()
      requires Pages() && Whole(Views(), cap, m_size, m_nextFreeIdx, m_freeItems, idMask, slots, objects)
      ensures Valid() && slots.Valid()
    {
    }
  }

  lemma FindIn<T>(m: map<nat, T>, i: nat, n: map<nat, T>, j: nat)
    requires Find(m, i) == Find(n, j)
    ensures i in m <==> j in n
  {
  }
}
