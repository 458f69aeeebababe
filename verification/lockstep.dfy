/** The plain and the paged list side by side. */
module Lockstep {
  import opened SlotSpec
  import opened ImplicitLists
  import opened PagedLists

  /** Two valid lists that stand for the same slots. */
  ghost predicate InStep(l: IList, p: PagedIList)
    reads l, p, p.m_pages
  {
    l.Valid() && p.Valid() && l.slots == p.slots && l.idMask == p.idMask
  }

  /** They report the same size, free-list head and number of free slots. */
  ghost predicate SameFigures(l: IList, p: PagedIList)
    reads l, p
  {
    |l.m_items| == p.m_size && l.m_nextFreeIdx == p.m_nextFreeIdx && l.m_freeItems == p.m_freeItems
  }

  lemma InStepReports(l: IList, p: PagedIList)
    requires InStep(l, p)
    ensures SameFigures(l, p) && |l.slots.gens| == p.m_size && l.slots.Valid()
    ensures p.m_freeItems == |l.slots.stack|
  {
    hide Named, Owned, Chained;
    var gens, links := PagedLists.Gens(p.Views(), p.cap, p.m_size), PagedLists.Links(p.Views(), p.cap, p.m_size);
    SameReports(l.State(), Fields(gens, links, p.m_nextFreeIdx, p.m_freeItems), l.idMask, l.slots);
  }

  /** A handle in use is answered for by the paged list, and its slot is not free. */
  lemma InUseAnswers(p: PagedIList, h: Handle)
    requires p.Valid() && p.slots.Has(h)
    ensures p.Answers(h) && h.id !in p.slots.stack
  {
    hide Stored, Named, Represents;
  }

  method AllocBoth(l: IList, p: PagedIList, data: int) returns (a: Handle, b: Handle)
    requires InStep(l, p) && |l.slots.gens| < l.idMask
    modifies l, p, p.m_pages
    ensures InStep(l, p) && a == b
    ensures old(l.slots).Valid() && (l.slots, a) == old(l.slots).Alloc(l.idMask)
    ensures p.objects == old(p.objects)[a.id := Payload(a.id, a.gen, data)]
    ensures forall i :: 0 <= i < |p.m_pages| ==> p.m_pages[i] in old(p.m_pages) || fresh(p.m_pages[i])
  {
    InStepReports(l, p);
    hide IList.Valid, PagedIList.Valid, Slots.Alloc, Slots.Valid, SameFigures;
    a := l.Alloc();
    b := p.Alloc(data);
  }

  /** The paged list may keep the payload or not; the plain one has no such choice. */
  method FreeBoth(l: IList, p: PagedIList, h: Handle, keep: bool)
    requires InStep(l, p) && l.slots.Has(h)
    modifies l, p, p.m_pages
    ensures InStep(l, p) && l.slots == old(l.slots).Free(h.id) && p.m_pages == old(p.m_pages)
    ensures p.objects == if keep then old(p.objects) else old(p.objects) - {h.id}
  {
    InStepReports(l, p);
    InUseAnswers(p, h);
    hide IList.Valid, PagedIList.Valid, Slots.Free, Slots.Valid, SameFigures, Endless, PagedIList.Answers;
    l.Free(h);
    if keep {
      p.FreeKeepLive(h);
    } else {
      p.Free(h);
    }
  }

  /** The payloads after a run: one made by each allocation, and one lost by each call of free that does not keep it. */
  ghost function ObjectsAfter(s: Slots, objects: map<nat, Payload>, ops: seq<Op>, keep: seq<bool>, tail: nat,
      data: int): map<nat, Payload>
    requires s.Valid() && LegalRun(s, ops, tail) && |keep| == |ops|
    decreases |ops|
  {
    if ops == [] then objects
    else match ops[0]
      case DoAlloc =>
        AllocValid(s, tail);
        var h := s.Alloc(tail).1;
        ObjectsAfter(s.Alloc(tail).0, objects[h.id := Payload(h.id, h.gen, data)], ops[1..], keep[1..], tail, data)
      case DoFree(h) =>
        FreeValid(s, h.id);
        ObjectsAfter(s.Free(h.id), if keep[0] then objects else objects - {h.id}, ops[1..], keep[1..], tail, data)
  }

  /**
   * The same legal calls on both lists return the same handles, which are those of the specification, and leave them
   * with the same figures, whatever pages were released and rebuilt meanwhile. The paged list holds exactly the
   * payloads
   * that were made and neither destroyed nor replaced.
   */
  method RunBoth(l: IList, p: PagedIList, ops: seq<Op>, keep: seq<bool>, data: int)
    returns (a: seq<Handle>, b: seq<Handle>)
    requires InStep(l, p) && l.slots.Valid() && LegalRun(l.slots, ops, l.idMask)
    requires |keep| == |ops| && |l.slots.gens| + |ops| <= l.idMask
    modifies l, p, p.m_pages
    ensures InStep(l, p) && SameFigures(l, p)
    ensures old(l.slots).Valid() && LegalRun(old(l.slots), ops, l.idMask)
    ensures a == b && (l.slots, a) == Run(old(l.slots), ops, l.idMask)
    ensures p.objects == ObjectsAfter(old(l.slots), old(p.objects), ops, keep, l.idMask, data)
    ensures forall i :: 0 <= i < |p.m_pages| ==> p.m_pages[i] in old(p.m_pages) || fresh(p.m_pages[i])
    decreases |ops|
  {
    hide *;
    ghost var s, tail := l.slots, l.idMask;
    InStepReports(l, p);
    if ops == [] {
      RunNothing(s, ops, tail);
      ObjectsStep(s, p.objects, ops, keep, tail, data);
      return [], [];
    }
    LegalStep(s, ops, tail);
    ObjectsStep(s, p.objects, ops, keep, tail, data);
    match ops[0]
    case DoAlloc =>
      var x, y := AllocBoth(l, p, data);
      a, b := RunBoth(l, p, ops[1..], keep[1..], data);
      a, b := [x] + a, [y] + b;
    case DoFree(h) =>
      FreeBoth(l, p, h, keep[0]);
      a, b := RunBoth(l, p, ops[1..], keep[1..], data);
  }

  lemma RunNothing(s: Slots, ops: seq<Op>, tail: nat)
    requires s.Valid() && ops == []
    ensures LegalRun(s, ops, tail) && Run(s, ops, tail) == (s, [])
  {
  }

  lemma ObjectsStep(s: Slots, objects: map<nat, Payload>, ops: seq<Op>, keep: seq<bool>, tail: nat, data: int)
    requires s.Valid() && LegalRun(s, ops, tail) && |keep| == |ops|
    ensures ops == [] ==> ObjectsAfter(s, objects, ops, keep, tail, data) == objects
    ensures ops != [] && ops[0].DoAlloc? ==>
      && var (t, h) := s.Alloc(tail);
      && t.Valid() && LegalRun(t, ops[1..], tail)
      && ObjectsAfter(s, objects, ops, keep, tail, data)
        == ObjectsAfter(t, objects[h.id := Payload(h.id, h.gen, data)], ops[1..], keep[1..], tail, data)
    ensures ops != [] && ops[0].DoFree? ==>
      && s.Has(ops[0].h) && ops[0].h.id < |s.gens|
      && var t := s.Free(ops[0].h.id);
      && t.Valid() && LegalRun(t, ops[1..], tail)
      && ObjectsAfter(s, objects, ops, keep, tail, data)
        == ObjectsAfter(t, if keep[0] then objects else objects - {ops[0].h.id}, ops[1..], keep[1..], tail, data)
  {
    if ops != [] {
      LegalStep(s, ops, tail);
    }
  }

  /** The first step of a legal run, and what is left of it. */
  lemma LegalStep(s: Slots, ops: seq<Op>, tail: nat)
    requires s.Valid() && ops != [] && LegalRun(s, ops, tail)
    ensures ops[0].DoAlloc? ==>
      && var (t, x) := s.Alloc(tail);
      && t.Valid() && LegalRun(t, ops[1..], tail) && |t.gens| <= |s.gens| + 1
      && Run(s, ops, tail) == (Run(t, ops[1..], tail).0, [x] + Run(t, ops[1..], tail).1)
    ensures ops[0].DoFree? ==>
      && s.Has(ops[0].h) && ops[0].h.id < |s.gens|
      && var t := s.Free(ops[0].h.id);
      && t.Valid() && LegalRun(t, ops[1..], tail) && |t.gens| == |s.gens|
      && Run(s, ops, tail) == Run(t, ops[1..], tail)
  {
    match ops[0]
    case DoAlloc => AllocValid(s, tail);
    case DoFree(h) => FreeValid(s, h.id);
  }
}
