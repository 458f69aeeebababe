/** What a generational slot list does, without any links: a stack of free slots and a generation per slot. */
module SlotSpec {
  import opened Paging

  ghost predicate Distinct<T>(s: seq<T>) {
    forall j, k :: 0 <= j < k < |s| ==> s[j] != s[k]
  }

  datatype Handle = Handle(id: nat, gen: nat)

  /** `head` is the free-list head the list reports, which is the top of the stack when there is one. */
  datatype Slots = Slots(gens: seq<nat>, stack: seq<nat>, head: nat) {
    /** The stack holds different existing slots and the reported head is its top. */
    ghost predicate Valid() {
      && (forall k :: 0 <= k < |stack| ==> stack[k] < |gens|)
      && Distinct(stack)
      && (stack != [] ==> head == stack[0])
    }

    /** The handle names a slot in use and its current generation. */
    predicate Has(h: Handle) {
      h.id < |gens| && h.id !in stack && gens[h.id] == h.gen
    }

    /** Reuses the slot freed last, or makes a new one; `tail` is the link stored in the last free slot. */
    function Alloc(tail: nat): (Slots, Handle)
      requires Valid()
    {
      if stack == [] then
        (this.(gens := gens + [0]), Handle(|gens|, 0))
      else
        (this.(stack := stack[1..], head := if |stack| > 1 then stack[1] else tail), Handle(head, gens[head]))
    }

    /** Retires the current generation of a slot and puts the slot on top of the stack. */
    function Free(id: nat): Slots
      requires id < |gens|
    {
      Slots(gens[id := gens[id] + 1], [id] + stack, id)
    }
  }

  const EMPTY_HEAD := 0xFFFF_FFFF

  const Empty := Slots([], [], EMPTY_HEAD)

  lemma AllocValid(s: Slots, tail: nat)
    requires s.Valid()
    ensures s.Alloc(tail).0.Valid() && s.Alloc(tail).0.Has(s.Alloc(tail).1) && !s.Has(s.Alloc(tail).1)
    ensures forall h :: s.Has(h) ==> s.Alloc(tail).0.Has(h)
  {
  }

  lemma FreeValid(s: Slots, id: nat)
    requires s.Valid() && id < |s.gens| && id !in s.stack
    ensures s.Free(id).Valid() && !s.Free(id).Has(Handle(id, s.gens[id]))
    ensures forall g: Handle :: g.id != id ==> (s.Free(id).Has(g) <==> s.Has(g))
  {
    var t := s.Free(id);
    forall g: Handle | g.id != id ensures t.Has(g) <==> s.Has(g) {
      assert g.id in t.stack <==> g.id in s.stack;
    }
  }

  /** The slot freed last is handed out next, one generation on, and that is all that has changed. */
  lemma FreeThenAlloc(s: Slots, id: nat, tail: nat)
    requires s.Valid() && id < |s.gens| && id !in s.stack
    ensures s.Free(id).Valid()
    ensures var (t, h) := s.Free(id).Alloc(tail);
      h == Handle(id, s.gens[id] + 1) && t.gens == s.gens[id := s.gens[id] + 1] && t.stack == s.stack
  {
    FreeValid(s, id);
  }

  // Runs

  /** A run frees only handles that are in use at that moment. */
  datatype Op = DoAlloc | DoFree(h: Handle)

  ghost predicate LegalRun(s: Slots, ops: seq<Op>, tail: nat)
    requires s.Valid()
    decreases |ops|
  {
    ops == [] ||
    match ops[0]
    case DoAlloc => (AllocValid(s, tail); LegalRun(s.Alloc(tail).0, ops[1..], tail))
    case DoFree(h) => s.Has(h) && (FreeValid(s, h.id); LegalRun(s.Free(h.id), ops[1..], tail))
  }

  /** The state after a run and the handles it issued, in order. */
  ghost function Run(s: Slots, ops: seq<Op>, tail: nat): (r: (Slots, seq<Handle>))
    requires s.Valid() && LegalRun(s, ops, tail)
    decreases |ops|
  {
    if ops == [] then (s, [])
    else match ops[0]
      case DoAlloc =>
        AllocValid(s, tail);
        var (t, hs) := Run(s.Alloc(tail).0, ops[1..], tail);
        (t, [s.Alloc(tail).1] + hs)
      case DoFree(h) =>
        FreeValid(s, h.id);
        Run(s.Free(h.id), ops[1..], tail)
  }

  /** While no slot is free, a run of allocations numbers new slots in order, each in its first generation. */
  lemma {:induction false} NewHandles(s: Slots, ops: seq<Op>, tail: nat)
    requires s.Valid() && s.stack == [] && forall k :: 0 <= k < |ops| ==> ops[k] == DoAlloc
    ensures LegalRun(s, ops, tail)
    ensures Run(s, ops, tail).1 == seq(|ops|, k requires 0 <= k => Handle(|s.gens| + k, 0))
    decreases |ops|
  {
    if ops != [] {
      AllocValid(s, tail);
      NewHandles(s.Alloc(tail).0, ops[1..], tail);
    }
  }

  /** A handle that names an existing slot but is not in use: it is stale, or the slot waits with this generation. */
  ghost predicate Retired(s: Slots, h: Handle) {
    h.id < |s.gens| && h.gen < s.gens[h.id]
  }

  /** No run brings a retired handle back, and no run issues it again. */
  lemma {:induction false} RetiredForever(s: Slots, ops: seq<Op>, tail: nat, h: Handle)
    requires s.Valid() && LegalRun(s, ops, tail) && Retired(s, h)
    ensures Retired(Run(s, ops, tail).0, h) && !Run(s, ops, tail).0.Has(h)
    ensures h !in Run(s, ops, tail).1
    decreases |ops|
  {
    if ops != [] {
      match ops[0]
      case DoAlloc =>
        AllocValid(s, tail);
        RetiredForever(s.Alloc(tail).0, ops[1..], tail, h);
      case DoFree(g) =>
        FreeValid(s, g.id);
        RetiredForever(s.Free(g.id), ops[1..], tail, h);
    }
  }

  /** Freeing a handle retires it. */
  lemma FreedIsStale(s: Slots, h: Handle, ops: seq<Op>, tail: nat)
    requires s.Valid() && s.Has(h)
    requires s.Free(h.id).Valid() && LegalRun(s.Free(h.id), ops, tail)
    ensures !Run(s.Free(h.id), ops, tail).0.Has(h) && h !in Run(s.Free(h.id), ops, tail).1
  {
    RetiredForever(s.Free(h.id), ops, tail, h);
  }

  /** In use or retired: once issued a handle stays one of the two. */
  ghost predicate Spent(s: Slots, h: Handle) {
    s.Has(h) || Retired(s, h)
  }

  lemma {:induction false} SpentForever(s: Slots, ops: seq<Op>, tail: nat, h: Handle)
    requires s.Valid() && LegalRun(s, ops, tail) && Spent(s, h)
    ensures h !in Run(s, ops, tail).1
    decreases |ops|
  {
    if ops != [] {
      match ops[0]
      case DoAlloc =>
        AllocValid(s, tail);
        SpentForever(s.Alloc(tail).0, ops[1..], tail, h);
      case DoFree(g) =>
        FreeValid(s, g.id);
        SpentForever(s.Free(g.id), ops[1..], tail, h);
    }
  }

  /** No run issues the same handle twice. */
  lemma {:induction false} HandlesDistinct(s: Slots, ops: seq<Op>, tail: nat)
    requires s.Valid() && LegalRun(s, ops, tail)
    ensures Distinct(Run(s, ops, tail).1)
    decreases |ops|
  {
    if ops != [] {
      match ops[0]
      case DoAlloc =>
        AllocValid(s, tail);
        HandlesDistinct(s.Alloc(tail).0, ops[1..], tail);
        SpentForever(s.Alloc(tail).0, ops[1..], tail, s.Alloc(tail).1);
      case DoFree(g) =>
        FreeValid(s, g.id);
        HandlesDistinct(s.Free(g.id), ops[1..], tail);
        assert Run(s, ops, tail).1 == Run(s.Free(g.id), ops[1..], tail).1;
    }
  }

  // Generations of limited width

  /** How often a run frees a slot. */
  ghost function FreedTimes(ops: seq<Op>, id: nat): nat
    decreases |ops|
  {
    if ops == [] then 0 else (if ops[0].DoFree? && ops[0].h.id == id then 1 else 0) + FreedTimes(ops[1..], id)
  }

  lemma {:induction false} GenerationAfter(s: Slots, ops: seq<Op>, tail: nat, id: nat)
    requires s.Valid() && LegalRun(s, ops, tail) && id < |s.gens|
    ensures id < |Run(s, ops, tail).0.gens|
    ensures Run(s, ops, tail).0.gens[id] == s.gens[id] + FreedTimes(ops, id)
    decreases |ops|
  {
    if ops != [] {
      match ops[0]
      case DoAlloc =>
        AllocValid(s, tail);
        GenerationAfter(s.Alloc(tail).0, ops[1..], tail, id);
      case DoFree(g) =>
        FreeValid(s, g.id);
        GenerationAfter(s.Free(g.id), ops[1..], tail, id);
    }
  }

  /** The handle seems to be in use when generations are told apart only up to multiples of `width`. */
  ghost predicate Seems(s: Slots, h: Handle, width: nat)
    requires width > 0
  {
    h.id < |s.gens| && h.id !in s.stack && s.gens[h.id] % width == h.gen % width
  }

  /**
   * When handles store their generation cut to `width` values, a handle seems to be in use after a run exactly when its
   * slot is in use and was freed a multiple of `width` times: fewer frees than that never bring a stale handle back.
   */
  lemma SeemsIff(s: Slots, ops: seq<Op>, tail: nat, h: Handle, width: nat)
    requires s.Valid() && LegalRun(s, ops, tail) && s.Has(h) && width > 0
    ensures var t, n := Run(s, ops, tail).0, FreedTimes(ops, h.id);
      && (Seems(t, h, width) <==> h.id !in t.stack && n % width == 0)
      && (n < width ==> (Seems(t, h, width) <==> t.Has(h)))
  {
    GenerationAfter(s, ops, tail, h.id);
    SameRemainder(h.gen, FreedTimes(ops, h.id), width);
  }

  lemma SameRemainder(g: nat, n: nat, m: nat)
    requires m > 0
    ensures (g + n) % m == g % m <==> n % m == 0
    ensures n < m ==> n % m == n
  {
    IntDivision(g, m);
    if n < m {
      RemainderOf(n, m, 0, n);
    }
    if n % m == 0 {
      IntDivision(n, m);
      assert (g / m + n / m) * m == g / m * m + n / m * m;
      RemainderOf(g + n, m, g / m + n / m, g % m);
    }
    if (g + n) % m == g % m {
      IntDivision(g + n, m);
      assert ((g + n) / m - g / m) * m == (g + n) / m * m - g / m * m;
      RemainderOf(n, m, (g + n) / m - g / m, 0);
    }
  }

  // The chain of links

  /** The slot under the one at `k`, or the tail mark. */
  function Under(stack: seq<nat>, k: nat, tail: nat): nat {
    if k + 1 < |stack| then stack[k + 1] else tail
  }

  /** Every slot of the stack links to the one below it, and the lowest one links to `tail`. */
  ghost predicate Chained(links: seq<nat>, stack: seq<nat>, tail: nat) {
    && (forall k :: 0 <= k < |stack| ==> stack[k] < |links|)
    && (forall k :: 0 <= k < |stack| ==> links[stack[k]] == Under(stack, k, tail))
  }

  lemma ChainedPop(links: seq<nat>, stack: seq<nat>, tail: nat)
    requires Chained(links, stack, tail) && stack != []
    ensures Chained(links, stack[1..], tail)
    ensures links[stack[0]] == if |stack| > 1 then stack[1] else tail
  {
  }

  lemma ChainedPush(links: seq<nat>, stack: seq<nat>, tail: nat, x: nat)
    requires Chained(links, stack, tail) && x < |links| && x !in stack
    ensures Chained(links[x := if stack == [] then tail else stack[0]], [x] + stack, tail)
  {
  }

  /** Links of slots outside the stack do not matter. */
  lemma ChainedSame(links: seq<nat>, links': seq<nat>, stack: seq<nat>, tail: nat)
    requires Chained(links, stack, tail) && |links| <= |links'|
    requires forall k :: 0 <= k < |stack| ==> links'[stack[k]] == links[stack[k]]
    ensures Chained(links', stack, tail)
  {
  }

  /** What the validation loop asks: `n` links lead from `x` through existing slots to `tail`. */
  ghost predicate Walk(links: seq<nat>, x: nat, n: nat, tail: nat)
    decreases n
  {
    if n == 0 then x == tail else x < |links| && Walk(links, links[x], n - 1, tail)
  }

  lemma WalkStep(links: seq<nat>, x: nat, n: nat, tail: nat)
    ensures n == 0 ==> (Walk(links, x, n, tail) <==> x == tail)
    ensures n > 0 ==> (Walk(links, x, n, tail) <==> x < |links| && Walk(links, links[x], n - 1, tail))
  {
  }

  ghost function Visited(links: seq<nat>, x: nat, n: nat, tail: nat): (v: seq<nat>)
    requires Walk(links, x, n, tail)
    ensures |v| == n
    decreases n
  {
    if n == 0 then [] else [x] + Visited(links, links[x], n - 1, tail)
  }

  lemma {:induction false} VisitedChained(links: seq<nat>, x: nat, n: nat, tail: nat)
    requires Walk(links, x, n, tail)
    ensures Chained(links, Visited(links, x, n, tail), tail)
    ensures n > 0 ==> Visited(links, x, n, tail)[0] == x
    decreases n
  {
    if n > 0 {
      VisitedChained(links, links[x], n - 1, tail);
    }
  }

  lemma {:induction false} WalkFrom(links: seq<nat>, x: nat, n: nat, tail: nat, k: nat)
    requires Walk(links, x, n, tail) && k < n
    ensures Walk(links, Visited(links, x, n, tail)[k], n - k, tail)
    decreases n
  {
    if k > 0 {
      WalkFrom(links, links[x], n - 1, tail, k - 1);
    }
  }

  /** The length of a walk to a tail outside the slots depends only on where it starts. */
  lemma {:induction false} WalkLength(links: seq<nat>, x: nat, m: nat, n: nat, tail: nat)
    requires Walk(links, x, m, tail) && Walk(links, x, n, tail) && tail >= |links|
    ensures m == n
    decreases m
  {
    if m > 0 && n > 0 {
      WalkLength(links, links[x], m - 1, n - 1, tail);
    }
  }

  /** So no walk that arrives visits a slot twice. */
  lemma VisitedDistinct(links: seq<nat>, x: nat, n: nat, tail: nat)
    requires Walk(links, x, n, tail) && tail >= |links|
    ensures Distinct(Visited(links, x, n, tail))
  {
    hide Walk, Visited;
    var v := Visited(links, x, n, tail);
    forall j, k | 0 <= j < k < |v| ensures v[j] != v[k] {
      WalkFrom(links, x, n, tail, j);
      WalkFrom(links, x, n, tail, k);
      if v[j] == v[k] {
        WalkLength(links, v[j], n - j, n - k, tail);
      }
    }
  }

  lemma {:induction false} ChainedWalk(links: seq<nat>, stack: seq<nat>, tail: nat)
    requires Chained(links, stack, tail)
    ensures Walk(links, if stack == [] then tail else stack[0], |stack|, tail)
  {
    if stack != [] {
      ChainedPop(links, stack, tail);
      ChainedWalk(links, stack[1..], tail);
    }
  }

  /** Validation accepts exactly the heads of a chain of `n` different slots that ends at the tail mark. */
  lemma WalkIffChain(links: seq<nat>, x: nat, n: nat, tail: nat)
    requires tail >= |links|
    ensures Walk(links, x, n, tail) <==>
      exists stack: seq<nat> :: |stack| == n && Distinct(stack) && Chained(links, stack, tail)
        && x == if stack == [] then tail else stack[0]
  {
    if Walk(links, x, n, tail) {
      VisitedChained(links, x, n, tail);
      VisitedDistinct(links, x, n, tail);
      var stack := Visited(links, x, n, tail);
      assert Distinct(stack);
    }
    forall stack: seq<nat> | |stack| == n && Distinct(stack) && Chained(links, stack, tail)
      && x == (if stack == [] then tail else stack[0])
      ensures Walk(links, x, n, tail)
    {
      ChainedWalk(links, stack, tail);
    }
  }

  /** Putting a slot on the stack twice closes a cycle: no number of links leads from it to the tail mark. */
  lemma PushTwiceCycles(links: seq<nat>, stack: seq<nat>, tail: nat, at: nat, n: nat)
    requires Chained(links, stack, tail) && tail >= |links| && at < |stack|
    ensures !Walk(links[stack[at] := stack[0]], stack[at], n, tail)
  {
    var links' := links[stack[at] := stack[0]];
    if Walk(links', stack[at], n, tail) {
      if at == 0 {
        WalkLength(links', stack[0], n, n - 1, tail);
      } else {
        CycleBack(links, stack, tail, at, 0, n - 1);
      }
    }
  }

  /** Walking on from below the repeated slot comes back to it after `at - k` links. */
  lemma {:induction false} CycleBack(links: seq<nat>, stack: seq<nat>, tail: nat, at: nat, k: nat, n: nat)
    requires Chained(links, stack, tail) && tail >= |links| && k <= at < |stack|
    requires Walk(links[stack[at] := stack[0]], stack[k], n, tail)
    requires Walk(links[stack[at] := stack[0]], stack[at], n + 1 + k, tail)
    ensures false
    decreases at - k
  {
    var links' := links[stack[at] := stack[0]];
    if stack[k] == stack[at] {
      WalkLength(links', stack[k], n, n + 1 + k, tail);
    } else {
      assert links'[stack[k]] == stack[k + 1];
      CycleBack(links, stack, tail, at, k + 1, n - 1);
    }
  }

  ghost predicate Endless(links: seq<nat>, x: nat, tail: nat) {
    forall n :: !Walk(links, x, n, tail)
  }

  lemma PushTwiceIsEndless(links: seq<nat>, stack: seq<nat>, tail: nat, x: nat)
    requires Chained(links, stack, tail) && tail >= |links| && x in stack
    ensures Endless(links[x := stack[0]], x, tail)
  {
    var at :| 0 <= at < |stack| && stack[at] == x;
    var links' := links[x := stack[0]];
    forall n: nat ensures !Walk(links', x, n, tail) {
      PushTwiceCycles(links, stack, tail, at, n);
    }
  }

  // A list of slots as its fields hold it

  datatype Fields = Fields(gens: seq<nat>, links: seq<nat>, head: nat, freeItems: nat)

  ghost predicate Represents(f: Fields, tail: nat, s: Slots) {
    && |f.links| == |f.gens| <= tail
    && s.gens == f.gens && s.head == f.head && |s.stack| == f.freeItems
    && s.Valid()
    && Chained(f.links, s.stack, tail)
  }

  lemma RepresentsGrow(f: Fields, tail: nat, s: Slots, link: nat)
    requires Represents(f, tail, s) && f.freeItems == 0 && |f.gens| < tail
    ensures s.Valid()
    ensures Represents(f.(gens := f.gens + [0], links := f.links + [link]), tail, s.Alloc(tail).0)
    ensures s.Alloc(tail).1 == Handle(|f.gens|, 0)
  {
    ChainedSame(f.links, f.links + [link], s.stack, tail);
  }

  lemma RepresentsPop(f: Fields, tail: nat, s: Slots)
    requires Represents(f, tail, s) && f.freeItems > 0
    ensures s.Valid() && s.stack != [] && |f.links| == |f.gens|
    ensures f.head < |f.gens| && f.head in s.stack && f.head !in s.stack[1..]
    ensures Represents(f.(head := f.links[f.head], freeItems := f.freeItems - 1), tail, s.Alloc(tail).0)
    ensures s.Alloc(tail).1 == Handle(f.head, f.gens[f.head])
  {
    AllocValid(s, tail);
    ChainedPop(f.links, s.stack, tail);
    assert s.stack == [f.head] + s.stack[1..];
  }

  /** The slot on top never links to itself. */
  lemma LinkElsewhere(f: Fields, tail: nat, s: Slots)
    requires Represents(f, tail, s) && f.freeItems > 0
    ensures f.head < |f.links| && f.links[f.head] != f.head
  {
    assert f.links[s.stack[0]] == Under(s.stack, 0, tail);
  }

  /** The link of a slot that is not free may hold anything. */
  lemma RepresentsRelink(f: Fields, tail: nat, s: Slots, x: nat, link: nat)
    requires Represents(f, tail, s) && x < |f.links| && x !in s.stack
    ensures Represents(f.(links := f.links[x := link]), tail, s)
  {
    ChainedSame(f.links, f.links[x := link], s.stack, tail);
  }

  function Pushed(f: Fields, x: nat, tail: nat): Fields
    requires x < |f.gens| && |f.links| == |f.gens|
  {
    Fields(
      f.gens[x := f.gens[x] + 1],
      f.links[x := if f.freeItems == 0 then tail else f.head],
      x,
      f.freeItems + 1)
  }

  /** Freeing keeps the list a list exactly when the slot is not free yet; otherwise its links never end. */
  lemma RepresentsPush(f: Fields, tail: nat, s: Slots, x: nat)
    requires Represents(f, tail, s) && x < |f.gens|
    ensures s.gens == f.gens && |f.links| == |f.gens|
    ensures Represents(Pushed(f, x, tail), tail, s.Free(x)) <==> x !in s.stack
    ensures x in s.stack ==> Endless(Pushed(f, x, tail).links, x, tail)
  {
    assert s.stack != [] ==> f.head == s.stack[0];
    if x in s.stack {
      PushTwiceIsEndless(f.links, s.stack, tail, x);
      var at :| 0 <= at < |s.stack| && s.stack[at] == x;
      var t := s.Free(x).stack;
      assert t[0] == t[at + 1];
    } else {
      FreeValid(s, x);
      ChainedPush(f.links, s.stack, tail, x);
    }
  }

  lemma RepresentsWalk(f: Fields, tail: nat, s: Slots)
    requires Represents(f, tail, s)
    ensures f.freeItems > 0 ==> Walk(f.links, f.head, f.freeItems, tail)
  {
    ChainedWalk(f.links, s.stack, tail);
  }

  /** Two lists that stand for the same slots report the same sizes, head, free count and free chain. */
  lemma SameReports(f: Fields, g: Fields, tail: nat, s: Slots)
    requires Represents(f, tail, s) && Represents(g, tail, s)
    ensures f.gens == g.gens && f.head == g.head && f.freeItems == g.freeItems
    ensures forall x :: x in s.stack ==> x < |f.links| && x < |g.links| && f.links[x] == g.links[x]
  {
    forall x | x in s.stack ensures x < |f.links| && x < |g.links| && f.links[x] == g.links[x] {
      var k :| 0 <= k < |s.stack| && s.stack[k] == x;
      assert f.links[s.stack[k]] == Under(s.stack, k, tail) == g.links[s.stack[k]];
    }
  }
}
