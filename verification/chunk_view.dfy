/** The rows of a chunk as a value: which entities sit where, their component columns, and how many of
    the leading rows are disabled. Every chunk operation is a function on these views. */
module ChunkViews {
  import opened Ordering

  type Entity = int

  datatype View<V> = View(ev: seq<Entity>, cols: seq<seq<V>>, first: nat)

  /** What a chunk stores for an entity: whether it is disabled and one value per column. */
  datatype Slot<V> = Slot(disabled: bool, values: seq<V>)

  ghost predicate Distinct(ev: seq<Entity>) {
    forall p, q :: 0 <= p < q < |ev| ==> ev[p] != ev[q]
  }

  ghost predicate Columns<V>(cols: seq<seq<V>>, n: nat) {
    forall i :: 0 <= i < |cols| ==> |cols[i]| == n
  }

  /** Rows below `first` are the disabled ones. */
  ghost predicate Proper<V>(v: View<V>) {
    v.first <= |v.ev| && Distinct(v.ev) && Columns(v.cols, |v.ev|)
  }

  function Row<V>(cols: seq<seq<V>>, r: nat): (values: seq<V>)
    requires forall i :: 0 <= i < |cols| ==> r < |cols[i]|
    ensures |values| == |cols| && forall i :: 0 <= i < |cols| ==> values[i] == cols[i][r]
  {
    seq(|cols|, i requires 0 <= i < |cols| => cols[i][r])
  }

  /** The chunk as a finite map from entities to what it stores for them. */
  ghost function Contents<V>(v: View<V>): (m: map<Entity, Slot<V>>)
    requires Proper(v)
  {
    map r | 0 <= r < |v.ev| :: v.ev[r] := Slot(r < v.first, Row(v.cols, r))
  }

  ghost function RowOf<V>(v: View<V>, e: Entity): (r: nat)
    requires Proper(v) && e in v.ev
    ensures r < |v.ev| && v.ev[r] == e
  {
    var r :| 0 <= r < |v.ev| && v.ev[r] == e; r
  }

  lemma ContentsAt<V>(v: View<V>, r: nat)
    requires Proper(v) && r < |v.ev|
    ensures v.ev[r] in Contents(v) && Contents(v)[v.ev[r]] == Slot(r < v.first, Row(v.cols, r))
  {
  }

  lemma ContentsKeys<V>(v: View<V>, e: Entity)
    requires Proper(v)
    ensures e in Contents(v) <==> e in v.ev
  {
  }

  // Rows appended, exchanged and dropped

  function Appended<V>(v: View<V>, e: Entity, values: seq<V>): (w: View<V>)
    requires |values| == |v.cols|
  {
    View(v.ev + [e], seq(|v.cols|, i requires 0 <= i < |v.cols| => v.cols[i] + [values[i]]), v.first)
  }

  function Swapped<V>(v: View<V>, a: nat, b: nat): (w: View<V>)
    requires a < |v.ev| && b < |v.ev| && Columns(v.cols, |v.ev|)
  {
    View(Exchange(v.ev, a, b),
         seq(|v.cols|, i requires 0 <= i < |v.cols| => Exchange(v.cols[i], a, b)), v.first)
  }

  /** The last row moves into `row` and the last row is dropped. */
  function Refilled<V>(v: View<V>, row: nat): (w: View<V>)
    requires row < |v.ev| && Columns(v.cols, |v.ev|)
  {
    var last := |v.ev| - 1;
    View(v.ev[row := v.ev[last]][..last],
         seq(|v.cols|, i requires 0 <= i < |v.cols| => v.cols[i][row := v.cols[i][last]][..last]), v.first)
  }

  /** Removal as the code does it, including its adjustment of the boundary. */
  function Removed<V>(v: View<V>, row: nat): (w: View<V>)
    requires row < |v.ev| && v.first <= |v.ev| && Columns(v.cols, |v.ev|)
  {
    if row >= v.first then
      Refilled(v, row).(first := if v.first > 0 && row == v.first then v.first - 1 else v.first)
    else
      SwappedColumns(v, row, v.first - 1);
      Refilled(Swapped(v, row, v.first - 1), v.first - 1).(first := v.first - 1)
  }

  lemma SwappedColumns<V>(v: View<V>, a: nat, b: nat)
    requires a < |v.ev| && b < |v.ev| && Columns(v.cols, |v.ev|)
    ensures Columns(Swapped(v, a, b).cols, |v.ev|)
  {
  }

  /** Enabling moves the row to the end of the disabled ones and the boundary below it; disabling is the reverse. */
  function Toggled<V>(v: View<V>, row: nat, enable: bool): (w: View<V>)
    requires row < |v.ev| && v.first <= |v.ev| && Columns(v.cols, |v.ev|)
  {
    if enable then
      if row >= v.first then v else Swapped(v, v.first - 1, row).(first := v.first - 1)
    else
      if row < v.first then v else Swapped(v, v.first, row).(first := v.first + 1)
  }

  // What they do to the contents

  lemma AppendedContents<V>(v: View<V>, e: Entity, values: seq<V>)
    requires Proper(v) && e !in v.ev && |values| == |v.cols|
    ensures Proper(Appended(v, e, values))
    ensures Contents(Appended(v, e, values)) == Contents(v)[e := Slot(false, values)]
  {
    var w := Appended(v, e, values);
    var n := |v.ev|;
    assert Proper(w);
    forall r | 0 <= r < n ensures w.ev[r] == v.ev[r] && Row(w.cols, r) == Row(v.cols, r) {
    }
    assert Row(w.cols, n) == values;
    var m, m' := Contents(v)[e := Slot(false, values)], Contents(w);
    forall k | k in m ensures k in m' && m'[k] == m[k] {
      if k == e {
        ContentsAt(w, n);
      } else {
        var r := RowOf(v, k);
        ContentsAt(v, r);
        ContentsAt(w, r);
      }
    }
    assert m.Keys == m'.Keys;
  }

  /** Row `r` of `w` is row `back[r]` of `v`, and row `k` of `v` went to row `forth[k]`, except for row `gone`. */
  ghost predicate Moved<V>(v: View<V>, w: View<V>, back: seq<nat>, forth: seq<nat>, gone: int) {
    && |back| == |w.ev| && |forth| == |v.ev| && |w.cols| == |v.cols|
    && Columns(v.cols, |v.ev|) && Columns(w.cols, |w.ev|)
    && (forall r :: 0 <= r < |back| ==> back[r] < |v.ev| && back[r] != gone && forth[back[r]] == r)
    && (forall k :: 0 <= k < |forth| && k != gone ==> forth[k] < |w.ev| && back[forth[k]] == k)
    && (forall r :: 0 <= r < |back| ==> w.ev[r] == v.ev[back[r]] && Row(w.cols, r) == Row(v.cols, back[r]))
  }

  /** All rows but `flip` stay on their side of the boundary. */
  ghost predicate SameSides<V>(v: View<V>, w: View<V>, back: seq<nat>, flip: int) {
    forall r :: 0 <= r < |back| && r != flip ==> (r < w.first <==> back[r] < v.first)
  }

  lemma MovedProper<V>(v: View<V>, w: View<V>, back: seq<nat>, forth: seq<nat>, gone: int)
    requires Proper(v) && Moved(v, w, back, forth, gone) && w.first <= |w.ev|
    ensures Proper(w)
  {
  }

  lemma MovedForth<V>(v: View<V>, w: View<V>, back: seq<nat>, forth: seq<nat>, gone: int, flip: int, k: nat)
    requires Proper(v) && Proper(w) && Moved(v, w, back, forth, gone)
    requires SameSides(v, w, back, flip) && k < |v.ev| && k != gone
    ensures |forth| == |v.ev| && |back| == |w.ev|
    ensures 0 <= forth[k] < |w.ev| && w.ev[forth[k]] == v.ev[k] && back[forth[k]] == k
    ensures v.ev[k] in Contents(v) && v.ev[k] in Contents(w)
    ensures Contents(w)[v.ev[k]] == if forth[k] == flip
      then Slot(flip < w.first, Row(v.cols, k)) else Contents(v)[v.ev[k]]
  {
    ContentsAt(v, k);
    ContentsAt(w, forth[k]);
  }

  lemma MovedBack<V>(v: View<V>, w: View<V>, back: seq<nat>, forth: seq<nat>, gone: int, e: Entity) returns (k: nat)
    requires Proper(v) && Proper(w) && Moved(v, w, back, forth, gone) && e in Contents(w)
    ensures k < |v.ev| && k != gone && v.ev[k] == e
  {
    k := back[RowOf(w, e)];
  }

  /** The map `m` with the entity at row `gone` of `v` taken out, if there is one. */
  ghost function Without<V>(v: View<V>, gone: int): (m: map<Entity, Slot<V>>)
    requires Proper(v) && -1 <= gone < |v.ev|
    ensures forall e :: e in m <==> e in Contents(v) && (gone < 0 || e != v.ev[gone])
    ensures forall e :: e in m ==> m[e] == Contents(v)[e]
  {
    if gone < 0 then Contents(v) else Contents(v) - {v.ev[gone]}
  }

  lemma MovedKeys<V>(v: View<V>, w: View<V>, back: seq<nat>, forth: seq<nat>, gone: int, flip: int)
    requires Proper(v) && Proper(w) && Moved(v, w, back, forth, gone)
    requires SameSides(v, w, back, flip) && -1 <= gone < |v.ev|
    ensures Contents(w).Keys == Without(v, gone).Keys
  {
    assert Distinct(v.ev);
    hide *;
    forall e ensures e in Contents(w) <==> e in Without(v, gone) {
      if e in Contents(w) {
        var k := MovedBack(v, w, back, forth, gone, e);
        MovedForth(v, w, back, forth, gone, flip, k);
        OtherRow(v, k, gone);
      }
      if e in Without(v, gone) {
        ContentsKeys(v, e);
        var k := RowOf(v, e);
        MovedForth(v, w, back, forth, gone, flip, k);
      }
    }
  }

  lemma OtherRow<V>(v: View<V>, k: nat, gone: int)
    requires Proper(v) && k < |v.ev| && -1 <= gone < |v.ev| && k != gone
    ensures gone >= 0 ==> v.ev[k] != v.ev[gone]
  {
  }

  /** Moving rows about on their side of the boundary changes nothing but the entity at `gone`. */
  lemma MovedContents<V>(v: View<V>, w: View<V>, back: seq<nat>, forth: seq<nat>, gone: int)
    requires Proper(v) && Moved(v, w, back, forth, gone) && w.first <= |w.ev|
    requires SameSides(v, w, back, -1) && -1 <= gone < |v.ev|
    ensures Proper(w) && Contents(w) == Without(v, gone)
  {
    hide *;
    MovedProper(v, w, back, forth, gone);
    MovedKeys(v, w, back, forth, gone, -1);
    forall e | e in Without(v, gone) ensures Contents(w)[e] == Without(v, gone)[e] {
      ContentsKeys(v, e);
      MovedForth(v, w, back, forth, gone, -1, RowOf(v, e));
    }
  }

  /** As before, except that the entity now at `flip` has changed sides. */
  lemma MovedFlipped<V>(v: View<V>, w: View<V>, back: seq<nat>, forth: seq<nat>, gone: int, flip: nat)
    requires Proper(v) && Moved(v, w, back, forth, gone) && w.first <= |w.ev|
    requires SameSides(v, w, back, flip) && -1 <= gone < |v.ev| && flip < |w.ev|
    ensures Proper(w) && |back| == |w.ev| && back[flip] < |v.ev| && w.ev[flip] == v.ev[back[flip]]
    ensures Contents(w) == Without(v, gone)[w.ev[flip] := Slot(flip < w.first, Row(v.cols, back[flip]))]
  {
    hide *;
    FlipFacts(v, w, back, forth, gone, flip);
    var k := back[flip];
    var e := v.ev[k];
    MovedProper(v, w, back, forth, gone);
    MovedKeys(v, w, back, forth, gone, flip);
    MovedForth(v, w, back, forth, gone, flip, k);
    var slot := Slot(flip < w.first, Row(v.cols, k));
    forall d | d in Without(v, gone) && d != e ensures Contents(w)[d] == Without(v, gone)[d] {
      ContentsKeys(v, d);
      MovedForth(v, w, back, forth, gone, flip, RowOf(v, d));
    }
    SameButOne(Contents(w), Without(v, gone), e, slot);
  }

  lemma FlipFacts<V>(v: View<V>, w: View<V>, back: seq<nat>, forth: seq<nat>, gone: int, flip: nat)
    requires Proper(v) && Moved(v, w, back, forth, gone) && flip < |w.ev|
    ensures |back| == |w.ev| && |forth| == |v.ev| && back[flip] < |v.ev| && back[flip] != gone
    ensures w.ev[flip] == v.ev[back[flip]] && forth[back[flip]] == flip
    ensures Columns(v.cols, |v.ev|)
  {
  }

  lemma SameButOne<K, U>(m': map<K, U>, m: map<K, U>, k: K, u: U)
    requires m'.Keys == m.Keys && k in m' && m'[k] == u
    requires forall d :: d in m && d != k ==> m'[d] == m[d]
    ensures m' == m[k := u]
  {
  }

  lemma SwappedMoved<V>(v: View<V>, a: nat, b: nat, first: nat) returns (back: seq<nat>)
    requires Proper(v) && a < |v.ev| && b < |v.ev|
    ensures |back| == |v.ev| && back[a] == b && back[b] == a
    ensures forall r :: 0 <= r < |v.ev| && r != a && r != b ==> back[r] == r
    ensures Moved(v, Swapped(v, a, b).(first := first), back, back, -1)
  {
    var w := Swapped(v, a, b).(first := first);
    back := seq(|v.ev|, r => if r == a then b else if r == b then a else r);
    SwappedColumns(v, a, b);
    forall r | 0 <= r < |back| ensures Row(w.cols, r) == Row(v.cols, back[r]) {
      forall i | 0 <= i < |v.cols| ensures w.cols[i][r] == v.cols[i][back[r]] {
        assert w.cols[i] == Exchange(v.cols[i], a, b);
      }
    }
  }

  lemma RefilledMoved<V>(v: View<V>, row: nat, first: nat) returns (back: seq<nat>, forth: seq<nat>)
    requires Proper(v) && row < |v.ev|
    ensures |back| == |v.ev| - 1 && (row < |back| ==> back[row] == |v.ev| - 1)
    ensures forall r :: 0 <= r < |back| && r != row ==> back[r] == r
    ensures Moved(v, Refilled(v, row).(first := first), back, forth, row)
  {
    var w := Refilled(v, row).(first := first);
    var last := |v.ev| - 1;
    back := seq(last, r => if r == row then last else r);
    forth := seq(|v.ev|, k => if k == last then row else k);
    forall r | 0 <= r < |back| ensures Row(w.cols, r) == Row(v.cols, back[r]) {
      forall i | 0 <= i < |v.cols| ensures w.cols[i][r] == v.cols[i][back[r]] {
        assert w.cols[i] == v.cols[i][row := v.cols[i][last]][..last];
      }
    }
  }

  /** Exchanging two rows on the same side of the boundary leaves the contents alone. */
  lemma SwappedContents<V>(v: View<V>, a: nat, b: nat)
    requires Proper(v) && a < |v.ev| && b < |v.ev| && (a < v.first <==> b < v.first)
    ensures Proper(Swapped(v, a, b)) && Contents(Swapped(v, a, b)) == Contents(v)
  {
    var back := SwappedMoved(v, a, b, v.first);
    MovedContents(v, Swapped(v, a, b), back, back, -1);
  }

  lemma EnabledContents<V>(v: View<V>, row: nat)
    requires Proper(v) && row < v.first
    ensures Proper(Toggled(v, row, true))
    ensures Contents(Toggled(v, row, true)) == Contents(v)[v.ev[row] := Slot(false, Row(v.cols, row))]
  {
    var back := SwappedMoved(v, v.first - 1, row, v.first - 1);
    MovedFlipped(v, Toggled(v, row, true), back, back, -1, v.first - 1);
  }

  lemma DisabledContents<V>(v: View<V>, row: nat)
    requires Proper(v) && v.first <= row < |v.ev|
    ensures Proper(Toggled(v, row, false))
    ensures Contents(Toggled(v, row, false)) == Contents(v)[v.ev[row] := Slot(true, Row(v.cols, row))]
  {
    var back := SwappedMoved(v, v.first, row, v.first + 1);
    MovedFlipped(v, Toggled(v, row, false), back, back, -1, v.first);
  }

  /** Enabling and disabling change the entity's flag and nothing else. */
  lemma ToggledContents<V>(v: View<V>, row: nat, enable: bool)
    requires Proper(v) && row < |v.ev|
    ensures Proper(Toggled(v, row, enable))
    ensures Contents(Toggled(v, row, enable)) == Contents(v)[v.ev[row] := Slot(!enable, Row(v.cols, row))]
  {
    ContentsAt(v, row);
    if enable && row < v.first {
      EnabledContents(v, row);
    } else if !enable && row >= v.first {
      DisabledContents(v, row);
    } else {
      assert Contents(v)[v.ev[row]] == Slot(!enable, Row(v.cols, row));
    }
  }

  lemma RefilledContents<V>(v: View<V>, row: nat, first: nat)
    requires Proper(v) && row < |v.ev| && first == (if row < v.first then v.first - 1 else v.first)
    requires row == |v.ev| - 1 || v.first <= row || (row == v.first - 1)
    ensures Proper(Refilled(v, row).(first := first))
    ensures Contents(Refilled(v, row).(first := first)) == Contents(v) - {v.ev[row]}
  {
    var back, forth := RefilledMoved(v, row, first);
    assert SameSides(v, Refilled(v, row).(first := first), back, -1);
    hide Moved, SameSides, Contents, Proper;
    MovedContents(v, Refilled(v, row).(first := first), back, forth, row);
  }

  /** Removing a row takes the entity out of the map, except for the first enabled row behind disabled ones. */
  lemma RemovedContents<V>(v: View<V>, row: nat)
    requires Proper(v) && row < |v.ev| && !(0 < v.first == row)
    ensures Proper(Removed(v, row)) && Contents(Removed(v, row)) == Contents(v) - {v.ev[row]}
  {
    RemovedIs(v, row);
    hide *;
    if row >= v.first {
      RefilledContents(v, row, v.first);
    } else {
      SwappedContents(v, row, v.first - 1);
      RefilledContents(Swapped(v, row, v.first - 1), v.first - 1, v.first - 1);
    }
  }

  /** Removal in terms of the two elementary steps. */
  lemma RemovedIs<V>(v: View<V>, row: nat)
    requires Proper(v) && row < |v.ev| && !(0 < v.first == row)
    ensures v.first <= |v.ev| && Columns(v.cols, |v.ev|)
    ensures row >= v.first ==> Removed(v, row) == Refilled(v, row).(first := v.first)
    ensures row < v.first ==>
      var u := Swapped(v, row, v.first - 1);
      && |u.ev| == |v.ev| && u.first == v.first && Columns(u.cols, |u.ev|) && u.ev[v.first - 1] == v.ev[row]
      && Removed(v, row) == Refilled(u, v.first - 1).(first := v.first - 1)
  {
  }

  /** Removing the first enabled row while there are disabled rows also enables the last disabled entity. */
  lemma RemovedFirstEnabled<V>(v: View<V>, row: nat)
    requires Proper(v) && row < |v.ev| && 0 < v.first == row
    ensures Proper(Removed(v, row))
    ensures var e := v.ev[row - 1];
      && e in Contents(v) && Contents(v)[e].disabled
      && Contents(Removed(v, row)) == (Contents(v) - {v.ev[row]})[e := Slot(false, Row(v.cols, row - 1))]
  {
    hide *;
    RemovedFirstIs(v, row);
    var back, forth := RefilledMoved(v, row, v.first - 1);
    RefilledFirstSides(v, row, back);
    MovedFlipped(v, Removed(v, row), back, forth, row, row - 1);
    WithoutIs(v, row);
  }

  lemma RemovedFirstIs<V>(v: View<V>, row: nat)
    requires Proper(v) && row < |v.ev| && 0 < v.first == row
    ensures Columns(v.cols, |v.ev|) && Removed(v, row) == Refilled(v, row).(first := v.first - 1)
    ensures Removed(v, row).first == row - 1 <= |Removed(v, row).ev| && |Removed(v, row).ev| == |v.ev| - 1
    ensures v.ev[row - 1] in Contents(v) && Contents(v)[v.ev[row - 1]].disabled
  {
    ContentsAt(v, row - 1);
  }

  lemma RefilledFirstSides<V>(v: View<V>, row: nat, back: seq<nat>)
    requires Proper(v) && row < |v.ev| && 0 < v.first == row
    requires |back| == |v.ev| - 1 && forall r :: 0 <= r < |back| && r != row ==> back[r] == r
    requires row < |back| ==> back[row] == |v.ev| - 1
    ensures SameSides(v, Removed(v, row), back, row - 1) && back[row - 1] == row - 1
  {
  }

  lemma WithoutIs<V>(v: View<V>, gone: nat)
    requires Proper(v) && gone < |v.ev|
    ensures Without(v, gone) == Contents(v) - {v.ev[gone]}
  {
  }

  /** Removal does what it promises exactly outside that case. */
  lemma RemovedIff<V>(v: View<V>, row: nat)
    requires Proper(v) && row < |v.ev|
    ensures Proper(Removed(v, row))
    ensures Contents(Removed(v, row)) == Contents(v) - {v.ev[row]} <==> !(0 < v.first == row)
  {
    if 0 < v.first == row {
      RemovedFirstEnabled(v, row);
      ContentsAt(v, row - 1);
      assert v.ev[row - 1] != v.ev[row];
      assert (Contents(v) - {v.ev[row]})[v.ev[row - 1]].disabled;
    } else {
      RemovedContents(v, row);
    }
  }

  // Whole runs

  datatype Op<V> = Add(e: Entity, values: seq<V>) | Remove(e: Entity) | Enable(e: Entity, on: bool)

  /** What the caller must see to: entities are added once, with a value for every column, and only entities
      of the chunk are named. Removal must avoid the first enabled row while there are disabled ones. */
  ghost predicate Legal<V>(v: View<V>, op: Op<V>)
    requires Proper(v)
  {
    match op
    case Add(e, values) => e !in v.ev && |values| == |v.cols|
    case Remove(e) => e in v.ev && !(0 < v.first == RowOf(v, e))
    case Enable(e, _) => e in v.ev
  }

  ghost function Do<V>(v: View<V>, op: Op<V>): (w: View<V>)
    requires Proper(v) && Legal(v, op)
  {
    match op
    case Add(e, values) => Appended(v, e, values)
    case Remove(e) => Removed(v, RowOf(v, e))
    case Enable(e, on) => Toggled(v, RowOf(v, e), on)
  }

  /** The same operation on the plain map. */
  ghost function DoMap<V>(m: map<Entity, Slot<V>>, op: Op<V>): map<Entity, Slot<V>> {
    match op
    case Add(e, values) => m[e := Slot(false, values)]
    case Remove(e) => m - {e}
    case Enable(e, on) => if e in m then m[e := Slot(!on, m[e].values)] else m
  }

  lemma DoRefines<V>(v: View<V>, op: Op<V>)
    requires Proper(v) && Legal(v, op)
    ensures Proper(Do(v, op)) && Contents(Do(v, op)) == DoMap(Contents(v), op)
  {
    match op
    case Add(e, values) => AppendedContents(v, e, values);
    case Remove(e) => RemovedContents(v, RowOf(v, e));
    case Enable(e, on) =>
      ToggledContents(v, RowOf(v, e), on);
      ContentsAt(v, RowOf(v, e));
  }

  ghost predicate LegalRun<V>(v: View<V>, ops: seq<Op<V>>)
    requires Proper(v)
    decreases |ops|
  {
    ops == [] || (
      && Legal(v, ops[0])
      && (DoRefines(v, ops[0]); LegalRun(Do(v, ops[0]), ops[1..])))
  }

  ghost function Run<V>(v: View<V>, ops: seq<Op<V>>): (w: View<V>)
    requires Proper(v) && LegalRun(v, ops)
    decreases |ops|
  {
    if ops == [] then v
    else
      DoRefines(v, ops[0]);
      Run(Do(v, ops[0]), ops[1..])
  }

  ghost function RunMap<V>(m: map<Entity, Slot<V>>, ops: seq<Op<V>>): map<Entity, Slot<V>>
    decreases |ops|
  {
    if ops == [] then m else RunMap(DoMap(m, ops[0]), ops[1..])
  }

  /** Over every run the chunk is the finite map: disabled rows stay in front, entities keep their values. */
  lemma {:induction false} RunRefines<V>(v: View<V>, ops: seq<Op<V>>)
    requires Proper(v) && LegalRun(v, ops)
    ensures Proper(Run(v, ops)) && Contents(Run(v, ops)) == RunMap(Contents(v), ops)
    decreases |ops|
  {
    if ops != [] {
      DoRefines(v, ops[0]);
      RunRefines(Do(v, ops[0]), ops[1..]);
    }
  }
}
