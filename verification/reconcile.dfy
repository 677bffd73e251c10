/**
 * The diff at the heart of `ComponentEngine._loadCells`: the retire pass over the views
 * on screen and the populate pass over the new view data. Views are opaque ids and every
 * animator hook (and every call into a renderer or the view hierarchy) is an event
 * appended to a log.
 */
module Reconcile {
  import opened Options
  import opened Geometry
  import opened KeyDedup

  /** An on-screen view instance. */
  type ViewId = nat
  /** An Animator object. */
  type AnimatorId = nat

  /** `Renderable`: one visible leaf of a layout pass. */
  datatype ViewData = ViewData(id: string, frame: Rect, animator: Option<AnimatorId>)

  /** `viewData.animator ?? animator`: the per-item animator wins over the engine's. */
  function AnimatorFor(d: ViewData, engineAnimator: AnimatorId): AnimatorId
  {
    d.animator.GetOr(engineAnimator)
  }

  /** The declared keys of a pass, in order. */
  function Ids(data: seq<ViewData>): (ids: seq<string>)
    ensures |ids| == |data|
    ensures forall i :: 0 <= i < |data| ==> ids[i] == data[i].id
  {
    seq(|data|, i requires 0 <= i < |data| => data[i].id)
  }

  datatype Event =
    | WillUpdate(animator: AnimatorId)                                  // animator.willUpdate
    | Delete(animator: AnimatorId, view: ViewId)                        // animator.delete
    | Configure(view: ViewId)                                           // renderer._updateView
    | Insert(animator: AnimatorId, view: ViewId, frame: Rect)           // animator.insert
    | Shift(animator: AnimatorId, delta: Point, view: ViewId, frame: Rect) // animator.shift
    | Update(animator: AnimatorId, view: ViewId, frame: Rect)           // animator.update
    | Attach(view: ViewId, index: nat)                                  // insertSubview(_:at:)

  datatype Kind = DeleteKind | ConfigureKind | InsertKind | ShiftKind | UpdateKind | AttachKind

  /** Event `e` is a call of kind `k` concerning view `v`. */
  predicate Is(e: Event, k: Kind, v: ViewId)
  {
    match e
    case WillUpdate(_) => false
    case Delete(_, w) => k == DeleteKind && w == v
    case Configure(w) => k == ConfigureKind && w == v
    case Insert(_, w, _) => k == InsertKind && w == v
    case Shift(_, _, w, _) => k == ShiftKind && w == v
    case Update(_, w, _) => k == UpdateKind && w == v
    case Attach(w, _) => k == AttachKind && w == v
  }

  /** How many events of kind `k` concern view `v`. */
  function Count(evs: seq<Event>, k: Kind, v: ViewId): nat
  {
    if |evs| == 0 then 0
    else Count(evs[..|evs| - 1], k, v) + (if Is(evs[|evs| - 1], k, v) then 1 else 0)
  }

  lemma {:induction false} CountAppend(a: seq<Event>, b: seq<Event>, k: Kind, v: ViewId)
    ensures Count(a + b, k, v) == Count(a, k, v) + Count(b, k, v)
  {
    if |b| > 0 {
      var b' := b[..|b| - 1];
      assert (a + b)[..|a + b| - 1] == a + b';
      CountAppend(a, b', k, v);
    } else {
      assert a + b == a;
    }
  }

  // ---------------------------------------------------------------------
  // Events of one slot of the populate pass
  // ---------------------------------------------------------------------

  /** A view carried over into slot `j`: refreshed and shifted only inside a reload. */
  function CarriedEvents(reloading: bool, delta: Point, a: AnimatorId, c: ViewId, f: Rect, j: nat): seq<Event>
  {
    (if reloading then [Configure(c), Shift(a, delta, c, f)] else []) + [Update(a, c, f), Attach(c, j)]
  }

  /** A newly made view for slot `j`: configured, inserted, updated, attached. */
  function InsertedEvents(a: AnimatorId, c: ViewId, f: Rect, j: nat): seq<Event>
  {
    [Configure(c), Insert(a, c, f), Update(a, c, f), Attach(c, j)]
  }

  lemma Count1(e: Event, k: Kind, v: ViewId)
    ensures Count([e], k, v) == if Is(e, k, v) then 1 else 0
  {
    assert [e][..0] == [];
  }

  lemma Count2(e1: Event, e2: Event, k: Kind, v: ViewId)
    ensures Count([e1, e2], k, v) == Count([e1], k, v) + Count([e2], k, v)
  {
    assert [e1, e2] == [e1] + [e2];
    CountAppend([e1], [e2], k, v);
  }

  lemma CarriedCounts(reloading: bool, delta: Point, a: AnimatorId, c: ViewId, f: Rect, j: nat, k: Kind, v: ViewId)
    ensures Count(CarriedEvents(reloading, delta, a, c, f, j), k, v) ==
      if v != c then 0
      else if k == UpdateKind || k == AttachKind then 1
      else if (k == ConfigureKind || k == ShiftKind) && reloading then 1
      else 0
  {
    var pre: seq<Event> := if reloading then [Configure(c), Shift(a, delta, c, f)] else [];
    CountAppend(pre, [Update(a, c, f), Attach(c, j)], k, v);
    Count2(Update(a, c, f), Attach(c, j), k, v);
    Count1(Update(a, c, f), k, v);
    Count1(Attach(c, j), k, v);
    Count2(Configure(c), Shift(a, delta, c, f), k, v);
    Count1(Configure(c), k, v);
    Count1(Shift(a, delta, c, f), k, v);
  }

  lemma InsertedCounts(a: AnimatorId, c: ViewId, f: Rect, j: nat, k: Kind, v: ViewId)
    ensures Count(InsertedEvents(a, c, f, j), k, v) ==
      if v == c && k != DeleteKind && k != ShiftKind then 1 else 0
  {
    assert InsertedEvents(a, c, f, j) == [Configure(c), Insert(a, c, f)] + [Update(a, c, f), Attach(c, j)];
    CountAppend([Configure(c), Insert(a, c, f)], [Update(a, c, f), Attach(c, j)], k, v);
    Count2(Configure(c), Insert(a, c, f), k, v);
    Count2(Update(a, c, f), Attach(c, j), k, v);
    Count1(Configure(c), k, v);
    Count1(Insert(a, c, f), k, v);
    Count1(Update(a, c, f), k, v);
    Count1(Attach(c, j), k, v);
  }

  // ---------------------------------------------------------------------
  // Retire pass
  // ---------------------------------------------------------------------

  datatype Retired = Retired(slots: seq<Option<ViewId>>, events: seq<Event>)

  /**
   * The first pass over the first `k` views on screen: a view whose old key has a slot in
   * `index` moves there without any animator call, every other one is deleted.
   */
  function Retire(oldKeys: seq<string>, oldCells: seq<ViewId>, oldData: seq<ViewData>,
                  index: map<string, nat>, n: nat, engineAnimator: AnimatorId, k: nat): (r: Retired)
    requires |oldKeys| == |oldCells| == |oldData| && k <= |oldKeys|
    requires forall key :: key in index ==> index[key] < n
    ensures |r.slots| == n
    decreases k
  {
    if k == 0 then Retired(seq(n, _ => None), [])
    else
      var p := Retire(oldKeys, oldCells, oldData, index, n, engineAnimator, k - 1);
      var i := k - 1;
      if oldKeys[i] in index then
        Retired(p.slots[index[oldKeys[i]] := Some(oldCells[i])], p.events)
      else
        Retired(p.slots, p.events + [Delete(AnimatorFor(oldData[i], engineAnimator), oldCells[i])])
  }

  /** None of the first `k` views is `v`. */
  predicate NoneOf(cells: seq<ViewId>, k: nat, v: ViewId)
    requires k <= |cells|
  {
    forall i :: 0 <= i < k ==> cells[i] != v
  }

  predicate Injective(index: map<string, nat>)
  {
    forall a, b :: a in index && b in index && index[a] == index[b] ==> a == b
  }

  /** What slot `j` holds after the first `k` old views. */
  lemma {:induction false} RetireSlotAt(oldKeys: seq<string>, oldCells: seq<ViewId>, oldData: seq<ViewData>,
                                        index: map<string, nat>, n: nat, engineAnimator: AnimatorId, k: nat, j: nat)
    requires |oldKeys| == |oldCells| == |oldData| && k <= |oldKeys| && j < n
    requires forall key :: key in index ==> index[key] < n
    requires Distinct(oldKeys) && Injective(index)
    ensures var r := Retire(oldKeys, oldCells, oldData, index, n, engineAnimator, k);
      && (forall i :: 0 <= i < k && oldKeys[i] in index && index[oldKeys[i]] == j ==> r.slots[j] == Some(oldCells[i]))
      && (r.slots[j].Some? ==>
            exists i :: 0 <= i < k && oldKeys[i] in index && index[oldKeys[i]] == j && r.slots[j].value == oldCells[i])
  {
    if k > 0 {
      RetireSlotAt(oldKeys, oldCells, oldData, index, n, engineAnimator, k - 1, j);
      var p := Retire(oldKeys, oldCells, oldData, index, n, engineAnimator, k - 1);
      var r := Retire(oldKeys, oldCells, oldData, index, n, engineAnimator, k);
      var i := k - 1;
      if oldKeys[i] in index && index[oldKeys[i]] == j {
        assert r.slots[j] == Some(oldCells[i]);
        forall i' | 0 <= i' < i && oldKeys[i'] in index
          ensures index[oldKeys[i']] != j
        {
          assert oldKeys[i'] != oldKeys[i];
        }
      } else {
        assert r.slots[j] == p.slots[j];
      }
    }
  }

  /** Each old view whose key has a slot lands in exactly that slot, and nothing else fills a slot. */
  lemma RetireSlots(oldKeys: seq<string>, oldCells: seq<ViewId>, oldData: seq<ViewData>,
                    index: map<string, nat>, n: nat, engineAnimator: AnimatorId)
    requires |oldKeys| == |oldCells| == |oldData|
    requires forall key :: key in index ==> index[key] < n
    requires Distinct(oldKeys) && Injective(index)
    ensures var r := Retire(oldKeys, oldCells, oldData, index, n, engineAnimator, |oldKeys|);
      && (forall i :: 0 <= i < |oldKeys| && oldKeys[i] in index ==> r.slots[index[oldKeys[i]]] == Some(oldCells[i]))
      && (forall j :: 0 <= j < n && r.slots[j].Some? ==>
            exists i :: 0 <= i < |oldKeys| && oldKeys[i] in index && index[oldKeys[i]] == j && r.slots[j].value == oldCells[i])
  {
    forall j | 0 <= j < n {
      RetireSlotAt(oldKeys, oldCells, oldData, index, n, engineAnimator, |oldKeys|, j);
    }
  }

  /** One more old view: carried over silently, or deleted with exactly one more event. */
  lemma RetireStep(oldKeys: seq<string>, oldCells: seq<ViewId>, oldData: seq<ViewData>,
                   index: map<string, nat>, n: nat, engineAnimator: AnimatorId, k: nat, kind: Kind, v: ViewId)
    requires |oldKeys| == |oldCells| == |oldData| && 0 < k <= |oldKeys|
    requires forall key :: key in index ==> index[key] < n
    ensures var p := Retire(oldKeys, oldCells, oldData, index, n, engineAnimator, k - 1);
      var r := Retire(oldKeys, oldCells, oldData, index, n, engineAnimator, k);
      Count(r.events, kind, v) == Count(p.events, kind, v) +
        if oldKeys[k - 1] !in index && kind == DeleteKind && v == oldCells[k - 1] then 1 else 0
  {
    var p := Retire(oldKeys, oldCells, oldData, index, n, engineAnimator, k - 1);
    var e := Delete(AnimatorFor(oldData[k - 1], engineAnimator), oldCells[k - 1]);
    if oldKeys[k - 1] !in index {
      CountAppend(p.events, [e], kind, v);
      Count1(e, kind, v);
    }
  }

  /** A view that is none of the first `k` old views, or any event that is not a delete, is not logged by them. */
  lemma {:induction false} RetireCountAbsent(oldKeys: seq<string>, oldCells: seq<ViewId>, oldData: seq<ViewData>,
                                             index: map<string, nat>, n: nat, engineAnimator: AnimatorId, k: nat,
                                             kind: Kind, v: ViewId)
    requires |oldKeys| == |oldCells| == |oldData| && k <= |oldKeys|
    requires forall key :: key in index ==> index[key] < n
    requires kind != DeleteKind || NoneOf(oldCells, k, v)
    ensures Count(Retire(oldKeys, oldCells, oldData, index, n, engineAnimator, k).events, kind, v) == 0
  {
    if k > 0 {
      assert kind != DeleteKind || NoneOf(oldCells, k - 1, v);
      RetireCountAbsent(oldKeys, oldCells, oldData, index, n, engineAnimator, k - 1, kind, v);
      RetireStep(oldKeys, oldCells, oldData, index, n, engineAnimator, k, kind, v);
    }
  }

  /** Old view `i` is deleted once by the first `k` old views if its key has no slot, and otherwise never mentioned. */
  lemma {:induction false} RetireCountAt(oldKeys: seq<string>, oldCells: seq<ViewId>, oldData: seq<ViewData>,
                                         index: map<string, nat>, n: nat, engineAnimator: AnimatorId, k: nat,
                                         kind: Kind, i: nat)
    requires |oldKeys| == |oldCells| == |oldData| && i < k <= |oldKeys|
    requires forall key :: key in index ==> index[key] < n
    requires Distinct(oldCells)
    ensures Count(Retire(oldKeys, oldCells, oldData, index, n, engineAnimator, k).events, kind, oldCells[i])
            == if kind == DeleteKind && oldKeys[i] !in index then 1 else 0
  {
    var v := oldCells[i];
    RetireStep(oldKeys, oldCells, oldData, index, n, engineAnimator, k, kind, v);
    if i == k - 1 {
      assert NoneOf(oldCells, k - 1, v);
      RetireCountAbsent(oldKeys, oldCells, oldData, index, n, engineAnimator, k - 1, kind, v);
    } else {
      assert oldCells[k - 1] != v;
      RetireCountAt(oldKeys, oldCells, oldData, index, n, engineAnimator, k - 1, kind, i);
    }
  }

  /** The events of the first `k` old views, counted for one kind and one view. */
  lemma RetireCount(oldKeys: seq<string>, oldCells: seq<ViewId>, oldData: seq<ViewData>,
                    index: map<string, nat>, n: nat, engineAnimator: AnimatorId, k: nat,
                    kind: Kind, v: ViewId)
    requires |oldKeys| == |oldCells| == |oldData| && k <= |oldKeys|
    requires forall key :: key in index ==> index[key] < n
    requires Distinct(oldCells)
    ensures var c := Count(Retire(oldKeys, oldCells, oldData, index, n, engineAnimator, k).events, kind, v);
      && (kind != DeleteKind || NoneOf(oldCells, k, v) ==> c == 0)
      && (forall i :: 0 <= i < k && oldCells[i] == v && kind == DeleteKind ==> c == if oldKeys[i] in index then 0 else 1)
  {
    if kind != DeleteKind || NoneOf(oldCells, k, v) {
      RetireCountAbsent(oldKeys, oldCells, oldData, index, n, engineAnimator, k, kind, v);
    }
    forall i | 0 <= i < k && oldCells[i] == v && kind == DeleteKind
      ensures Count(Retire(oldKeys, oldCells, oldData, index, n, engineAnimator, k).events, kind, v)
              == if oldKeys[i] in index then 0 else 1
    {
      RetireCountAt(oldKeys, oldCells, oldData, index, n, engineAnimator, k, kind, i);
    }
  }

  /** Exactly the old views whose key has no slot get one `delete` each; nothing else is logged. */
  lemma RetireEvents(oldKeys: seq<string>, oldCells: seq<ViewId>, oldData: seq<ViewData>,
                     index: map<string, nat>, n: nat, engineAnimator: AnimatorId)
    requires |oldKeys| == |oldCells| == |oldData|
    requires forall key :: key in index ==> index[key] < n
    requires Distinct(oldCells)
    ensures var r := Retire(oldKeys, oldCells, oldData, index, n, engineAnimator, |oldKeys|);
      && (forall i :: 0 <= i < |oldKeys| ==> Count(r.events, DeleteKind, oldCells[i]) == if oldKeys[i] in index then 0 else 1)
      && (forall kind, v :: kind != DeleteKind ==> Count(r.events, kind, v) == 0)
      && (forall v :: v !in oldCells ==> Count(r.events, DeleteKind, v) == 0)
  {
    var k := |oldKeys|;
    forall kind, v {
      RetireCount(oldKeys, oldCells, oldData, index, n, engineAnimator, k, kind, v);
    }
  }

  /** Every deleted view gets its `delete` from its own animator, falling back to the engine's. */
  lemma {:induction false} RetireDeletes(oldKeys: seq<string>, oldCells: seq<ViewId>, oldData: seq<ViewData>,
                                         index: map<string, nat>, n: nat, engineAnimator: AnimatorId, k: nat)
    requires |oldKeys| == |oldCells| == |oldData| && k <= |oldKeys|
    requires forall key :: key in index ==> index[key] < n
    ensures var r := Retire(oldKeys, oldCells, oldData, index, n, engineAnimator, k);
      forall i :: 0 <= i < k && oldKeys[i] !in index ==>
        Delete(AnimatorFor(oldData[i], engineAnimator), oldCells[i]) in r.events
  {
    if k > 0 {
      RetireDeletes(oldKeys, oldCells, oldData, index, n, engineAnimator, k - 1);
      var p := Retire(oldKeys, oldCells, oldData, index, n, engineAnimator, k - 1);
      var r := Retire(oldKeys, oldCells, oldData, index, n, engineAnimator, k);
      assert forall e :: e in p.events ==> e in r.events;
    }
  }

  // ---------------------------------------------------------------------
  // Populate pass
  // ---------------------------------------------------------------------

  datatype Populated = Populated(cells: seq<ViewId>, events: seq<Event>, next: ViewId)

  /**
   * The second pass over the first `k` new view data. `next` is the first id not yet
   * used by any view; a slot left empty by the retire pass gets a newly made view.
   */
  function Populate(data: seq<ViewData>, slots: seq<Option<ViewId>>, reloading: bool, delta: Point,
                    engineAnimator: AnimatorId, next: ViewId, k: nat): (r: Populated)
    requires |slots| == |data| && k <= |data|
    ensures |r.cells| == k
    ensures next <= r.next
    ensures forall j :: 0 <= j < k && slots[j].Some? ==> r.cells[j] == slots[j].value
    ensures forall j :: 0 <= j < k && slots[j].None? ==> next <= r.cells[j] < r.next
    decreases k
  {
    if k == 0 then Populated([], [], next)
    else
      var p := Populate(data, slots, reloading, delta, engineAnimator, next, k - 1);
      var j := k - 1;
      var d := data[j];
      var a := AnimatorFor(d, engineAnimator);
      match slots[j]
      case Some(c) =>
        Populated(p.cells + [c], p.events + CarriedEvents(reloading, delta, a, c, d.frame, j), p.next)
      case None =>
        Populated(p.cells + [p.next], p.events + InsertedEvents(a, p.next, d.frame, j), p.next + 1)
  }

  /** The values in the filled slots are pairwise different and all below `next`. */
  predicate SlotsFit(slots: seq<Option<ViewId>>, next: ViewId)
  {
    && (forall j :: 0 <= j < |slots| && slots[j].Some? ==> slots[j].value < next)
    && (forall j, j' :: 0 <= j < j' < |slots| && slots[j].Some? && slots[j'].Some? ==> slots[j].value != slots[j'].value)
  }

  /** Appending a view that is not in a list of distinct views keeps them distinct. */
  lemma DistinctSnoc(s: seq<ViewId>, x: ViewId)
    requires Distinct(s)
    requires NoneOf(s, |s|, x)
    ensures Distinct(s + [x])
  {
    forall i, j | 0 <= i < j < |s| + 1 ensures (s + [x])[i] != (s + [x])[j] {
      if j == |s| {
        assert (s + [x])[j] == x && (s + [x])[i] == s[i];
      } else {
        assert (s + [x])[j] == s[j] && (s + [x])[i] == s[i];
      }
    }
  }

  /** The views of the new slots are pairwise different and all below the returned `next`. */
  lemma PopulateCells(data: seq<ViewData>, slots: seq<Option<ViewId>>, reloading: bool, delta: Point,
                      engineAnimator: AnimatorId, next: ViewId, k: nat)
    requires |slots| == |data| && k <= |data|
    requires SlotsFit(slots, next)
    ensures var r := Populate(data, slots, reloading, delta, engineAnimator, next, k);
      && Distinct(r.cells)
      && (forall j :: 0 <= j < k ==> r.cells[j] < r.next)
  {
    PopulateDistinct(data, slots, reloading, delta, engineAnimator, next, k);
    PopulateBelowNext(data, slots, reloading, delta, engineAnimator, next, k);
  }

  /** No view is given to two of the first `k` slots. */
  lemma {:induction false} PopulateDistinct(data: seq<ViewData>, slots: seq<Option<ViewId>>, reloading: bool, delta: Point,
                                            engineAnimator: AnimatorId, next: ViewId, k: nat)
    requires |slots| == |data| && k <= |data|
    requires SlotsFit(slots, next)
    ensures Distinct(Populate(data, slots, reloading, delta, engineAnimator, next, k).cells)
  {
    if k > 0 {
      var p := Populate(data, slots, reloading, delta, engineAnimator, next, k - 1);
      var x := Populate(data, slots, reloading, delta, engineAnimator, next, k).cells[k - 1];
      PopulateDistinct(data, slots, reloading, delta, engineAnimator, next, k - 1);
      PopulateLastNew(data, slots, reloading, delta, engineAnimator, next, k);
      DistinctSnoc(p.cells, x);
    }
  }

  /** Every view of the first `k` slots is below the returned `next`. */
  lemma PopulateBelowNext(data: seq<ViewData>, slots: seq<Option<ViewId>>, reloading: bool, delta: Point,
                          engineAnimator: AnimatorId, next: ViewId, k: nat)
    requires |slots| == |data| && k <= |data|
    requires forall j :: 0 <= j < |slots| && slots[j].Some? ==> slots[j].value < next
    ensures var r := Populate(data, slots, reloading, delta, engineAnimator, next, k);
      forall j :: 0 <= j < k ==> r.cells[j] < r.next
  {
    var r := Populate(data, slots, reloading, delta, engineAnimator, next, k);
    forall j | 0 <= j < k ensures r.cells[j] < r.next {
      if slots[j].Some? {
        assert slots[j].value < next;
      }
    }
  }

  /** The view of slot `k - 1` differs from the view of every earlier slot. */
  lemma PopulateLastFresh(data: seq<ViewData>, slots: seq<Option<ViewId>>, reloading: bool, delta: Point,
                          engineAnimator: AnimatorId, next: ViewId, k: nat, j: nat)
    requires |slots| == |data| && 0 < k <= |data| && j < k - 1
    requires SlotsFit(slots, next)
    ensures var p := Populate(data, slots, reloading, delta, engineAnimator, next, k - 1);
      var r := Populate(data, slots, reloading, delta, engineAnimator, next, k);
      p.cells[j] != r.cells[k - 1]
  {
    var p := Populate(data, slots, reloading, delta, engineAnimator, next, k - 1);
    var r := Populate(data, slots, reloading, delta, engineAnimator, next, k);
    assert p.cells[j] < p.next;
    if slots[k - 1].Some? && slots[j].Some? {
      assert slots[j].value != slots[k - 1].value;
    }
  }

  /** One more slot appends one view, and that view is in none of the earlier slots. */
  lemma PopulateLastNew(data: seq<ViewData>, slots: seq<Option<ViewId>>, reloading: bool, delta: Point,
                        engineAnimator: AnimatorId, next: ViewId, k: nat)
    requires |slots| == |data| && 0 < k <= |data|
    requires SlotsFit(slots, next)
    ensures var p := Populate(data, slots, reloading, delta, engineAnimator, next, k - 1);
      var r := Populate(data, slots, reloading, delta, engineAnimator, next, k);
      && r.cells == p.cells + [r.cells[k - 1]]
      && NoneOf(p.cells, k - 1, r.cells[k - 1])
  {
    var p := Populate(data, slots, reloading, delta, engineAnimator, next, k - 1);
    var r := Populate(data, slots, reloading, delta, engineAnimator, next, k);
    assert r.cells == p.cells + [r.cells[k - 1]];
    forall i | 0 <= i < k - 1 ensures p.cells[i] != r.cells[k - 1] {
      PopulateLastFresh(data, slots, reloading, delta, engineAnimator, next, k, i);
    }
  }

  /** How many events of kind `kind` the populate pass logs for the view of a slot. */
  function SlotCount(slot: Option<ViewId>, reloading: bool, kind: Kind): nat
  {
    if slot.None? then (if kind != DeleteKind && kind != ShiftKind then 1 else 0)
    else if kind == UpdateKind || kind == AttachKind then 1
    else if (kind == ConfigureKind || kind == ShiftKind) && reloading then 1
    else 0
  }

  /** The events of one more slot, counted per kind and view. */
  lemma PopulateStep(data: seq<ViewData>, slots: seq<Option<ViewId>>, reloading: bool, delta: Point,
                     engineAnimator: AnimatorId, next: ViewId, k: nat, kind: Kind, v: ViewId)
    requires |slots| == |data| && 0 < k <= |data|
    ensures var p := Populate(data, slots, reloading, delta, engineAnimator, next, k - 1);
      var r := Populate(data, slots, reloading, delta, engineAnimator, next, k);
      Count(r.events, kind, v) == Count(p.events, kind, v) +
        if v != r.cells[k - 1] then 0 else SlotCount(slots[k - 1], reloading, kind)
  {
    var p := Populate(data, slots, reloading, delta, engineAnimator, next, k - 1);
    var r := Populate(data, slots, reloading, delta, engineAnimator, next, k);
    var j := k - 1;
    var d := data[j];
    var a := AnimatorFor(d, engineAnimator);
    var c := r.cells[j];
    if slots[j].Some? {
      assert c == slots[j].value;
      assert r.events == p.events + CarriedEvents(reloading, delta, a, c, d.frame, j);
      CountAppend(p.events, CarriedEvents(reloading, delta, a, c, d.frame, j), kind, v);
      CarriedCounts(reloading, delta, a, c, d.frame, j, kind, v);
    } else {
      assert c == p.next;
      assert r.events == p.events + InsertedEvents(a, c, d.frame, j);
      CountAppend(p.events, InsertedEvents(a, c, d.frame, j), kind, v);
      InsertedCounts(a, c, d.frame, j, kind, v);
    }
  }

  /** A view in none of the first `k` new slots gets no events from them. */
  lemma {:induction false} PopulateCountAbsent(data: seq<ViewData>, slots: seq<Option<ViewId>>, reloading: bool, delta: Point,
                                               engineAnimator: AnimatorId, next: ViewId, k: nat, kind: Kind, v: ViewId)
    requires |slots| == |data| && k <= |data|
    requires NoneOf(Populate(data, slots, reloading, delta, engineAnimator, next, k).cells, k, v)
    ensures Count(Populate(data, slots, reloading, delta, engineAnimator, next, k).events, kind, v) == 0
  {
    if k > 0 {
      var p := Populate(data, slots, reloading, delta, engineAnimator, next, k - 1);
      var r := Populate(data, slots, reloading, delta, engineAnimator, next, k);
      assert r.cells == p.cells + [r.cells[k - 1]];
      assert NoneOf(p.cells, k - 1, v);
      PopulateCountAbsent(data, slots, reloading, delta, engineAnimator, next, k - 1, kind, v);
      PopulateStep(data, slots, reloading, delta, engineAnimator, next, k, kind, v);
    }
  }

  /** The view of the last of the first `k` slots gets exactly the events `SlotCount` lists for it. */
  lemma PopulateCountLast(data: seq<ViewData>, slots: seq<Option<ViewId>>, reloading: bool, delta: Point,
                          engineAnimator: AnimatorId, next: ViewId, k: nat, kind: Kind)
    requires |slots| == |data| && 0 < k <= |data|
    requires NoneOf(Populate(data, slots, reloading, delta, engineAnimator, next, k - 1).cells, k - 1,
                    Populate(data, slots, reloading, delta, engineAnimator, next, k).cells[k - 1])
    ensures var r := Populate(data, slots, reloading, delta, engineAnimator, next, k);
      Count(r.events, kind, r.cells[k - 1]) == SlotCount(slots[k - 1], reloading, kind)
  {
    var r := Populate(data, slots, reloading, delta, engineAnimator, next, k);
    var v := r.cells[k - 1];
    PopulateCountAbsent(data, slots, reloading, delta, engineAnimator, next, k - 1, kind, v);
    PopulateStep(data, slots, reloading, delta, engineAnimator, next, k, kind, v);
  }

  /** The view of new slot `j` gets exactly the events `SlotCount` lists for that slot. */
  lemma {:induction false} PopulateCountAt(data: seq<ViewData>, slots: seq<Option<ViewId>>, reloading: bool, delta: Point,
                                           engineAnimator: AnimatorId, next: ViewId, k: nat, kind: Kind, j: nat)
    requires |slots| == |data| && j < k <= |data|
    requires SlotsFit(slots, next)
    ensures var r := Populate(data, slots, reloading, delta, engineAnimator, next, k);
      Count(r.events, kind, r.cells[j]) == SlotCount(slots[j], reloading, kind)
  {
    if j == k - 1 {
      PopulateLastNew(data, slots, reloading, delta, engineAnimator, next, k);
      PopulateCountLast(data, slots, reloading, delta, engineAnimator, next, k, kind);
    } else {
      PopulateCountAt(data, slots, reloading, delta, engineAnimator, next, k - 1, kind, j);
      PopulateCountEarlier(data, slots, reloading, delta, engineAnimator, next, k, kind, j);
    }
  }

  /** A later slot adds no events for the view of an earlier one. */
  lemma PopulateCountEarlier(data: seq<ViewData>, slots: seq<Option<ViewId>>, reloading: bool, delta: Point,
                             engineAnimator: AnimatorId, next: ViewId, k: nat, kind: Kind, j: nat)
    requires |slots| == |data| && j < k - 1 && k <= |data|
    requires SlotsFit(slots, next)
    ensures var p := Populate(data, slots, reloading, delta, engineAnimator, next, k - 1);
      var r := Populate(data, slots, reloading, delta, engineAnimator, next, k);
      r.cells[j] == p.cells[j] && Count(r.events, kind, r.cells[j]) == Count(p.events, kind, p.cells[j])
  {
    var p := Populate(data, slots, reloading, delta, engineAnimator, next, k - 1);
    var r := Populate(data, slots, reloading, delta, engineAnimator, next, k);
    assert r.cells == p.cells + [r.cells[k - 1]];
    PopulateLastFresh(data, slots, reloading, delta, engineAnimator, next, k, j);
    PopulateStep(data, slots, reloading, delta, engineAnimator, next, k, kind, r.cells[j]);
  }

  /** The events of the first `k` slots, counted for one kind and one view. */
  lemma PopulateCount(data: seq<ViewData>, slots: seq<Option<ViewId>>, reloading: bool, delta: Point,
                      engineAnimator: AnimatorId, next: ViewId, k: nat, kind: Kind, v: ViewId)
    requires |slots| == |data| && k <= |data|
    requires SlotsFit(slots, next)
    ensures var r := Populate(data, slots, reloading, delta, engineAnimator, next, k);
      var c := Count(r.events, kind, v);
      && (NoneOf(r.cells, k, v) ==> c == 0)
      && (forall j :: 0 <= j < k && r.cells[j] == v ==> c == SlotCount(slots[j], reloading, kind))
  {
    var r := Populate(data, slots, reloading, delta, engineAnimator, next, k);
    if NoneOf(r.cells, k, v) {
      PopulateCountAbsent(data, slots, reloading, delta, engineAnimator, next, k, kind, v);
    }
    forall j | 0 <= j < k && r.cells[j] == v ensures Count(r.events, kind, v) == SlotCount(slots[j], reloading, kind) {
      PopulateCountAt(data, slots, reloading, delta, engineAnimator, next, k, kind, j);
    }
  }

  /** The view of every new slot gets the events `SlotCount` lists; views of no slot get none. */
  lemma PopulateCounts(data: seq<ViewData>, slots: seq<Option<ViewId>>, reloading: bool, delta: Point,
                       engineAnimator: AnimatorId, next: ViewId)
    requires |slots| == |data|
    requires SlotsFit(slots, next)
    ensures var r := Populate(data, slots, reloading, delta, engineAnimator, next, |data|);
      && (forall kind, v :: v !in r.cells ==> Count(r.events, kind, v) == 0)
      && (forall j, kind :: 0 <= j < |data| ==> Count(r.events, kind, r.cells[j]) == SlotCount(slots[j], reloading, kind))
  {
    var r := Populate(data, slots, reloading, delta, engineAnimator, next, |data|);
    forall kind, v | v !in r.cells
      ensures Count(r.events, kind, v) == 0
    {
      PopulateCount(data, slots, reloading, delta, engineAnimator, next, |data|, kind, v);
    }
    forall j, kind | 0 <= j < |data|
      ensures Count(r.events, kind, r.cells[j]) == SlotCount(slots[j], reloading, kind)
    {
      PopulateCount(data, slots, reloading, delta, engineAnimator, next, |data|, kind, r.cells[j]);
    }
  }

  /** One more slot keeps the earlier cells and events and appends to them. */
  lemma PopulateGrows(data: seq<ViewData>, slots: seq<Option<ViewId>>, reloading: bool, delta: Point,
                      engineAnimator: AnimatorId, next: ViewId, k: nat)
    requires |slots| == |data| && 0 < k <= |data|
    ensures var p := Populate(data, slots, reloading, delta, engineAnimator, next, k - 1);
      var r := Populate(data, slots, reloading, delta, engineAnimator, next, k);
      && r.cells == p.cells + [r.cells[k - 1]]
      && (forall e :: e in p.events ==> e in r.events)
  {
  }

  /** The hooks of the last of the first `k` slots carry that slot's animator, view and frame. */
  lemma PopulateHookLast(data: seq<ViewData>, slots: seq<Option<ViewId>>, reloading: bool, delta: Point,
                         engineAnimator: AnimatorId, next: ViewId, k: nat)
    requires |slots| == |data| && 0 < k <= |data|
    ensures var r := Populate(data, slots, reloading, delta, engineAnimator, next, k);
      var i := k - 1;
      var a := AnimatorFor(data[i], engineAnimator);
      && Update(a, r.cells[i], data[i].frame) in r.events
      && Attach(r.cells[i], i) in r.events
      && (slots[i].None? ==> Insert(a, r.cells[i], data[i].frame) in r.events)
      && (slots[i].Some? && reloading ==> Shift(a, delta, r.cells[i], data[i].frame) in r.events)
  {
    var p := Populate(data, slots, reloading, delta, engineAnimator, next, k - 1);
    var r := Populate(data, slots, reloading, delta, engineAnimator, next, k);
    var i := k - 1;
    var a := AnimatorFor(data[i], engineAnimator);
    var c := r.cells[i];
    var slotEvents := if slots[i].Some? then CarriedEvents(reloading, delta, a, c, data[i].frame, i)
                      else InsertedEvents(a, c, data[i].frame, i);
    assert r.events == p.events + slotEvents;
    assert Update(a, c, data[i].frame) in slotEvents && Attach(c, i) in slotEvents;
    assert slots[i].None? ==> Insert(a, c, data[i].frame) in slotEvents;
    assert slots[i].Some? && reloading ==> Shift(a, delta, c, data[i].frame) in slotEvents;
  }

  /** The hooks of new slot `j` carry that slot's animator, view and frame. */
  lemma {:induction false} PopulateHookAt(data: seq<ViewData>, slots: seq<Option<ViewId>>, reloading: bool, delta: Point,
                                          engineAnimator: AnimatorId, next: ViewId, k: nat, j: nat)
    requires |slots| == |data| && j < k <= |data|
    ensures var r := Populate(data, slots, reloading, delta, engineAnimator, next, k);
      var a := AnimatorFor(data[j], engineAnimator);
      && Update(a, r.cells[j], data[j].frame) in r.events
      && Attach(r.cells[j], j) in r.events
      && (slots[j].None? ==> Insert(a, r.cells[j], data[j].frame) in r.events)
      && (slots[j].Some? && reloading ==> Shift(a, delta, r.cells[j], data[j].frame) in r.events)
  {
    if j == k - 1 {
      PopulateHookLast(data, slots, reloading, delta, engineAnimator, next, k);
    } else {
      var p := Populate(data, slots, reloading, delta, engineAnimator, next, k - 1);
      var r := Populate(data, slots, reloading, delta, engineAnimator, next, k);
      PopulateHookAt(data, slots, reloading, delta, engineAnimator, next, k - 1, j);
      PopulateGrows(data, slots, reloading, delta, engineAnimator, next, k);
      assert r.cells[j] == p.cells[j];
    }
  }

  /** The hooks of every new slot carry that slot's animator, view and frame. */
  lemma PopulateHooks(data: seq<ViewData>, slots: seq<Option<ViewId>>, reloading: bool, delta: Point,
                      engineAnimator: AnimatorId, next: ViewId)
    requires |slots| == |data|
    ensures var r := Populate(data, slots, reloading, delta, engineAnimator, next, |data|);
      && (forall j :: 0 <= j < |data| ==> Update(AnimatorFor(data[j], engineAnimator), r.cells[j], data[j].frame) in r.events)
      && (forall j :: 0 <= j < |data| ==> Attach(r.cells[j], j) in r.events)
      && (forall j :: 0 <= j < |data| && slots[j].None? ==>
            Insert(AnimatorFor(data[j], engineAnimator), r.cells[j], data[j].frame) in r.events)
      && (forall j :: 0 <= j < |data| && slots[j].Some? && reloading ==>
            Shift(AnimatorFor(data[j], engineAnimator), delta, r.cells[j], data[j].frame) in r.events)
  {
    forall j | 0 <= j < |data| {
      PopulateHookAt(data, slots, reloading, delta, engineAnimator, next, |data|, j);
    }
  }

  // ---------------------------------------------------------------------
  // Both passes
  // ---------------------------------------------------------------------

  datatype Reconciled = Reconciled(keys: seq<string>, cells: seq<ViewId>, events: seq<Event>, next: ViewId)

  /**
   * Both passes of one diff of the views on screen (`oldKeys`, `oldData`, `oldCells`)
   * against new view data whose effective keys are `keys`.
   */
  function Diff(oldKeys: seq<string>, oldData: seq<ViewData>, oldCells: seq<ViewId>, data: seq<ViewData>,
                keys: seq<string>, reloading: bool, delta: Point, engineAnimator: AnimatorId, next: ViewId): (r: Reconciled)
    requires |oldKeys| == |oldCells| == |oldData|
    requires |keys| == |data| && Distinct(keys)
    ensures r.keys == keys && |r.cells| == |data|
    ensures next <= r.next
  {
    var index := KeyIndex(keys);
    var retired := Retire(oldKeys, oldCells, oldData, index, |data|, engineAnimator, |oldKeys|);
    var populated := Populate(data, retired.slots, reloading, delta, engineAnimator, next, |data|);
    Reconciled(keys, populated.cells, retired.events + populated.events, populated.next)
  }

  /** The effective keys, the views and the logged events of one `_loadCells` diff. */
  function Reconcile(oldKeys: seq<string>, oldData: seq<ViewData>, oldCells: seq<ViewId>, data: seq<ViewData>,
                     reloading: bool, delta: Point, engineAnimator: AnimatorId, next: ViewId): (r: Reconciled)
    requires |oldKeys| == |oldCells| == |oldData|
    ensures |r.keys| == |r.cells| == |data|
    ensures r.keys == DedupKeys(Ids(data))
    ensures next <= r.next
  {
    Diff(oldKeys, oldData, oldCells, data, DedupKeys(Ids(data)), reloading, delta, engineAnimator, next)
  }

  /** What a well-formed engine keeps about the views on screen. */
  predicate OnScreen(keys: seq<string>, data: seq<ViewData>, cells: seq<ViewId>, next: ViewId)
  {
    && |keys| == |data| == |cells|
    && Distinct(keys)
    && Distinct(cells)
    && (forall i :: 0 <= i < |cells| ==> cells[i] < next)
  }

  /** The index of distinct keys sends different keys to different positions. */
  lemma KeyIndexInjective(keys: seq<string>)
    requires Distinct(keys)
    ensures Injective(KeyIndex(keys))
  {
    var index := KeyIndex(keys);
    forall a, b | a in index && b in index && index[a] == index[b] ensures a == b {
      assert keys[index[a]] == a && keys[index[b]] == b;
    }
  }

  /** Slot `j` after the retire pass: the old view of its key if that key was on screen, else empty. */
  lemma RetiredSlot(oldKeys: seq<string>, oldData: seq<ViewData>, oldCells: seq<ViewId>, data: seq<ViewData>,
                    keys: seq<string>, engineAnimator: AnimatorId, next: ViewId, j: nat)
    requires OnScreen(oldKeys, oldData, oldCells, next)
    requires |keys| == |data| && Distinct(keys) && j < |data|
    ensures var index := KeyIndex(keys);
      var retired := Retire(oldKeys, oldCells, oldData, index, |data|, engineAnimator, |oldKeys|);
      && (retired.slots[j].Some? <==> keys[j] in oldKeys)
      && (forall i :: 0 <= i < |oldKeys| && oldKeys[i] == keys[j] ==> retired.slots[j] == Some(oldCells[i]))
  {
    var index := KeyIndex(keys);
    var retired := Retire(oldKeys, oldCells, oldData, index, |data|, engineAnimator, |oldKeys|);
    KeyIndexInjective(keys);
    RetireSlotAt(oldKeys, oldCells, oldData, index, |data|, engineAnimator, |oldKeys|, j);
    if retired.slots[j].Some? {
      var i :| 0 <= i < |oldKeys| && oldKeys[i] in index && index[oldKeys[i]] == j && retired.slots[j].value == oldCells[i];
      assert oldKeys[i] == keys[j];
    }
    forall i | 0 <= i < |oldKeys| && oldKeys[i] == keys[j] ensures retired.slots[j] == Some(oldCells[i]) {
      assert index[oldKeys[i]] == j;
    }
  }

  /** The slots left by the retire pass fit the populate pass. */
  lemma RetiredSlotsFit(oldKeys: seq<string>, oldData: seq<ViewData>, oldCells: seq<ViewId>, data: seq<ViewData>,
                        keys: seq<string>, engineAnimator: AnimatorId, next: ViewId)
    requires OnScreen(oldKeys, oldData, oldCells, next)
    requires |keys| == |data| && Distinct(keys)
    ensures var index := KeyIndex(keys);
      var retired := Retire(oldKeys, oldCells, oldData, index, |data|, engineAnimator, |oldKeys|);
      && SlotsFit(retired.slots, next)
      && (forall j :: 0 <= j < |data| ==> (retired.slots[j].Some? <==> keys[j] in oldKeys))
      && (forall i, j :: 0 <= i < |oldKeys| && 0 <= j < |data| && oldKeys[i] == keys[j] ==> retired.slots[j] == Some(oldCells[i]))
  {
    var index := KeyIndex(keys);
    var retired := Retire(oldKeys, oldCells, oldData, index, |data|, engineAnimator, |oldKeys|);
    var slots := retired.slots;
    forall j | 0 <= j < |data|
      ensures (slots[j].Some? <==> keys[j] in oldKeys)
      ensures forall i :: 0 <= i < |oldKeys| && oldKeys[i] == keys[j] ==> slots[j] == Some(oldCells[i])
    {
      RetiredSlot(oldKeys, oldData, oldCells, data, keys, engineAnimator, next, j);
    }
    forall j | 0 <= j < |data| && slots[j].Some? ensures slots[j].value < next {
      var i :| 0 <= i < |oldKeys| && oldKeys[i] == keys[j];
    }
    forall j, j' | 0 <= j < j' < |data| && slots[j].Some? && slots[j'].Some?
      ensures slots[j].value != slots[j'].value
    {
      var i :| 0 <= i < |oldKeys| && oldKeys[i] == keys[j];
      var i' :| 0 <= i' < |oldKeys| && oldKeys[i'] == keys[j'];
      assert i != i';
    }
  }

  /**
   * A view whose effective key was already on screen is the same instance as before; every
   * other view of the new pass is newly made.
   */
  lemma DiffCarriesOver(oldKeys: seq<string>, oldData: seq<ViewData>, oldCells: seq<ViewId>, data: seq<ViewData>,
                        keys: seq<string>, reloading: bool, delta: Point, engineAnimator: AnimatorId, next: ViewId)
    requires OnScreen(oldKeys, oldData, oldCells, next)
    requires |keys| == |data| && Distinct(keys)
    ensures var r := Diff(oldKeys, oldData, oldCells, data, keys, reloading, delta, engineAnimator, next);
      && OnScreen(r.keys, data, r.cells, r.next)
      && (forall i, j :: 0 <= i < |oldKeys| && 0 <= j < |data| && oldKeys[i] == r.keys[j] ==> r.cells[j] == oldCells[i])
      && (forall j :: 0 <= j < |data| && r.keys[j] !in oldKeys ==> next <= r.cells[j] && r.cells[j] !in oldCells)
  {
    var index := KeyIndex(keys);
    var retired := Retire(oldKeys, oldCells, oldData, index, |data|, engineAnimator, |oldKeys|);
    RetiredSlotsFit(oldKeys, oldData, oldCells, data, keys, engineAnimator, next);
    PopulateCells(data, retired.slots, reloading, delta, engineAnimator, next, |data|);
  }

  /** The events of one whole diff, counted for one kind and one view, as the two passes add them. */
  lemma DiffCountSplit(oldKeys: seq<string>, oldData: seq<ViewData>, oldCells: seq<ViewId>, data: seq<ViewData>,
                       keys: seq<string>, reloading: bool, delta: Point, engineAnimator: AnimatorId, next: ViewId,
                       kind: Kind, v: ViewId)
    requires OnScreen(oldKeys, oldData, oldCells, next)
    requires |keys| == |data| && Distinct(keys)
    ensures var r := Diff(oldKeys, oldData, oldCells, data, keys, reloading, delta, engineAnimator, next);
      var index := KeyIndex(keys);
      var retired := Retire(oldKeys, oldCells, oldData, index, |data|, engineAnimator, |oldKeys|);
      var populated := Populate(data, retired.slots, reloading, delta, engineAnimator, next, |data|);
      && r.cells == populated.cells
      && Count(r.events, kind, v) == Count(retired.events, kind, v) + Count(populated.events, kind, v)
  {
    var index := KeyIndex(keys);
    var retired := Retire(oldKeys, oldCells, oldData, index, |data|, engineAnimator, |oldKeys|);
    var populated := Populate(data, retired.slots, reloading, delta, engineAnimator, next, |data|);
    CountAppend(retired.events, populated.events, kind, v);
  }

  /** A view neither on screen before nor after the diff is never mentioned. */
  lemma DiffCountUntouched(oldKeys: seq<string>, oldData: seq<ViewData>, oldCells: seq<ViewId>, data: seq<ViewData>,
                           keys: seq<string>, reloading: bool, delta: Point, engineAnimator: AnimatorId, next: ViewId,
                           kind: Kind, v: ViewId)
    requires OnScreen(oldKeys, oldData, oldCells, next)
    requires |keys| == |data| && Distinct(keys)
    requires v !in oldCells
    requires v !in Diff(oldKeys, oldData, oldCells, data, keys, reloading, delta, engineAnimator, next).cells
    ensures Count(Diff(oldKeys, oldData, oldCells, data, keys, reloading, delta, engineAnimator, next).events, kind, v) == 0
  {
    var r := Diff(oldKeys, oldData, oldCells, data, keys, reloading, delta, engineAnimator, next);
    var index := KeyIndex(keys);
    var retired := Retire(oldKeys, oldCells, oldData, index, |data|, engineAnimator, |oldKeys|);
    DiffCountSplit(oldKeys, oldData, oldCells, data, keys, reloading, delta, engineAnimator, next, kind, v);
    assert NoneOf(oldCells, |oldKeys|, v);
    assert NoneOf(r.cells, |data|, v);
    RetireCountAbsent(oldKeys, oldCells, oldData, index, |data|, engineAnimator, |oldKeys|, kind, v);
    PopulateCountAbsent(data, retired.slots, reloading, delta, engineAnimator, next, |data|, kind, v);
  }

  /** An old view whose key is gone is not on screen after the diff. */
  lemma DiffRemoved(oldKeys: seq<string>, oldData: seq<ViewData>, oldCells: seq<ViewId>, data: seq<ViewData>,
                    keys: seq<string>, reloading: bool, delta: Point, engineAnimator: AnimatorId, next: ViewId, i: nat)
    requires OnScreen(oldKeys, oldData, oldCells, next)
    requires |keys| == |data| && Distinct(keys)
    requires i < |oldKeys| && oldKeys[i] !in keys
    ensures oldCells[i] !in Diff(oldKeys, oldData, oldCells, data, keys, reloading, delta, engineAnimator, next).cells
  {
    var r := Diff(oldKeys, oldData, oldCells, data, keys, reloading, delta, engineAnimator, next);
    DiffCarriesOver(oldKeys, oldData, oldCells, data, keys, reloading, delta, engineAnimator, next);
    forall j | 0 <= j < |data| ensures r.cells[j] != oldCells[i] {
      if keys[j] in oldKeys {
        var i' :| 0 <= i' < |oldKeys| && oldKeys[i'] == keys[j];
        assert r.cells[j] == oldCells[i'];
        assert i' != i;
      }
    }
  }

  /** An old view whose key is gone is deleted exactly once and told nothing else. */
  lemma DiffCountRemoved(oldKeys: seq<string>, oldData: seq<ViewData>, oldCells: seq<ViewId>, data: seq<ViewData>,
                         keys: seq<string>, reloading: bool, delta: Point, engineAnimator: AnimatorId, next: ViewId,
                         kind: Kind, i: nat)
    requires OnScreen(oldKeys, oldData, oldCells, next)
    requires |keys| == |data| && Distinct(keys)
    requires i < |oldKeys| && oldKeys[i] !in keys
    ensures Count(Diff(oldKeys, oldData, oldCells, data, keys, reloading, delta, engineAnimator, next).events, kind, oldCells[i])
            == if kind == DeleteKind then 1 else 0
  {
    var v := oldCells[i];
    var r := Diff(oldKeys, oldData, oldCells, data, keys, reloading, delta, engineAnimator, next);
    var index := KeyIndex(keys);
    var retired := Retire(oldKeys, oldCells, oldData, index, |data|, engineAnimator, |oldKeys|);
    DiffCountSplit(oldKeys, oldData, oldCells, data, keys, reloading, delta, engineAnimator, next, kind, v);
    DiffRemoved(oldKeys, oldData, oldCells, data, keys, reloading, delta, engineAnimator, next, i);
    assert NoneOf(r.cells, |data|, v);
    assert oldKeys[i] !in index;
    RetireCountAt(oldKeys, oldCells, oldData, index, |data|, engineAnimator, |oldKeys|, kind, i);
    PopulateCountAbsent(data, retired.slots, reloading, delta, engineAnimator, next, |data|, kind, v);
  }

  /** A view of the new pass is told what its slot dictates: carried-over or inserted hooks. */
  lemma DiffCountPlaced(oldKeys: seq<string>, oldData: seq<ViewData>, oldCells: seq<ViewId>, data: seq<ViewData>,
                        keys: seq<string>, reloading: bool, delta: Point, engineAnimator: AnimatorId, next: ViewId,
                        kind: Kind, j: nat)
    requires OnScreen(oldKeys, oldData, oldCells, next)
    requires |keys| == |data| && Distinct(keys)
    requires j < |data|
    ensures var r := Diff(oldKeys, oldData, oldCells, data, keys, reloading, delta, engineAnimator, next);
      Count(r.events, kind, r.cells[j]) == SlotCount(if keys[j] in oldKeys then Some(r.cells[j]) else None, reloading, kind)
  {
    var r := Diff(oldKeys, oldData, oldCells, data, keys, reloading, delta, engineAnimator, next);
    var v := r.cells[j];
    var index := KeyIndex(keys);
    var retired := Retire(oldKeys, oldCells, oldData, index, |data|, engineAnimator, |oldKeys|);
    RetiredSlotsFit(oldKeys, oldData, oldCells, data, keys, engineAnimator, next);
    DiffCountSplit(oldKeys, oldData, oldCells, data, keys, reloading, delta, engineAnimator, next, kind, v);
    PopulateCountAt(data, retired.slots, reloading, delta, engineAnimator, next, |data|, kind, j);
    RetireSparesPlaced(oldKeys, oldData, oldCells, data, keys, reloading, delta, engineAnimator, next, kind, j);
  }

  /** The retire pass logs nothing for the view the populate pass puts in slot `j`. */
  lemma RetireSparesPlaced(oldKeys: seq<string>, oldData: seq<ViewData>, oldCells: seq<ViewId>, data: seq<ViewData>,
                           keys: seq<string>, reloading: bool, delta: Point, engineAnimator: AnimatorId, next: ViewId,
                           kind: Kind, j: nat)
    requires OnScreen(oldKeys, oldData, oldCells, next)
    requires |keys| == |data| && Distinct(keys)
    requires j < |data|
    ensures var index := KeyIndex(keys);
      var retired := Retire(oldKeys, oldCells, oldData, index, |data|, engineAnimator, |oldKeys|);
      var v := Populate(data, retired.slots, reloading, delta, engineAnimator, next, |data|).cells[j];
      Count(retired.events, kind, v) == 0
  {
    var index := KeyIndex(keys);
    var retired := Retire(oldKeys, oldCells, oldData, index, |data|, engineAnimator, |oldKeys|);
    var v := Populate(data, retired.slots, reloading, delta, engineAnimator, next, |data|).cells[j];
    RetiredSlot(oldKeys, oldData, oldCells, data, keys, engineAnimator, next, j);
    if keys[j] in oldKeys {
      var i :| 0 <= i < |oldKeys| && oldKeys[i] == keys[j];
      assert retired.slots[j] == Some(oldCells[i]) && v == oldCells[i];
      assert oldKeys[i] in index;
      RetireCountAt(oldKeys, oldCells, oldData, index, |data|, engineAnimator, |oldKeys|, kind, i);
    } else {
      assert retired.slots[j] == None && next <= v;
      assert NoneOf(oldCells, |oldKeys|, v);
      RetireCountAbsent(oldKeys, oldCells, oldData, index, |data|, engineAnimator, |oldKeys|, kind, v);
    }
  }

  /** Outside a reload no view is ever shifted. */
  lemma DiffNoShift(oldKeys: seq<string>, oldData: seq<ViewData>, oldCells: seq<ViewId>, data: seq<ViewData>,
                    keys: seq<string>, delta: Point, engineAnimator: AnimatorId, next: ViewId, v: ViewId)
    requires OnScreen(oldKeys, oldData, oldCells, next)
    requires |keys| == |data| && Distinct(keys)
    ensures Count(Diff(oldKeys, oldData, oldCells, data, keys, false, delta, engineAnimator, next).events, ShiftKind, v) == 0
  {
    var r := Diff(oldKeys, oldData, oldCells, data, keys, false, delta, engineAnimator, next);
    if j :| 0 <= j < |data| && r.cells[j] == v {
      DiffCountPlaced(oldKeys, oldData, oldCells, data, keys, false, delta, engineAnimator, next, ShiftKind, j);
    } else if i :| 0 <= i < |oldKeys| && oldCells[i] == v {
      DiffCarriesOver(oldKeys, oldData, oldCells, data, keys, false, delta, engineAnimator, next);
      assert forall j :: 0 <= j < |data| ==> keys[j] != oldKeys[i];
      DiffCountRemoved(oldKeys, oldData, oldCells, data, keys, false, delta, engineAnimator, next, ShiftKind, i);
    } else {
      DiffCountUntouched(oldKeys, oldData, oldCells, data, keys, false, delta, engineAnimator, next, ShiftKind, v);
    }
  }

  /**
   * The hooks of the diff name the right animator, view and frame: every removed view is deleted
   * through its own animator, every placed view is updated to its new frame and attached at its
   * index, and exactly the views with a new key are inserted.
   */
  lemma DiffHooks(oldKeys: seq<string>, oldData: seq<ViewData>, oldCells: seq<ViewId>, data: seq<ViewData>,
                  keys: seq<string>, reloading: bool, delta: Point, engineAnimator: AnimatorId, next: ViewId)
    requires OnScreen(oldKeys, oldData, oldCells, next)
    requires |keys| == |data| && Distinct(keys)
    ensures var r := Diff(oldKeys, oldData, oldCells, data, keys, reloading, delta, engineAnimator, next);
      && (forall i :: 0 <= i < |oldKeys| && oldKeys[i] !in keys ==>
            Delete(AnimatorFor(oldData[i], engineAnimator), oldCells[i]) in r.events)
      && (forall j :: 0 <= j < |data| ==> Update(AnimatorFor(data[j], engineAnimator), r.cells[j], data[j].frame) in r.events)
      && (forall j :: 0 <= j < |data| ==> Attach(r.cells[j], j) in r.events)
      && (forall j :: 0 <= j < |data| && keys[j] !in oldKeys ==>
            Insert(AnimatorFor(data[j], engineAnimator), r.cells[j], data[j].frame) in r.events)
      && (forall j :: 0 <= j < |data| && keys[j] in oldKeys && reloading ==>
            Shift(AnimatorFor(data[j], engineAnimator), delta, r.cells[j], data[j].frame) in r.events)
  {
    var index := KeyIndex(keys);
    var retired := Retire(oldKeys, oldCells, oldData, index, |data|, engineAnimator, |oldKeys|);
    var populated := Populate(data, retired.slots, reloading, delta, engineAnimator, next, |data|);
    RetiredSlotsFit(oldKeys, oldData, oldCells, data, keys, engineAnimator, next);
    RetireDeletes(oldKeys, oldCells, oldData, index, |data|, engineAnimator, |oldKeys|);
    PopulateHooks(data, retired.slots, reloading, delta, engineAnimator, next);
    assert forall e :: e in retired.events ==> e in retired.events + populated.events;
    assert forall e :: e in populated.events ==> e in retired.events + populated.events;
  }
}
