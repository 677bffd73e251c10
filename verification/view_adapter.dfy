/**
 * `ViewAdapter`: a provider that remembers property writes (`with`) and applies them to
 * whatever view it is given, keeping in the view's context how to undo each one. A view
 * that another adapter configured first has that adapter's writes undone, so what a view
 * shows depends only on the last adapter that updated it.
 */
module ViewAdapter {
  import opened Options
  import opened Views

  type AnimatorId = nat

  /**
   * The adapter's stored properties. `view` is a view given at construction, `reuseKey` the
   * reuse identifier (the adapter's class name unless overridden), `viewClass` the view type
   * it makes and accepts, and `values` the recorded writes by key path.
   */
  datatype Adapter = Adapter(
    id: string,
    animator: Option<AnimatorId>,
    view: Option<View>,
    reuseKey: Option<string>,
    viewClass: string,
    values: map<KeyPath, Value>)

  /** A new adapter: no recorded writes, reused under its own class name. */
  function Init(id: string, adapterClass: string, viewClass: string, animator: Option<AnimatorId>,
                view: Option<View>): (a: Adapter)
    ensures a.values == map[] && a.reuseKey == Some(adapterClass) && a.view == view
  {
    Adapter(id, animator, view, Some(adapterClass), viewClass, map[])
  }

  /** The holder `with` records for key path `k`. */
  function Holder(a: Adapter, k: KeyPath): ValueHolder
    requires k in a.values
  {
    ValueHolder(k, Some(a.values[k]))
  }

  /** `with(_:_:)`: records a write of `x` through `k`, replacing any earlier one for `k`. */
  function With(a: Adapter, k: KeyPath, x: Value): (r: Adapter)
    ensures k in r.values && Holder(r, k) == ValueHolder(k, Some(x))
    ensures r.values.Keys == a.values.Keys + {k}
    ensures forall k' :: k' in a.values && k' != k ==> r.values[k'] == a.values[k']
    ensures r.(values := a.values) == a
  {
    a.(values := a.values[k := x])
  }

  // ---------------------------------------------------------------------
  // updateView: the reference definition
  // ---------------------------------------------------------------------

  /**
   * What property `k` reads after an update with `values`: the recorded value, else the
   * value the view's reset holder restores, else what the view already has.
   */
  function FinalRead(values: map<KeyPath, Value>, v: View, k: KeyPath): Option<Value>
  {
    if k in values then Some(values[k])
    else if k in v.valueResets then v.valueResets[k]
    else Read(v, k)
  }

  /**
   * The view after an update with `values`, stated by what it reads rather than by the
   * order of writes: every property takes its `FinalRead`, and there is a reset holder for
   * exactly the recorded keys, the oldest one kept.
   */
  function Updated(values: map<KeyPath, Value>, v: View): (w: View)
    ensures w.id == v.id && w.cls == v.cls
    ensures forall k :: Read(w, k) == FinalRead(values, v, k)
    ensures w.valueResets.Keys == values.Keys
  {
    var props := map k | k in values.Keys + v.valueResets.Keys + v.props.Keys && FinalRead(values, v, k).Some?
      :: FinalRead(values, v, k).value;
    var resets := map k | k in values :: if k in v.valueResets then v.valueResets[k] else Read(v, k);
    assert forall k :: FinalRead(values, v, k).Some? ==> k in values.Keys + v.valueResets.Keys + v.props.Keys;
    View(v.id, v.cls, props, resets)
  }

  /** The reset holders `Updated` leaves: the view's own where it had one, else the value before the write. */
  lemma UpdatedResets(values: map<KeyPath, Value>, v: View, k: KeyPath)
    requires k in values
    ensures k in v.valueResets ==> Updated(values, v).valueResets[k] == v.valueResets[k]
    ensures k !in v.valueResets ==> Updated(values, v).valueResets[k] == Read(v, k)
  {
  }

  // ---------------------------------------------------------------------
  // updateView: the two loops
  // ---------------------------------------------------------------------

  /** Writes the reset holder `ValueHolder(k, x)` back into `w` and drops it from the view's context. */
  function Forget(w: View, k: KeyPath, x: Option<Value>): (r: View)
    ensures r.id == w.id && r.cls == w.cls
    ensures forall k' :: Read(r, k') == if k' == k then x else Read(w, k')
    ensures forall k' :: k' in r.valueResets <==> k' in w.valueResets && k' != k
    ensures forall k' :: k' in r.valueResets ==> r.valueResets[k'] == w.valueResets[k']
  {
    var written := Write(ValueHolder(k, x), w).0;
    written.(valueResets := written.valueResets - {k})
  }

  /**
   * The first loop of `updateView(_:)`: writes back and forgets every reset holder whose key
   * is no longer recorded, visiting the keys in no particular order.
   */
  method RestoreUnrecorded(a: Adapter, v: View) returns (w: View)
    ensures w.id == v.id && w.cls == v.cls
    ensures forall k :: k in w.valueResets <==> k in v.valueResets && k in a.values
    ensures forall k :: k in w.valueResets ==> w.valueResets[k] == v.valueResets[k]
    ensures forall k :: Read(w, k) == (if k in v.valueResets && k !in a.values then v.valueResets[k] else Read(v, k))
  {
    w := v;
    var todo := v.valueResets.Keys;
    while todo != {}
      invariant todo <= v.valueResets.Keys
      invariant w.id == v.id && w.cls == v.cls
      invariant forall k :: k in w.valueResets <==> k in v.valueResets && (k in a.values || k in todo)
      invariant forall k :: k in w.valueResets ==> w.valueResets[k] == v.valueResets[k]
      invariant forall k :: (Read(w, k) ==
        if k in v.valueResets && k !in a.values && k !in todo then v.valueResets[k] else Read(v, k))
      decreases todo
    {
      var k :| k in todo;
      if k !in a.values {
        w := Forget(w, k, v.valueResets[k]);
      }
      todo := todo - {k};
    }
  }

  /**
   * The second loop of `updateView(_:)`: writes every recorded value and keeps the value it
   * replaced as the reset holder, unless the key already has one.
   */
  method ApplyRecorded(a: Adapter, v: View) returns (w: View)
    ensures w.id == v.id && w.cls == v.cls
    ensures forall k :: k in w.valueResets <==> k in v.valueResets || k in a.values
    ensures forall k :: k in w.valueResets ==>
      w.valueResets[k] == (if k in v.valueResets then v.valueResets[k] else Read(v, k))
    ensures forall k :: Read(w, k) == (if k in a.values then Some(a.values[k]) else Read(v, k))
  {
    w := v;
    var todo := a.values.Keys;
    while todo != {}
      invariant todo <= a.values.Keys
      invariant w.id == v.id && w.cls == v.cls
      invariant forall k :: k in w.valueResets <==> k in v.valueResets || (k in a.values && k !in todo)
      invariant forall k :: k in w.valueResets ==>
        w.valueResets[k] == (if k in v.valueResets then v.valueResets[k] else Read(v, k))
      invariant forall k :: Read(w, k) == (if k in a.values && k !in todo then Some(a.values[k]) else Read(v, k))
      decreases todo
    {
      var k :| k in todo;
      var (written, reset) := Write(Holder(a, k), w);
      if k in written.valueResets {
        w := written;
      } else {
        w := written.(valueResets := written.valueResets[k := reset.value]);
      }
      todo := todo - {k};
    }
  }

  /**
   * `updateView(_:)`: the two loops in turn. Whatever order the keys are visited in, the
   * result is the reference `Updated`.
   */
  method UpdateView(a: Adapter, v: View) returns (w: View)
    ensures w == Updated(a.values, v)
  {
    var mid := RestoreUnrecorded(a, v);
    w := ApplyRecorded(a, mid);
    var u := Updated(a.values, v);
    assert w.valueResets == u.valueResets by {
      forall k | k in a.values ensures w.valueResets[k] == u.valueResets[k] {
        UpdatedResets(a.values, v, k);
      }
    }
    SameView(w, u);
  }

  // ---------------------------------------------------------------------
  // Properties of updateView
  // ---------------------------------------------------------------------

  /** Every recorded write is visible after an update, whatever the view carried before. */
  lemma UpdatedShowsValues(values: map<KeyPath, Value>, v: View, k: KeyPath)
    requires k in values
    ensures Read(Updated(values, v), k) == Some(values[k])
  {
  }

  /** Property `k` after updates with `a` then `b` reads as after `b` alone. */
  lemma ForgetsEarlierRead(a: map<KeyPath, Value>, b: map<KeyPath, Value>, v: View, k: KeyPath)
    ensures Read(Updated(b, Updated(a, v)), k) == Read(Updated(b, v), k)
  {
    if k !in b && k in a {
      UpdatedResets(a, v, k);
    }
  }

  /** The reset holder for `k` after updates with `a` then `b` is the one after `b` alone. */
  lemma ForgetsEarlierReset(a: map<KeyPath, Value>, b: map<KeyPath, Value>, v: View, k: KeyPath)
    requires k in b
    ensures Updated(b, Updated(a, v)).valueResets[k] == Updated(b, v).valueResets[k]
  {
    UpdatedResets(b, Updated(a, v), k);
    UpdatedResets(b, v, k);
    if k in a {
      UpdatedResets(a, v, k);
    }
  }

  /**
   * History independence: updating with `b` a view that was last updated with `a` gives the
   * view that updating with `b` alone gives. Reused views carry nothing over from the
   * adapter that configured them before.
   */
  lemma UpdatedForgetsEarlier(a: map<KeyPath, Value>, b: map<KeyPath, Value>, v: View)
    ensures Updated(b, Updated(a, v)) == Updated(b, v)
  {
    var left := Updated(b, Updated(a, v));
    var right := Updated(b, v);
    forall k ensures Read(left, k) == Read(right, k) {
      ForgetsEarlierRead(a, b, v, k);
    }
    assert left.valueResets == right.valueResets by {
      forall k | k in b ensures left.valueResets[k] == right.valueResets[k] {
        ForgetsEarlierReset(a, b, v, k);
      }
    }
    SameView(left, right);
  }

  /** Updating twice with the same adapter is updating once. */
  lemma UpdatedIdempotent(values: map<KeyPath, Value>, v: View)
    ensures Updated(values, Updated(values, v)) == Updated(values, v)
  {
    UpdatedForgetsEarlier(values, values, v);
  }

  /**
   * An adapter with no recorded writes restores every property any earlier adapter wrote,
   * and leaves no reset holders; on a view no adapter has touched it changes nothing.
   */
  lemma EmptyAdapterRestores(values: map<KeyPath, Value>, v: View)
    ensures Updated(map[], Updated(values, v)) == Updated(map[], v)
    ensures Updated(map[], v).valueResets == map[]
    ensures v.valueResets == map[] ==> Updated(map[], v) == v
  {
    UpdatedForgetsEarlier(values, map[], v);
    if v.valueResets == map[] {
      SameView(Updated(map[], v), v);
    }
  }

  /** The reset holder of a key is taken on its first write and never replaced while the key stays recorded. */
  lemma FirstResetKept(a: map<KeyPath, Value>, b: map<KeyPath, Value>, v: View, k: KeyPath)
    requires k in a && k in b && k !in v.valueResets
    ensures Updated(b, Updated(a, v)).valueResets[k] == Read(v, k)
  {
    UpdatedResets(a, v, k);
    UpdatedResets(b, Updated(a, v), k);
  }

  /** Recording a write and updating shows it; recording it again with another value shows the newer one. */
  lemma WithThenUpdate(a: Adapter, k: KeyPath, x: Value, y: Value, v: View)
    ensures Read(Updated(With(a, k, x).values, v), k) == Some(x)
    ensures With(With(a, k, x), k, y) == With(a, k, y)
  {
  }

  /** Writes through different key paths can be recorded in either order. */
  lemma WithCommutes(a: Adapter, k: KeyPath, x: Value, k': KeyPath, y: Value)
    requires k != k'
    ensures With(With(a, k, x), k', y) == With(With(a, k', y), k, x)
  {
  }

  // ---------------------------------------------------------------------
  // View provider entry points
  // ---------------------------------------------------------------------

  /** `makeView()`: a plain view of the view class. */
  function MakeDefault(a: Adapter, id: nat): (v: View)
    ensures v.id == id && v.cls == a.viewClass && v.props == map[] && v.valueResets == map[]
  {
    View(id, a.viewClass, map[], map[])
  }

  /**
   * `_makeView()`: the adapter's own view if it has one; else a recycled view under the
   * reuse key, falling back to a new one; else a new one. `next` is the id a new view gets.
   */
  function MakeView(a: Adapter, pool: Pool, next: nat): (r: (View, Pool, nat))
    ensures next <= r.2
  {
    if a.view.Some? then (a.view.value, pool, next)
    else if a.reuseKey.Some? then
      var (v, pool') := Dequeue(pool, a.reuseKey.value, MakeDefault(a, next));
      (v, pool', if |Queue(pool, a.reuseKey.value)| > 0 then next else next + 1)
    else (MakeDefault(a, next), pool, next + 1)
  }

  /** The fallback order of `_makeView()`, and that the pool changes only by the one dequeue. */
  lemma MakeViewOrder(a: Adapter, pool: Pool, next: nat)
    ensures var (v, pool', next') := MakeView(a, pool, next);
      && (a.view.Some? ==> v == a.view.value && pool' == pool && next' == next)
      && (a.view.None? && a.reuseKey.Some? && |Queue(pool, a.reuseKey.value)| > 0 ==>
            var q := Queue(pool, a.reuseKey.value);
            v == q[|q| - 1] && Queue(pool', a.reuseKey.value) + [v] == q && next' == next)
      && (a.view.None? && (a.reuseKey.None? || |Queue(pool, a.reuseKey.value)| == 0) ==>
            v == MakeDefault(a, next) && pool' == pool && next' == next + 1)
  {
  }

  /** `_updateView(_:)`: a view of another class is left alone; otherwise `updateView`. */
  method UpdateAny(a: Adapter, v: View) returns (w: View)
    ensures v.cls != a.viewClass ==> w == v
    ensures v.cls == a.viewClass ==> w == Updated(a.values, v)
  {
    if v.cls != a.viewClass {
      return v;
    }
    w := UpdateView(a, v);
  }

  /**
   * A view this adapter makes passes its own type guard, whether it is its own view, a view
   * recycled under its reuse key or a new one, provided the queue under the reuse key holds
   * only views of the adapter's view class; updating it then shows every recorded value.
   */
  lemma MadeViewShowsValues(a: Adapter, pool: Pool, next: nat, k: KeyPath)
    requires a.view.None? || a.view.value.cls == a.viewClass
    requires a.reuseKey.Some? ==> forall i :: 0 <= i < |Queue(pool, a.reuseKey.value)| ==> Queue(pool, a.reuseKey.value)[i].cls == a.viewClass
    requires k in a.values
    ensures var v := MakeView(a, pool, next).0;
      v.cls == a.viewClass && Read(Updated(a.values, v), k) == Some(a.values[k])
  {
  }
}
