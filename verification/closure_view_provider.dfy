/**
 * `ClosureViewProvider`: the leaf provider of CollectionKit2. It makes and updates one kind
 * of view from closures, remembers the size of its last layout, and answers a visibility
 * query with itself at the origin or with nothing.
 */
module ClosureViewProvider {
  import opened Options
  import opened Geometry
  import opened Views

  type AnimatorId = nat

  /**
   * The provider's stored properties. `generator` is what `viewGenerator` makes (the initial
   * properties of the new view), `updater` is `viewUpdater`, `sizeSource` is the size
   * closure, `reuses` says whether a reuse manager is set, and `cachedSize` is `_size`.
   */
  datatype ClosureProvider = ClosureProvider(
    key: string,
    animator: Option<AnimatorId>,
    viewClass: string,
    generator: Option<map<KeyPath, Value>>,
    updater: Option<View -> View>,
    sizeSource: Option<Size -> Size>,
    reuses: bool,
    cachedSize: Size)

  /** A new provider: nothing laid out yet. */
  function Init(key: string, animator: Option<AnimatorId>, viewClass: string, reuses: bool,
                generator: Option<map<KeyPath, Value>>, updater: Option<View -> View>,
                sizeSource: Option<Size -> Size>): (p: ClosureProvider)
    ensures p.cachedSize == ZeroSize && p.viewClass == viewClass
  {
    ClosureProvider(key, animator, viewClass, generator, updater, sizeSource, reuses, ZeroSize)
  }

  /** The frame the provider occupies in its own coordinates. */
  function CachedFrame(p: ClosureProvider): Rect
  {
    Rect(ZeroPoint, p.cachedSize)
  }

  /**
   * `layout(size:)`: with a size source, its answer, which is also cached; without one the
   * zero size, and the cache is left as it was.
   */
  function Layout(p: ClosureProvider, size: Size): (r: (ClosureProvider, Size))
    ensures p.sizeSource.Some? ==> r.1 == p.sizeSource.value(size) && r.0.cachedSize == r.1
    ensures p.sizeSource.None? ==> r.1 == ZeroSize && r.0 == p
    ensures r.0.(cachedSize := p.cachedSize) == p
  {
    if p.sizeSource.Some? then
      var s := p.sizeSource.value(size);
      (p.(cachedSize := s), s)
    else (p, ZeroSize)
  }

  /** `views(in:)`: the provider itself, at the origin with its cached size, when that frame meets the query. */
  function ViewsIn(p: ClosureProvider, q: Rect): (r: seq<(ClosureProvider, Rect)>)
    ensures |r| <= 1
    ensures |r| == 1 <==> Intersects(q, CachedFrame(p))
    ensures forall h :: h in r ==> h == (p, CachedFrame(p))
  {
    if Intersects(q, CachedFrame(p)) then [(p, CachedFrame(p))] else []
  }

  /** `_makeView()`: the generated view if there is a generator, else a plain view of the class. */
  function MakeFresh(p: ClosureProvider, id: nat): (v: View)
    ensures v.id == id && v.cls == p.viewClass && v.valueResets == map[]
    ensures p.generator.Some? ==> v.props == p.generator.value
    ensures p.generator.None? ==> v.props == map[]
  {
    View(id, p.viewClass, p.generator.GetOr(map[]), map[])
  }

  /**
   * `makeView()`: through the reuse manager when one is set, keyed by the view class, else a
   * fresh view. `next` is the id a fresh view gets.
   */
  function MakeView(p: ClosureProvider, pool: Pool, next: nat): (r: (View, Pool, nat))
    ensures next <= r.2
  {
    if p.reuses && |Queue(pool, p.viewClass)| > 0 then
      var (v, pool') := Dequeue(pool, p.viewClass, MakeFresh(p, next));
      (v, pool', next)
    else (MakeFresh(p, next), pool, next + 1)
  }

  /** `updateView(_:)`: a view of another class is left alone; otherwise the updater, if any, runs once. */
  function UpdateView(p: ClosureProvider, v: View): (r: View)
    ensures v.cls != p.viewClass || p.updater.None? ==> r == v
    ensures v.cls == p.viewClass && p.updater.Some? ==> r == p.updater.value(v)
  {
    if v.cls != p.viewClass then v
    else if p.updater.Some? then p.updater.value(v)
    else v
  }

  // ---------------------------------------------------------------------
  // Properties
  // ---------------------------------------------------------------------

  /** After a layout with a size source, a query sees the provider exactly when it meets the new size at the origin. */
  lemma LayoutThenViews(p: ClosureProvider, size: Size, q: Rect)
    requires p.sizeSource.Some?
    ensures var (laidOut, s) := Layout(p, size);
      && (Intersects(q, Rect(ZeroPoint, s)) ==> ViewsIn(laidOut, q) == [(laidOut, Rect(ZeroPoint, s))])
      && (!Intersects(q, Rect(ZeroPoint, s)) ==> ViewsIn(laidOut, q) == [])
  {
  }

  /** Laying out twice at the same size gives the same provider and size as laying out once. */
  lemma LayoutIdempotent(p: ClosureProvider, size: Size)
    ensures var (laidOut, s) := Layout(p, size);
      Layout(laidOut, size) == (laidOut, s)
  {
  }

  /**
   * The fallback order of `makeView()`: a recycled view of the class when the provider reuses
   * views and one is queued, otherwise a new view with the next id, made by the generator if
   * there is one. Without reuse the pool is never touched.
   */
  lemma MakeViewOrder(p: ClosureProvider, pool: Pool, next: nat)
    ensures var (v, pool', next') := MakeView(p, pool, next);
      var q := Queue(pool, p.viewClass);
      && (p.reuses && |q| > 0 ==> v == q[|q| - 1] && next' == next && Queue(pool', p.viewClass) + [v] == q)
      && (!p.reuses || |q| == 0 ==> v == MakeFresh(p, next) && next' == next + 1 && pool' == pool)
  {
  }

  /** Every queued view of a key has that key as its class. */
  predicate Sorted(pool: Pool)
  {
    forall key, i :: key in pool.queues && 0 <= i < |pool.queues[key]| ==> pool.queues[key][i].cls == key
  }

  /**
   * Over a pool that queues views by class, a made view always passes the type guard, so
   * updating it runs the updater exactly once; and the pool stays sorted.
   */
  lemma MadeViewsAreUpdated(p: ClosureProvider, pool: Pool, next: nat)
    requires Sorted(pool)
    ensures var (v, pool', _) := MakeView(p, pool, next);
      && v.cls == p.viewClass
      && (p.updater.Some? ==> UpdateView(p, v) == p.updater.value(v))
      && Sorted(pool')
  {
    var (v, pool', _) := MakeView(p, pool, next);
    if p.reuses && |Queue(pool, p.viewClass)| > 0 {
      var q := Queue(pool, p.viewClass);
      assert v == q[|q| - 1];
      forall key, i | key in pool'.queues && 0 <= i < |pool'.queues[key]| ensures pool'.queues[key][i].cls == key {
        if key == p.viewClass {
          assert pool'.queues[key][i] == (Queue(pool', key) + [v])[i];
        } else {
          assert pool'.queues[key] == Queue(pool, key);
        }
      }
    }
  }
}
