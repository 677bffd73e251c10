/**
 * The views CollectionKit2 providers make and update. A view is an id, the name of its
 * class, the values of its writable properties, and the reset holders its
 * `ckContext` keeps for `ViewAdapter`.
 *
 * A property key absent from `props` holds the view's own initial value. A holder carrying
 * `None` writes that initial value back, so a write followed by the write of its reset
 * holder is an exact round trip. A reset holder is always stored under its own key path,
 * so `valueResets` keeps only the held value: the holder for `k` is
 * `ValueHolder(k, valueResets[k])`.
 */
module Views {
  import opened Options

  /** A `ReferenceWritableKeyPath` into a view, by name. */
  type KeyPath = string
  type Value = int

  /** `ValueHolder`: a key path and the value to write through it. */
  datatype ValueHolder = ValueHolder(keyPath: KeyPath, value: Option<Value>)

  datatype View = View(id: nat, cls: string, props: map<KeyPath, Value>, valueResets: map<KeyPath, Option<Value>>)

  /** The value of property `k`; `None` is the view's own initial value. */
  function Read(v: View, k: KeyPath): (r: Option<Value>)
    ensures r.Some? <==> k in v.props
    ensures r.Some? ==> r.value == v.props[k]
  {
    if k in v.props then Some(v.props[k]) else None
  }

  /** Sets property `k` to `x`. */
  function Assign(v: View, k: KeyPath, x: Option<Value>): (r: View)
    ensures Read(r, k) == x
    ensures forall k' :: k' != k ==> Read(r, k') == Read(v, k')
    ensures r.id == v.id && r.cls == v.cls && r.valueResets == v.valueResets
  {
    if x.Some? then v.(props := v.props[k := x.value]) else v.(props := v.props - {k})
  }

  /** Two views with the same id, class, resets and property reads are the same view. */
  lemma SameView(a: View, b: View)
    requires a.id == b.id && a.cls == b.cls && a.valueResets == b.valueResets
    requires forall k :: Read(a, k) == Read(b, k)
    ensures a == b
  {
    assert a.props.Keys == b.props.Keys by {
      forall k ensures k in a.props <==> k in b.props {
        assert Read(a, k) == Read(b, k);
      }
    }
    forall k | k in a.props ensures a.props[k] == b.props[k] {
      assert Read(a, k) == Read(b, k);
    }
  }

  /**
   * `ValueHolder.write(to:)`: sets the held key path of `v` to the held value and returns a
   * holder for the value that was there just before.
   */
  function Write(h: ValueHolder, v: View): (r: (View, ValueHolder))
    ensures Read(r.0, h.keyPath) == h.value
    ensures forall k :: k != h.keyPath ==> Read(r.0, k) == Read(v, k)
    ensures r.1 == ValueHolder(h.keyPath, Read(v, h.keyPath))
    ensures r.0.id == v.id && r.0.cls == v.cls && r.0.valueResets == v.valueResets
  {
    (Assign(v, h.keyPath, h.value), ValueHolder(h.keyPath, Read(v, h.keyPath)))
  }

  /** Writing the returned reset holder undoes a write. */
  lemma WriteRoundTrip(h: ValueHolder, v: View)
    ensures var (w, reset) := Write(h, v);
      Write(reset, w).0 == v
  {
    var (w, reset) := Write(h, v);
    SameView(Write(reset, w).0, v);
  }

  /** Writing the same holder twice is writing it once. */
  lemma WriteIdempotent(h: ValueHolder, v: View)
    ensures Write(h, Write(h, v).0).0 == Write(h, v).0
  {
    SameView(Write(h, Write(h, v).0).0, Write(h, v).0);
  }

  // ---------------------------------------------------------------------
  // The reuse pool
  // ---------------------------------------------------------------------

  /** `CollectionReuseManager`: recycled views, queued by reuse identifier. */
  datatype Pool = Pool(queues: map<string, seq<View>>)

  function Queue(p: Pool, key: string): seq<View>
  {
    if key in p.queues then p.queues[key] else []
  }

  /**
   * `dequeue(identifier:_:)`: the most recently recycled view for `key`, or `fallback` when
   * none is queued.
   */
  function Dequeue(p: Pool, key: string, fallback: View): (r: (View, Pool))
    ensures |Queue(p, key)| == 0 ==> r == (fallback, p)
    ensures |Queue(p, key)| > 0 ==>
      && r.0 == Queue(p, key)[|Queue(p, key)| - 1]
      && Queue(r.1, key) + [r.0] == Queue(p, key)
    ensures forall k :: k != key ==> Queue(r.1, k) == Queue(p, k)
  {
    var q := Queue(p, key);
    if |q| == 0 then (fallback, p)
    else (q[|q| - 1], Pool(p.queues[key := q[..|q| - 1]]))
  }

  /** `queue(view:)`: recycles `v` under `key`. */
  function Enqueue(p: Pool, key: string, v: View): (r: Pool)
    ensures Queue(r, key) == Queue(p, key) + [v]
    ensures forall k :: k != key ==> Queue(r, k) == Queue(p, k)
  {
    Pool(p.queues[key := Queue(p, key) + [v]])
  }

  /** A recycled view is the next one handed out for its key, and the pool is as before. */
  lemma DequeueEnqueue(p: Pool, key: string, v: View, fallback: View)
    ensures var (w, p') := Dequeue(Enqueue(p, key, v), key, fallback);
      && w == v
      && forall k :: Queue(p', k) == Queue(p, k)
  {
    var (w, p') := Dequeue(Enqueue(p, key, v), key, fallback);
    assert Queue(p', key) + [w] == Queue(p, key) + [v];
    assert Queue(p', key) == (Queue(p', key) + [w])[..|Queue(p', key)|];
  }
}
