/**
 * `LayoutProvider`: a provider with children placed by frames. Its layout asks the abstract
 * `simpleLayout` for the frames (on swapped axes when transposed) and reports the bounding
 * box of the frames as its content size; its visibility query clips the query to each
 * child's frame, recurses in the child's coordinates and moves the results back.
 */
module LayoutProvider {
  import opened Options
  import opened Geometry
  import opened Views
  import opened ClosureViewProvider

  /**
   * A provider tree: a closure leaf, or a layout node whose `frames[i]` places
   * `children[i]`. `simpleLayout` is the subclass's layout algorithm.
   */
  datatype Provider =
    | Leaf(leaf: ClosureProvider)
    | Node(children: seq<Provider>, frames: seq<Rect>, transposed: bool, simpleLayout: Size -> seq<Rect>)

  /** A visible leaf with its frame in the coordinates of the query. */
  type Hit = (ClosureProvider, Rect)

  /**
   * Every node has a child for each of its frames. The query reads `children[i]` only for the
   * frames it meets; asking for a child per frame keeps every query of the node defined.
   */
  predicate WellFormed(p: Provider)
    decreases p
  {
    match p
    case Leaf(_) => true
    case Node(children, frames, _, _) =>
      && |frames| <= |children|
      && forall i :: 0 <= i < |frames| ==> WellFormed(children[i])
  }

  // ---------------------------------------------------------------------
  // Layout
  // ---------------------------------------------------------------------

  /** `frames.reduce(.zero) { $0.union($1) }`: the bounding box of the frames and the origin. */
  function UnionAll(frames: seq<Rect>): Rect
  {
    if |frames| == 0 then ZeroRect else Union(UnionAll(frames[..|frames| - 1]), frames[|frames| - 1])
  }

  /** The frames of a node's layout at `size`, transposed around the algorithm when asked. */
  function NodeFrames(p: Provider, size: Size): (frames: seq<Rect>)
    requires p.Node?
  {
    if p.transposed then TransposeAll(p.simpleLayout(TransposeSize(size))) else p.simpleLayout(size)
  }

  /**
   * `layout(size:)` on either kind of provider: the laid-out provider and its content size.
   * A node stores its new frames and keeps its children; a leaf caches its size.
   */
  function ProviderLayout(p: Provider, size: Size): (r: (Provider, Size))
    ensures p.Leaf? ==> r.0.Leaf? && (r.0.leaf, r.1) == ClosureViewProvider.Layout(p.leaf, size)
    ensures p.Node? ==> r.0 == p.(frames := NodeFrames(p, size)) && r.1 == UnionAll(r.0.frames).size
  {
    match p
    case Leaf(c) =>
      var (c', s) := ClosureViewProvider.Layout(c, size);
      (Leaf(c'), s)
    case Node(_, _, _, _) =>
      var frames := NodeFrames(p, size);
      (p.(frames := frames), UnionAll(frames).size)
  }

  /**
   * `getSize(child:maxSize:)`: lays `child` out, on swapped axes when `p` is transposed.
   */
  function GetSize(p: Provider, child: Provider, maxSize: Size): (r: (Provider, Size))
    requires p.Node?
  {
    if p.transposed then
      var (c, s) := ProviderLayout(child, TransposeSize(maxSize));
      (c, TransposeSize(s))
    else ProviderLayout(child, maxSize)
  }

  // ---------------------------------------------------------------------
  // Visibility
  // ---------------------------------------------------------------------

  /** Moves every hit by `o`, keeping its provider and size. */
  function Shift(hits: seq<Hit>, o: Point): (r: seq<Hit>)
    ensures |r| == |hits|
    ensures forall k :: 0 <= k < |hits| ==> r[k] == (hits[k].0, Offset(hits[k].1, o))
  {
    seq(|hits|, k requires 0 <= k < |hits| => (hits[k].0, Offset(hits[k].1, o)))
  }

  /** The query `q` clipped to frame `f`, in the coordinates of the child placed at `f`. */
  function LocalQuery(q: Rect, f: Rect): Rect
    requires Intersects(q, f)
  {
    Offset(Intersection(q, f), Neg(f.origin))
  }

  /** `views(in:)`. */
  function ViewsIn(p: Provider, q: Rect): seq<Hit>
    requires WellFormed(p)
    decreases p, 2
  {
    match p
    case Leaf(c) => ClosureViewProvider.ViewsIn(c, q)
    case Node(_, _, _, _) => ChildViews(p, q, 0)
  }

  /** The results of the children from frame `i` on, in frame order. */
  function ChildViews(p: Provider, q: Rect, i: nat): seq<Hit>
    requires WellFormed(p) && p.Node? && i <= |p.frames|
    decreases p, 1, |p.frames| - i
  {
    if i == |p.frames| then [] else ChildResult(p, q, i) + ChildViews(p, q, i + 1)
  }

  /** What child `i` contributes: nothing unless its frame meets the query. */
  function ChildResult(p: Provider, q: Rect, i: nat): seq<Hit>
    requires WellFormed(p) && p.Node? && i < |p.frames|
    decreases p, 0
  {
    var f := p.frames[i];
    if Intersects(q, f) then Shift(ViewsIn(p.children[i], LocalQuery(q, f)), f.origin) else []
  }

  // ---------------------------------------------------------------------
  // Properties of layout
  // ---------------------------------------------------------------------

  /**
   * A transposed layout runs the algorithm on the transposed size and transposes each frame
   * back; otherwise the frames are exactly the algorithm's.
   */
  lemma LayoutFrames(p: Provider, size: Size)
    requires p.Node?
    ensures var frames := ProviderLayout(p, size).0.frames;
      && (p.transposed ==> TransposeAll(frames) == p.simpleLayout(TransposeSize(size)))
      && (!p.transposed ==> frames == p.simpleLayout(size))
  {
    if p.transposed {
      TransposeAllInvolution(p.simpleLayout(TransposeSize(size)));
    }
  }

  /** The bounding box holds every frame. */
  lemma {:induction false} UnionAllContains(frames: seq<Rect>, i: nat)
    requires i < |frames|
    ensures Contains(UnionAll(frames), frames[i])
  {
    var n := |frames| - 1;
    if i < n {
      var init := frames[..n];
      UnionAllContains(init, i);
      assert Contains(UnionAll(init), frames[i]);
    }
  }

  /** The bounding box holds the origin, the start of the fold. */
  lemma {:induction false} UnionAllContainsOrigin(frames: seq<Rect>)
    ensures Contains(UnionAll(frames), ZeroRect)
  {
    if |frames| > 0 {
      UnionAllContainsOrigin(frames[..|frames| - 1]);
    }
  }

  /** Any rectangle holding the origin and every frame holds the bounding box. */
  lemma {:induction false} UnionAllLeast(frames: seq<Rect>, c: Rect)
    requires Contains(c, ZeroRect)
    requires forall i :: 0 <= i < |frames| ==> Contains(c, frames[i])
    ensures Contains(c, UnionAll(frames))
  {
    if |frames| > 0 {
      var init := frames[..|frames| - 1];
      assert forall i :: 0 <= i < |init| ==> init[i] == frames[i];
      UnionAllLeast(init, c);
      assert Contains(c, frames[|frames| - 1]);
    }
  }

  /**
   * The content size is that of the least rectangle holding the origin and every frame; with
   * no frames it is zero.
   */
  lemma UnionAllBounds(frames: seq<Rect>)
    ensures Contains(UnionAll(frames), ZeroRect)
    ensures forall i :: 0 <= i < |frames| ==> Contains(UnionAll(frames), frames[i])
    ensures forall c :: Contains(c, ZeroRect) && (forall i :: 0 <= i < |frames| ==> Contains(c, frames[i])) ==>
      Contains(c, UnionAll(frames))
    ensures |frames| == 0 ==> UnionAll(frames).size == ZeroSize
  {
    UnionAllContainsOrigin(frames);
    forall i | 0 <= i < |frames| ensures Contains(UnionAll(frames), frames[i]) {
      UnionAllContains(frames, i);
    }
    forall c | Contains(c, ZeroRect) && (forall i :: 0 <= i < |frames| ==> Contains(c, frames[i]))
      ensures Contains(c, UnionAll(frames))
    {
      UnionAllLeast(frames, c);
    }
  }

  /** The bounding box of transposed frames is the transposed bounding box. */
  lemma {:induction false} UnionAllTranspose(frames: seq<Rect>)
    ensures UnionAll(TransposeAll(frames)) == TransposeRect(UnionAll(frames))
  {
    if |frames| > 0 {
      var init := frames[..|frames| - 1];
      UnionAllTranspose(init);
      assert TransposeAll(frames)[..|frames| - 1] == TransposeAll(init);
      UnionTranspose(UnionAll(init), frames[|frames| - 1]);
    }
  }

  /**
   * Transposing a node transposes its content size: laid out at `size`, a transposed node
   * reports the transpose of what the same node, untransposed, reports at the transposed size.
   */
  lemma LayoutContentTransposed(p: Provider, size: Size)
    requires p.Node? && p.transposed
    ensures ProviderLayout(p, size).1 == TransposeSize(ProviderLayout(p.(transposed := false), TransposeSize(size)).1)
  {
    UnionAllTranspose(p.simpleLayout(TransposeSize(size)));
  }

  /**
   * `getSize` passes the size through when not transposed; when transposed, it transposes
   * both the constraint it passes down and the size it returns, so transposing again undoes it.
   */
  lemma GetSizeTransposed(p: Provider, child: Provider, maxSize: Size)
    requires p.Node?
    ensures !p.transposed ==> GetSize(p, child, maxSize) == ProviderLayout(child, maxSize)
    ensures p.transposed ==>
      && GetSize(p, child, maxSize).0 == ProviderLayout(child, TransposeSize(maxSize)).0
      && TransposeSize(GetSize(p, child, maxSize).1) == ProviderLayout(child, TransposeSize(maxSize)).1
  {
    var s := ProviderLayout(child, TransposeSize(maxSize)).1;
    TransposeInvolution(s, ZeroRect);
  }

  // ---------------------------------------------------------------------
  // Properties of the visibility query
  // ---------------------------------------------------------------------

  lemma OffsetBack(r: Rect, o: Point)
    ensures Offset(Offset(r, Neg(o)), o) == r
  {
  }

  /**
   * Every hit meets the query, and has the cached size of its leaf: results are moved back,
   * never resized.
   */
  lemma {:induction false} HitsMeetQuery(p: Provider, q: Rect)
    requires WellFormed(p)
    ensures forall h :: h in ViewsIn(p, q) ==> Intersects(h.1, q) && h.1.size == h.0.cachedSize
    decreases p, 2
  {
    if p.Node? {
      ChildHitsMeetQuery(p, q, 0);
    }
  }

  lemma {:induction false} ChildHitsMeetQuery(p: Provider, q: Rect, i: nat)
    requires WellFormed(p) && p.Node? && i <= |p.frames|
    ensures forall h :: h in ChildViews(p, q, i) ==> Intersects(h.1, q) && h.1.size == h.0.cachedSize
    decreases p, 1, |p.frames| - i
  {
    if i < |p.frames| {
      ChildHitsMeetQuery(p, q, i + 1);
      ChildResultMeetsQuery(p, q, i);
    }
  }

  /** A hit of child `i` meets both the query and the child's frame. */
  lemma {:induction false} ChildResultMeetsQuery(p: Provider, q: Rect, i: nat)
    requires WellFormed(p) && p.Node? && i < |p.frames|
    ensures forall h :: h in ChildResult(p, q, i) ==>
      Intersects(h.1, q) && Intersects(h.1, p.frames[i]) && h.1.size == h.0.cachedSize
    decreases p, 0
  {
    var f := p.frames[i];
    if Intersects(q, f) {
      var local := LocalQuery(q, f);
      var inner := ViewsIn(p.children[i], local);
      HitsMeetQuery(p.children[i], local);
      OffsetBack(Intersection(q, f), f.origin);
      forall h | h in ChildResult(p, q, i)
        ensures Intersects(h.1, q) && Intersects(h.1, f) && h.1.size == h.0.cachedSize
      {
        var k :| 0 <= k < |inner| && h == (inner[k].0, Offset(inner[k].1, f.origin));
        OffsetIntersects(inner[k].1, local, f.origin);
      }
    }
  }

  /** A query that meets no frame of a node sees nothing. */
  lemma DisjointQueryEmpty(p: Provider, q: Rect)
    requires WellFormed(p) && p.Node?
    requires forall i :: 0 <= i < |p.frames| ==> !Intersects(q, p.frames[i])
    ensures ViewsIn(p, q) == []
  {
    DisjointFrom(p, q, 0);
  }

  lemma {:induction false} DisjointFrom(p: Provider, q: Rect, i: nat)
    requires WellFormed(p) && p.Node? && i <= |p.frames|
    requires forall j :: i <= j < |p.frames| ==> !Intersects(q, p.frames[j])
    ensures ChildViews(p, q, i) == []
    decreases |p.frames| - i
  {
    if i < |p.frames| {
      DisjointFrom(p, q, i + 1);
    }
  }

  /** A hit of child `j` is among the results from frame `i` on, for every `i <= j`. */
  lemma {:induction false} ChildViewsHas(p: Provider, q: Rect, i: nat, j: nat, h: Hit)
    requires WellFormed(p) && p.Node? && i <= j < |p.frames|
    requires h in ChildResult(p, q, j)
    ensures h in ChildViews(p, q, i)
    decreases j - i
  {
    if i < j {
      ChildViewsHas(p, q, i + 1, j, h);
    }
  }

  /** A result from frame `i` on is a hit of one child at or after `i`. */
  lemma {:induction false} ChildViewsFrom(p: Provider, q: Rect, i: nat, h: Hit)
    requires WellFormed(p) && p.Node? && i <= |p.frames|
    requires h in ChildViews(p, q, i)
    ensures exists j :: i <= j < |p.frames| && h in ChildResult(p, q, j)
    decreases |p.frames| - i
  {
    if h !in ChildResult(p, q, i) {
      ChildViewsFrom(p, q, i + 1, h);
    }
  }

  /**
   * The hits of a node are exactly the hits of the children whose frames meet the query,
   * each child queried with the clipped query in its own coordinates and its results moved
   * back by the child's origin.
   */
  lemma ChildViewsMembers(p: Provider, q: Rect, i: nat, h: Hit)
    requires WellFormed(p) && p.Node? && i <= |p.frames|
    ensures h in ChildViews(p, q, i) <==> exists j :: i <= j < |p.frames| && h in ChildResult(p, q, j)
  {
    if h in ChildViews(p, q, i) {
      ChildViewsFrom(p, q, i, h);
    }
    if j :| i <= j < |p.frames| && h in ChildResult(p, q, j) {
      ChildViewsHas(p, q, i, j, h);
    }
  }

  /** The hit lists `parts`, one after another. */
  function Concat(parts: seq<seq<Hit>>): seq<Hit>
  {
    if |parts| == 0 then [] else parts[0] + Concat(parts[1..])
  }

  /**
   * The results of a node follow its frames: from frame `i` on they are the results of the
   * children `i`, `i + 1`, … placed one after another, so all hits of a child come before
   * any hit of a later child.
   */
  lemma {:induction false} ChildViewsOrder(p: Provider, q: Rect, i: nat)
    requires WellFormed(p) && p.Node? && i <= |p.frames|
    ensures ChildViews(p, q, i) == Concat(seq(|p.frames| - i, k requires 0 <= k < |p.frames| - i => ChildResult(p, q, i + k)))
    decreases |p.frames| - i
  {
    if i < |p.frames| {
      ChildViewsOrder(p, q, i + 1);
      ChildPartsTail(p, q, i);
    }
  }

  /** The children's results from frame `i` on are child `i`'s result followed by those from frame `i + 1` on. */
  lemma ChildPartsTail(p: Provider, q: Rect, i: nat)
    requires WellFormed(p) && p.Node? && i < |p.frames|
    ensures var parts := seq(|p.frames| - i, k requires 0 <= k < |p.frames| - i => ChildResult(p, q, i + k));
      && parts[0] == ChildResult(p, q, i)
      && parts[1..] == seq(|p.frames| - (i + 1), k requires 0 <= k < |p.frames| - (i + 1) => ChildResult(p, q, i + 1 + k))
  {
    var parts := seq(|p.frames| - i, k requires 0 <= k < |p.frames| - i => ChildResult(p, q, i + k));
    var rest := seq(|p.frames| - (i + 1), k requires 0 <= k < |p.frames| - (i + 1) => ChildResult(p, q, i + 1 + k));
    forall k | 0 <= k < |rest| ensures parts[1..][k] == rest[k] {
      assert parts[1..][k] == parts[k + 1];
    }
  }

  /** A node's answer is its children's results in frame order. */
  lemma ViewsInFrameOrder(p: Provider, q: Rect)
    requires WellFormed(p) && p.Node?
    ensures ViewsIn(p, q) == Concat(seq(|p.frames|, i requires 0 <= i < |p.frames| => ChildResult(p, q, i)))
  {
    ChildViewsOrder(p, q, 0);
    assert seq(|p.frames| - 0, k requires 0 <= k < |p.frames| - 0 => ChildResult(p, q, 0 + k))
        == seq(|p.frames|, i requires 0 <= i < |p.frames| => ChildResult(p, q, i));
  }

  /** Shifting hits into a child's coordinates and back is the identity on what a leaf reports. */
  lemma LeafUnderNode(c: ClosureProvider, f: Rect, q: Rect)
    requires Intersects(q, f)
    ensures var p := Node([Leaf(c)], [f], false, _ => [f]);
      WellFormed(p) &&
      ViewsIn(p, q) == (if Intersects(LocalQuery(q, f), CachedFrame(c)) then [(c, Offset(CachedFrame(c), f.origin))] else [])
  {
    var p := Node([Leaf(c)], [f], false, _ => [f]);
    assert WellFormed(p);
    assert ChildViews(p, q, 1) == [];
    assert ViewsIn(p, q) == ChildResult(p, q, 0) + [];
  }
}
