/**
 * Integer plane geometry standing in for CoreGraphics' CGPoint, CGSize and CGRect.
 * Sizes are natural numbers, so every rectangle is already standardized.
 */
module Geometry {

  datatype Point = Point(x: int, y: int)
  datatype Size = Size(width: nat, height: nat)
  datatype Rect = Rect(origin: Point, size: Size)

  const ZeroPoint: Point := Point(0, 0)
  const ZeroSize: Size := Size(0, 0)
  const ZeroRect: Rect := Rect(ZeroPoint, ZeroSize)

  function Add(p: Point, q: Point): Point { Point(p.x + q.x, p.y + q.y) }
  function Sub(p: Point, q: Point): Point { Point(p.x - q.x, p.y - q.y) }
  function Neg(p: Point): Point { Point(-p.x, -p.y) }

  lemma AddSub(p: Point, q: Point)
    ensures Add(p, Sub(q, p)) == q
  {
  }

  function MinX(r: Rect): int { r.origin.x }
  function MinY(r: Rect): int { r.origin.y }
  function MaxX(r: Rect): int { r.origin.x + r.size.width }
  function MaxY(r: Rect): int { r.origin.y + r.size.height }

  function Max(a: int, b: int): int { if a < b then b else a }
  function Min(a: int, b: int): int { if a < b then a else b }

  /** The rectangle with the given edges; `lo <= hi` on both axes. */
  function FromEdges(minX: int, minY: int, maxX: int, maxY: int): Rect
    requires minX <= maxX && minY <= maxY
  {
    Rect(Point(minX, minY), Size(maxX - minX, maxY - minY))
  }

  // ---------------------------------------------------------------------
  // Transposition (the `transposed` extensions CollectionKit puts on CG types)
  // ---------------------------------------------------------------------

  function TransposePoint(p: Point): Point { Point(p.y, p.x) }
  function TransposeSize(s: Size): Size { Size(s.height, s.width) }
  function TransposeRect(r: Rect): Rect { Rect(TransposePoint(r.origin), TransposeSize(r.size)) }

  function TransposeAll(rs: seq<Rect>): (ts: seq<Rect>)
    ensures |ts| == |rs|
    ensures forall i :: 0 <= i < |rs| ==> ts[i] == TransposeRect(rs[i])
  {
    seq(|rs|, i requires 0 <= i < |rs| => TransposeRect(rs[i]))
  }

  /** Transposition is an involution on sizes and rectangles. */
  lemma TransposeInvolution(s: Size, r: Rect)
    ensures TransposeSize(TransposeSize(s)) == s
    ensures TransposeRect(TransposeRect(r)) == r
  {
  }

  /** Transposing a transposed list of frames gives the list back. */
  lemma TransposeAllInvolution(rs: seq<Rect>)
    ensures TransposeAll(TransposeAll(rs)) == rs
  {
  }

  // ---------------------------------------------------------------------
  // Containment, intersection, union, offset
  // ---------------------------------------------------------------------

  predicate Contains(outer: Rect, inner: Rect)
  {
    && MinX(outer) <= MinX(inner) && MaxX(inner) <= MaxX(outer)
    && MinY(outer) <= MinY(inner) && MaxY(inner) <= MaxY(outer)
  }

  /**
   * CGRect.intersects: on each axis, each rectangle starts strictly before the other ends.
   * Rectangles that only touch along an edge do not intersect.
   */
  predicate Intersects(a: Rect, b: Rect)
  {
    && MinX(a) < MaxX(b) && MinX(b) < MaxX(a)
    && MinY(a) < MaxY(b) && MinY(b) < MaxY(a)
  }

  /** CGRect.intersection, used only on rectangles that intersect. */
  function Intersection(a: Rect, b: Rect): (r: Rect)
    requires Intersects(a, b)
    ensures Contains(a, r) && Contains(b, r)
    ensures forall c :: Contains(a, c) && Contains(b, c) ==> Contains(r, c)
    ensures forall c :: Intersects(c, r) ==> Intersects(c, a) && Intersects(c, b)
  {
    FromEdges(Max(MinX(a), MinX(b)), Max(MinY(a), MinY(b)),
              Min(MaxX(a), MaxX(b)), Min(MaxY(a), MaxY(b)))
  }

  /** CGRect.union of two non-null rectangles: the smallest rectangle containing both. */
  function Union(a: Rect, b: Rect): (r: Rect)
    ensures Contains(r, a) && Contains(r, b)
    ensures forall c :: Contains(c, a) && Contains(c, b) ==> Contains(c, r)
  {
    FromEdges(Min(MinX(a), MinX(b)), Min(MinY(a), MinY(b)),
              Max(MaxX(a), MaxX(b)), Max(MaxY(a), MaxY(b)))
  }

  /** The rectangle moved by `p`, its size unchanged (`rect + point` / `rect - point`). */
  function Offset(r: Rect, p: Point): Rect
  {
    Rect(Add(r.origin, p), r.size)
  }

  /** Moving both rectangles by the same vector keeps whether they intersect. */
  lemma OffsetIntersects(a: Rect, b: Rect, p: Point)
    ensures Intersects(Offset(a, p), Offset(b, p)) <==> Intersects(a, b)
  {
  }

  /** Union commutes with transposition. */
  lemma UnionTranspose(a: Rect, b: Rect)
    ensures TransposeRect(Union(a, b)) == Union(TransposeRect(a), TransposeRect(b))
  {
  }
}
