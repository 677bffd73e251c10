/**
 * `ComponentEngine`: the state machine behind a component view. On every layout pass it
 * decides between a full reload, a relayout and a plain reload of the visible cells, and
 * each of those ends in the diff of module Reconcile against the views on screen.
 *
 * The engine is an immutable record and every public operation a function from one record
 * to the next. The host view is reduced to its bounds; the animator hooks and the calls
 * into the view hierarchy are appended to `log`.
 */
module ComponentEngine {
  import opened Options
  import opened Geometry
  import opened KeyDedup
  import opened Reconcile

  /** `Renderer`: a laid-out component; `viewsIn` is `views(in:)`. */
  datatype Renderer = Renderer(size: Size, viewsIn: Rect -> seq<ViewData>)

  /** `Component`: `layout` maps the constraint's maximum size to a renderer. */
  datatype Component = Component(layout: Size -> Renderer)

  /** The host view as the engine sees it. */
  datatype HostView = HostView(bounds: Rect)

  datatype Engine = Engine(
    view: Option<HostView>,
    component: Option<Component>,
    animator: AnimatorId,
    renderer: Option<Renderer>,
    needsReload: bool,
    needsLoadCell: bool,
    reloadCount: nat,
    isLoadingCell: bool,
    isReloading: bool,
    visibleCells: seq<ViewId>,
    visibleViewData: seq<ViewData>,
    visibleIdentifiers: seq<string>,
    lastLoadBounds: Rect,
    contentOffsetChange: Point,
    contentSize: Size,
    shouldSkipLayout: bool,
    nextView: ViewId,
    log: seq<Event>)

  /** The three visible lists run in parallel. */
  predicate Aligned(e: Engine)
  {
    |e.visibleIdentifiers| == |e.visibleViewData| == |e.visibleCells|
  }

  /** The invariant every operation keeps: aligned lists, distinct keys and views, no view from the future. */
  predicate Valid(e: Engine)
  {
    OnScreen(e.visibleIdentifiers, e.visibleViewData, e.visibleCells, e.nextView)
  }

  /** A new engine for `view`: nothing on screen yet and a reload pending. */
  function Init(view: HostView, animator: AnimatorId): (e: Engine)
    ensures Valid(e)
    ensures e.needsReload && !e.needsLoadCell && e.reloadCount == 0
    ensures e.view == Some(view) && e.component.None? && e.renderer.None?
    ensures |e.visibleCells| == 0 && |e.log| == 0
  {
    Engine(Some(view), None, animator, None, true, false, 0, false, false, [], [], [],
           ZeroRect, ZeroPoint, ZeroSize, false, 0, [])
  }

  function HasReloaded(e: Engine): bool
  {
    e.reloadCount > 0
  }

  /** `bounds`: the host's bounds, or the zero rect once the host is gone. */
  function Bounds(e: Engine): Rect
  {
    if e.view.Some? then e.view.value.bounds else ZeroRect
  }

  function ContentOffset(e: Engine): Point
  {
    Bounds(e).origin
  }

  /** The `contentOffset` setter moves the host's bounds; without a host it does nothing. */
  function SetContentOffset(e: Engine, p: Point): (r: Engine)
    ensures e.view.Some? ==> ContentOffset(r) == p && Bounds(r).size == Bounds(e).size
    ensures e.view.None? ==> r == e
    ensures r.(view := e.view) == e
  {
    if e.view.Some? then e.(view := Some(HostView(Rect(p, Bounds(e).size)))) else e
  }

  /** The host is scrolled or resized by its owner. */
  function SetHostBounds(e: Engine, b: Rect): (r: Engine)
    ensures e.view.Some? ==> Bounds(r) == b
    ensures e.view.None? ==> r == e
    ensures r.(view := e.view) == e
  {
    if e.view.Some? then e.(view := Some(HostView(b))) else e
  }

  // ---------------------------------------------------------------------
  // Requests for the next layout pass
  // ---------------------------------------------------------------------

  function SetNeedsReload(e: Engine): (r: Engine)
    ensures r.needsReload
    ensures r.(needsReload := e.needsReload) == e
  {
    e.(needsReload := true)
  }

  function SetNeedsLoadCells(e: Engine): (r: Engine)
    ensures r.needsLoadCell
    ensures r.(needsLoadCell := e.needsLoadCell) == e
  {
    e.(needsLoadCell := true)
  }

  /** Drops the renderer, so that the next load lays the component out again. */
  function SetNeedsInvalidateLayout(e: Engine): (r: Engine)
    ensures r.needsLoadCell && r.renderer.None?
    ensures r.(needsLoadCell := e.needsLoadCell, renderer := e.renderer) == e
  {
    SetNeedsLoadCells(e.(renderer := None))
  }

  /** Assigning `component` schedules a reload. */
  function SetComponent(e: Engine, c: Option<Component>): (r: Engine)
    ensures r.component == c && r.needsReload
    ensures r.(component := e.component, needsReload := e.needsReload) == e
  {
    SetNeedsReload(e.(component := c))
  }

  /** Assigning `animator` schedules a reload. */
  function SetAnimator(e: Engine, a: AnimatorId): (r: Engine)
    ensures r.animator == a && r.needsReload
    ensures r.(animator := e.animator, needsReload := e.needsReload) == e
  {
    SetNeedsReload(e.(animator := a))
  }

  /**
   * `updateWithExisting`: installs a component together with a renderer laid out beforehand,
   * so that the next reload skips its own layout.
   */
  function UpdateWithExisting(e: Engine, c: Component, renderer: Renderer): (r: Engine)
    ensures r.component == Some(c) && r.renderer == Some(renderer) && r.shouldSkipLayout && r.needsReload
    ensures r.(component := e.component, renderer := e.renderer, shouldSkipLayout := e.shouldSkipLayout,
               needsReload := e.needsReload) == e
  {
    SetComponent(e, Some(c)).(renderer := Some(renderer), shouldSkipLayout := true)
  }

  // ---------------------------------------------------------------------
  // Loading the visible cells
  // ---------------------------------------------------------------------

  /** The guard of `_loadCells`: a host, a component and no load already running. */
  predicate Loads(e: Engine)
  {
    e.view.Some? && !e.isLoadingCell && e.component.Some?
  }

  /** The renderer a load uses: the current one, or a fresh layout at the size of the bounds. */
  function RendererFor(e: Engine): Renderer
    requires e.component.Some?
  {
    if e.renderer.Some? then e.renderer.value else e.component.value.layout(Bounds(e).size)
  }

  /** The diff a load performs: the views of the renderer inside the bounds against those on screen. */
  function Pass(e: Engine): (d: Reconciled)
    requires Aligned(e) && e.component.Some?
    ensures |d.keys| == |d.cells| == |RendererFor(e).viewsIn(Bounds(e))|
  {
    Reconcile.Reconcile(e.visibleIdentifiers, e.visibleViewData, e.visibleCells, RendererFor(e).viewsIn(Bounds(e)),
                        e.isReloading, e.contentOffsetChange, e.animator, e.nextView)
  }

  /** `_loadCells`. */
  function LoadCells(e: Engine): (r: Engine)
    requires Aligned(e)
    ensures Aligned(r)
    ensures !Loads(e) ==> r == e
    ensures Loads(e) ==>
      && r.renderer == Some(RendererFor(e))
      && r.contentSize == RendererFor(e).size
      && r.visibleViewData == RendererFor(e).viewsIn(Bounds(e))
      && r.visibleIdentifiers == DedupKeys(Ids(r.visibleViewData))
      && r.visibleCells == Pass(e).cells
      && r.lastLoadBounds == Bounds(e)
      && !r.needsLoadCell
      && e.nextView <= r.nextView
      && r.log == e.log + [WillUpdate(e.animator)] + Pass(e).events
    ensures r.view == e.view && r.component == e.component && r.animator == e.animator
    ensures r.needsReload == e.needsReload && r.reloadCount == e.reloadCount
    ensures r.isLoadingCell == e.isLoadingCell && r.isReloading == e.isReloading
    ensures r.contentOffsetChange == e.contentOffsetChange && r.shouldSkipLayout == e.shouldSkipLayout
  {
    if !Loads(e) then e
    else
      var renderer := RendererFor(e);
      var data := renderer.viewsIn(Bounds(e));
      var d := Pass(e);
      e.(renderer := Some(renderer), contentSize := renderer.size,
         visibleIdentifiers := d.keys, visibleViewData := data, visibleCells := d.cells,
         lastLoadBounds := Bounds(e), needsLoadCell := false, nextView := d.next,
         log := e.log + [WillUpdate(e.animator)] + d.events)
  }

  // ---------------------------------------------------------------------
  // Reload and relayout
  // ---------------------------------------------------------------------

  /**
   * The layout step of `reloadData`: a fresh renderer at the size of the bounds, the optional
   * new content offset, and the offset change it makes. Skipped entirely after
   * `updateWithExisting`, which leaves the previous offset change in place.
   */
  function ReloadLayout(e: Engine, adjust: Option<Point>): (r: Engine)
    requires e.component.Some?
    ensures e.shouldSkipLayout ==> r == e
    ensures !e.shouldSkipLayout ==>
      && r.renderer == Some(e.component.value.layout(Bounds(e).size))
      && r.contentSize == r.renderer.value.size
      && Bounds(r).size == Bounds(e).size
      && (e.view.Some? && adjust.Some? ==> ContentOffset(r) == adjust.value)
      && (e.view.None? || adjust.None? ==> Bounds(r) == Bounds(e))
    ensures r.(view := e.view, renderer := e.renderer, contentSize := e.contentSize,
               contentOffsetChange := e.contentOffsetChange) == e
  {
    if e.shouldSkipLayout then e
    else
      var renderer := e.component.value.layout(Bounds(e).size);
      var view := if adjust.Some? && e.view.Some? then Some(HostView(Rect(adjust.value, Bounds(e).size))) else e.view;
      var offset := if view.Some? then view.value.bounds.origin else ZeroPoint;
      e.(view := view, renderer := Some(renderer), contentSize := renderer.size,
         contentOffsetChange := Sub(offset, ContentOffset(e)))
  }

  /** The offset change a reload records is exactly how far its layout step moved the content. */
  lemma ReloadLayoutOffsetChange(e: Engine, adjust: Option<Point>)
    requires e.component.Some? && !e.shouldSkipLayout
    ensures var r := ReloadLayout(e, adjust);
      Add(ContentOffset(e), r.contentOffsetChange) == ContentOffset(r)
  {
    var r := ReloadLayout(e, adjust);
    AddSub(ContentOffset(e), ContentOffset(r));
  }

  /** `reloadData(contentOffsetAdjustFn:)`; `adjust` is the value the adjusting closure returns. */
  function ReloadData(e: Engine, adjust: Option<Point>): (r: Engine)
    requires Aligned(e)
    ensures Aligned(r)
    ensures e.component.None? || e.isReloading ==> r == e
    ensures e.component.Some? && !e.isReloading ==>
      && r.reloadCount == e.reloadCount + 1
      && !r.needsReload && !r.isReloading && !r.shouldSkipLayout
      && r.component == e.component && r.animator == e.animator
      && r.isLoadingCell == e.isLoadingCell
  {
    if e.component.None? || e.isReloading then e
    else
      var laidOut := ReloadLayout(e.(isReloading := true), adjust);
      var loaded := LoadCells(laidOut);
      loaded.(reloadCount := loaded.reloadCount + 1, needsReload := false, isReloading := false,
              shouldSkipLayout := false)
  }

  /** `invalidateLayout`: lay out again and reload the cells, once a first reload has happened. */
  function InvalidateLayout(e: Engine): (r: Engine)
    requires Aligned(e)
    ensures Aligned(r)
    ensures e.isLoadingCell || e.isReloading || !HasReloaded(e) ==> r == e
    ensures r.reloadCount == e.reloadCount && r.needsReload == e.needsReload
  {
    if e.isLoadingCell || e.isReloading || !HasReloaded(e) then e
    else LoadCells(e.(renderer := None))
  }

  /** `layoutSubview`: the dispatch of one layout pass of the host. */
  function LayoutSubview(e: Engine): (r: Engine)
    requires Aligned(e)
    ensures Aligned(r)
  {
    if e.needsReload then ReloadData(e, None)
    else if Bounds(e).size != e.lastLoadBounds.size then InvalidateLayout(e)
    else if Bounds(e) != e.lastLoadBounds || e.needsLoadCell then LoadCells(e)
    else e
  }

  // ---------------------------------------------------------------------
  // The invariant
  // ---------------------------------------------------------------------

  lemma LoadCellsValid(e: Engine)
    requires Valid(e)
    ensures var r := LoadCells(e);
      && Valid(r)
      && e.nextView <= r.nextView
      && (forall i, j :: (0 <= i < |e.visibleCells| && 0 <= j < |r.visibleCells| &&
                          e.visibleIdentifiers[i] == r.visibleIdentifiers[j]) ==> r.visibleCells[j] == e.visibleCells[i])
      && (forall j :: 0 <= j < |r.visibleCells| && r.visibleIdentifiers[j] !in e.visibleIdentifiers ==>
            e.nextView <= r.visibleCells[j] && r.visibleCells[j] !in e.visibleCells)
  {
    if Loads(e) {
      var data := RendererFor(e).viewsIn(Bounds(e));
      DiffCarriesOver(e.visibleIdentifiers, e.visibleViewData, e.visibleCells, data, DedupKeys(Ids(data)),
                      e.isReloading, e.contentOffsetChange, e.animator, e.nextView);
    }
  }

  lemma ReloadLayoutValid(e: Engine, adjust: Option<Point>)
    requires Valid(e) && e.component.Some?
    ensures Valid(ReloadLayout(e, adjust))
  {
  }

  lemma ReloadDataValid(e: Engine, adjust: Option<Point>)
    requires Valid(e)
    ensures Valid(ReloadData(e, adjust))
  {
    if e.component.Some? && !e.isReloading {
      var laidOut := ReloadLayout(e.(isReloading := true), adjust);
      ReloadLayoutValid(e.(isReloading := true), adjust);
      LoadCellsValid(laidOut);
    }
  }

  lemma InvalidateLayoutValid(e: Engine)
    requires Valid(e)
    ensures Valid(InvalidateLayout(e))
  {
    if !(e.isLoadingCell || e.isReloading || !HasReloaded(e)) {
      LoadCellsValid(e.(renderer := None));
    }
  }

  /** Every layout pass keeps the invariant, whatever happened to the host in between. */
  lemma LayoutSubviewValid(e: Engine)
    requires Valid(e)
    ensures Valid(LayoutSubview(e))
  {
    if e.needsReload {
      ReloadDataValid(e, None);
    } else if Bounds(e).size != e.lastLoadBounds.size {
      InvalidateLayoutValid(e);
    } else {
      LoadCellsValid(e);
    }
  }

  // ---------------------------------------------------------------------
  // What a load tells the animator
  // ---------------------------------------------------------------------

  /**
   * Each view of a load gets the hooks its key dictates: a view whose key was on screen before
   * is updated and attached (and, inside a reload, refreshed and shifted) but never inserted;
   * a view with a new key is made, configured, inserted, updated and attached exactly once.
   */
  lemma LoadCellsPlaced(e: Engine, j: nat, kind: Kind)
    requires Valid(e) && Loads(e)
    requires j < |LoadCells(e).visibleCells|
    ensures var r := LoadCells(e);
      Count(Pass(e).events, kind, r.visibleCells[j]) ==
        SlotCount(if r.visibleIdentifiers[j] in e.visibleIdentifiers then Some(r.visibleCells[j]) else None,
                  e.isReloading, kind)
  {
    var data := RendererFor(e).viewsIn(Bounds(e));
    DiffCountPlaced(e.visibleIdentifiers, e.visibleViewData, e.visibleCells, data, DedupKeys(Ids(data)),
                    e.isReloading, e.contentOffsetChange, e.animator, e.nextView, kind, j);
  }

  /** A view whose key is gone is deleted exactly once, gets no other hook, and leaves the screen. */
  lemma LoadCellsRemoved(e: Engine, i: nat, kind: Kind)
    requires Valid(e) && Loads(e)
    requires i < |e.visibleCells| && e.visibleIdentifiers[i] !in LoadCells(e).visibleIdentifiers
    ensures Count(Pass(e).events, kind, e.visibleCells[i]) == if kind == DeleteKind then 1 else 0
    ensures e.visibleCells[i] !in LoadCells(e).visibleCells
  {
    var data := RendererFor(e).viewsIn(Bounds(e));
    DiffCountRemoved(e.visibleIdentifiers, e.visibleViewData, e.visibleCells, data, DedupKeys(Ids(data)),
                     e.isReloading, e.contentOffsetChange, e.animator, e.nextView, kind, i);
    DiffRemoved(e.visibleIdentifiers, e.visibleViewData, e.visibleCells, data, DedupKeys(Ids(data)),
                e.isReloading, e.contentOffsetChange, e.animator, e.nextView, i);
  }

  /** A view on screen neither before nor after a load is never mentioned by it. */
  lemma LoadCellsUntouched(e: Engine, v: ViewId, kind: Kind)
    requires Valid(e) && Loads(e)
    requires v !in e.visibleCells && v !in LoadCells(e).visibleCells
    ensures Count(Pass(e).events, kind, v) == 0
  {
    var data := RendererFor(e).viewsIn(Bounds(e));
    DiffCountUntouched(e.visibleIdentifiers, e.visibleViewData, e.visibleCells, data, DedupKeys(Ids(data)),
                       e.isReloading, e.contentOffsetChange, e.animator, e.nextView, kind, v);
  }

  /** Only a load inside a reload shifts views. */
  lemma LoadCellsNoShift(e: Engine, v: ViewId)
    requires Valid(e) && Loads(e) && !e.isReloading
    ensures Count(Pass(e).events, ShiftKind, v) == 0
  {
    var data := RendererFor(e).viewsIn(Bounds(e));
    DiffNoShift(e.visibleIdentifiers, e.visibleViewData, e.visibleCells, data, DedupKeys(Ids(data)),
                e.contentOffsetChange, e.animator, e.nextView, v);
  }

  /**
   * The hooks of a load name the right animator, view and frame: the item's own animator wins
   * over the engine's, every view is updated to its new frame and attached at its index, and
   * inside a reload every carried view is shifted by the reload's offset change.
   */
  lemma LoadCellsHooks(e: Engine)
    requires Valid(e) && Loads(e)
    ensures var r := LoadCells(e);
      var evs := Pass(e).events;
      && r.log[|e.log|] == WillUpdate(e.animator)
      && (forall i :: 0 <= i < |e.visibleCells| && e.visibleIdentifiers[i] !in r.visibleIdentifiers ==>
            Delete(AnimatorFor(e.visibleViewData[i], e.animator), e.visibleCells[i]) in evs)
      && (forall j :: 0 <= j < |r.visibleCells| ==>
            Update(AnimatorFor(r.visibleViewData[j], e.animator), r.visibleCells[j], r.visibleViewData[j].frame) in evs)
      && (forall j :: 0 <= j < |r.visibleCells| ==> Attach(r.visibleCells[j], j) in evs)
      && (forall j :: 0 <= j < |r.visibleCells| && r.visibleIdentifiers[j] !in e.visibleIdentifiers ==>
            Insert(AnimatorFor(r.visibleViewData[j], e.animator), r.visibleCells[j], r.visibleViewData[j].frame) in evs)
      && (forall j :: 0 <= j < |r.visibleCells| && r.visibleIdentifiers[j] in e.visibleIdentifiers && e.isReloading ==>
            Shift(AnimatorFor(r.visibleViewData[j], e.animator), e.contentOffsetChange, r.visibleCells[j],
                  r.visibleViewData[j].frame) in evs)
  {
    var data := RendererFor(e).viewsIn(Bounds(e));
    DiffHooks(e.visibleIdentifiers, e.visibleViewData, e.visibleCells, data, DedupKeys(Ids(data)),
              e.isReloading, e.contentOffsetChange, e.animator, e.nextView);
  }

  /**
   * Loading twice over the same bounds with the same renderer changes nothing on screen: every
   * view stays in its slot and the second load neither inserts nor deletes.
   */
  lemma LoadCellsTwice(e: Engine)
    requires Valid(e) && Loads(e)
    ensures var r := LoadCells(e);
      var r2 := LoadCells(r);
      && Valid(r) && Loads(r)
      && r2.visibleCells == r.visibleCells
      && r2.visibleIdentifiers == r.visibleIdentifiers
      && r2.visibleViewData == r.visibleViewData
  {
    var r := LoadCells(e);
    LoadCellsValid(e);
    LoadCellsValid(r);
    assert Loads(r) && RendererFor(r) == RendererFor(e) && Bounds(r) == Bounds(e);
    var r2 := LoadCells(r);
    assert r2.visibleIdentifiers == r.visibleIdentifiers;
    forall j | 0 <= j < |r2.visibleCells| ensures r2.visibleCells[j] == r.visibleCells[j] {
      assert r.visibleIdentifiers[j] == r2.visibleIdentifiers[j];
    }
  }

  /** In the second of two loads, a view on screen keeps its key, so it is neither inserted nor deleted. */
  lemma LoadCellsTwiceKept(e: Engine, kind: Kind, j: nat)
    requires Valid(e) && Loads(e)
    requires kind == InsertKind || kind == DeleteKind
    requires j < |LoadCells(e).visibleCells|
    ensures var r := LoadCells(e);
      Count(Pass(r).events, kind, r.visibleCells[j]) == 0
  {
    var r := LoadCells(e);
    LoadCellsTwice(e);
    var r2 := LoadCells(r);
    assert r2.visibleCells[j] == r.visibleCells[j];
    assert r2.visibleIdentifiers[j] in r.visibleIdentifiers;
    LoadCellsPlaced(r, j, kind);
  }

  /** The second of two loads over the same bounds and renderer neither inserts nor deletes any view. */
  lemma LoadCellsTwiceQuiet(e: Engine, kind: Kind, v: ViewId)
    requires Valid(e) && Loads(e)
    requires kind == InsertKind || kind == DeleteKind
    ensures var r := LoadCells(e);
      Count(Pass(r).events, kind, v) == 0
  {
    var r := LoadCells(e);
    if j :| 0 <= j < |r.visibleCells| && r.visibleCells[j] == v {
      LoadCellsTwiceKept(e, kind, j);
    } else {
      LoadCellsTwice(e);
      LoadCellsUntouched(r, v, kind);
    }
  }

  // ---------------------------------------------------------------------
  // Reload, relayout and dispatch
  // ---------------------------------------------------------------------

  /**
   * A reload that lays out (the usual case) uses a fresh layout at the size of the bounds,
   * moves to the adjusted offset, records the offset change, and reloads the cells at the new
   * bounds with every carried view refreshed and shifted by that change.
   */
  lemma ReloadDataLaysOut(e: Engine, adjust: Option<Point>)
    requires Valid(e) && Loads(e) && !e.isReloading && !e.shouldSkipLayout
    ensures var r := ReloadData(e, adjust);
      var renderer := e.component.value.layout(Bounds(e).size);
      && r.renderer == Some(renderer)
      && r.contentSize == renderer.size
      && Bounds(r).size == Bounds(e).size
      && (adjust.Some? ==> ContentOffset(r) == adjust.value)
      && (adjust.None? ==> Bounds(r) == Bounds(e) && r.contentOffsetChange == ZeroPoint)
      && Add(ContentOffset(e), r.contentOffsetChange) == ContentOffset(r)
      && r.visibleViewData == renderer.viewsIn(Bounds(r))
      && r.lastLoadBounds == Bounds(r)
      && !r.needsLoadCell
      && r.reloadCount == e.reloadCount + 1
  {
    var e1 := e.(isReloading := true);
    var laidOut := ReloadLayout(e1, adjust);
    var renderer := e.component.value.layout(Bounds(e).size);
    assert Bounds(e1) == Bounds(e);
    assert laidOut.renderer == Some(renderer) && Loads(laidOut);
    var loaded := LoadCells(laidOut);
    assert loaded.view == laidOut.view && Bounds(loaded) == Bounds(laidOut);
    assert ReloadData(e, adjust).view == loaded.view;
    ReloadLayoutOffsetChange(e1, adjust);
  }

  /** A reload is a load of its laid-out engine, with the reload flag up and the same views on screen. */
  lemma ReloadDataLoads(e: Engine, adjust: Option<Point>)
    requires Valid(e) && Loads(e) && !e.isReloading
    ensures var laidOut := ReloadLayout(e.(isReloading := true), adjust);
      var r := ReloadData(e, adjust);
      && Valid(laidOut) && Loads(laidOut) && laidOut.isReloading
      && laidOut.visibleIdentifiers == e.visibleIdentifiers
      && r.visibleCells == LoadCells(laidOut).visibleCells
      && r.visibleIdentifiers == LoadCells(laidOut).visibleIdentifiers
  {
    var e1 := e.(isReloading := true);
    ReloadLayoutValid(e1, adjust);
  }

  /** Inside a reload, every view carried over is refreshed by its renderer and shifted once. */
  lemma ReloadDataRefreshes(e: Engine, adjust: Option<Point>, j: nat)
    requires Valid(e) && Loads(e) && !e.isReloading
    requires j < |ReloadData(e, adjust).visibleCells|
    requires ReloadData(e, adjust).visibleIdentifiers[j] in e.visibleIdentifiers
    ensures var laidOut := ReloadLayout(e.(isReloading := true), adjust);
      var v := ReloadData(e, adjust).visibleCells[j];
      && Count(Pass(laidOut).events, ConfigureKind, v) == 1
      && Count(Pass(laidOut).events, ShiftKind, v) == 1
      && Count(Pass(laidOut).events, InsertKind, v) == 0
  {
    var laidOut := ReloadLayout(e.(isReloading := true), adjust);
    ReloadDataLoads(e, adjust);
    LoadCellsPlaced(laidOut, j, ConfigureKind);
    LoadCellsPlaced(laidOut, j, ShiftKind);
    LoadCellsPlaced(laidOut, j, InsertKind);
  }

  /**
   * After `updateWithExisting` a reload skips its layout: it renders with the renderer it was
   * given, ignores the offset adjustment, and keeps the offset change of the previous reload.
   */
  lemma ReloadDataSkipsLayout(e: Engine, adjust: Option<Point>)
    requires Valid(e) && Loads(e) && !e.isReloading && e.shouldSkipLayout && e.renderer.Some?
    ensures var r := ReloadData(e, adjust);
      && r.renderer == e.renderer
      && Bounds(r) == Bounds(e)
      && r.contentOffsetChange == e.contentOffsetChange
      && r.visibleViewData == e.renderer.value.viewsIn(Bounds(e))
      && !r.shouldSkipLayout
  {
  }

  /** Without a host a reload still counts and clears the pending request, but loads nothing. */
  lemma ReloadDataWithoutHost(e: Engine, adjust: Option<Point>)
    requires Aligned(e) && e.view.None? && e.component.Some? && !e.isReloading
    ensures var r := ReloadData(e, adjust);
      && r.reloadCount == e.reloadCount + 1 && !r.needsReload
      && r.visibleCells == e.visibleCells && r.log == e.log
  {
  }

  /**
   * A relayout lays the component out again at the size of the bounds and reloads the cells
   * without refreshing the contents of the views it keeps.
   */
  lemma InvalidateLayoutRelayouts(e: Engine, j: nat)
    requires Valid(e) && Loads(e) && !e.isReloading && HasReloaded(e)
    requires j < |InvalidateLayout(e).visibleCells|
    ensures var r := InvalidateLayout(e);
      && r.renderer == Some(e.component.value.layout(Bounds(e).size))
      && r.visibleViewData == r.renderer.value.viewsIn(Bounds(e))
      && r.lastLoadBounds == Bounds(e)
      && (r.visibleIdentifiers[j] in e.visibleIdentifiers ==>
            Count(Pass(e.(renderer := None)).events, ConfigureKind, r.visibleCells[j]) == 0)
  {
    var e1 := e.(renderer := None);
    assert Valid(e1) && Loads(e1);
    var r := LoadCells(e1);
    assert InvalidateLayout(e) == r;
    LoadCellsPlaced(e1, j, ConfigureKind);
  }

  /**
   * A pending reload wins over every other reason to lay out, whatever the bounds or the load
   * request: the pass counts one reload, lays out afresh unless told to skip, and loads the
   * cells at the current bounds. Without a component, or inside a reload, the pass does
   * nothing at all, even when the size changed.
   */
  lemma LayoutSubviewReloads(e: Engine)
    requires Aligned(e) && e.needsReload
    ensures var r := LayoutSubview(e);
      && (e.component.None? || e.isReloading ==> r == e)
      && (e.component.Some? && !e.isReloading ==>
            && r.reloadCount == e.reloadCount + 1 && !r.needsReload
            && (!e.shouldSkipLayout ==> r.renderer.Some? && r.renderer.value == e.component.value.layout(Bounds(e).size))
            && (e.view.Some? && !e.isLoadingCell ==> !r.needsLoadCell && r.lastLoadBounds == Bounds(r)))
  {
  }

  /** A change of size lays out again, but not before the first reload. */
  lemma LayoutSubviewResized(e: Engine)
    requires Aligned(e) && !e.needsReload && Bounds(e).size != e.lastLoadBounds.size
    ensures LayoutSubview(e) == InvalidateLayout(e)
    ensures !HasReloaded(e) ==> LayoutSubview(e) == e
  {
  }

  /**
   * A scroll (same size, other origin) or a load request reloads only the cells: the current
   * renderer is kept and no reload is counted.
   */
  lemma LayoutSubviewScrolled(e: Engine)
    requires Aligned(e) && !e.needsReload && Bounds(e).size == e.lastLoadBounds.size
    requires Bounds(e) != e.lastLoadBounds || e.needsLoadCell
    ensures var r := LayoutSubview(e);
      && r == LoadCells(e)
      && r.reloadCount == e.reloadCount
      && (e.renderer.Some? ==> r.renderer == e.renderer)
  {
  }

  /**
   * One layout pass settles the engine: a second pass right after it does nothing, provided
   * the first one could run (a host and a component, no load or reload in progress, and
   * either a reload pending or a reload done).
   */
  lemma LayoutSubviewSettles(e: Engine)
    requires Aligned(e) && Loads(e) && !e.isReloading
    requires e.needsReload || HasReloaded(e)
    ensures var r := LayoutSubview(e);
      LayoutSubview(r) == r
  {
    var r := LayoutSubview(e);
    if e.needsReload {
      var laidOut := ReloadLayout(e.(isReloading := true), None);
      assert Loads(laidOut) && Bounds(laidOut) == Bounds(e);
      assert Bounds(r) == r.lastLoadBounds;
    }
  }

  /** Requesting a reload makes the next layout pass reload. */
  lemma SetNeedsReloadThenLayout(e: Engine)
    requires Aligned(e) && e.component.Some? && !e.isReloading
    ensures var r := LayoutSubview(SetNeedsReload(e));
      r.reloadCount == e.reloadCount + 1 && !r.needsReload
  {
  }

  /** Requesting a load makes the next layout pass load the cells with the current renderer. */
  lemma SetNeedsLoadCellsThenLayout(e: Engine)
    requires Aligned(e) && Loads(e) && !e.needsReload && Bounds(e).size == e.lastLoadBounds.size
    ensures var r := LayoutSubview(SetNeedsLoadCells(e));
      && !r.needsLoadCell && r.lastLoadBounds == Bounds(e) && r.reloadCount == e.reloadCount
      && (e.renderer.Some? ==> r.renderer == e.renderer)
  {
  }

  /** Invalidating the layout makes the next layout pass lay the component out again. */
  lemma SetNeedsInvalidateLayoutThenLayout(e: Engine)
    requires Aligned(e) && Loads(e) && !e.needsReload && Bounds(e).size == e.lastLoadBounds.size
    ensures var r := LayoutSubview(SetNeedsInvalidateLayout(e));
      && r.renderer == Some(e.component.value.layout(Bounds(e).size))
      && !r.needsLoadCell && r.reloadCount == e.reloadCount
  {
  }

  /**
   * `updateWithExisting` followed by a layout pass renders with the given renderer exactly
   * once: the pass reloads without laying out, and the next requested reload lays out again.
   */
  lemma UpdateWithExistingOnce(e: Engine, c: Component, renderer: Renderer)
    requires Aligned(e) && e.view.Some? && !e.isLoadingCell && !e.isReloading
    ensures var r := LayoutSubview(UpdateWithExisting(e, c, renderer));
      var r2 := LayoutSubview(SetNeedsReload(r));
      && r.renderer == Some(renderer)
      && r.visibleViewData == renderer.viewsIn(Bounds(e))
      && r.reloadCount == e.reloadCount + 1
      && r2.renderer == Some(c.layout(Bounds(e).size))
  {
    var u := UpdateWithExisting(e, c, renderer);
    var r := LayoutSubview(u);
    assert Bounds(r) == Bounds(e);
    assert !r.shouldSkipLayout && !r.isReloading && !r.isLoadingCell && r.component == Some(c);
  }

  /** A load started from inside a load, or a reload from inside a reload, does nothing. */
  lemma ReentrantCallsIgnored(e: Engine, adjust: Option<Point>)
    requires Aligned(e)
    ensures e.isLoadingCell ==> LoadCells(e) == e && InvalidateLayout(e) == e
    ensures e.isReloading ==> ReloadData(e, adjust) == e && InvalidateLayout(e) == e
  {
  }
}
