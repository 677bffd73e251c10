# UIComponent / CollectionKit2 core in Dafny

This project models the pure logic under the UIKit plumbing of UIComponent and
CollectionKit2, and proves properties of it.

**`ComponentEngine`** (modules `ComponentEngine`, `Reconcile`, `KeyDedup`)
- The engine is an immutable record: the flags `needsReload`, `needsLoadCell`, `isLoadingCell`, `isReloading` and `shouldSkipLayout`, plus `reloadCount`, the renderer, the three visible lists, `lastLoadBounds` and `contentOffsetChange`.
- Every public operation is a step function from one record to the next: `layoutSubview`, the `setNeeds*` requests, `reloadData`, `invalidateLayout`, `updateWithExisting` and `_loadCells`.
- Views on screen are opaque ids. A newly made view takes the next id from a counter.
- The host view is reduced to its bounds.
- Every animator hook is appended to an event log. So is every call to a renderer's `_updateView` and every `insertSubview`.
- `_loadCells` works in two steps:
  - It de-duplicates the identity keys (`KeyDedup`). Each key gets the least count 0, 1, 2, … such that the key with that count appended, written in decimal, is not yet claimed. Count 0 means the key itself.
  - It runs the two-pass diff (`Reconcile`). The retire pass carries old views into their new slots or deletes them. The populate pass inserts, updates, attaches and, inside a reload, refreshes and shifts.
- `Valid` is the engine invariant:
  - the three lists are aligned;
  - keys are distinct;
  - views are distinct;
  - no view id is at or beyond the counter.

  Every step keeps `Valid`.
- The event lemmas count, per kind and per view, exactly which hooks a load issues.

**CollectionKit2 providers** (modules `Views`, `ClosureViewProvider`, `LayoutProvider`, `ViewAdapter`)
- **Views** are a class name, a map of property values and the reset holders of their context.
  - A property missing from the map holds the view's own initial value.
- **`ClosureViewProvider`** is the leaf provider:
  - its layout caches the size its size source answers;
  - its visibility query returns itself at the origin, or nothing;
  - `makeView` and `updateView` follow the reuse-then-generator order and the class guard.
- **`LayoutProvider`** is a tree of providers:
  - a node's layout asks the abstract `simpleLayout` for frames, with the axes swapped when it is transposed;
  - the node's content size is the bounding box of the frames, folded from the zero rect;
  - the visibility query clips to each child's frame, recurses in child coordinates and moves the hits back.
  - The query returns hits and not a new provider, so it cannot change the frames; the same query always gives the same answer.
- **`ViewAdapter`** records property writes with `with`, and `updateView` applies them with the two loops of the source.
  - The loops visit keys in no fixed order. `UpdateView` is proved equal to a reference definition `Updated` that does not depend on that order.
  - `Updated` in turn is proved history-independent: what a reused view shows depends only on the last adapter that updated it.

Geometry is on integers: points are `int`, sizes are `nat`.
- `Intersects` holds when, on each axis, each rectangle starts strictly before the other one ends.
- `Union` is the bounding box.
- `Intersection` is only used on rectangles that intersect.

The key de-duplication is modelled as the loop in the source runs, with one difference: keys are compared code point by code point, not by Unicode canonical equivalence (see "## Left out"). The code does not always keep the first occurrence of a declared key: for the declared keys `"a", "a", "a1"` the second `"a"` takes `"a1"` first, so the one leaf that declared `"a1"` ends up as `"a11"` (`KeyDedup.FirstOccurrenceCanBeSuffixed`). The model follows the code. What holds in general is proved instead:
- a declared key not claimed by an earlier effective key is kept (`KeyDedup.UnclaimedKeyKept`);
- pairwise distinct declared keys are all kept (`KeyDedup.DistinctKeysUnchanged`).

## Model

| member | source | states |
|---|---|---|
| KeyDedup.FirstFree | Sources/UIComponent/Core/ComponentEngine.swift:189-194 | The search for an unclaimed candidate ends: it stops at a count whose candidate is free, and every smaller count's candidate is claimed. |
| KeyDedup.EffectiveKeyUnique | Sources/UIComponent/Core/ComponentEngine.swift:189-194 | The least-count rule fixes the effective key: any count whose candidate is free while every smaller one is claimed is the count chosen. |
| KeyDedup.DedupKeys | Sources/UIComponent/Core/ComponentEngine.swift:186-197 | There is one effective key per view data, and the effective keys are pairwise distinct. |
| KeyDedup.DedupKeysRule | Sources/UIComponent/Core/ComponentEngine.swift:187-196 | Effective key `i` is the declared key with the least count whose candidate no earlier effective key of the pass has claimed. |
| KeyDedup.KeyIndex | Sources/UIComponent/Core/ComponentEngine.swift:186-195 | `newIdentifierSet` maps each effective key to its own index and holds no other key. |
| KeyDedup.UnclaimedKeyKept | Sources/UIComponent/Core/ComponentEngine.swift:189-191 | A declared key that no earlier effective key has claimed is kept unchanged. |
| KeyDedup.EffectiveKeyExtendsDeclared | Sources/UIComponent/Core/ComponentEngine.swift:188-193 | Every effective key is its declared key, or the declared key followed by the decimal string of a count of at least 1. |
| KeyDedup.DistinctKeysUnchanged | Sources/UIComponent/Core/ComponentEngine.swift:186-197 | When the declared keys are pairwise distinct, the effective keys are exactly the declared ones. |
| KeyDedup.TwoEqualKeys | Sources/UIComponent/Core/ComponentEngine.swift:186-197 | The declared keys "a", "a" give "a", "a1". |
| KeyDedup.ThreeEqualKeys | Sources/UIComponent/Core/ComponentEngine.swift:186-197 | The declared keys "a", "a", "a" give "a", "a1", "a2". |
| KeyDedup.SkipsClaimedSuffix | Sources/UIComponent/Core/ComponentEngine.swift:191-194 | The declared keys "a", "a1", "a" give "a", "a1", "a2": the search skips a suffix that is already claimed. |
| KeyDedup.FirstOccurrenceCanBeSuffixed | Sources/UIComponent/Core/ComponentEngine.swift:186-197 | The declared keys "a", "a", "a1" give "a", "a1", "a11": the first leaf that declares "a1" does not keep it. |
| Reconcile.RetireSlots | Sources/UIComponent/Core/ComponentEngine.swift:199-206 | Each old view whose key has a new slot lands in exactly that slot, and every filled slot holds the old view of its key. |
| Reconcile.RetireEvents | Sources/UIComponent/Core/ComponentEngine.swift:202-211 | The retire pass deletes each old view exactly once if its key has no slot, never deletes a carried view, and logs nothing else. |
| Reconcile.RetireDeletes | Sources/UIComponent/Core/ComponentEngine.swift:207-209 | Each removed view is deleted through its own item's animator, falling back to the engine's. |
| Reconcile.PopulateCells | Sources/UIComponent/Core/ComponentEngine.swift:214-243 | The populate pass fills every slot, keeps each carried view in its slot, and gives every empty slot a new view; all the views are pairwise different. |
| Reconcile.PopulateCounts | Sources/UIComponent/Core/ComponentEngine.swift:214-243 | Per kind, each view of the pass gets exactly the hooks its slot calls for, and views in no slot get none. A carried view gets one update and one attach, plus one refresh and one shift inside a reload. A new view gets one configure, insert, update and attach. |
| Reconcile.PopulateHooks | Sources/UIComponent/Core/ComponentEngine.swift:216-242 | Each hook of slot `j` carries the item's animator (else the engine's), the slot's view, its new frame, its index, and the reload's offset change. |
| Reconcile.Reconcile | Sources/UIComponent/Core/ComponentEngine.swift:185-243 | One diff yields one effective key and one view per new view data, and the effective keys are the de-duplicated declared keys. |
| Reconcile.DiffCarriesOver | Sources/UIComponent/Core/ComponentEngine.swift:199-248 | After a diff, keys and views are distinct and aligned. A view whose key was on screen is the same instance as before. Every other view is new: it is at or past the counter and was not on screen. New views are fresh here; see "## Left out". |
| Reconcile.DiffRemoved | Sources/UIComponent/Core/ComponentEngine.swift:202-211 | An old view whose key is gone is not on screen after the diff. New views are fresh here; see "## Left out". |
| Reconcile.DiffCountRemoved | Sources/UIComponent/Core/ComponentEngine.swift:202-243 | An old view whose key is gone gets exactly one delete and no other event. New views are fresh here; see "## Left out". |
| Reconcile.DiffCountPlaced | Sources/UIComponent/Core/ComponentEngine.swift:201-243 | A view of the new pass gets the hooks of a carried view if its key was on screen, and those of a new view otherwise. New views are fresh here; see "## Left out". |
| Reconcile.DiffCountUntouched | Sources/UIComponent/Core/ComponentEngine.swift:201-243 | A view on screen neither before nor after the diff is never mentioned. |
| Reconcile.DiffNoShift | Sources/UIComponent/Core/ComponentEngine.swift:217-226 | Outside a reload, no view is shifted. |
| Reconcile.DiffHooks | Sources/UIComponent/Core/ComponentEngine.swift:201-243 | The deletes, updates, attaches, inserts and shifts of a diff name the right animator, view, frame, index and offset change. |
| ComponentEngine.Init | Sources/UIComponent/Core/ComponentEngine.swift:21-33 | A new engine satisfies the invariant, has a reload pending, has not reloaded, and shows nothing. |
| ComponentEngine.SetContentOffset | Sources/UIComponent/Core/ComponentEngine.swift:50-53 | Setting the content offset moves the host's bounds without resizing them. Without a host it changes nothing. |
| ComponentEngine.SetHostBounds | Sources/UIComponent/Core/ComponentEngine.swift:58-61 | When the owner scrolls or resizes the host, `bounds` reads the new rectangle and nothing else changes. Without a host it changes nothing. |
| ComponentEngine.SetNeedsReload | Sources/UIComponent/Core/ComponentEngine.swift:110-113 | Raises `needsReload` and changes nothing else. |
| ComponentEngine.SetNeedsLoadCells | Sources/UIComponent/Core/ComponentEngine.swift:120-123 | Raises `needsLoadCell` and changes nothing else. |
| ComponentEngine.SetNeedsInvalidateLayout | Sources/UIComponent/Core/ComponentEngine.swift:115-118 | Drops the renderer, raises `needsLoadCell`, and changes nothing else. |
| ComponentEngine.SetComponent | Sources/UIComponent/Core/ComponentEngine.swift:12-14 | Assigning the component schedules a reload and changes nothing else. |
| ComponentEngine.SetAnimator | Sources/UIComponent/Core/ComponentEngine.swift:15-17 | Assigning the animator schedules a reload and changes nothing else. |
| ComponentEngine.UpdateWithExisting | Sources/UIComponent/Core/ComponentEngine.swift:254-258 | Installs the component and the given renderer, raises `shouldSkipLayout`, and schedules a reload. |
| ComponentEngine.LoadCells | Sources/UIComponent/Core/ComponentEngine.swift:158-249 | Without a host or a component, or inside a load, nothing happens. Otherwise the load: keeps or lays out the renderer; takes the view data inside the bounds; stores the de-duplicated keys and the diff's views; records the bounds; clears `needsLoadCell`; and logs `willUpdate` followed by the diff's events. |
| ComponentEngine.ReloadLayout | Sources/UIComponent/Core/ComponentEngine.swift:142-151 | Unless skipped, the layout step lays out at the bounds' size, moves the offset to the adjusted value if one is given, and keeps the bounds' size. When skipped it changes nothing. |
| ComponentEngine.ReloadLayoutOffsetChange | Sources/UIComponent/Core/ComponentEngine.swift:146-150 | The recorded offset change is exactly how far the layout step moved the content offset. |
| ComponentEngine.ReloadData | Sources/UIComponent/Core/ComponentEngine.swift:133-156 | Without a component, or inside a reload, nothing happens. Otherwise `reloadCount` rises by one, and the reload, skip and reloading flags are clear on exit. |
| ComponentEngine.InvalidateLayout | Sources/UIComponent/Core/ComponentEngine.swift:126-130 | Inside a load or a reload, or before the first reload, nothing happens. It never counts a reload. |
| ComponentEngine.LoadCellsValid | Sources/UIComponent/Core/ComponentEngine.swift:158-249 | A load keeps the invariant, keeps the instance of every view whose key stays on screen, and gives every new key a view that was not on screen. New views are fresh here; see "## Left out". |
| ComponentEngine.ReloadLayoutValid | Sources/UIComponent/Core/ComponentEngine.swift:142-151 | The layout step of a reload keeps the invariant. |
| ComponentEngine.ReloadDataValid | Sources/UIComponent/Core/ComponentEngine.swift:133-156 | A reload keeps the invariant. |
| ComponentEngine.InvalidateLayoutValid | Sources/UIComponent/Core/ComponentEngine.swift:126-130 | A relayout keeps the invariant. |
| ComponentEngine.LayoutSubviewValid | Sources/UIComponent/Core/ComponentEngine.swift:77-87 | Every layout pass keeps the invariant. |
| ComponentEngine.LoadCellsPlaced | Sources/UIComponent/Core/ComponentEngine.swift:214-243 | Each view of a load gets exactly the hooks its key calls for: those of a carried view or those of a new view. New views are fresh here; see "## Left out". |
| ComponentEngine.LoadCellsRemoved | Sources/UIComponent/Core/ComponentEngine.swift:201-211 | A view whose key is gone is deleted exactly once, gets no other hook, and leaves the screen. New views are fresh here; see "## Left out". |
| ComponentEngine.LoadCellsUntouched | Sources/UIComponent/Core/ComponentEngine.swift:201-243 | A view on screen neither before nor after a load gets no hook. |
| ComponentEngine.LoadCellsNoShift | Sources/UIComponent/Core/ComponentEngine.swift:219-226 | A load outside a reload shifts no view. |
| ComponentEngine.LoadCellsHooks | Sources/UIComponent/Core/ComponentEngine.swift:175-242 | A load first tells the engine's animator `willUpdate`. The deletes, updates, attaches, inserts and shifts then carry the item's animator (else the engine's), the new frame and index, and the reload's offset change. |
| ComponentEngine.LoadCellsTwice | Sources/UIComponent/Core/ComponentEngine.swift:166-247 | A second load over the same bounds with the kept renderer leaves the keys, the view data and the views exactly as they were. |
| ComponentEngine.LoadCellsTwiceKept | Sources/UIComponent/Core/ComponentEngine.swift:201-243 | Over the same bounds with the kept renderer, a second load neither inserts nor deletes any of the views the first load left on screen. |
| ComponentEngine.LoadCellsTwiceQuiet | Sources/UIComponent/Core/ComponentEngine.swift:201-243 | That second load neither inserts nor deletes any view. |
| ComponentEngine.ReloadDataLaysOut | Sources/UIComponent/Core/ComponentEngine.swift:133-156 | A reload that lays out does all of the following: uses a fresh layout at the bounds' size; moves to the adjusted offset, or keeps the bounds with a zero offset change; records how far the offset moved; loads the view data inside the new bounds; clears `needsLoadCell`; and counts one reload. |
| ComponentEngine.ReloadDataLoads | Sources/UIComponent/Core/ComponentEngine.swift:133-156 | The views of a reload are those of a load run with the reloading flag up, over the same views on screen. |
| ComponentEngine.ReloadDataRefreshes | Sources/UIComponent/Core/ComponentEngine.swift:217-226 | Inside a reload, every carried view is refreshed once and shifted once, and is never inserted. |
| ComponentEngine.ReloadDataSkipsLayout | Sources/UIComponent/Core/ComponentEngine.swift:139-153 | After `updateWithExisting`, a reload keeps the given renderer and the bounds. It ignores the adjustment, keeps the previous offset change, and clears the skip flag. |
| ComponentEngine.ReloadDataWithoutHost | Sources/UIComponent/Core/ComponentEngine.swift:133-159 | Without a host, a reload still counts and clears `needsReload`, but loads nothing and logs nothing. |
| ComponentEngine.InvalidateLayoutRelayouts | Sources/UIComponent/Core/ComponentEngine.swift:126-130 | A relayout lays the component out again at the bounds' size and reloads the cells, without refreshing the contents of the views it keeps. |
| ComponentEngine.LayoutSubviewReloads | Sources/UIComponent/Core/ComponentEngine.swift:77-79 | A pending reload wins over every other reason to lay out, whatever the bounds or the load request. The pass counts one reload, clears the request, lays out afresh at the bounds' size unless told to skip, and loads the cells at the resulting bounds. Without a component, or inside a reload, the pass does nothing at all, even after a resize. |
| ComponentEngine.LayoutSubviewResized | Sources/UIComponent/Core/ComponentEngine.swift:80-81 | Otherwise a size change relayouts, which does nothing before the first reload. |
| ComponentEngine.LayoutSubviewScrolled | Sources/UIComponent/Core/ComponentEngine.swift:82-83 | Otherwise an origin-only change, or a pending load, reloads only the cells: the renderer is kept and no reload is counted. |
| ComponentEngine.LayoutSubviewSettles | Sources/UIComponent/Core/ComponentEngine.swift:77-84 | A second layout pass right after one that could run does nothing. |
| ComponentEngine.SetNeedsReloadThenLayout | Sources/UIComponent/Core/ComponentEngine.swift:110-113 | After a reload request, the next layout pass reloads exactly once and clears the request. |
| ComponentEngine.SetNeedsLoadCellsThenLayout | Sources/UIComponent/Core/ComponentEngine.swift:120-123 | After a load request, the next layout pass loads with the current renderer at the current bounds and clears the request. |
| ComponentEngine.SetNeedsInvalidateLayoutThenLayout | Sources/UIComponent/Core/ComponentEngine.swift:115-118 | After an invalidation, the next layout pass lays the component out again. |
| ComponentEngine.UpdateWithExistingOnce | Sources/UIComponent/Core/ComponentEngine.swift:254-258 | The supplied renderer is used by exactly one reload; the next requested reload lays out again. |
| ComponentEngine.ReentrantCallsIgnored | Sources/UIComponent/Core/ComponentEngine.swift:127-159 | A load started inside a load, or a reload or relayout started inside a reload, does nothing. |
| Views.Write | Sources/CollectionKit2/Component/ViewAdapter.swift:18-23 | Writing a holder sets its property to the held value and leaves every other property unchanged. It returns a holder with the property's value from just before the write. |
| Views.WriteRoundTrip | Sources/CollectionKit2/Component/ViewAdapter.swift:18-23 | Writing the returned reset holder undoes the write exactly. |
| Views.WriteIdempotent | Sources/CollectionKit2/Component/ViewAdapter.swift:18-23 | Writing the same holder twice is the same as writing it once. |
| Views.DequeueEnqueue | Sources/CollectionKit2/Component/ViewAdapter.swift:73-75 | A view just recycled under a key is the next view handed out for that key, and the pool is then as it was before. |
| Views.Dequeue | Sources/CollectionKit2/Component/ViewAdapter.swift:73-75 | A dequeue returns the most recently recycled view of the key, or the fallback when none is queued; it leaves the other keys alone. |
| ClosureViewProvider.Init | CollectionKit2/Sources/ClosureViewProvider.swift:24-36 | A new provider has a zero cached size. |
| ClosureViewProvider.Layout | CollectionKit2/Sources/ClosureViewProvider.swift:55-63 | With a size source, layout returns its answer and caches it. Without one, it returns zero and leaves the cache alone. Nothing else changes. |
| ClosureViewProvider.ViewsIn | CollectionKit2/Sources/ClosureViewProvider.swift:65-71 | The query returns at most one hit. It returns one exactly when the query meets the cached frame at the origin, and that hit is the provider with that frame. |
| ClosureViewProvider.MakeFresh | CollectionKit2/Sources/ClosureViewProvider.swift:42-48 | A new view is the generated one if there is a generator, else a plain view of the class. |
| ClosureViewProvider.UpdateView | CollectionKit2/Sources/ClosureViewProvider.swift:50-53 | A view of another class is left alone. Otherwise the updater, if there is one, runs once. |
| ClosureViewProvider.LayoutThenViews | CollectionKit2/Sources/ClosureViewProvider.swift:55-71 | After a layout with a size source, a query sees the provider exactly when it meets the new size at the origin. |
| ClosureViewProvider.LayoutIdempotent | CollectionKit2/Sources/ClosureViewProvider.swift:56-63 | Laying out twice at the same size is the same as laying out once. |
| ClosureViewProvider.MakeViewOrder | CollectionKit2/Sources/ClosureViewProvider.swift:38-48 | With a reuse manager and a queued view, `makeView` returns that view. Otherwise it returns a new one made by the generator if there is one. Without reuse the pool is never touched. |
| ClosureViewProvider.MadeViewsAreUpdated | CollectionKit2/Sources/ClosureViewProvider.swift:38-53 | Over a pool that queues views by class, a made view passes the type guard, so the updater runs on it, and the pool stays sorted. |
| LayoutProvider.ProviderLayout | CollectionKit2/Sources/Layout/LayoutProvider.swift:30-41 | A node stores the frames of its (possibly transposed) layout and reports the size of their bounding box. A leaf lays out as a closure provider. |
| LayoutProvider.LayoutFrames | CollectionKit2/Sources/Layout/LayoutProvider.swift:31-35 | When transposed, the stored frames transposed back are the algorithm's answer at the transposed size. Otherwise the frames are the algorithm's answer. |
| LayoutProvider.UnionAllBounds | CollectionKit2/Sources/Layout/LayoutProvider.swift:36-38 | The content rectangle holds the origin and every frame, and lies inside any rectangle that holds them all. With no frames its size is zero. |
| LayoutProvider.UnionAllTranspose | CollectionKit2/Sources/Layout/LayoutProvider.swift:31-38 | The bounding box of transposed frames is the transposed bounding box. |
| LayoutProvider.LayoutContentTransposed | CollectionKit2/Sources/Layout/LayoutProvider.swift:30-41 | A transposed node reports the transpose of the size the same node reports untransposed at the transposed size. |
| LayoutProvider.GetSizeTransposed | CollectionKit2/Sources/Layout/LayoutProvider.swift:23-28 | `getSize` passes the size through when not transposed. When transposed, it lays the child out at the transposed size and returns the transposed answer. |
| LayoutProvider.HitsMeetQuery | CollectionKit2/Sources/Layout/LayoutProvider.swift:43-51 | Every hit of a query meets the query, and has its leaf's cached size: hits are moved back, never resized. |
| LayoutProvider.ChildResultMeetsQuery | CollectionKit2/Sources/Layout/LayoutProvider.swift:45-47 | A hit of child `i` meets both the query and that child's frame. |
| LayoutProvider.DisjointQueryEmpty | CollectionKit2/Sources/Layout/LayoutProvider.swift:45 | A query that meets no child frame returns nothing. |
| LayoutProvider.ChildViewsMembers | CollectionKit2/Sources/Layout/LayoutProvider.swift:44-50 | The hits of a node are exactly the hits of its children whose frames meet the query, each child queried in its own coordinates with the clipped query. |
| LayoutProvider.ChildViewsOrder | CollectionKit2/Sources/Layout/LayoutProvider.swift:44-50 | From frame `i` on, the hits are the results of children `i`, `i + 1`, … concatenated in frame order. So every hit of a child comes before any hit of a later child. |
| LayoutProvider.ViewsInFrameOrder | CollectionKit2/Sources/Layout/LayoutProvider.swift:43-51 | A node's answer is the concatenation, in frame order, of what each child contributes. |
| LayoutProvider.LeafUnderNode | CollectionKit2/Sources/Layout/LayoutProvider.swift:45-48 | A leaf placed at frame `f` is seen exactly when the clipped query, in its coordinates, meets its cached frame, and it is reported at its cached frame moved to `f`'s origin. |
| ViewAdapter.Init | Sources/CollectionKit2/Component/ViewAdapter.swift:27-42 | A new adapter has no recorded writes and is reused under its own class name. |
| ViewAdapter.With | Sources/CollectionKit2/Component/ViewAdapter.swift:86-89 | `with` records one holder for the key, replacing any earlier one, and leaves every other key's holder alone. |
| ViewAdapter.WithThenUpdate | Sources/CollectionKit2/Component/ViewAdapter.swift:86-89 | A recorded write shows after an update. Recording the same key again keeps only the newer value. |
| ViewAdapter.WithCommutes | Sources/CollectionKit2/Component/ViewAdapter.swift:86-89 | Writes through different key paths can be recorded in either order. |
| ViewAdapter.RestoreUnrecorded | Sources/CollectionKit2/Component/ViewAdapter.swift:50-55 | The first loop writes back, and drops, every reset holder whose key is no longer recorded. It keeps the others, whatever order it visits the keys in. |
| ViewAdapter.ApplyRecorded | Sources/CollectionKit2/Component/ViewAdapter.swift:56-61 | The second loop writes every recorded value. It keeps an existing reset holder, and otherwise stores the value the write replaced. |
| ViewAdapter.UpdateView | Sources/CollectionKit2/Component/ViewAdapter.swift:48-62 | The two loops together give `Updated`: each property reads the recorded value, else the value its reset restores, else its own value. There is a reset holder for exactly the recorded keys. |
| ViewAdapter.UpdatedShowsValues | Sources/CollectionKit2/Component/ViewAdapter.swift:56-61 | After an update every recorded value is visible, whatever the view carried before. |
| ViewAdapter.FirstResetKept | Sources/CollectionKit2/Component/ViewAdapter.swift:57-60 | The reset holder of a key is taken at its first write and is not replaced by later updates that keep the key. |
| ViewAdapter.UpdatedForgetsEarlier | Sources/CollectionKit2/Component/ViewAdapter.swift:48-62 | Updating with adapter `b` a view last updated by adapter `a` gives the same view as updating with `b` alone. |
| ViewAdapter.UpdatedIdempotent | Sources/CollectionKit2/Component/ViewAdapter.swift:48-62 | Updating twice with the same adapter is the same as updating once. |
| ViewAdapter.EmptyAdapterRestores | Sources/CollectionKit2/Component/ViewAdapter.swift:50-55 | An adapter with no recorded writes restores every property an earlier adapter wrote and leaves no reset holders. On a view no adapter touched, it changes nothing. |
| ViewAdapter.MakeDefault | Sources/CollectionKit2/Component/ViewAdapter.swift:44-46 | `makeView()` makes a plain view of the view class. |
| ViewAdapter.MakeView | Sources/CollectionKit2/Component/ViewAdapter.swift:69-77 | `_makeView` never goes back on the view-id counter. |
| ViewAdapter.MakeViewOrder | Sources/CollectionKit2/Component/ViewAdapter.swift:69-77 | `_makeView` tries three sources in order, and the pool changes only by the one dequeue. It returns the supplied view if there is one. Otherwise it takes the most recently recycled view under the reuse key. Otherwise it makes a new plain view. |
| ViewAdapter.UpdateAny | Sources/CollectionKit2/Component/ViewAdapter.swift:79-82 | `_updateView` leaves a view of another class alone, and otherwise runs `updateView`. |
| ViewAdapter.MadeViewShowsValues | Sources/CollectionKit2/Component/ViewAdapter.swift:69-82 | Every view `_makeView` returns passes the adapter's type guard and then shows every recorded value. This holds for the adapter's own view, for a view recycled under the reuse key, and for a new view, as long as the reuse queue holds only views of the view class. |

## Left out

- UIKit effects are not modelled:
  - `setNeedsLayout`;
  - `addSubview`/`removeFromSuperview` in `contentView`'s observer;
  - `performWithoutAnimation` and the cell's bounds and center;
  - the UIScrollView `contentSize` observer.

  `insertSubview(_:at:)` and the renderer's `_updateView` appear only as logged events.
- `ensureZoomViewIsCentered`, `contentInset`, `adjustedSize` and `zoomScale` are CGFloat scroll-view geometry and are not modelled. The layout constraint is the bounds' size, and the content size is the renderer's size.
- The check after `views(in:)` that re-reads the renderer's size is not modelled. Renderers are pure functions here, so that size cannot change.
- `contentView?.convert(bounds, from: view)` is not modelled: the visible frame is the host's bounds.
- The weak `view` reference is an `Option` that the owner sets. It never disappears on its own in the middle of an operation.
- `sizeThatFits` of the engine and of `ViewAdapter` is left out. It only asks the component or the view for a size.
- Animator implementations are not modelled: every hook is a logged event.
- Engine views are fresh ids from a counter. `viewData.renderer._makeView()` is a fresh id, and the reuse of views by renderers is not modelled on the engine side.
  In the source, a view that the retire pass deletes can go back to a renderer's reuse pool. `_makeView()` may then hand it out again for a new slot in the same `_loadCells`. The model never does this, so each of the following members holds only because new views are fresh:
- Reconcile.DiffCarriesOver: "every other view is new and was not on screen" holds only for fresh views. In the source, a new slot may receive a view deleted earlier in the same pass.
- Reconcile.DiffRemoved: "a removed view is not on screen afterwards" holds only for fresh views. In the source, a deleted view re-made for a new slot stays on screen.
- Reconcile.DiffCountRemoved: "exactly one delete and no other event" holds only for fresh views. In the source, a deleted view that is re-made also gets the configure, insert, update and attach of its new slot.
- Reconcile.DiffCountPlaced: "a new view gets no delete" holds only for fresh views. In the source, a re-made view also carries the delete of its old key.
- ComponentEngine.LoadCellsValid: "every new key gets a view that was not on screen" holds only for fresh views.
- ComponentEngine.LoadCellsPlaced: the delete count of 0 for a new view holds only for fresh views.
- ComponentEngine.LoadCellsRemoved: "no other hook, and the view leaves the screen" holds only for fresh views.
- KeyDedup.DedupKeys: keys are compared code point by code point, and so are the lookups of the retire pass. Swift `String` equality and `Dictionary` lookup use Unicode canonical equivalence. So keys are taken to be normalized: two canonically equivalent but differently encoded keys, such as "\u{E9}" and "e\u{301}", stay distinct here, where the source would suffix the second one and carry a view over between them. Unicode normalization is not modelled.
- ComponentEngine.LoadCells: the diff iterates the old and new lists in index order as the source does. The dictionary `newIdentifierSet` is a map, and its iteration order never matters here.
- `CollectionReuseManager` is not part of this model. Its queues are an abstract pool that hands out the most recently recycled view of a key.
- ClosureViewProvider.MakeView: the pool key is taken to be the view class. The source leaves the identifier to the reuse manager, which is not part of this model, so `MadeViewsAreUpdated` assumes a pool that queues views by class.
- ViewAdapter.MadeViewShowsValues: takes as a hypothesis that the queue under the reuse key holds only views of the adapter's view class. The shared `CollectionReuseManager` is not part of this model. Each adapter class queues under its own class name, but nothing in the source stops another provider from queuing a different class under the same identifier.
- ClosureViewProvider.UpdateView: the `as? View` type guard is modelled as equality of class names, so subclasses are not accepted.
- ViewAdapter.UpdateAny: the `as? View` type guard is modelled as equality of class names, so subclasses are not accepted.
- LayoutProvider.ProviderLayout: `simpleLayout` is a function parameter, because the base class leaves it to subclasses. The frames it returns are taken as given; how a subclass lays out children through `getSize` is not modelled.
- `doneLayout` is an empty hook and is left out.
- The `MultiChildProvider` base class is not part of this model: a node is given its `children` directly.
- Key paths are independent names. A write through one never changes another, so UIKit aliasing such as `layer.cornerRadius` is not modelled.
- Property values are abstract integers. A missing value means the view's own initial value.
- ViewAdapter's modifier extensions (`tintColor`, `border`, `shadow`, …) are not modelled separately. Each is one or more `with` calls on its key paths.
- Geometry.Intersects: the model uses strict inequalities on integers. The behaviour of CoreGraphics on empty rectangles is not reproduced exactly: a zero-size rectangle strictly inside another counts as intersecting it.
- Sizes are non-negative integers, so rectangles are always standardized, and the null rectangle of CoreGraphics never arises.
- LayoutProvider.ViewsIn: a node must have a child for every frame (`WellFormed`). The source reads `children[i]` only for the frames the query meets. The model therefore leaves out nodes whose extra frames no query meets, although the source answers those queries. It also leaves out the out-of-range trap the source hits when a query meets a frame that has no child.
- CollectionKit2/Sources/UIView+CollectionKit.swift is not part of this model.
- The `FitViewProvider` wrappers are not part of this model.
