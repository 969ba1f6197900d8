# Desktop window manager: registry, window state machine, surface

This project models the state logic of an in-browser "desktop" window manager
written with React, and proves properties of it in Dafny.

- **Window registry** (`registry.dfy`, module `Registry`): the ordered list of
  window records held by the windows provider. The order is the z-order; the
  last record is the topmost window. The operations are `addWindow`,
  `delWindow` and `setActive`, plus the key and id helpers `make_key`,
  `make_id` and `key_id`. Each is a function from the previous list to the
  next.
- **Window component** (`window_state.dfy`, module `WindowComponent`): the
  state record of one window (geometry, visual flags, gesture flags and
  anchors) and its handlers. The title-bar press starts a drag. The
  resize-handle press starts a resize. A move applies the active gesture and a
  release ends it. The buttons toggle fullscreen, toggle hidden, or close.
  Each handler is a pure function from state to state, as the source's
  `prevState => ({...prevState, ...})` updates are. The render rule maps a state
  and a z-index to the drawn style, or to nothing when the window is hidden.
- **Desktop surface** (`desktop.dfy`, module `Desktop`): the record a
  double-click spawns, and the render loop that gives the windows
  `z = 1..n` in registry order with a running counter.
- `entity.dfy` holds the window record; `decimal.dfy` holds the decimal
  rendering of `String(n)` and its inverse; `wrappers.dfy` holds `Option`.

Pointer events are reduced to their `(clientX, clientY)` coordinates.
`Date.now()` is the parameter `now`. With these inputs the model is fully
deterministic.

The model follows the code where its behaviour differs from what such a window manager is usually taken to do:

- `delWindow` removes **every** record with the id, not just the first.
- `setActive` on an absent id appends `undefined` rather than being a no-op
  (see Findings).
- With duplicated ids, `setActive` keeps only one of them
  (`Registry.ActivateDropsDuplicates`).
- The 300×100 size floor is enforced only by a resize move. A window
  component given smaller props starts below it
  (`WindowComponent.InitialSizeMayBeBelowFloor`). Every window this surface
  creates is spawned at 500×400, and once a window is above the floor, no
  event takes it below (`WindowComponent.RunKeepsFloorAndIdentity`). So the
  floor holds for every spawned window at all times
  (`Desktop.SpawnedWindowKeepsFloor`).
- A press on the resize handle stops propagation, so it does **not** activate
  the window. A title-bar press does activate it, even when the window may
  not move.

## Model

| member | source | states |
|---|---|---|
| `Decimal.NatToString` | src/contexts/WindowsContext.js:13 | `String(n)` of a natural number is a non-empty string of decimal digits without a leading zero |
| `Decimal.ParseNatToString` | src/contexts/WindowsContext.js:13 | reading back the decimal string of `n` gives `n` |
| `Decimal.NatToStringInjective` | src/contexts/WindowsContext.js:13 | distinct numbers have distinct decimal strings |
| `Registry.CountId` | src/contexts/WindowsContext.js:9 | the number of records with an id is at most the length, and is zero exactly when the id is absent |
| `Registry.AddWindow` | src/contexts/WindowsContext.js:8 | the new record is appended at the tail; the previous records keep their order and contents |
| `Registry.DelWindow` | src/contexts/WindowsContext.js:9 | no record with the target id is left; the length drops by exactly the number of such records; an absent id leaves the list unchanged |
| `Registry.DelWindowMultiset` | src/contexts/WindowsContext.js:9 | every record with another id keeps its multiplicity, and every record with the id is gone |
| `Registry.DelWindowAppend` | src/contexts/WindowsContext.js:9 | deleting distributes over concatenation, so the survivors keep their relative order |
| `Registry.DelWindowIdempotent` | src/contexts/WindowsContext.js:9 | deleting an id twice equals deleting it once |
| `Registry.DelWindowCommutes` | src/contexts/WindowsContext.js:9 | deleting two ids gives the same list in either order |
| `Registry.AddThenDelete` | src/contexts/WindowsContext.js:8-9 | appending a record whose id is fresh and then deleting that id restores the list |
| `Registry.FirstIndex` | src/contexts/WindowsContext.js:10 | `find`'s scan: none exactly when the id is absent, else the first index holding it |
| `Registry.Find` | src/contexts/WindowsContext.js:10 | `find` yields `undefined` exactly when the id is absent, else the first record of the list with that id |
| `Registry.SetActive` | src/contexts/WindowsContext.js:10 | as written: all entries but the last are records without the id; the last is `undefined` exactly when the id is absent; the length is `n - count + 1` |
| `Registry.SetActiveAbsentAppendsUndefined` | src/contexts/WindowsContext.js:10 | with an absent id the list is kept and `undefined` is appended, so the length grows by one |
| `Registry.Activate` | src/contexts/WindowsContext.js:10 | with a present id, the first record with it is last and the others are `delWindow`'s result in order; with an absent id nothing changes |
| `Registry.SetActiveIsActivate` | src/contexts/WindowsContext.js:10 | for a present id, the source's `setActive` is exactly `Activate` |
| `Registry.ActivatePermutation` | src/contexts/WindowsContext.js:10 | with unique ids, activation keeps the length and the multiset of records |
| `Registry.ActivateIdempotent` | src/contexts/WindowsContext.js:10 | activating the same id twice equals activating it once |
| `Registry.ActivateScenario` | src/contexts/WindowsContext.js:10 | windows A, B, C with distinct ids; activating A gives B, C, A |
| `Registry.ActivateDropsDuplicates` | src/contexts/WindowsContext.js:10 | with an id held twice or more, activation shortens the list to `n - count + 1` |
| `Registry.MakeKey` | src/contexts/WindowsContext.js:12 | the key is the length plus one, so at least one |
| `Registry.MakeId` | src/contexts/WindowsContext.js:13 | the id's only dash sits right after the timestamp's digits; its inverse is `ParseId` (see `MakeIdRoundTrip`, `MakeIdInjective`) |
| `Registry.MakeIdRoundTrip` | src/contexts/WindowsContext.js:13 | an id made from a timestamp and a key parses back into exactly that timestamp and key |
| `Registry.MakeIdInjective` | src/contexts/WindowsContext.js:13 | ids are equal only when both timestamps and keys are |
| `Registry.KeyId` | src/contexts/WindowsContext.js:14-18 | the key is the length plus one and the id is `make_id` of that same key, which parses back into the timestamp and the key |
| `WindowComponent.Max` | src/layouts/OSLayout/Window.js:82-83 | `Math.max`: at least both arguments and equal to one of them |
| `WindowComponent.InitialState` | src/layouts/OSLayout/Window.js:31-37 | a new component is idle and starts with its props' id, title, capabilities, flags and geometry |
| `WindowComponent.InitialSizeMayBeBelowFloor` | src/layouts/OSLayout/Window.js:19-22 | some props give a window below the 300×100 floor before any resize |
| `WindowComponent.MouseDown` | src/layouts/OSLayout/Window.js:51-65 | ignored without `move`; otherwise dragging, anchored at the pointer and the current position, with nothing else changed |
| `WindowComponent.MouseMove` | src/layouts/OSLayout/Window.js:67-88 | idle: unchanged; dragging (which wins over resizing): position = anchor + pointer delta, rest unchanged; resizing: size at least the floor and at least anchor + delta, equal to one of them, rest unchanged |
| `WindowComponent.MouseUp` | src/layouts/OSLayout/Window.js:90-99 | both gesture flags cleared, geometry and flags untouched |
| `WindowComponent.ResizeMouseDown` | src/layouts/OSLayout/Window.js:103-118 | ignored without `resize`; otherwise resizing, anchored at the pointer and the current size, with nothing else changed |
| `WindowComponent.ToggleFullscreen` | src/layouts/OSLayout/Window.js:121-129 | flips the fullscreen flag only |
| `WindowComponent.ToggleHide` | src/layouts/OSLayout/Window.js:132-140 | flips the hidden flag only |
| `WindowComponent.ToggleFullscreenTwice` | src/layouts/OSLayout/Window.js:121-129 | toggling fullscreen twice is the identity |
| `WindowComponent.ToggleHideTwice` | src/layouts/OSLayout/Window.js:132-140 | toggling hidden twice is the identity |
| `WindowComponent.Close` | src/layouts/OSLayout/Window.js:143-152 | the window becomes hidden with nothing else changed, and the registry is `delWindow` of its id: no record with the id is left, the others stay in order |
| `WindowComponent.CloseIdempotent` | src/layouts/OSLayout/Window.js:143-152 | closing twice leaves window and registry as closing once |
| `WindowComponent.Render` | src/layouts/OSLayout/Window.js:155-170 | nothing is drawn exactly when hidden; fullscreen draws (0, 0, 100%, 100%); otherwise the stored (x, y, w, h); z-index from the props |
| `WindowComponent.FullscreenIgnoresGeometry` | src/layouts/OSLayout/Window.js:164-168 | while fullscreen, the drawn style does not depend on the stored geometry |
| `WindowComponent.FullscreenRoundTripRestoresRender` | src/layouts/OSLayout/Window.js:121-129 | entering and leaving fullscreen restores the drawn style |
| `WindowComponent.ClosedRendersNothing` | src/layouts/OSLayout/Window.js:143-156 | a closed window is never drawn |
| `WindowComponent.MoveAllIsLastMove` | src/layouts/OSLayout/Window.js:67-88 | a run of move events has the effect of its last one alone |
| `WindowComponent.MoveAllIdle` | src/layouts/OSLayout/Window.js:86 | with no gesture active, moves change nothing |
| `WindowComponent.DragGesture` | src/layouts/OSLayout/Window.js:51-99 | press, moves and release: final position = start + (last pointer - press pointer), size and flags untouched, idle again |
| `WindowComponent.ResizeGesture` | src/layouts/OSLayout/Window.js:67-118 | resize press, moves and release: final size = max(floor, start + delta of the last move), position and flags untouched, idle again |
| `WindowComponent.DragScenario` | src/layouts/OSLayout/Window.js:67-76 | a window at (100,100) pressed at (150,150), moved to (140,130) then (120,90), ends at (70,40) |
| `WindowComponent.ResizeScenario` | src/layouts/OSLayout/Window.js:77-84 | a 400×300 window resized from (500,500) to (350,520) ends 300×320 |
| `WindowComponent.RunKeepsFloorAndIdentity` | src/layouts/OSLayout/Window.js:51-140 | from a state above the floor, any event sequence stays above it and never changes id, title or capabilities |
| `WindowComponent.PressTitleBar` | src/layouts/OSLayout/Window.js:174-175 | a title-bar press starts a drag and also raises the window with `Activate`, putting it on top; an absent id leaves the registry unchanged (see Left out) |
| `WindowComponent.PressResizeHandle` | src/layouts/OSLayout/Window.js:103-118 | on a window with the resize capability (the only kind that has a handle), a resize-handle press starts a resize and leaves the registry order untouched (propagation stopped) |
| `WindowComponent.PressTitleBarMatchesSource` | src/layouts/OSLayout/Window.js:47-49 | for a window in the registry, the raise is exactly the source's `setActive` |
| `Desktop.SpawnRecord` | src/layouts/OSLayout/OSPanel.js:8-31 | the id is `key_id`'s and parses back into the timestamp and `length + 1`, `z = length + 1`, title 'My Custom Window', all capabilities, no flags, geometry (150,150,500,400) |
| `Desktop.Spawn` | src/layouts/OSLayout/OSPanel.js:8-31 | the spawn record is appended after the unchanged previous records |
| `Desktop.WithZ` | src/layouts/OSLayout/OSPanel.js:37 | each rendered record is its registry record with `z` = its position counted from one |
| `Desktop.RenderOrder` | src/layouts/OSLayout/OSPanel.js:33-37 | the counter loop yields exactly `WithZ` of the registry |
| `Desktop.ZOrderFollowsRegistry` | src/layouts/OSLayout/OSPanel.js:33-37 | rendered z values lie in 1..n, strictly increase along the registry, and the last record has z = n |
| `Desktop.RenderKeepsRecords` | src/layouts/OSLayout/OSPanel.js:37 | rendering changes nothing but `z` |
| `Desktop.SpawnIsTopmost` | src/layouts/OSLayout/OSPanel.js:8-37 | a spawned window is drawn last, above all others, with the same `z` it was given at spawn |
| `Desktop.SpawnedWindowKeepsFloor` | src/layouts/OSLayout/OSPanel.js:25-28 | a spawned window (500×400) starts above the 300×100 floor and stays above it under any event sequence |
| `Desktop.ActivateIsTopmost` | src/layouts/OSLayout/OSPanel.js:37 | after activating a present id, that window is drawn last with z = n, and with unique ids n is unchanged |

## Left out

- React machinery is not modelled: `useState`, `useEffect`, context, JSX and `key` props. State is an explicit value passed into and out of each handler.
- DOM side effects are not modelled: adding and removing the document `mousemove`/`mouseup` listeners, `userSelect`, `preventDefault`, and `document.windows`. They are I/O with no state logic beyond "subscribed while a gesture is active".
- `Date.now()` is a foreign clock. It is the `now` parameter.
- Id uniqueness is not assumed as an invariant. The code does not guarantee it: a key can repeat after a deletion, and timestamps can repeat. So the lemmas that need it take it as a precondition.
- Stale closures are not modelled. Each handler sees the current state: `addWindow` reading `windows` rather than the previous list, and `handleResizeMouseDown` reading `windowState.w`.
- WindowComponent.PressTitleBar: raises the window with the corrected `Activate`, so for an id not in the registry it keeps the registry, where the source's `setActive` would append `undefined`. A press only reaches a rendered window, and every rendered window comes from the registry (src/layouts/OSLayout/OSPanel.js:37), so its id is present; there `PressTitleBarMatchesSource` proves the two agree.
- The registry is not followed after it holds `undefined`. In the source, the next `w.id` on that entry would throw.
- The component's own default props (src/layouts/OSLayout/Window.js:5-23) are not a separate value. The surface always passes every prop. The default `id = Date.now()` is a number, not a string.
- Non-integer coordinates and sizes are left out. The source's numbers are doubles and pointer coordinates can be fractional; the model uses unbounded integers.
- Exclusivity of one gesture across windows is not modelled. Each component keeps its own flags, and nothing in the code enforces exclusivity beyond the global pointer.
- Class names, CSS strings, PropTypes, button visibility and children are presentation only and are left out.
- The routing (src/App.js) and the provider composition (src/layouts/OSLayout.js) carry no logic and are left out.

## Findings

| source | as written | input that shows it | evidently intended | confidence | as-written member | corrected member |
|---|---|---|---|---|---|---|
| src/contexts/WindowsContext.js:10 | `setActive` builds `[...filter, find]`, so for an id not in the list `find`'s `undefined` is appended | registry `[A]`, `setActive(t)` with `t != A.id` gives `[A, undefined]` | activating an absent id changes nothing | not executed; low: in this source `setActive` is only called with the id of a rendered window | `Registry.SetActiveAbsentAppendsUndefined` | `Registry.Activate` |
