/**
  One window component: its state record and the pointer and button handlers
  that move it between Idle, Dragging and Resizing. Every handler is a pure
  update `prevState => ({...prevState, ...})`; pointer events are reduced to
  their client coordinates.
 */
module WindowComponent {
  import opened Wrappers
  import opened Entity
  import Registry

  /** The client coordinates of a mouse event. */
  datatype Pointer = Pointer(clientX: int, clientY: int)

  /** The component's state record; the gesture anchors start at zero. */
  datatype WindowState = WindowState(
    id: string,
    title: string,
    actions: Actions,
    states: States,
    x: int, y: int, w: int, h: int,
    isDragging: bool, dragX: int, dragY: int, windowX: int, windowY: int,
    isResizing: bool, resizeX: int, resizeY: int, windowW: int, windowH: int)

  /** The size floor applied on every resize move. */
  const MinWidth := 300
  const MinHeight := 100

  datatype Phase = Idle | Dragging | Resizing

  /** The gesture a state is in; a move event gives dragging precedence. */
  function PhaseOf(s: WindowState): Phase {
    if s.isDragging then Dragging else if s.isResizing then Resizing else Idle
  }

  function Max(a: int, b: int): (m: int)
    ensures m >= a && m >= b && (m == a || m == b)
  {
    if a >= b then a else b
  }

  /** The state a component starts from, built from its props. */
  function InitialState(p: Window): (s: WindowState)
    ensures PhaseOf(s) == Idle
    ensures s.id == p.id && s.title == p.title && s.actions == p.actions && s.states == p.states
    ensures s.x == p.x && s.y == p.y && s.w == p.w && s.h == p.h
  {
    WindowState(p.id, p.title, p.actions, p.states, p.x, p.y, p.w, p.h,
                false, 0, 0, 0, 0,
                false, 0, 0, 0, 0)
  }

  /** The resize floor is not a property of the props: a fresh window may be smaller. */
  lemma InitialSizeMayBeBelowFloor()
    ensures exists p: Window :: InitialState(p).w < MinWidth && InitialState(p).h < MinHeight
  {
    var p := Window("a", "", AllActions, NoStates, 0, 0, 10, 10, 1);
    assert InitialState(p).w < MinWidth && InitialState(p).h < MinHeight;
  }

  /**
    `handleMouseDown` on the title bar: ignored without the move capability;
    otherwise it enters dragging, anchoring the pointer and the current
    position, and changes nothing else.
   */
  function MouseDown(s: WindowState, e: Pointer): (r: WindowState)
    ensures !s.actions.move ==> r == s
    ensures s.actions.move ==>
      r.isDragging && r.dragX == e.clientX && r.dragY == e.clientY && r.windowX == s.x && r.windowY == s.y
    ensures r.(isDragging := s.isDragging, dragX := s.dragX, dragY := s.dragY,
               windowX := s.windowX, windowY := s.windowY) == s
  {
    if !s.actions.move then s
    else s.(isDragging := true, dragX := e.clientX, dragY := e.clientY, windowX := s.x, windowY := s.y)
  }

  /**
    `handleMouseMove`: while dragging, the position is the anchored position
    shifted by the pointer's travel from its anchor; while only resizing, the
    size is the anchored size grown by that travel, but never below the floor;
    with neither gesture active nothing changes.
   */
  function MouseMove(s: WindowState, e: Pointer): (r: WindowState)
    ensures PhaseOf(s) == Idle ==> r == s
    ensures PhaseOf(s) == Dragging ==>
      r.x == s.windowX + (e.clientX - s.dragX) && r.y == s.windowY + (e.clientY - s.dragY) &&
      r.(x := s.x, y := s.y) == s
    ensures PhaseOf(s) == Resizing ==>
      var dw, dh := e.clientX - s.resizeX, e.clientY - s.resizeY;
      r.w >= MinWidth && r.h >= MinHeight &&
      r.w >= s.windowW + dw && r.h >= s.windowH + dh &&
      (r.w == s.windowW + dw || r.w == MinWidth) &&
      (r.h == s.windowH + dh || r.h == MinHeight) &&
      r.(w := s.w, h := s.h) == s
  {
    if s.isDragging then
      var dx, dy := e.clientX - s.dragX, e.clientY - s.dragY;
      s.(x := s.windowX + dx, y := s.windowY + dy)
    else if s.isResizing then
      var dw, dh := e.clientX - s.resizeX, e.clientY - s.resizeY;
      s.(w := Max(MinWidth, s.windowW + dw), h := Max(MinHeight, s.windowH + dh))
    else s
  }

  /** `handleMouseUp`: both gesture flags cleared, everything else kept. */
  function MouseUp(s: WindowState): (r: WindowState)
    ensures PhaseOf(r) == Idle
    ensures r.(isDragging := s.isDragging, isResizing := s.isResizing) == s
  {
    s.(isDragging := false, isResizing := false)
  }

  /**
    `handleResizeMouseDown`: ignored without the resize capability; otherwise
    it enters resizing, anchoring the pointer and the current size, and
    changes nothing else.
   */
  function ResizeMouseDown(s: WindowState, e: Pointer): (r: WindowState)
    ensures !s.actions.resize ==> r == s
    ensures s.actions.resize ==>
      r.isResizing && r.resizeX == e.clientX && r.resizeY == e.clientY && r.windowW == s.w && r.windowH == s.h
    ensures r.(isResizing := s.isResizing, resizeX := s.resizeX, resizeY := s.resizeY,
               windowW := s.windowW, windowH := s.windowH) == s
  {
    if !s.actions.resize then s
    else s.(isResizing := true, resizeX := e.clientX, resizeY := e.clientY, windowW := s.w, windowH := s.h)
  }

  /** `toggleFullscreen`: flips the fullscreen flag and nothing else. */
  function ToggleFullscreen(s: WindowState): (r: WindowState)
    ensures r.states.fullscreen == !s.states.fullscreen
    ensures r.states.hidden == s.states.hidden
    ensures r.(states := s.states) == s
  {
    s.(states := s.states.(fullscreen := !s.states.fullscreen))
  }

  /** `toggleHide`: flips the hidden flag and nothing else. */
  function ToggleHide(s: WindowState): (r: WindowState)
    ensures r.states.hidden == !s.states.hidden
    ensures r.states.fullscreen == s.states.fullscreen
    ensures r.(states := s.states) == s
  {
    s.(states := s.states.(hidden := !s.states.hidden))
  }

  lemma ToggleFullscreenTwice(s: WindowState)
    ensures ToggleFullscreen(ToggleFullscreen(s)) == s
  {
  }

  lemma ToggleHideTwice(s: WindowState)
    ensures ToggleHide(ToggleHide(s)) == s
  {
  }

  /**
    `handleClose`: the window becomes hidden and its id is deleted from the
    registry; the new state and the new registry are returned together.
   */
  function Close(s: WindowState, ws: seq<Window>): (r: (WindowState, seq<Window>))
    ensures r.0.states.hidden && r.0.states.fullscreen == s.states.fullscreen
    ensures r.0.(states := s.states) == s
    ensures r.1 == Registry.DelWindow(ws, s.id)
    ensures Registry.Absent(r.1, s.id)
    ensures |r.1| + Registry.CountId(ws, s.id) == |ws|
  {
    (s.(states := s.states.(hidden := true)), Registry.DelWindow(ws, s.id))
  }

  /** Closing twice leaves the window and the registry as closing once. */
  lemma CloseIdempotent(s: WindowState, ws: seq<Window>)
    ensures Close(Close(s, ws).0, Close(s, ws).1) == Close(s, ws)
  {
    Registry.DelWindowIdempotent(ws, s.id);
  }

  /** A length in the style of the window's element. */
  datatype Dim = Px(n: int) | Full

  /** The position, size and stacking the window's element is drawn with. */
  datatype Style = Style(top: Dim, left: Dim, width: Dim, height: Dim, zIndex: int)

  /**
    The render rule: a hidden window is not drawn; a fullscreen one fills the
    surface; otherwise the stored geometry is used. `z` comes from the props.
   */
  function Render(s: WindowState, z: int): (r: Option<Style>)
    ensures r.None? <==> s.states.hidden
    ensures r.Some? ==> r.value.zIndex == z
    ensures r.Some? && s.states.fullscreen ==> r.value == Style(Px(0), Px(0), Full, Full, z)
    ensures r.Some? && !s.states.fullscreen ==> r.value == Style(Px(s.y), Px(s.x), Px(s.w), Px(s.h), z)
  {
    if s.states.hidden then None
    else if s.states.fullscreen then Some(Style(Px(0), Px(0), Full, Full, z))
    else Some(Style(Px(s.y), Px(s.x), Px(s.w), Px(s.h), z))
  }

  /** While fullscreen, what is drawn does not depend on the stored geometry. */
  lemma FullscreenIgnoresGeometry(s: WindowState, t: WindowState, z: int)
    requires s.states == t.states && s.states.fullscreen
    ensures Render(s, z) == Render(t, z)
  {
  }

  /** Leaving fullscreen draws the window exactly where it was before entering it. */
  lemma FullscreenRoundTripRestoresRender(s: WindowState, z: int)
    ensures Render(ToggleFullscreen(ToggleFullscreen(s)), z) == Render(s, z)
  {
  }

  /** A closed window is never drawn, whatever its fullscreen flag. */
  lemma ClosedRendersNothing(s: WindowState, ws: seq<Window>, z: int)
    ensures Render(Close(s, ws).0, z) == None
  {
  }

  /** A run of move events within one gesture, in dispatch order. */
  function MoveAll(s: WindowState, moves: seq<Pointer>): WindowState
    decreases |moves|
  {
    if moves == [] then s else MoveAll(MouseMove(s, moves[0]), moves[1..])
  }

  /** Only the last move of a run matters: the result is path-independent. */
  lemma {:induction false} MoveAllIsLastMove(s: WindowState, moves: seq<Pointer>)
    requires moves != []
    ensures MoveAll(s, moves) == MouseMove(s, moves[|moves| - 1])
    decreases |moves|
  {
    var t := MouseMove(s, moves[0]);
    if |moves| > 1 {
      MoveAllIsLastMove(t, moves[1..]);
      assert moves[1..][|moves[1..]| - 1] == moves[|moves| - 1];
      assert MouseMove(t, moves[|moves| - 1]) == MouseMove(s, moves[|moves| - 1]);
    }
  }

  /** A move run without an active gesture changes nothing. */
  lemma {:induction false} MoveAllIdle(s: WindowState, moves: seq<Pointer>)
    requires PhaseOf(s) == Idle
    ensures MoveAll(s, moves) == s
  {
    if moves != [] {
      MoveAllIsLastMove(s, moves);
    }
  }

  /**
    A whole drag gesture (title-bar press, any moves, release): the window
    ends at its start position plus the pointer's travel from press to last
    move and returns to Idle; size and flags are untouched.
   */
  lemma DragGesture(s: WindowState, down: Pointer, moves: seq<Pointer>)
    requires s.actions.move
    ensures var f := MouseUp(MoveAll(MouseDown(s, down), moves));
      PhaseOf(f) == Idle &&
      f.w == s.w && f.h == s.h && f.states == s.states &&
      (moves == [] ==> f.x == s.x && f.y == s.y) &&
      (moves != [] ==> var last := moves[|moves| - 1];
         f.x == s.x + (last.clientX - down.clientX) && f.y == s.y + (last.clientY - down.clientY))
  {
    if moves != [] {
      MoveAllIsLastMove(MouseDown(s, down), moves);
    }
  }

  /**
    A whole resize gesture started from outside a drag: the size ends at the
    start size plus the pointer's travel from press to last move, raised to
    the floor where it falls below; position and flags are untouched.
   */
  lemma ResizeGesture(s: WindowState, down: Pointer, moves: seq<Pointer>)
    requires s.actions.resize && !s.isDragging
    ensures var f := MouseUp(MoveAll(ResizeMouseDown(s, down), moves));
      PhaseOf(f) == Idle &&
      f.x == s.x && f.y == s.y && f.states == s.states &&
      (moves == [] ==> f.w == s.w && f.h == s.h) &&
      (moves != [] ==> var last := moves[|moves| - 1];
         f.w == Max(MinWidth, s.w + (last.clientX - down.clientX)) &&
         f.h == Max(MinHeight, s.h + (last.clientY - down.clientY)))
  {
    if moves != [] {
      MoveAllIsLastMove(ResizeMouseDown(s, down), moves);
    }
  }

  /** Pressing at (150,150) on a window at (100,100), moving through (140,130) to (120,90): it ends at (70,40). */
  lemma DragScenario(s: WindowState)
    requires s.actions.move && s.x == 100 && s.y == 100
    ensures var f := MouseUp(MoveAll(MouseDown(s, Pointer(150, 150)), [Pointer(140, 130), Pointer(120, 90)]));
      f.x == 70 && f.y == 40
  {
    DragGesture(s, Pointer(150, 150), [Pointer(140, 130), Pointer(120, 90)]);
  }

  /** Resizing a 400x300 window from (500,500) to (350,520): width is floored to 300, height becomes 320. */
  lemma ResizeScenario(s: WindowState)
    requires s.actions.resize && !s.isDragging && s.w == 400 && s.h == 300
    ensures var f := MouseUp(MoveAll(ResizeMouseDown(s, Pointer(500, 500)), [Pointer(350, 520)]));
      f.w == 300 && f.h == 320
  {
    ResizeGesture(s, Pointer(500, 500), [Pointer(350, 520)]);
  }

  /** The events a window component reacts to. */
  datatype Event =
    | TitleBarDown(e: Pointer)
    | ResizeHandleDown(e: Pointer)
    | Move(e: Pointer)
    | Up
    | FullscreenButton
    | HideButton

  function Step(s: WindowState, ev: Event): WindowState {
    match ev
    case TitleBarDown(e) => MouseDown(s, e)
    case ResizeHandleDown(e) => ResizeMouseDown(s, e)
    case Move(e) => MouseMove(s, e)
    case Up => MouseUp(s)
    case FullscreenButton => ToggleFullscreen(s)
    case HideButton => ToggleHide(s)
  }

  function Run(s: WindowState, evs: seq<Event>): WindowState
    decreases |evs|
  {
    if evs == [] then s else Run(Step(s, evs[0]), evs[1..])
  }

  /** Predicate for a window whose size respects the floor. */
  predicate AboveFloor(s: WindowState) {
    s.w >= MinWidth && s.h >= MinHeight
  }

  /**
    Once a window respects the size floor, no event sequence takes it below;
    and no event ever changes its id, title or capabilities.
   */
  lemma {:induction false} RunKeepsFloorAndIdentity(s: WindowState, evs: seq<Event>)
    requires AboveFloor(s)
    ensures AboveFloor(Run(s, evs))
    ensures Run(s, evs).id == s.id && Run(s, evs).title == s.title && Run(s, evs).actions == s.actions
    decreases |evs|
  {
    if evs != [] {
      RunKeepsFloorAndIdentity(Step(s, evs[0]), evs[1..]);
    }
  }

  /**
    A press on the title bar also reaches the window's root element, so the
    window is activated in the registry whether or not it may move.
   */
  function PressTitleBar(s: WindowState, ws: seq<Window>, e: Pointer): (r: (WindowState, seq<Window>))
    ensures r.0 == MouseDown(s, e)
    ensures r.1 == Registry.Activate(ws, s.id)
    ensures !Registry.Absent(ws, s.id) ==> |r.1| > 0 && r.1[|r.1| - 1].id == s.id
    ensures Registry.Absent(ws, s.id) ==> r.1 == ws
  {
    (MouseDown(s, e), Registry.Activate(ws, s.id))
  }

  /**
    A press on the resize handle stops there: the registry order is untouched.
    The handle exists only for a window with the resize capability; without it
    the handler would return before stopping propagation.
   */
  function PressResizeHandle(s: WindowState, ws: seq<Window>, e: Pointer): (r: (WindowState, seq<Window>))
    requires s.actions.resize
    ensures r.0 == ResizeMouseDown(s, e)
    ensures r.1 == ws
  {
    (ResizeMouseDown(s, e), ws)
  }

  /** For a window that is in the registry, the press activates it exactly as the source's `setActive` does. */
  lemma PressTitleBarMatchesSource(s: WindowState, ws: seq<Window>, e: Pointer)
    requires !Registry.Absent(ws, s.id)
    ensures Registry.Lift(PressTitleBar(s, ws, e).1) == Registry.SetActive(ws, s.id)
  {
    Registry.SetActiveIsActivate(ws, s.id);
  }
}
