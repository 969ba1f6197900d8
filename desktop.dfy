/**
  The desktop surface: spawning a window on double-click, and rendering the
  registry in order with a running counter as each window's z-index.
 */
module Desktop {
  import opened Wrappers
  import opened Entity
  import Registry
  import WindowComponent

  const SpawnTitle := "My Custom Window"

  /** The record `addWindowHandle` builds, keyed by one more than the registry's length. */
  function SpawnRecord(ws: seq<Window>, now: nat): (r: Window)
    ensures r.id == Registry.KeyId(ws, now).1
    ensures Registry.ParseId(r.id) == Some((now, |ws| + 1))
    ensures r.z == |ws| + 1
    ensures r.title == SpawnTitle && r.actions == AllActions && r.states == NoStates
    ensures r.x == 150 && r.y == 150 && r.w == 500 && r.h == 400
  {
    var l := |ws| + 1;
    Registry.MakeIdRoundTrip(now, l);
    Window(Registry.MakeId(now, l), SpawnTitle, AllActions, NoStates, 150, 150, 500, 400, l)
  }

  /** `addWindowHandle`: append the spawn record. */
  function Spawn(ws: seq<Window>, now: nat): (r: seq<Window>)
    ensures |r| == |ws| + 1 && r[..|ws|] == ws && r[|ws|] == SpawnRecord(ws, now)
  {
    Registry.AddWindow(ws, SpawnRecord(ws, now))
  }

  /** The props each window is rendered with: its record with `z` set to its position counted from one. */
  function WithZ(ws: seq<Window>): (r: seq<Window>)
    ensures |r| == |ws|
    ensures forall i :: 0 <= i < |r| ==> r[i] == ws[i].(z := i + 1)
  {
    seq(|ws|, i requires 0 <= i < |ws| => ws[i].(z := i + 1))
  }

  /** The render map, with its `counter` starting at one and incremented per window. */
  method RenderOrder(ws: seq<Window>) returns (rendered: seq<Window>)
    ensures rendered == WithZ(ws)
  {
    var counter := 1;
    rendered := [];
    while counter <= |ws|
      invariant 1 <= counter <= |ws| + 1
      invariant |rendered| == counter - 1
      invariant forall i :: 0 <= i < |rendered| ==> rendered[i] == ws[i].(z := i + 1)
    {
      rendered := rendered + [ws[counter - 1].(z := counter)];
      counter := counter + 1;
    }
  }

  /** Rendered z values run from 1 to n, strictly increasing along the registry. */
  lemma {:induction false} ZOrderFollowsRegistry(ws: seq<Window>)
    ensures forall i, j :: 0 <= i < j < |ws| ==> WithZ(ws)[i].z < WithZ(ws)[j].z
    ensures forall i :: 0 <= i < |ws| ==> 1 <= WithZ(ws)[i].z <= |ws|
    ensures |ws| > 0 ==> WithZ(ws)[|ws| - 1].z == |ws|
  {
  }

  /** Rendering changes nothing but `z`: the records and their order are those of the registry. */
  lemma RenderKeepsRecords(ws: seq<Window>)
    ensures forall i :: 0 <= i < |ws| ==> WithZ(ws)[i].(z := ws[i].z) == ws[i]
  {
  }

  /** A spawned window is drawn on top, with the same `z` it was given at spawn. */
  lemma SpawnIsTopmost(ws: seq<Window>, now: nat)
    ensures var r := Spawn(ws, now);
      WithZ(r)[|r| - 1] == SpawnRecord(ws, now) &&
      forall i :: 0 <= i < |r| - 1 ==> WithZ(r)[i].z < SpawnRecord(ws, now).z
  {
  }

  /**
    After activating a present id, that window is drawn on top with `z = n`;
    with unique ids, n is still the number of windows.
   */
  lemma ActivateIsTopmost(ws: seq<Window>, t: string)
    requires !Registry.Absent(ws, t)
    ensures var r := Registry.Activate(ws, t);
      |r| > 0 && WithZ(r)[|r| - 1].id == t && WithZ(r)[|r| - 1].z == |r| &&
      (Registry.UniqueIds(ws) ==> WithZ(r)[|r| - 1].z == |ws|)
  {
    if Registry.UniqueIds(ws) {
      Registry.ActivatePermutation(ws, t);
    }
  }

  /**
    Every window the surface spawns starts above the 300x100 size floor, so no
    sequence of events on it ever takes it below.
   */
  lemma SpawnedWindowKeepsFloor(ws: seq<Window>, now: nat, evs: seq<WindowComponent.Event>)
    ensures WindowComponent.AboveFloor(WindowComponent.InitialState(SpawnRecord(ws, now)))
    ensures WindowComponent.AboveFloor(WindowComponent.Run(WindowComponent.InitialState(SpawnRecord(ws, now)), evs))
  {
    WindowComponent.RunKeepsFloorAndIdentity(WindowComponent.InitialState(SpawnRecord(ws, now)), evs);
  }
}
