/**
  The window record: the props object a registry entry holds and a window
  component is rendered from.
 */
module Entity {

  /** The capability set: which gestures and buttons a window allows. */
  datatype Actions = Actions(hide: bool, resize: bool, move: bool, fullscreen: bool, close: bool)

  /** The visual flags; `fullscreen` has no visible effect while `hidden` holds. */
  datatype States = States(hidden: bool, fullscreen: bool)

  /**
    One registry entry. Its place in the registry is its z-order; the `z` it
    carries is only the value written at spawn time and is overridden when the
    surface renders.
   */
  datatype Window = Window(
    id: string,
    title: string,
    actions: Actions,
    states: States,
    x: int, y: int, w: int, h: int,
    z: int)

  const AllActions := Actions(true, true, true, true, true)
  const NoStates := States(false, false)
}
