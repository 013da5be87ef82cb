/** The window manager on values: creating, closing and clicking windows, and the order in which
    the compositor draws them (window.c). */
module Windows {
  import opened Lists

  const STATUS_BAR_HEIGHT: nat := 30
  const HEADER_OFFSET: nat := 25
  const CLOSE_BTN_W: nat := 30
  const MAX_WINDOWS: nat := 32
  const MAX_UINT: nat := 0xFFFF_FFFF

  datatype Window = Window(id: nat, x: int, y: int, width: nat, height: nat, z: nat,
                           visible: bool, focused: bool, dragging: bool)

  /** `grabX` and `grabY` are where inside a window its title bar was last grabbed. */
  datatype Desktop = Desktop(windows: seq<Window>, zIndex: nat, nextId: nat, grabX: int, grabY: int)

  function NoWindows(): Desktop { Desktop([], 1, 1, 0, 0) }

  function Less(n: nat): nat { if n == 0 then MAX_UINT else n - 1 }

  // ----- creating and closing -----

  function NewWindow(d: Desktop, x: int, y: int, width: nat, height: nat): Window {
    Window(d.nextId, x, y + STATUS_BAR_HEIGHT, width, height, d.zIndex, true, false, false)
  }

  /** wm_create_window; `block` is what kmalloc gives for the window itself. A NULL window is entered
      as NULL, which leaves the list as it is, but it takes a place and an id. */
  function Create(d: Desktop, block: nat, x: int, y: int, width: nat, height: nat): Desktop {
    d.(windows := if block == 0 then d.windows else d.windows + [NewWindow(d, x, y, width, height)],
       zIndex := d.zIndex + 1, nextId := d.nextId + 1)
  }

  /** The index of the window with this id, or the number of windows. */
  function Find(ws: seq<Window>, id: nat): (i: nat)
    ensures i <= |ws|
    ensures i < |ws| ==> ws[i].id == id
    ensures forall k :: 0 <= k < i ==> ws[k].id != id
  {
    if ws == [] || ws[0].id == id then 0 else 1 + Find(ws[1..], id)
  }

  function Lowered(w: Window, z: nat): Window { if w.z > z then w.(z := w.z - 1) else w }

  /** Every window above `z` moves down by one. */
  function LowerAll(ws: seq<Window>, z: nat): (r: seq<Window>)
    ensures |r| == |ws| && forall i :: 0 <= i < |ws| ==> r[i] == Lowered(ws[i], z)
  {
    if ws == [] then [] else [Lowered(ws[0], z)] + LowerAll(ws[1..], z)
  }

  /** remove_window. */
  function Close(d: Desktop, id: nat): Desktop {
    var i := Find(d.windows, id);
    if i < |d.windows| then
      d.(windows := LowerAll(Drop(d.windows, i), d.windows[i].z), zIndex := Less(d.zIndex))
    else d
  }

  // ----- clicking -----

  predicate InRect(px: int, py: int, x: int, y: int, w: int, h: int) { x <= px < x + w && y <= py < y + h }

  predicate Hit(w: Window, px: int, py: int) { InRect(px, py, w.x, w.y, w.width, w.height + HEADER_OFFSET) }

  predicate HitsClose(w: Window, px: int, py: int) {
    InRect(px, py, w.x + w.width - CLOSE_BTN_W, w.y, CLOSE_BTN_W, HEADER_OFFSET)
  }

  datatype Choice = None | Some(index: nat)

  /** The first loop of update_window_click over the first `n` windows. */
  function Topmost(ws: seq<Window>, n: nat, px: int, py: int): (c: Choice)
    requires n <= |ws|
    ensures c.Some? ==> c.index < n
    decreases n
  {
    if n == 0 then None
    else
      var c := Topmost(ws, n - 1, px, py);
      var w := ws[n - 1];
      if Hit(w, px, py) && w.z >= (if c.Some? then ws[c.index].z else 0) then Some(n - 1) else c
  }

  function Clicked(ws: seq<Window>, px: int, py: int): (c: Choice)
    ensures c.Some? ==> c.index < |ws|
  {
    Topmost(ws, |ws|, px, py)
  }

  /** The clicked window comes to the top and takes the focus. */
  function Raise(d: Desktop, c: nat): (r: Desktop)
    requires c < |d.windows|
    ensures |r.windows| == |d.windows|
  {
    var ws := Unfocused(LowerAll(d.windows, d.windows[c].z));
    d.(windows := ws[c := ws[c].(focused := true, z := Less(d.zIndex))])
  }

  function Unfocused(ws: seq<Window>): (r: seq<Window>)
    ensures |r| == |ws| && forall i :: 0 <= i < |ws| ==> r[i] == ws[i].(focused := false)
  {
    if ws == [] then [] else [ws[0].(focused := false)] + Unfocused(ws[1..])
  }

  /** update_window_click. */
  function Click(d: Desktop, px: int, py: int): Desktop {
    var c := Clicked(d.windows, px, py);
    if c.None? then d
    else
      var r := Raise(d, c.index);
      var w := r.windows[c.index];
      if HitsClose(w, px, py) then Close(r, w.id)
      else if py < w.y + HEADER_OFFSET then
        r.(windows := r.windows[c.index := w.(dragging := true)], grabX := px - w.x, grabY := py - w.y)
      else r
  }

  /** One iteration of update_window_drag. */
  function Dragged(w: Window, pressed: bool, x: int, y: int): Window {
    if !w.dragging then w else if !pressed then w.(dragging := false) else w.(x := x, y := y)
  }

  function DragAll(ws: seq<Window>, pressed: bool, x: int, y: int): (r: seq<Window>)
    ensures |r| == |ws| && forall i :: 0 <= i < |ws| ==> r[i] == Dragged(ws[i], pressed, x, y)
  {
    if ws == [] then [] else [Dragged(ws[0], pressed, x, y)] + DragAll(ws[1..], pressed, x, y)
  }

  /** update_window_drag, with the mouse at (mx, my) and its button pressed or not. */
  function Move(d: Desktop, pressed: bool, mx: int, my: int): Desktop {
    d.(windows := DragAll(d.windows, pressed, mx - d.grabX, my - d.grabY))
  }

  // ----- compositing -----

  datatype Slot = Empty | Holds(window: Window)

  /** What the compositor draws; Fault when it uses an empty slot or one behind its array. */
  datatype Frame = Drawn(order: seq<Window>) | Fault

  /** The array of the compositor after its first loop has seen the first `n` windows. */
  function Slots(ws: seq<Window>, n: nat): (s: seq<Slot>)
    requires n <= |ws|
    ensures |s| == MAX_WINDOWS
    decreases n
  {
    if n == 0 then seq(MAX_WINDOWS, i => Empty)
    else
      var s, w := Slots(ws, n - 1), ws[n - 1];
      if 0 < w.z <= MAX_WINDOWS then s[w.z - 1 := Holds(w)] else s
  }

  /** Its second loop, from slot `i` on. */
  function DrawFrom(s: seq<Slot>, count: nat, i: nat, focused: Slot): Frame
    decreases count - i
  {
    if i >= count then Drawn(if focused.Holds? then [focused.window] else [])
    else if i >= |s| || s[i].Empty? then Fault
    else
      var w := s[i].window;
      if !w.visible || w.focused then DrawFrom(s, count, i + 1, if w.focused then s[i] else Empty)
      else
        var rest := DrawFrom(s, count, i + 1, focused);
        if rest.Fault? then Fault else Drawn([w] + rest.order)
  }

  /** wm_composite. */
  function Composite(ws: seq<Window>): Frame { DrawFrom(Slots(ws, |ws|), |ws|, 0, Empty) }

  // ----- events -----

  datatype Event =
    | CreateWindow(block: nat, x: int, y: int, width: nat, height: nat)
    | CloseWindow(id: nat)
    | ClickAt(x: int, y: int)
    | MoveMouse(pressed: bool, x: int, y: int)

  function Step(d: Desktop, e: Event): Desktop {
    match e
    case CreateWindow(b, x, y, w, h) => Create(d, b, x, y, w, h)
    case CloseWindow(id) => Close(d, id)
    case ClickAt(x, y) => Click(d, x, y)
    case MoveMouse(pressed, x, y) => Move(d, pressed, x, y)
  }

  function Run(d: Desktop, es: seq<Event>): Desktop
    decreases |es|
  {
    if es == [] then d else Run(Step(d, es[0]), es[1..])
  }
}
