/** window.c in its own form: windows linked through `next` and changed in place, proved against
    Windows. */
module WindowCode {
  import opened Lists
  import opened Windows
  import opened Stacking

  class WindowNode {
    const id: nat
    var x: int
    var y: int
    var width: nat
    var height: nat
    var z: nat
    var visible: bool
    var focused: bool
    var dragging: bool
    var next: WindowNode?

    constructor (id: nat, x: int, y: int, width: nat, height: nat, z: nat)
      ensures View() == Window(id, x, y, width, height, z, true, false, false) && next == null
    {
      this.id, this.x, this.y, this.width, this.height, this.z := id, x, y, width, height, z;
      visible, focused, dragging, next := true, false, false, null;
    }

    function View(): Window
      reads this
    {
      Window(id, x, y, width, height, z, visible, focused, dragging)
    }
  }

  ghost function Views(nodes: seq<WindowNode>): (q: seq<Window>)
    reads nodes
    ensures |q| == |nodes| && forall i :: 0 <= i < |q| ==> q[i] == nodes[i].View()
  {
    seq(|nodes|, i requires 0 <= i < |nodes| reads nodes => nodes[i].View())
  }

  /** What `next` of the node at `i` should be. */
  ghost function NextOf(nodes: seq<WindowNode>, i: nat): WindowNode? {
    if i + 1 < |nodes| then nodes[i + 1] else null
  }

  class WindowManager {
    var head: WindowNode?
    var zIndex: nat
    var nextId: nat
    var dragOffsetX: int
    var dragOffsetY: int
    ghost var nodes: seq<WindowNode>

    constructor ()
      ensures Valid() && View() == NoWindows()
    {
      head, zIndex, nextId, dragOffsetX, dragOffsetY, nodes := null, 1, 1, 0, 0, [];
    }

    /** The `next` pointers run through `nodes`, each once, and end. */
    ghost predicate Valid()
      reads `nodes, `head, nodes`next
    {
      && head == (if nodes == [] then null else nodes[0])
      && (forall i {:trigger nodes[i].next} :: 0 <= i < |nodes| - 1 ==> nodes[i].next == nodes[i + 1])
      && (nodes != [] ==> nodes[|nodes| - 1].next == null)
      && (forall i, j :: 0 <= i < j < |nodes| ==> nodes[i] != nodes[j])
    }

    ghost function List(): (q: seq<Window>)
      reads `nodes, nodes
      ensures |q| == |nodes| && forall i :: 0 <= i < |q| ==> q[i] == nodes[i].View()
    {
      Views(nodes)
    }

    ghost function View(): Desktop
      reads this, nodes
    {
      Desktop(List(), zIndex, nextId, dragOffsetX, dragOffsetY)
    }

    lemma Link(k: nat)
      requires Valid()
      ensures forall i, j :: 0 <= i < j < |nodes| ==> nodes[i] != nodes[j]
      ensures k < |nodes| ==> nodes[k].next == if k + 1 < |nodes| then nodes[k + 1] else null
      ensures head == if nodes == [] then null else nodes[0]
    {
    }

    /** wm_create_window, where `block` is what kmalloc gave for the window. */
    method CreateWindow(block: nat, x: int, y: int, width: nat, height: nat)
      requires Valid()
      modifies this, nodes`next
      ensures Valid() && View() == Create(old(View()), block, x, y, width, height)
    {
      hide Valid, Views;
      var w: WindowNode? := null;
      if block != 0 {
        w := new WindowNode(nextId, x, y + STATUS_BAR_HEIGHT, width, height, zIndex);
      }
      zIndex := zIndex + 1;
      nextId := nextId + 1;
      AppendWindow(w);
    }

    method AppendWindow(w: WindowNode?)
      requires Valid() && (w != null ==> w !in nodes && w.next == null)
      modifies `head, `nodes, nodes`next
      ensures Valid() && List() == old(List()) + (if w == null then [] else [w.View()])
    {
      hide Valid, Views;
      Link(0);
      if head == null {
        if w != null {
          AppendNode(null, w);
        }
        return;
      }
      ghost var k: nat := 0;
      var tail := head;
      while tail.next != null
        invariant unchanged(this) && unchanged(nodes) && k < |nodes| && tail == nodes[k]
        decreases |nodes| - k
      {
        Link(k);
        tail := tail.next;
        k := k + 1;
      }
      Link(k);
      if w == null {
        AppendNull(tail);
      } else {
        AppendNode(tail, w);
      }
    }

    method AppendNull(tail: WindowNode)
      requires Valid() && nodes != [] && tail == nodes[|nodes| - 1]
      modifies tail`next
      ensures Valid() && List() == old(List())
    {
      tail.next := null;
    }

    method AppendNode(tail: WindowNode?, w: WindowNode)
      requires Valid() && w !in nodes && w.next == null && (tail == null <==> nodes == [])
      requires tail != null ==> tail == nodes[|nodes| - 1]
      modifies `head, `nodes, nodes`next
      ensures Valid() && List() == old(List()) + [w.View()]
    {
      hide Views;
      if tail == null {
        head := w;
      } else {
        tail.next := w;
      }
      nodes := nodes + [w];
    }

    /** The loop of remove_window, and the first part of the raising loop. */
    method LowerAbove(z: nat)
      requires Valid()
      modifies nodes`z
      ensures Valid() && View() == old(View()).(windows := LowerAll(old(List()), z))
    {
      hide Valid, Views, Lowered;
      Link(0);
      ghost var q, k: nat := List(), 0;
      ghost var now := q;
      var w := head;
      while w != null
        invariant Valid() && k <= |nodes| && w == (if k < |nodes| then nodes[k] else null)
        invariant List() == now && |now| == |q|
        invariant forall i :: 0 <= i < |q| ==> now[i] == if i < k then Lowered(q[i], z) else q[i]
        decreases |nodes| - k
      {
        Link(k);
        LowerNode(w, k, z);
        now := now[k := Lowered(now[k], z)];
        k := k + 1;
        w := w.next;
      }
      LoweredAre(q, z);
      assert now == LowerAll(q, z);
    }

    method LowerNode(w: WindowNode, ghost k: nat, z: nat)
      requires Valid() && k < |nodes| && nodes[k] == w
      modifies w`z
      ensures Valid() && List() == old(List())[k := Lowered(old(List())[k], z)]
    {
      hide Valid, Views;
      Link(k);
      ghost var q := List();
      if w.z > z {
        w.z := w.z - 1;
      }
      assert List() == q[k := Lowered(q[k], z)];
    }

    /** remove_window. */
    method CloseWindow(id: nat)
      requires Valid()
      modifies this, nodes`z, nodes`next
      ensures Valid() && View() == Close(old(View()), id)
    {
      hide Valid, Views, LowerAll, Find, Drop, Close;
      var w, prev, k := FindWithPrevious(id);
      CloseStep(View(), id);
      if w == null {
        return;
      }
      var z := w.z;
      assert List()[k].z == z;
      UnlinkNode(w, prev, k);
      LowerAbove(z);
      LowerCounter();
    }

    method LowerCounter()
      requires Valid()
      modifies `zIndex
      ensures Valid() && View() == old(View()).(zIndex := Less(old(zIndex)))
    {
      zIndex := if zIndex == 0 then MAX_UINT else zIndex - 1;
    }

    method FindWithPrevious(id: nat) returns (w: WindowNode?, prev: WindowNode?, ghost k: nat)
      requires Valid()
      ensures k == Find(List(), id) <= |nodes| && w == (if k < |nodes| then nodes[k] else null)
      ensures prev == if k == 0 then null else nodes[k - 1]
    {
      hide Valid, Views;
      Link(0);
      k := 0;
      w, prev := head, null;
      while w != null && w.id != id
        invariant k <= |nodes| && w == (if k < |nodes| then nodes[k] else null)
        invariant prev == if k == 0 then null else nodes[k - 1]
        invariant forall i :: 0 <= i < k ==> List()[i].id != id
        decreases |nodes| - k
      {
        Link(k);
        assert List()[k].id == w.id;
        k := k + 1;
        prev := w;
        w := w.next;
      }
      assert k < |nodes| ==> List()[k].id == id;
    }

    method UnlinkNode(w: WindowNode, prev: WindowNode?, ghost k: nat)
      requires Valid() && k < |nodes| && nodes[k] == w
      requires prev == if k == 0 then null else nodes[k - 1]
      modifies `head, `nodes, nodes`next
      ensures Valid() && List() == Drop(old(List()), k)
      ensures forall i :: 0 <= i < |nodes| ==> nodes[i] in old(nodes)
    {
      hide Valid, Views;
      ghost var q := List();
      Bypass(w, prev, k);
      forall i | 0 <= i < |nodes|
        ensures List()[i] == Drop(q, k)[i] && nodes[i] in old(nodes)
      {
        assert nodes[i] == old(nodes)[if i < k then i else i + 1];
      }
      assert List() == Drop(q, k);
    }

    method Bypass(w: WindowNode, prev: WindowNode?, ghost k: nat)
      requires Valid() && k < |nodes| && nodes[k] == w
      requires prev == if k == 0 then null else nodes[k - 1]
      modifies `head, `nodes, nodes`next
      ensures Valid() && nodes == Drop(old(nodes), k)
      ensures forall i :: 0 <= i < |old(nodes)| ==> old(nodes)[i].View() == old(nodes[i].View())
    {
      hide Valid;
      Link(k);
      ghost var before := nodes;
      LinksAre();
      if prev == null {
        head := w.next;
      } else {
        prev.next := w.next;
      }
      nodes := Drop(nodes, k);
      Relinked(before, k);
    }

    lemma LinksAre()
      requires Valid()
      ensures forall i :: 0 <= i < |nodes| ==> nodes[i].next == NextOf(nodes, i)
    {
    }

    /** The list without its node at `k`, whose predecessor points past it. */
    lemma Relinked(before: seq<WindowNode>, k: nat)
      requires k < |before| && nodes == Drop(before, k)
      requires forall i, j :: 0 <= i < j < |before| ==> before[i] != before[j]
      requires forall i {:trigger before[i].next} :: 0 <= i < |before| && i != k ==>
        before[i].next == NextOf(before, if i == k - 1 then k else i)
      requires k == 0 ==> head == NextOf(before, 0)
      requires k > 0 ==> head == before[0]
      ensures Valid()
    {
      forall i | 0 <= i < |nodes|
        ensures nodes[i].next == NextOf(nodes, i)
      {
        assert nodes[i] == before[if i < k then i else i + 1];
      }
    }

    /** The first loop of update_window_click. */
    method FindTopmost(px: int, py: int) returns (clicked: WindowNode?, ghost c: Choice)
      requires Valid()
      ensures c == Clicked(List(), px, py) && clicked == if c.Some? then nodes[c.index] else null
    {
      hide Valid, Views, Hit;
      Link(0);
      ghost var k: nat := 0;
      var topZ := 0;
      clicked, c := null, None;
      var w := head;
      while w != null
        invariant k <= |nodes| && w == (if k < |nodes| then nodes[k] else null)
        invariant c == Topmost(List(), k, px, py) && clicked == (if c.Some? then nodes[c.index] else null)
        invariant topZ == if c.Some? then List()[c.index].z else 0
        decreases |nodes| - k
      {
        Link(k);
        assert List()[k] == w.View();
        if Hit(w.View(), px, py) && w.z >= topZ {
          topZ := w.z;
          clicked, c := w, Some(k);
        }
        k := k + 1;
        w := w.next;
      }
    }

    /** The second loop of update_window_click, and the two assignments behind it. */
    method RaiseWindow(clicked: WindowNode, ghost c: nat)
      requires Valid() && c < |nodes| && nodes[c] == clicked
      modifies nodes`z, nodes`focused
      ensures Valid() && View() == Raise(old(View()), c)
    {
      hide Valid, Views, LowerAll, Unfocused;
      assert List()[c].z == clicked.z;
      LowerOthers(clicked);
      Focus(clicked, c);
    }

    method LowerOthers(clicked: WindowNode)
      requires Valid()
      modifies nodes`z, nodes`focused
      ensures Valid() && List() == Unfocused(LowerAll(old(List()), old(clicked.z)))
    {
      hide Valid, Views, Lowered, LowerAll, Unfocused;
      Link(0);
      ghost var q, k: nat := List(), 0;
      ghost var now := q;
      ghost var z := clicked.z;

      var w := head;
      while w != null
        invariant Valid() && k <= |nodes| && w == (if k < |nodes| then nodes[k] else null)
        invariant List() == now && |now| == |q| && clicked.z == z
        invariant forall i :: 0 <= i < |q| ==> now[i] == if i < k then Lowered(q[i], z).(focused := false) else q[i]
        decreases |nodes| - k
      {
        Link(k);
        LowerAndUnfocus(w, k, z, clicked);
        now := now[k := Lowered(now[k], z).(focused := false)];
        k := k + 1;
        w := w.next;
      }
      LoweredAre(q, z);
      UnfocusedAre(LowerAll(q, z));
      assert now == Unfocused(LowerAll(q, z));
    }

    method LowerAndUnfocus(w: WindowNode, ghost k: nat, ghost z: nat, clicked: WindowNode)
      requires Valid() && k < |nodes| && nodes[k] == w && clicked.z == z
      modifies w`z, w`focused
      ensures Valid() && List() == old(List())[k := Lowered(old(List())[k], z).(focused := false)]
      ensures clicked.z == z
    {
      hide Valid, Views;
      Link(k);
      ghost var q := List();
      if w.z > clicked.z {
        w.z := w.z - 1;
      }
      w.focused := false;
      assert List() == q[k := Lowered(q[k], z).(focused := false)];
    }

    method Focus(clicked: WindowNode, ghost c: nat)
      requires Valid() && c < |nodes| && nodes[c] == clicked
      modifies clicked`z, clicked`focused
      ensures Valid() && List() == old(List())[c := old(List())[c].(focused := true, z := Less(zIndex))]
    {
      hide Valid, Views;
      Link(c);
      ghost var q := List();
      clicked.focused := true;
      clicked.z := if zIndex == 0 then MAX_UINT else zIndex - 1;
      assert List() == q[c := q[c].(focused := true, z := Less(zIndex))];
    }

    /** update_window_click. */
    method ClickWindow(px: int, py: int)
      requires Valid()
      modifies this, nodes`z, nodes`focused, nodes`dragging, nodes`next
      ensures Valid() && View() == Click(old(View()), px, py)
    {
      hide Valid, Views, Clicked, Raise, Close;
      var clicked, c := FindTopmost(px, py);
      if clicked == null {
        return;
      }
      RaiseWindow(clicked, c.index);
      assert View().windows[c.index] == clicked.View();
      if HitsClose(clicked.View(), px, py) {
        CloseWindow(clicked.id);
        return;
      }
      if py < clicked.y + HEADER_OFFSET {
        Grab(clicked, c.index, px, py);
      }
    }

    method Grab(clicked: WindowNode, ghost c: nat, px: int, py: int)
      requires Valid() && c < |nodes| && nodes[c] == clicked
      modifies `dragOffsetX, `dragOffsetY, clicked`dragging
      ensures Valid() && View() ==
        old(View()).(windows := old(List())[c := old(List())[c].(dragging := true)],
                     grabX := px - old(clicked.x), grabY := py - old(clicked.y))
    {
      hide Valid, Views;
      Link(c);
      ghost var q := List();
      dragOffsetX := px - clicked.x;
      dragOffsetY := py - clicked.y;
      clicked.dragging := true;
      assert List() == q[c := q[c].(dragging := true)];
    }

    /** update_window_drag, but for the shape of the cursor. */
    method DragWindows(pressed: bool, mx: int, my: int)
      requires Valid()
      modifies nodes`x, nodes`y, nodes`dragging
      ensures Valid() && View() == Move(old(View()), pressed, mx, my)
    {
      hide Valid, Views, Dragged, DragAll;
      DragNodes(pressed, mx, my);
    }

    method DragNodes(pressed: bool, mx: int, my: int)
      requires Valid()
      modifies nodes`x, nodes`y, nodes`dragging
      ensures Valid() && List() == DragAll(old(List()), pressed, mx - dragOffsetX, my - dragOffsetY)
    {
      hide Valid, Views, Dragged, DragAll, DraggedUpTo;
      Link(0);
      ghost var q, k: nat := List(), 0;
      ghost var x, y := mx - dragOffsetX, my - dragOffsetY;
      NothingDragged(q, pressed, x, y);
      var w := head;
      while w != null
        invariant Valid() && k <= |nodes| && w == (if k < |nodes| then nodes[k] else null)
        invariant |q| == |nodes| && DraggedUpTo(q, List(), k, pressed, x, y)
        decreases |nodes| - k
      {
        Link(k);
        DragStep(q, List(), k, pressed, x, y);
        DragNode(w, k, pressed, mx, my);
        k := k + 1;
        w := w.next;
      }
      AllDragged(q, List(), pressed, x, y);
    }

    method DragNode(w: WindowNode, ghost k: nat, pressed: bool, mx: int, my: int)
      requires Valid() && k < |nodes| && nodes[k] == w
      modifies w`x, w`y, w`dragging
      ensures Valid()
      ensures List() == old(List())[k := Dragged(old(List())[k], pressed, mx - dragOffsetX, my - dragOffsetY)]
    {
      hide Valid, Views;
      Link(k);
      ghost var q := List();
      if w.dragging {
        if !pressed {
          w.dragging := false;
        } else {
          w.x := mx - dragOffsetX;
          w.y := my - dragOffsetY;
        }
      }
      assert List() == q[k := Dragged(q[k], pressed, mx - dragOffsetX, my - dragOffsetY)];
    }

    // ----- the compositor -----

    method WindowCount() returns (n: nat)
      requires Valid()
      ensures n == |nodes|
    {
      hide Valid;
      Link(0);
      n := 0;
      var w := head;
      while w != null
        invariant n <= |nodes| && w == (if n < |nodes| then nodes[n] else null)
        decreases |nodes| - n
      {
        Link(n);
        n := n + 1;
        w := w.next;
      }
    }

    ghost predicate SlotsHold(sorted: array<WindowNode?>, s: seq<Slot>)
      reads sorted, this, nodes
    {
      && sorted.Length == |s|
      && forall i :: 0 <= i < |s| ==>
        if sorted[i] == null then s[i] == Empty else sorted[i] in nodes && s[i] == Slot.Holds(sorted[i].View())
    }

    method FillSlots() returns (sorted: array<WindowNode?>)
      requires Valid()
      ensures fresh(sorted) && SlotsHold(sorted, Slots(List(), |nodes|))
    {
      hide Valid, Views, Slots, SlotsHold;
      Link(0);
      sorted := new WindowNode?[MAX_WINDOWS](_ => null);
      ghost var k: nat := 0;
      NoSlots(sorted);
      var w := head;
      while w != null
        invariant fresh(sorted) && k <= |nodes| && w == (if k < |nodes| then nodes[k] else null)
        invariant sorted.Length == MAX_WINDOWS && SlotsHold(sorted, Slots(List(), k))
        decreases |nodes| - k
      {
        Link(k);
        assert List()[k] == w.View();
        SlotsStep(List(), k);
        if w.z > 0 && w.z <= MAX_WINDOWS {
          PutSlot(sorted, Slots(List(), k), w);
        }
        k := k + 1;
        w := w.next;
      }
    }

    lemma NoSlots(sorted: array<WindowNode?>)
      requires sorted.Length == MAX_WINDOWS && forall i :: 0 <= i < MAX_WINDOWS ==> sorted[i] == null
      ensures SlotsHold(sorted, Slots(List(), 0))
    {
    }

    method PutSlot(sorted: array<WindowNode?>, ghost s: seq<Slot>, w: WindowNode)
      requires SlotsHold(sorted, s) && w in nodes && 0 < w.z <= sorted.Length
      modifies sorted
      ensures SlotsHold(sorted, s[w.z - 1 := Slot.Holds(w.View())])
    {
      sorted[w.z - 1] := w;
    }

    /** wm_composite, with what it draws as its result. */
    method CompositeWindows() returns (drawn: seq<Window>)
      requires Valid() && Inv(View()) && |nodes| <= MAX_WINDOWS
      ensures Composite(List()) == Drawn(drawn)
    {
      hide Valid, Views, Inv, Slots, DrawFrom, SlotsHold, Composite;
      CompositeStarts(View());
      var count := WindowCount();
      var sorted := FillSlots();
      ghost var s, slot := Slots(List(), |nodes|), Empty;
      var focused: WindowNode? := null;
      drawn := [];
      for i := 0 to count
        invariant slot == if focused == null then Empty else Slot.Holds(focused.View())
        invariant SlotsHold(sorted, s)
        invariant Extends(Composite(List()), drawn, DrawFrom(s, count, i, slot))
      {
        DrawStep(s, count, i, slot);
        SlotIs(sorted, s, i);
        var w := sorted[i];
        if w == null || !w.visible || w.focused {
          focused := if w.focused then w else null;
          slot := if focused == null then Empty else Slot.Holds(focused.View());
        } else {
          drawn := drawn + [w.View()];
        }
      }
      DrawEnd(s, count, slot);
      if focused != null {
        drawn := drawn + [focused.View()];
      }
    }

    lemma SlotIs(sorted: array<WindowNode?>, s: seq<Slot>, i: nat)
      requires SlotsHold(sorted, s)
      ensures |s| == sorted.Length
      ensures i < |s| ==> s[i] == if sorted[i] == null then Empty else Slot.Holds(sorted[i].View())
    {
    }
  }

  /** The frame is what has been drawn and what is still to be drawn. */
  predicate Extends(f: Frame, drawn: seq<Window>, rest: Frame) {
    f.Drawn? && rest.Drawn? && f.order == drawn + rest.order
  }

  /** The loop of update_window_drag has been over the first `k` windows. */
  ghost predicate DraggedUpTo(q: seq<Window>, now: seq<Window>, k: nat, pressed: bool, x: int, y: int) {
    && |now| == |q|
    && forall i :: 0 <= i < |q| ==> now[i] == if i < k then Dragged(q[i], pressed, x, y) else q[i]
  }

  lemma NothingDragged(q: seq<Window>, pressed: bool, x: int, y: int)
    ensures DraggedUpTo(q, q, 0, pressed, x, y)
  {
  }

  lemma DragStep(q: seq<Window>, now: seq<Window>, k: nat, pressed: bool, x: int, y: int)
    requires k < |q| && DraggedUpTo(q, now, k, pressed, x, y)
    ensures k < |now| && DraggedUpTo(q, now[k := Dragged(now[k], pressed, x, y)], k + 1, pressed, x, y)
  {
  }

  lemma AllDragged(q: seq<Window>, now: seq<Window>, pressed: bool, x: int, y: int)
    requires DraggedUpTo(q, now, |q|, pressed, x, y)
    ensures now == DragAll(q, pressed, x, y)
  {
    DraggedAre(q, pressed, x, y);
  }

  lemma CloseStep(d: Desktop, id: nat)
    ensures var i := Find(d.windows, id);
      && i <= |d.windows|
      && Close(d, id) ==
        if i < |d.windows| then d.(windows := LowerAll(Drop(d.windows, i), d.windows[i].z), zIndex := Less(d.zIndex))
        else d
  {
  }

  lemma CompositeStarts(d: Desktop)
    requires Inv(d) && |d.windows| <= MAX_WINDOWS
    ensures var ws := d.windows; Extends(Composite(ws), [], DrawFrom(Slots(ws, |ws|), |ws|, 0, Empty))
  {
    hide DrawFrom, Slots;
    var _ := CompositorDrawsTheStack(d);
  }

  lemma SlotsStep(ws: seq<Window>, k: nat)
    requires k < |ws|
    ensures Slots(ws, k + 1) ==
      if 0 < ws[k].z <= MAX_WINDOWS then Slots(ws, k)[ws[k].z - 1 := Slot.Holds(ws[k])] else Slots(ws, k)
  {
  }

  /** A frame that is drawn to its end meets a window in every slot. */
  lemma DrawStep(s: seq<Slot>, count: nat, i: nat, focused: Slot)
    requires i < count && DrawFrom(s, count, i, focused).Drawn?
    ensures i < |s| && s[i].Holds?
    ensures var w, f := s[i].window, DrawFrom(s, count, i, focused);
      if !w.visible || w.focused then f == DrawFrom(s, count, i + 1, if w.focused then s[i] else Empty)
      else Extends(f, [w], DrawFrom(s, count, i + 1, focused))
  {
  }

  lemma DrawEnd(s: seq<Slot>, count: nat, focused: Slot)
    ensures DrawFrom(s, count, count, focused) == Drawn(if focused.Holds? then [focused.window] else [])
  {
  }
}
