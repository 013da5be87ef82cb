/** Window stacking over every run, and what the compositor makes of it. */
module Stacking {
  import opened Lists
  import opened FiniteSets
  import opened Windows

  /** The z-indices are a permutation of 1 to n, the counter is n + 1, at most one window has the
      focus, and ids are distinct. */
  ghost predicate Inv(d: Desktop) {
    var ws := d.windows;
    && Stacked(ws) && d.zIndex == |ws| + 1
    && (forall i :: 0 <= i < |ws| ==> 1 <= ws[i].id < d.nextId && ws[i].visible)
    && (forall i, j :: 0 <= i < j < |ws| ==> ws[i].id != ws[j].id && !(ws[i].focused && ws[j].focused))
    && d.nextId >= 1
  }

  ghost predicate Stacked(ws: seq<Window>) {
    && (forall i :: 0 <= i < |ws| ==> 1 <= ws[i].z <= |ws|)
    && (forall i, j :: 0 <= i < j < |ws| ==> ws[i].z != ws[j].z)
  }

  /** What is left of the windows: each but the closed one, lowered if it was above it. */
  lemma ClosedIs(d: Desktop, i: nat, k: nat)
    requires i < |d.windows| && Find(d.windows, d.windows[i].id) == i && k < |d.windows| - 1
    ensures var r := Close(d, d.windows[i].id).windows;
      |r| == |d.windows| - 1 && r[k] == Lowered(d.windows[if k < i then k else k + 1], d.windows[i].z)
  {
    hide LowerAll, Find;
    LoweredAre(Drop(d.windows, i), d.windows[i].z);
  }

  lemma ClosePlaces(d: Desktop, i: nat, k: nat, m: nat)
    requires Inv(d) && i < |d.windows| && k < m < |d.windows|
    requires k != i && m != i
    ensures var a, b, z := d.windows[k], d.windows[m], d.windows[i].z;
      && 1 <= Lowered(a, z).z <= |d.windows| - 1 && 1 <= Lowered(b, z).z <= |d.windows| - 1
      && Lowered(a, z).z != Lowered(b, z).z
  {
    assert d.windows[k].z != d.windows[i].z && d.windows[m].z != d.windows[i].z;
  }

  lemma ClosePlace(d: Desktop, i: nat, k: nat)
    requires Inv(d) && i < |d.windows| && k < |d.windows| && k != i
    ensures 1 <= Lowered(d.windows[k], d.windows[i].z).z <= |d.windows| - 1
  {
    assert d.windows[k].z != d.windows[i].z;
  }

  /** Closing a window takes it out and leaves a stack of the others. */
  lemma CloseKeeps(d: Desktop, id: nat)
    requires Inv(d)
    ensures Inv(Close(d, id))
    ensures Find(d.windows, id) < |d.windows| ==> |Close(d, id).windows| == |d.windows| - 1
    ensures Find(Close(d, id).windows, id) == |Close(d, id).windows|
  {
    var i, c := Find(d.windows, id), Close(d, id);
    if i < |d.windows| {
      assert |c.windows| == |d.windows| - 1 && c.zIndex == |d.windows| by {
        LoweredAre(Drop(d.windows, i), d.windows[i].z);
      }
      hide Close, Find, Lowered;
      forall k, m | 0 <= k < m < |c.windows|
        ensures c.windows[k].z != c.windows[m].z && c.windows[k].id != c.windows[m].id
        ensures !(c.windows[k].focused && c.windows[m].focused)
      {
        ClosedIs(d, i, k);
        ClosedIs(d, i, m);
        ClosePlaces(d, i, if k < i then k else k + 1, if m < i then m else m + 1);
        LoweredSame(d.windows[if k < i then k else k + 1], d.windows[i].z);
        LoweredSame(d.windows[if m < i then m else m + 1], d.windows[i].z);
      }
      forall k | 0 <= k < |c.windows|
        ensures 1 <= c.windows[k].z <= |c.windows| && 1 <= c.windows[k].id < d.nextId
        ensures c.windows[k].visible && c.windows[k].id != id
      {
        ClosedIs(d, i, k);
        ClosePlace(d, i, if k < i then k else k + 1);
        LoweredSame(d.windows[if k < i then k else k + 1], d.windows[i].z);
      }
      NotFound(c.windows, id);
      ClosedNextId(d, id);
    }
  }

  lemma NotFound(ws: seq<Window>, id: nat)
    requires forall k :: 0 <= k < |ws| ==> ws[k].id != id
    ensures Find(ws, id) == |ws|
  {
  }

  lemma ClosedNextId(d: Desktop, id: nat)
    ensures Close(d, id).nextId == d.nextId
  {
  }

  lemma LoweredSame(w: Window, z: nat)
    ensures Lowered(w, z) == w.(z := Lowered(w, z).z)
  {
  }

  lemma LoweredAre(ws: seq<Window>, z: nat)
    ensures |LowerAll(ws, z)| == |ws| && forall i :: 0 <= i < |ws| ==> LowerAll(ws, z)[i] == Lowered(ws[i], z)
  {
  }

  lemma RaiseKeeps(d: Desktop, c: nat)
    requires Inv(d) && c < |d.windows|
    ensures Inv(Raise(d, c))
  {
    hide LowerAll, Unfocused;
    LoweredAre(d.windows, d.windows[c].z);
    UnfocusedAre(LowerAll(d.windows, d.windows[c].z));
  }

  lemma UnfocusedAre(ws: seq<Window>)
    ensures |Unfocused(ws)| == |ws| && forall i :: 0 <= i < |ws| ==> Unfocused(ws)[i] == ws[i].(focused := false)
  {
  }

  /** The clicked window is the topmost one under the mouse; raising it gives it the top place and
      the only focus, and keeps the others in their order. */
  lemma {:induction false} TopmostIs(ws: seq<Window>, n: nat, px: int, py: int)
    requires n <= |ws|
    ensures var c := Topmost(ws, n, px, py);
      && (c.None? <==> forall i :: 0 <= i < n ==> !Hit(ws[i], px, py))
      && (c.Some? ==>
            Hit(ws[c.index], px, py) && forall i :: 0 <= i < n && Hit(ws[i], px, py) ==> ws[i].z <= ws[c.index].z)
    decreases n
  {
    if n > 0 {
      TopmostIs(ws, n - 1, px, py);
    }
  }

  lemma RaisedIs(d: Desktop, c: nat, i: nat, j: nat)
    requires Inv(d) && c < |d.windows| && i < |d.windows| && j < |d.windows|
    ensures var r := Raise(d, c).windows;
      && r[c].z == |d.windows| && (r[i].focused <==> i == c)
      && (i != c && j != c ==> (r[i].z < r[j].z <==> d.windows[i].z < d.windows[j].z))
      && r[i] == d.windows[i].(z := r[i].z, focused := r[i].focused)
  {
    hide LowerAll, Unfocused;
    LoweredAre(d.windows, d.windows[c].z);
    UnfocusedAre(LowerAll(d.windows, d.windows[c].z));
  }

  lemma ClickKeeps(d: Desktop, px: int, py: int)
    requires Inv(d)
    ensures Inv(Click(d, px, py))
  {
    hide Close, Raise, Topmost;
    var c := Clicked(d.windows, px, py);
    if c.Some? {
      RaiseKeeps(d, c.index);
      var r := Raise(d, c.index);
      CloseKeeps(r, r.windows[c.index].id);
    }
  }

  /** A click that hits nothing changes nothing; else it goes to the topmost window there. */
  lemma ClickGoesToTheTop(d: Desktop, px: int, py: int)
    requires Inv(d)
    ensures var c := Clicked(d.windows, px, py);
      && (c.None? ==> Click(d, px, py) == d && forall i :: 0 <= i < |d.windows| ==> !Hit(d.windows[i], px, py))
      && (c.Some? ==> Hit(d.windows[c.index], px, py))
      && (c.Some? ==> forall i ::
            0 <= i < |d.windows| && Hit(d.windows[i], px, py) ==> d.windows[i].z <= d.windows[c.index].z)
  {
    TopmostIs(d.windows, |d.windows|, px, py);
  }

  /** On its close button the window is gone afterwards. */
  lemma ClickCloses(d: Desktop, px: int, py: int)
    requires Inv(d) && Clicked(d.windows, px, py).Some?
    requires HitsClose(d.windows[Clicked(d.windows, px, py).index], px, py)
    ensures var w, r := d.windows[Clicked(d.windows, px, py).index], Click(d, px, py);
      Find(r.windows, w.id) == |r.windows| == |d.windows| - 1
  {
    hide Close, Raise, Clicked;
    var c := Clicked(d.windows, px, py).index;
    RaiseKeeps(d, c);
    RaisedIs(d, c, c, c);
    var r := Raise(d, c);
    CloseKeeps(r, r.windows[c].id);
    IsFound(r.windows, c);
  }

  /** Anywhere else it is on top with the only focus, and every other window keeps its order. */
  lemma ClickRaises(d: Desktop, px: int, py: int, i: nat, j: nat)
    requires Inv(d) && Clicked(d.windows, px, py).Some? && i < |d.windows| && j < |d.windows|
    requires !HitsClose(d.windows[Clicked(d.windows, px, py).index], px, py)
    ensures var c, r := Clicked(d.windows, px, py).index, Click(d, px, py).windows;
      && |r| == |d.windows| && r[c].z == |r| && (r[i].focused <==> i == c) && r[i].id == d.windows[i].id
      && (i != c && j != c ==> (r[i].z < r[j].z <==> d.windows[i].z < d.windows[j].z))
  {
    hide Close, Raise, Clicked, Inv;
    RaisedIs(d, Clicked(d.windows, px, py).index, i, j);
    RaisedIs(d, Clicked(d.windows, px, py).index, Clicked(d.windows, px, py).index, j);
  }

  lemma IsFound(ws: seq<Window>, i: nat)
    requires i < |ws|
    ensures Find(ws, ws[i].id) < |ws|
  {
  }

  lemma CreateKeeps(d: Desktop, block: nat, x: int, y: int, width: nat, height: nat)
    requires Inv(d)
    ensures Inv(Create(d, block, x, y, width, height)) <==> block != 0
  {
  }

  lemma MoveKeeps(d: Desktop, pressed: bool, mx: int, my: int)
    requires Inv(d)
    ensures Inv(Move(d, pressed, mx, my))
  {
    hide DragAll;
    DraggedAre(d.windows, pressed, mx - d.grabX, my - d.grabY);
  }

  lemma DraggedAre(ws: seq<Window>, pressed: bool, x: int, y: int)
    ensures var r := DragAll(ws, pressed, x, y);
      && |r| == |ws| && (forall i :: 0 <= i < |ws| ==> r[i] == Dragged(ws[i], pressed, x, y))
      && forall i :: 0 <= i < |ws| ==> r[i] == ws[i].(x := r[i].x, y := r[i].y, dragging := r[i].dragging)
  {
  }

  /** The heap has no block for a new window. */
  predicate Refused(e: Event) { e.CreateWindow? && e.block == 0 }

  lemma StepKeepsExactlyWhen(d: Desktop, e: Event)
    requires Inv(d)
    ensures Inv(Step(d, e)) <==> !Refused(e)
  {
    hide Close, Click, Create, Inv, Move;
    match e
    case CreateWindow(b, x, y, w, h) => CreateKeeps(d, b, x, y, w, h);
    case CloseWindow(id) => CloseKeeps(d, id);
    case ClickAt(x, y) => ClickKeeps(d, x, y);
    case MoveMouse(pressed, x, y) => MoveKeeps(d, pressed, x, y);
  }

  function Refusals(es: seq<Event>): nat {
    if es == [] then 0 else (if Refused(es[0]) then 1 else 0) + Refusals(es[1..])
  }

  lemma {:induction false} RunKeeps(d: Desktop, es: seq<Event>)
    requires Inv(d) && Refusals(es) == 0
    ensures Inv(Run(d, es))
    decreases |es|
  {
    hide Step, Inv;
    if es != [] {
      StepKeepsExactlyWhen(d, es[0]);
      RunKeeps(Step(d, es[0]), es[1..]);
    }
  }

  lemma CloseCounts(d: Desktop, id: nat)
    requires d.zIndex > |d.windows|
    ensures Close(d, id).zIndex - |Close(d, id).windows| == d.zIndex - |d.windows|
  {
    var i := Find(d.windows, id);
    hide Find, LowerAll;
    if i < |d.windows| {
      LoweredAre(Drop(d.windows, i), d.windows[i].z);
    }
  }

  lemma StepCounts(d: Desktop, e: Event)
    requires d.zIndex > |d.windows|
    ensures var r := Step(d, e);
      r.zIndex - |r.windows| == d.zIndex - |d.windows| + if Refused(e) then 1 else 0
  {
    hide Close, Topmost, DragAll, LowerAll, Unfocused;
    match e
    case CreateWindow(b, x, y, w, h) =>
    case CloseWindow(id) => CloseCounts(d, id);
    case ClickAt(x, y) =>
      var c := Clicked(d.windows, x, y);
      if c.Some? {
        RaiseCounts(d, c.index);
        CloseCounts(Raise(d, c.index), Raise(d, c.index).windows[c.index].id);
      }
    case MoveMouse(pressed, x, y) => DraggedAre(d.windows, pressed, x - d.grabX, y - d.grabY);
  }

  lemma RaiseCounts(d: Desktop, c: nat)
    requires c < |d.windows|
    ensures Raise(d, c).zIndex == d.zIndex && |Raise(d, c).windows| == |d.windows|
  {
  }

  /** Each window that the heap had no block for leaves a place nobody takes. */
  lemma {:induction false} RunCounts(d: Desktop, es: seq<Event>)
    requires d.zIndex > |d.windows|
    ensures Run(d, es).zIndex - |Run(d, es).windows| == d.zIndex - |d.windows| + Refusals(es)
    decreases |es|
  {
    hide Step;
    if es != [] {
      StepCounts(d, es[0]);
      RunCounts(Step(d, es[0]), es[1..]);
    }
  }

  // ----- every place is taken -----

  function Heights(ws: seq<Window>): (r: set<nat>)
    ensures forall z :: z in r <==> exists i :: 0 <= i < |ws| && ws[i].z == z
    decreases |ws|
  {
    if ws == [] then {} else Heights(ws[..|ws| - 1]) + {ws[|ws| - 1].z}
  }

  lemma {:induction false} HeightsSize(ws: seq<Window>)
    requires forall i, j :: 0 <= i < j < |ws| ==> ws[i].z != ws[j].z
    ensures |Heights(ws)| == |ws|
    decreases |ws|
  {
    if ws != [] {
      HeightsSize(ws[..|ws| - 1]);
    }
  }

  lemma HeightsAre(ws: seq<Window>)
    requires Stacked(ws)
    ensures Heights(ws) <= Range(1, |ws|) && |Range(1, |ws|)| == |ws|
    ensures forall z: nat :: z in Range(1, |ws|) <==> 1 <= z <= |ws|
    ensures forall z: nat :: z in Heights(ws) <==> exists i :: 0 <= i < |ws| && ws[i].z == z
  {
  }

  /** n distinct places from 1 to n are all of them. */
  lemma PlacesAreTaken(ws: seq<Window>, z: nat) returns (i: nat)
    requires Stacked(ws) && 1 <= z <= |ws|
    ensures i < |ws| && ws[i].z == z
  {
    hide Heights, Range;
    HeightsSize(ws);
    HeightsAre(ws);
    SubsetSize(Heights(ws), Range(1, |ws|));
    assert z in Heights(ws);
    i :| 0 <= i < |ws| && ws[i].z == z;
  }

  // ----- the compositor -----

  /** `order` lists the windows from the bottom to the top. */
  ghost predicate FromBottom(ws: seq<Window>, order: seq<Window>) {
    |order| == |ws| && forall k :: 0 <= k < |order| ==> order[k] in ws && order[k].z == k + 1
  }

  lemma {:induction false} SlotsAre(ws: seq<Window>, n: nat, i: nat)
    requires Stacked(ws) && n <= |ws| <= MAX_WINDOWS && i < n
    ensures Slots(ws, n)[ws[i].z - 1] == Holds(ws[i])
    decreases n
  {
    if i < n - 1 {
      SlotsAre(ws, n - 1, i);
    }
  }

  function Plain(ws: seq<Window>): seq<Window> {
    if ws == [] then [] else (if ws[0].focused then [] else [ws[0]]) + Plain(ws[1..])
  }

  function Focused(ws: seq<Window>): seq<Window> {
    if ws == [] then [] else (if ws[0].focused then [ws[0]] else []) + Focused(ws[1..])
  }

  ghost predicate Shows(s: seq<Slot>, order: seq<Window>) {
    && |order| <= |s|
    && forall k :: 0 <= k < |order| ==> s[k] == Holds(order[k]) && order[k].visible
  }

  /** What is drawn from slot `i` on: the plain windows, and at the end the focused one. */
  function Drawing(rest: seq<Window>, focused: Slot): seq<Window> {
    Plain(rest) + if focused.Holds? then [focused.window] else Focused(rest)
  }

  lemma {:induction false} DrawIs(s: seq<Slot>, order: seq<Window>, i: nat, focused: Slot)
    requires Shows(s, order) && i <= |order|
    requires focused.Holds? ==> Focused(order[i..]) == []
    requires |Focused(order[i..])| <= 1
    ensures DrawFrom(s, |order|, i, focused) == Drawn(Drawing(order[i..], focused))
    decreases |order| - i
  {
    if i < |order| {
      assert s[i] == Holds(order[i]);
      var next := if order[i].focused then s[i] else focused;
      assert order[i..][1..] == order[i + 1..] && order[i..][0] == order[i];
      DrawIs(s, order, i + 1, next);
      DrawingStep(order[i], order[i + 1..], order[i..], focused);
    }
  }

  lemma {:induction false} DrawingStep(w: Window, rest: seq<Window>, all: seq<Window>, focused: Slot)
    requires all != [] && all[0] == w && all[1..] == rest && |Focused(all)| <= 1
    requires focused.Holds? ==> Focused(all) == []
    ensures Drawing(all, focused) == if w.focused then Drawing(rest, Holds(w)) else [w] + Drawing(rest, focused)
    ensures Focused(all) == if w.focused then [w] + Focused(rest) else Focused(rest)
  {
    if w.focused {
      DrawingFocused(w, rest, all, focused);
    } else {
      DrawingPlain(w, rest, all, focused);
    }
  }

  lemma {:induction false} DrawingFocused(w: Window, rest: seq<Window>, all: seq<Window>, focused: Slot)
    requires all != [] && all[0] == w && all[1..] == rest && |Focused(all)| <= 1 && w.focused
    requires focused.Holds? ==> Focused(all) == []
    ensures Drawing(all, focused) == Drawing(rest, Holds(w)) && Focused(all) == [w] + Focused(rest)
  {
    assert Plain(all) == Plain(rest) && Focused(all) == [w] + Focused(rest);
    assert Focused(rest) == [] && focused.Empty?;
  }

  lemma {:induction false} DrawingPlain(w: Window, rest: seq<Window>, all: seq<Window>, focused: Slot)
    requires all != [] && all[0] == w && all[1..] == rest && !w.focused
    ensures Drawing(all, focused) == [w] + Drawing(rest, focused) && Focused(all) == Focused(rest)
  {
    assert Plain(all) == [w] + Plain(rest) && Focused(all) == Focused(rest);
    Regroup(w, Plain(rest), if focused.Holds? then [focused.window] else Focused(rest));
  }

  lemma Regroup(w: Window, a: seq<Window>, b: seq<Window>)
    ensures ([w] + a) + b == [w] + (a + b)
  {
  }

  lemma {:induction false} FocusedIsOne(ws: seq<Window>)
    requires forall i, j :: 0 <= i < j < |ws| ==> !(ws[i].focused && ws[j].focused)
    ensures |Focused(ws)| <= 1
    ensures ws != [] && ws[0].focused ==> Focused(ws[1..]) == []
    decreases |ws|
  {
    if ws != [] {
      FocusedIsOne(ws[1..]);
      if ws[0].focused {
        NoneFocused(ws[1..]);
      }
    }
  }

  lemma {:induction false} NoneFocused(ws: seq<Window>)
    requires forall i :: 0 <= i < |ws| ==> !ws[i].focused
    ensures Focused(ws) == [] && Plain(ws) == ws
    decreases |ws|
  {
    if ws != [] {
      NoneFocused(ws[1..]);
    }
  }

  lemma {:induction false} BuildOrder(ws: seq<Window>, k: nat) returns (order: seq<Window>)
    requires Stacked(ws) && k <= |ws|
    ensures |order| == k && forall i :: 0 <= i < k ==> order[i] in ws && order[i].z == i + 1
    decreases k
  {
    if k == 0 {
      order := [];
    } else {
      var front := BuildOrder(ws, k - 1);
      var i := PlacesAreTaken(ws, k);
      order := front + [ws[i]];
    }
  }

  lemma {:induction false} FaultsBehindTheArray(s: seq<Slot>, count: nat, i: nat, focused: Slot)
    requires count > |s|
    requires i <= |s|
    ensures DrawFrom(s, count, i, focused) == Fault
    decreases |s| - i
  {
    if i < |s| && s[i].Holds? {
      FaultsBehindTheArray(s, count, i + 1, focused);
      FaultsBehindTheArray(s, count, i + 1, if s[i].window.focused then s[i] else Empty);
    }
  }

  lemma {:induction false} SplitByFocus(ws: seq<Window>)
    ensures multiset(Plain(ws) + Focused(ws)) == multiset(ws)
    decreases |ws|
  {
    if ws != [] {
      SplitByFocus(ws[1..]);
      assert ws == [ws[0]] + ws[1..];
    }
  }

  lemma {:induction false} Once(ws: seq<Window>, w: Window)
    requires forall i, j :: 0 <= i < j < |ws| ==> ws[i].z != ws[j].z
    ensures multiset(ws)[w] == if w in ws then 1 else 0
    decreases |ws|
  {
    if ws != [] {
      Once(ws[1..], w);
      assert ws == [ws[0]] + ws[1..];
    }
  }

  lemma OrderIsAll(ws: seq<Window>, order: seq<Window>)
    requires Stacked(ws) && FromBottom(ws, order)
    ensures multiset(order) == multiset(ws)
  {
    forall w
      ensures multiset(order)[w] == multiset(ws)[w]
    {
      Once(ws, w);
      Once(order, w);
      if w in ws {
        InOrder(ws, order, w);
      }
    }
  }

  lemma InOrder(ws: seq<Window>, order: seq<Window>, w: Window)
    requires Stacked(ws) && FromBottom(ws, order) && w in ws
    ensures order[w.z - 1] == w
  {
    var i :| 0 <= i < |ws| && ws[i] == w;
    var j :| 0 <= j < |ws| && ws[j] == order[w.z - 1];
    assert ws[j].z == ws[i].z;
  }

  lemma {:induction false} OrderShows(ws: seq<Window>, order: seq<Window>)
    requires Stacked(ws) && |ws| <= MAX_WINDOWS && FromBottom(ws, order) && forall i :: 0 <= i < |ws| ==> ws[i].visible
    ensures Shows(Slots(ws, |ws|), order)
  {
    var s := Slots(ws, |ws|);
    hide Slots;
    forall k | 0 <= k < |order|
      ensures s[k] == Holds(order[k])
      ensures order[k].visible
    {
      var i :| 0 <= i < |ws| && ws[i] == order[k];
      assert ws[i].z == k + 1 && ws[i].visible;
      SlotsAre(ws, |ws|, i);
    }
  }

  lemma OrderFocus(d: Desktop, order: seq<Window>)
    requires Inv(d) && FromBottom(d.windows, order)
    ensures |Focused(order)| <= 1
  {
    forall i, j | 0 <= i < j < |order|
      ensures !(order[i].focused && order[j].focused)
    {
      var a :| 0 <= a < |d.windows| && d.windows[a] == order[i];
      var b :| 0 <= b < |d.windows| && d.windows[b] == order[j];
      assert d.windows[a].z != d.windows[b].z;
    }
    FocusedIsOne(order);
  }

  /** The compositor draws all windows exactly once, from the bottom to the top but the focused
      one last, precisely when there are at most 32; with more it runs out of its array. */
  lemma CompositorDrawsTheStack(d: Desktop) returns (order: seq<Window>)
    requires Inv(d)
    ensures Composite(d.windows).Drawn? <==> |d.windows| <= 32
    ensures FromBottom(d.windows, order) && multiset(order) == multiset(d.windows) && |Focused(order)| <= 1
    ensures multiset(Plain(order) + Focused(order)) == multiset(order)
    ensures |d.windows| <= 32 ==> Composite(d.windows) == Drawn(Plain(order) + Focused(order))
  {
    var ws := d.windows;
    order := BuildOrder(ws, |ws|);
    hide DrawFrom, Slots, Focused, Plain;
    OrderIsAll(ws, order);
    OrderFocus(d, order);
    SplitByFocus(order);
    if |ws| <= MAX_WINDOWS {
      OrderShows(ws, order);
      assert order[0..] == order;
      DrawIs(Slots(ws, |ws|), order, 0, Empty);
    } else {
      FaultsBehindTheArray(Slots(ws, |ws|), |ws|, 0, Empty);
    }
  }

  /** Over every run of creating, closing, clicking and moving: the counter exceeds the number of
      windows by one and by those that the heap had no block for; and the stack is kept precisely
      when there were none of these. */
  lemma RunsKeepTheStack(es: seq<Event>)
    ensures var d := Run(NoWindows(), es);
      && d.zIndex == |d.windows| + 1 + Refusals(es)
      && (Inv(d) <==> Refusals(es) == 0)
      && (Inv(d) ==> (Composite(d.windows).Drawn? <==> |d.windows| <= 32))
  {
    RunCounts(NoWindows(), es);
    if Refusals(es) == 0 {
      RunKeeps(NoWindows(), es);
    }
    if Inv(Run(NoWindows(), es)) {
      var _ := CompositorDrawsTheStack(Run(NoWindows(), es));
    }
  }

  // ----- runs in which the compositor faults -----

  /** One window too many. */
  function Creates(n: nat): seq<Event> { seq(n, _ => CreateWindow(1, 0, 0, 100, 100)) }

  lemma {:induction false} CreatesCount(d: Desktop, n: nat)
    ensures |Run(d, Creates(n)).windows| == |d.windows| + n && Refusals(Creates(n)) == 0
    decreases n
  {
    if n > 0 {
      assert Creates(n)[1..] == Creates(n - 1);
      CreatesCount(Step(d, CreateWindow(1, 0, 0, 100, 100)), n - 1);
    }
  }

  lemma ThirtyThreeWindowsFault()
    ensures var d := Run(NoWindows(), Creates(33));
      Inv(d) && |d.windows| == 33 && Composite(d.windows) == Fault
  {
    hide Run, Creates, Composite;
    CreatesCount(NoWindows(), 33);
    RunsKeepTheStack(Creates(33));
  }

  /** One window, one that the heap has no block for, and a click on the first: it comes to place 2,
      and the compositor finds nothing at place 1. */
  lemma RefusedWindowFaults()
    ensures var es := [CreateWindow(1, 0, 0, 100, 100), CreateWindow(0, 0, 0, 100, 100), ClickAt(50, 60)];
      var d := Run(NoWindows(), es);
      |d.windows| == 1 && d.windows[0].z == 2 && Composite(d.windows) == Fault
  {
    var a, b, c := CreateWindow(1, 0, 0, 100, 100), CreateWindow(0, 0, 0, 100, 100), ClickAt(50, 60);
    var d1 := Step(NoWindows(), a);
    var d2 := Step(d1, b);
    var d3 := Step(d2, c);
    var w := d2.windows[0];
    assert d2.windows == [w] && d2.zIndex == 3 && w.z == 1;
    assert Clicked([w], 50, 60) == Some(0) by {
      assert Topmost([w], 0, 50, 60) == None;
    }
    assert d3.windows == [w.(focused := true, z := 2)];
    assert Slots(d3.windows, 0)[0] == Empty;
    assert Slots(d3.windows, 1)[0] == Empty;
    assert [a, b, c][1..] == [b, c] && [b, c][1..] == [c] && [c][1..] == [];
  }

  // ----- dragging -----

  /** A click on the title bar, away from the close button, grabs the window there. */
  lemma ClickGrabs(d: Desktop, px: int, py: int)
    requires Inv(d) && Clicked(d.windows, px, py).Some?
    requires var w := d.windows[Clicked(d.windows, px, py).index];
      !HitsClose(w, px, py) && py < w.y + HEADER_OFFSET
    ensures var c, r := Clicked(d.windows, px, py).index, Click(d, px, py);
      var w := d.windows[c];
      && |r.windows| == |d.windows| && r.windows[c].id == w.id && r.windows[c].dragging
      && r.windows[c].x == w.x && r.windows[c].y == w.y && r.grabX == px - w.x && r.grabY == py - w.y
  {
    hide Close, Raise, Clicked, Inv;
    RaisedIs(d, Clicked(d.windows, px, py).index, Clicked(d.windows, px, py).index, 0);
  }

  /** Moves of the mouse with its button held. */
  predicate Held(es: seq<Event>) { forall i :: 0 <= i < |es| ==> es[i].MoveMouse? && es[i].pressed }

  lemma MovedIs(d: Desktop, mx: int, my: int, i: nat)
    requires i < |d.windows|
    ensures var r, w := Move(d, true, mx, my), d.windows[i];
      && |r.windows| == |d.windows| && r.grabX == d.grabX && r.grabY == d.grabY
      && r.windows[i] == if w.dragging then w.(x := mx - d.grabX, y := my - d.grabY) else w
  {
    hide DragAll;
    DraggedAre(d.windows, true, mx - d.grabX, my - d.grabY);
  }

  /** During such moves only grabbed windows move, and each is where the last one puts it. */
  lemma {:induction false} DragFollows(d: Desktop, es: seq<Event>, i: nat)
    requires Held(es) && i < |d.windows|
    ensures var r, w := Run(d, es), d.windows[i];
      && |r.windows| == |d.windows| && r.grabX == d.grabX && r.grabY == d.grabY
      && r.windows[i] ==
        if w.dragging && es != [] then w.(x := es[|es| - 1].x - d.grabX, y := es[|es| - 1].y - d.grabY) else w
    decreases |es|
  {
    hide Move;
    if es != [] {
      MovedIs(d, es[0].x, es[0].y, i);
      DragFollows(Step(d, es[0]), es[1..], i);
    }
  }

  /** A window grabbed at a click and dragged along any path has moved by exactly as much as the mouse. */
  lemma DraggedByTheMouse(d: Desktop, px: int, py: int, es: seq<Event>)
    requires Inv(d) && Clicked(d.windows, px, py).Some? && Held(es) && es != []
    requires var w := d.windows[Clicked(d.windows, px, py).index];
      !HitsClose(w, px, py) && py < w.y + HEADER_OFFSET
    ensures var c, r, last := Clicked(d.windows, px, py).index, Run(d, [ClickAt(px, py)] + es), es[|es| - 1];
      && c < |r.windows| && r.windows[c].id == d.windows[c].id
      && r.windows[c].x - d.windows[c].x == last.x - px && r.windows[c].y - d.windows[c].y == last.y - py
  {
    hide Click, Clicked;
    var c := Clicked(d.windows, px, py).index;
    ClickGrabs(d, px, py);
    DragFollows(Click(d, px, py), es, c);
    assert ([ClickAt(px, py)] + es)[1..] == es;
  }

  predicate Moves(es: seq<Event>) { forall i :: 0 <= i < |es| ==> es[i].MoveMouse? }

  predicate NoneGrabbed(d: Desktop) { forall i :: 0 <= i < |d.windows| ==> !d.windows[i].dragging }

  lemma {:induction false} UngrabbedStay(d: Desktop, es: seq<Event>)
    requires Moves(es) && NoneGrabbed(d)
    ensures Run(d, es) == d
    decreases |es|
  {
    hide DragAll;
    if es != [] {
      var e := es[0];
      DraggedAre(d.windows, e.pressed, e.x - d.grabX, e.y - d.grabY);
      assert Step(d, e).windows == d.windows;
      UngrabbedStay(d, es[1..]);
    }
  }

  /** Letting go of the button releases every window where it is: however the mouse moves after that,
      with its button or without, no window moves before the next click. */
  lemma ReleasedStay(d: Desktop, x: int, y: int, es: seq<Event>)
    requires Moves(es)
    ensures var r := Run(d, [MoveMouse(false, x, y)] + es);
      && |r.windows| == |d.windows|
      && forall i :: 0 <= i < |d.windows| ==> r.windows[i] == d.windows[i].(dragging := false)
  {
    hide DragAll;
    var d1 := Step(d, MoveMouse(false, x, y));
    DraggedAre(d.windows, false, x - d.grabX, y - d.grabY);
    UngrabbedStay(d1, es);
    assert ([MoveMouse(false, x, y)] + es)[1..] == es;
  }
}
