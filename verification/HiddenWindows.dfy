/** The compositor on stacks with hidden windows: which windows it draws. */
module HiddenWindows {
  import opened Windows
  import opened Stacking

  /** A window that the second loop of the compositor draws at once. */
  predicate DrawnAtOnce(w: Window) { w.visible && !w.focused }

  /** All windows from index `i` on are drawn at once. */
  ghost predicate PlainFrom(order: seq<Window>, i: nat) {
    forall j :: i <= j < |order| ==> DrawnAtOnce(order[j])
  }

  /** What the loop keeps for the end when it has seen `order` from `i` on. */
  function Kept(order: seq<Window>, i: nat, focused: Slot): Slot
    requires i <= |order|
    decreases |order| - i
  {
    if i == |order| then focused
    else if DrawnAtOnce(order[i]) then Kept(order, i + 1, focused)
    else Kept(order, i + 1, if order[i].focused then Holds(order[i]) else Empty)
  }

  lemma {:induction false} KeptIs(order: seq<Window>, i: nat, focused: Slot, w: Window)
    requires i <= |order|
    ensures Kept(order, i, focused) == Holds(w) <==>
      || (exists k :: i <= k < |order| && order[k] == w && w.focused && PlainFrom(order, k + 1))
      || (focused == Holds(w) && PlainFrom(order, i))
    decreases |order| - i
  {
    if i < |order| {
      var next := if DrawnAtOnce(order[i]) then focused else if order[i].focused then Holds(order[i]) else Empty;
      KeptIs(order, i + 1, next, w);
      assert PlainFrom(order, i) <==> DrawnAtOnce(order[i]) && PlainFrom(order, i + 1);
      if order[i] == w && w.focused && PlainFrom(order, i + 1) {
        assert next == Holds(w);
      }
    }
  }

  ghost predicate InOrder(s: seq<Slot>, order: seq<Window>) {
    |order| <= |s| && forall k :: 0 <= k < |order| ==> s[k] == Holds(order[k])
  }

  lemma {:induction false} DrawsThese(s: seq<Slot>, order: seq<Window>, i: nat, focused: Slot, w: Window)
    requires InOrder(s, order) && i <= |order|
    ensures var f := DrawFrom(s, |order|, i, focused);
      f.Drawn? && (w in f.order <==>
        (exists k :: i <= k < |order| && order[k] == w && DrawnAtOnce(w)) || Kept(order, i, focused) == Holds(w))
    decreases |order| - i
  {
    if i < |order| {
      assert s[i] == Holds(order[i]);
      var next := if DrawnAtOnce(order[i]) then focused else if order[i].focused then s[i] else Empty;
      DrawsThese(s, order, i + 1, next, w);
    }
  }

  /** Whatever is hidden: of the windows from the bottom to the top, the compositor draws those that are
      visible and without the focus, none that is hidden and without it, and one with the focus exactly
      when every window above it is visible and without the focus. */
  lemma DrawnExactlyWhen(ws: seq<Window>, order: seq<Window>, k: nat)
    requires Stacked(ws) && |ws| <= 32 && FromBottom(ws, order) && k < |order|
    ensures Composite(ws).Drawn?
    ensures order[k] in Composite(ws).order <==>
      if order[k].focused then forall j :: k < j < |order| ==> order[j].visible && !order[j].focused
      else order[k].visible
  {
    hide DrawFrom, Slots, Kept;
    var s, w := Slots(ws, |ws|), order[k];
    OrderInSlots(ws, order);
    DrawsThese(s, order, 0, Empty, w);
    KeptIs(order, 0, Empty, w);
    assert forall j :: 0 <= j < |order| && order[j] == w ==> order[j].z == j + 1 && j == k;
    assert PlainFrom(order, k + 1) <==> forall j :: k < j < |order| ==> order[j].visible && !order[j].focused;
  }

  lemma OrderInSlots(ws: seq<Window>, order: seq<Window>)
    requires Stacked(ws) && |ws| <= MAX_WINDOWS && FromBottom(ws, order)
    ensures InOrder(Slots(ws, |ws|), order)
  {
    var s := Slots(ws, |ws|);
    hide Slots;
    forall k | 0 <= k < |order|
      ensures s[k] == Holds(order[k])
    {
      var i :| 0 <= i < |ws| && ws[i] == order[k];
      assert ws[i].z == k + 1;
      SlotsAre(ws, |ws|, i);
    }
  }
}
