/** What closing a window does to the others, and that it does not come back. */
module ClosedWindows {
  import opened Windows
  import opened Stacking

  /** The window with this id is taken out; the others keep their order and everything but their places,
      and those above it come down by one place. */
  lemma CloseTakesOut(d: Desktop, i: nat, k: nat)
    requires Inv(d) && i < |d.windows| && k < |d.windows| - 1
    ensures var r, w := Step(d, CloseWindow(d.windows[i].id)), d.windows[if k < i then k else k + 1];
      && |r.windows| == |d.windows| - 1 && r.zIndex == d.zIndex - 1
      && r.windows[k] == w.(z := if w.z > d.windows[i].z then w.z - 1 else w.z)
  {
    IsFound(d.windows, i);
    CloseKeeps(d, d.windows[i].id);
    ClosedIs(d, i, k);
  }

  /** No window has this id, and none will be given it. */
  predicate Gone(d: Desktop, id: nat) { id < d.nextId && forall i :: 0 <= i < |d.windows| ==> d.windows[i].id != id }

  /** Closing changes no id. */
  lemma CloseIds(d: Desktop, id: nat, gone: nat)
    requires Inv(d) && Gone(d, gone)
    ensures Gone(Close(d, id), gone)
  {
    hide Find, Inv;
    ClosedNextId(d, id);
    var i, c := Find(d.windows, id), Close(d, id);
    if i < |d.windows| {
      CloseKeeps(d, id);
      forall k | 0 <= k < |c.windows|
        ensures c.windows[k].id != gone
      {
        ClosedIs(d, i, k);
        LoweredSame(d.windows[if k < i then k else k + 1], d.windows[i].z);
      }
    }
  }

  /** A click changes no id either. */
  lemma ClickIds(d: Desktop, px: int, py: int, gone: nat)
    requires Inv(d) && Gone(d, gone)
    ensures Gone(Click(d, px, py), gone)
  {
    hide Inv, Close, Raise, Clicked;
    var c := Clicked(d.windows, px, py);
    if c.Some? {
      RaiseKeeps(d, c.index);
      var r := Raise(d, c.index);
      assert r.nextId == d.nextId by { RaisedNextId(d, c.index); }
      forall i | 0 <= i < |r.windows|
        ensures r.windows[i].id != gone
      {
        RaisedIs(d, c.index, i, i);
      }
      CloseIds(r, r.windows[c.index].id, gone);
    }
  }

  lemma RaisedNextId(d: Desktop, c: nat)
    requires c < |d.windows|
    ensures Raise(d, c).nextId == d.nextId
  {
  }

  lemma StepKeepsGone(d: Desktop, e: Event, gone: nat)
    requires Inv(d) && Gone(d, gone)
    ensures Gone(Step(d, e), gone)
  {
    hide Inv, Close, Click, DragAll;
    match e
    case CreateWindow(b, x, y, w, h) =>
    case CloseWindow(id) => CloseIds(d, id, gone);
    case ClickAt(x, y) => ClickIds(d, x, y, gone);
    case MoveMouse(pressed, x, y) => DraggedAre(d.windows, pressed, x - d.grabX, y - d.grabY);
  }

  /** A closed window is gone for good: over every run, for which the heap has room, no window has its id
      again. */
  lemma {:induction false} GoneForGood(d: Desktop, es: seq<Event>, gone: nat)
    requires Inv(d) && Refusals(es) == 0 && Gone(d, gone)
    ensures Gone(Run(d, es), gone)
    decreases |es|
  {
    hide Step, Inv, Gone;
    if es != [] {
      StepKeepsExactlyWhen(d, es[0]);
      StepKeepsGone(d, es[0], gone);
      GoneForGood(Step(d, es[0]), es[1..], gone);
    }
  }

  lemma ClosedIsGone(d: Desktop, id: nat, es: seq<Event>)
    requires Inv(d) && id < d.nextId && Refusals(es) == 0
    ensures var r := Run(d, [CloseWindow(id)] + es); forall i :: 0 <= i < |r.windows| ==> r.windows[i].id != id
  {
    hide Run, Find, Inv;
    CloseKeeps(d, id);
    ClosedNextId(d, id);
    var c := Close(d, id);
    assert forall k :: 0 <= k < Find(c.windows, id) ==> c.windows[k].id != id;
    RunFrom(d, CloseWindow(id), es);
    GoneForGood(c, es, id);
  }

  lemma RunFrom(d: Desktop, e: Event, es: seq<Event>)
    ensures Run(d, [e] + es) == Run(Step(d, e), es)
  {
    hide Step;
    assert ([e] + es)[1..] == es;
  }
}
