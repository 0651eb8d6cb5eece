/** The z-order of windows and the drag protocol, over the states of the windows from bottom to top. */
module DragSpec {

  const WORD64 := 0x1_0000_0000_0000_0000
  /** Graphics::get_font_height() */
  const TITLE := 16

  /** The mouse-related fields of a window. `id` tells windows apart. */
  datatype Frame = Frame(id: object, x: nat, y: nat, width: nat, height: nat,
                         dragging: bool, dragX: nat, dragY: nat, closing: bool)

  /** The difference of two unsigned 64-bit numbers. */
  function Minus(a: nat, b: nat): (r: nat)
    ensures a < WORD64 && b < WORD64 && a >= b ==> r == a - b
    ensures a < b < WORD64 ==> r == a + WORD64 - b
  {
    (a - b) % WORD64
  }

  /** The hit test of `inject_mouse_button`, borders included. */
  predicate Contains(f: Frame, px: nat, py: nat) {
    px >= f.x && px <= (f.x + f.width) % WORD64 && py >= f.y && py <= (f.y + f.height) % WORD64
  }

  /** The topmost frame that contains the point, or -1. */
  function Hit(fs: seq<Frame>, px: nat, py: nat): (i: int)
    ensures -1 <= i < |fs|
    ensures i >= 0 ==> Contains(fs[i], px, py)
    ensures forall k :: i < k < |fs| ==> !Contains(fs[k], px, py)
  {
    if fs == [] then -1
    else if Contains(fs[|fs| - 1], px, py) then |fs| - 1
    else Hit(fs[..|fs| - 1], px, py)
  }

  /** `on_mouse_button` with the button down, at local coordinates */
  function Grabbed(f: Frame, lx: nat, ly: nat): Frame {
    if lx < f.width && lx >= Minus(f.width, TITLE) && ly < TITLE then f.(closing := true)
    else if ly < TITLE then f.(dragging := true, dragX := lx, dragY := ly)
    else f
  }

  /** `on_mouse_button` with the button up */
  function Dropped(f: Frame): Frame {
    f.(dragging := false, dragX := 0, dragY := 0)
  }

  /** `on_mouse_move` */
  function Dragged(f: Frame, px: nat, py: nat): Frame {
    if f.dragging then f.(x := Minus(px, f.dragX), y := Minus(py, f.dragY)) else f
  }

  /** Element `i` moved to the end, the order of the others kept. */
  function ToEnd<T>(s: seq<T>, i: nat): seq<T>
    requires i < |s|
  {
    s[..i] + s[i + 1..] + [s[i]]
  }

  /** `inject_mouse_button(px, py, 0, true)`: the topmost hit window comes to the top and gets the press. */
  function Press(fs: seq<Frame>, px: nat, py: nat): seq<Frame> {
    var i := Hit(fs, px, py);
    if i == -1 then fs
    else ToEnd(fs[i := Grabbed(fs[i], px - fs[i].x, py - fs[i].y)], i)
  }

  /** `inject_mouse_button(px, py, 0, false)`: the topmost hit window gets the release. */
  function Release(fs: seq<Frame>, px: nat, py: nat): seq<Frame> {
    var i := Hit(fs, px, py);
    if i == -1 then fs else fs[i := Dropped(fs[i])]
  }

  /** `inject_mouse_move`: only the topmost window is told. */
  function Move(fs: seq<Frame>, px: nat, py: nat): seq<Frame> {
    if fs == [] then fs else fs[|fs| - 1 := Dragged(fs[|fs| - 1], px, py)]
  }

  /** The desktop between mouse events: the frames, and whether the left button was down. */
  datatype Desk = Desk(frames: seq<Frame>, wasDown: bool)

  /** A decoded mouse event after the pointer has moved. */
  datatype Event = Event(px: nat, py: nat, down: bool)

  /** Only the edges of the button reach the windows. */
  function ClickFrames(fs: seq<Frame>, wasDown: bool, isDown: bool, px: nat, py: nat): seq<Frame> {
    if isDown && !wasDown then Press(fs, px, py)
    else if !isDown && wasDown then Release(fs, px, py)
    else fs
  }

  /** One round of `process_mouse_events` in GUI context */
  function Handle(d: Desk, e: Event): Desk {
    Desk(ClickFrames(Move(d.frames, e.px, e.py), d.wasDown, e.down, e.px, e.py), e.down)
  }

  // ---------- The protocol ----------

  /** Coordinates below 2^62: no sum of two of them wraps around. */
  const FAR := 0x4000_0000_0000_0000

  ghost predicate Sane(fs: seq<Frame>) {
    forall i :: 0 <= i < |fs| ==> fs[i].width < FAR && fs[i].height < FAR
  }

  ghost predicate Near(e: Event) {
    e.px < FAR && e.py < FAR
  }

  /**
   Between events: a window is dragged only while the button is down; it is the topmost one; it
   lies where the pointer holds it; and the grab point is a point of the window.
   */
  ghost predicate Protocol(d: Desk, e: Event) {
    && Sane(d.frames)
    && d.wasDown == e.down
    && forall i :: 0 <= i < |d.frames| && d.frames[i].dragging ==>
         && d.wasDown && i == |d.frames| - 1
         && d.frames[i].x + d.frames[i].dragX == e.px && d.frames[i].y + d.frames[i].dragY == e.py
         && d.frames[i].dragX <= d.frames[i].width && d.frames[i].dragY <= d.frames[i].height
  }

  /** The pointer is not left of or above the grab offset of the window being dragged. */
  ghost predicate InReach(d: Desk, e: Event) {
    forall i :: 0 <= i < |d.frames| && d.frames[i].dragging ==> d.frames[i].dragX <= e.px && d.frames[i].dragY <= e.py
  }

  /** Nothing is being dragged. */
  ghost predicate AtRest(d: Desk) {
    forall i :: 0 <= i < |d.frames| ==> !d.frames[i].dragging
  }

  lemma MoveKeeps(d: Desk, last: Event, e: Event)
    requires Protocol(d, last) && InReach(d, e) && Near(e)
    ensures Protocol(Desk(Move(d.frames, e.px, e.py), last.down), Event(e.px, e.py, last.down))
  {
  }

  lemma ReleaseReaches(d: Desk, e: Event)
    requires Protocol(d, e) && Near(e)
    ensures AtRest(Desk(Release(d.frames, e.px, e.py), false))
  {
    if i :| 0 <= i < |d.frames| && d.frames[i].dragging {
      assert Contains(d.frames[i], e.px, e.py);
    }
  }

  lemma ModAtMost(a: nat)
    ensures a % WORD64 <= a
  {
  }

  /** Where a window is hit, local coordinates lie in it. */
  lemma LocalInside(f: Frame, px: nat, py: nat)
    requires Contains(f, px, py)
    ensures 0 <= px - f.x <= f.width && 0 <= py - f.y <= f.height
  {
    ModAtMost(f.x + f.width);
    ModAtMost(f.y + f.height);
  }

  lemma GrabbedFrame(f: Frame, lx: nat, ly: nat)
    ensures var f' := Grabbed(f, lx, ly);
      && f'.x == f.x && f'.y == f.y && f'.width == f.width && f'.height == f.height
      && (f'.dragging ==> f.dragging || (f'.dragX == lx && f'.dragY == ly))
  {
  }

  lemma PressKeeps(d: Desk, e: Event)
    requires Sane(d.frames) && AtRest(d) && Near(e)
    ensures Protocol(Desk(Press(d.frames, e.px, e.py), true), Event(e.px, e.py, true))
  {
    var i := Hit(d.frames, e.px, e.py);
    if i >= 0 {
      var f := d.frames[i];
      LocalInside(f, e.px, e.py);
      GrabbedFrame(f, e.px - f.x, e.py - f.y);
      RaisedKeeps(d, e, i, Grabbed(f, e.px - f.x, e.py - f.y));
    }
  }

  /** Among windows at rest, one is raised that the pointer holds, if it is dragged at all. */
  lemma RaisedKeeps(d: Desk, e: Event, i: nat, f: Frame)
    requires Sane(d.frames) && AtRest(d) && i < |d.frames| && f.width < FAR && f.height < FAR
    requires f.dragging ==> f.x + f.dragX == e.px && f.y + f.dragY == e.py && f.dragX <= f.width && f.dragY <= f.height
    ensures Protocol(Desk(ToEnd(d.frames[i := f], i), true), Event(e.px, e.py, true))
  {
  }

  /** Every event within reach keeps the protocol, and one with the button up leaves everything at rest. */
  lemma HandleKeeps(d: Desk, last: Event, e: Event)
    requires Protocol(d, last) && InReach(d, e) && Near(e)
    ensures Protocol(Handle(d, e), e)
    ensures !e.down ==> AtRest(Handle(d, e))
  {
    var moved := Desk(Move(d.frames, e.px, e.py), last.down);
    MoveKeeps(d, last, e);
    if e.down && !d.wasDown {
      PressKeeps(moved, e);
    } else if !e.down && d.wasDown {
      ReleaseReaches(moved, Event(e.px, e.py, true));
    }
  }

  /** A release ends the drag exactly when the pointer is in reach; otherwise the window is still being dragged. */
  lemma ReleaseEndsDragIff(d: Desk, last: Event, e: Event)
    requires Protocol(d, last) && Near(last) && Near(e) && !e.down && !AtRest(d)
    ensures AtRest(Handle(d, e)) <==> InReach(d, e)
  {
    var t := |d.frames| - 1;
    assert d.frames[t].dragging;
    if InReach(d, e) {
      HandleKeeps(d, last, e);
    } else {
      var moved := Move(d.frames, e.px, e.py);
      assert !Contains(moved[t], e.px, e.py);
      assert Release(moved, e.px, e.py)[t].dragging;
    }
  }

  // ---------- Closing ----------

  /** `cleanup_closed_windows`: the windows that do not want to close, in order */
  function Remaining(fs: seq<Frame>): (r: seq<Frame>)
    ensures forall f :: f in r ==> f in fs && !f.closing
  {
    if fs == [] then []
    else
      var n := |fs| - 1;
      Remaining(fs[..n]) + if fs[n].closing then [] else [fs[n]]
  }

  function Cleaned(d: Desk): Desk {
    d.(frames := Remaining(d.frames))
  }

  /** Windows that close, even the one being dragged, do not disturb the protocol. */
  lemma CleanupKeeps(d: Desk, e: Event)
    requires Protocol(d, e)
    ensures Protocol(Cleaned(d), e)
  {
    if d.frames != [] {
      var n := |d.frames| - 1;
      forall f | f in Remaining(d.frames[..n])
        ensures !f.dragging
      {
        var i :| 0 <= i < n && d.frames[i] == f;
      }
    }
  }

  // ---------- Runs ----------

  /** One event after the other */
  function HandleAll(d: Desk, es: seq<Event>): Desk
    decreases |es|
  {
    if es == [] then d else HandleAll(Handle(d, es[0]), es[1..])
  }

  /** In every event the pointer is in reach of the window being dragged then. */
  ghost predicate AllInReach(d: Desk, es: seq<Event>)
    decreases |es|
  {
    es == [] || (Near(es[0]) && InReach(d, es[0]) && AllInReach(Handle(d, es[0]), es[1..]))
  }

  /** The last of some events, or the one before them */
  function Latest(last: Event, es: seq<Event>): Event {
    if es == [] then last else es[|es| - 1]
  }

  lemma {:induction false} BatchKeepsProtocol(d: Desk, last: Event, es: seq<Event>)
    requires Protocol(d, last) && AllInReach(d, es)
    ensures Protocol(HandleAll(d, es), Latest(last, es))
    decreases |es|
  {
    if es != [] {
      HandleKeeps(d, last, es[0]);
      BatchKeepsProtocol(Handle(d, es[0]), es[0], es[1..]);
    }
  }

  /** The main loop in GUI context: events are handled in batches, and after each the closed windows go. */
  function Rounds(d: Desk, batches: seq<seq<Event>>): Desk
    decreases |batches|
  {
    if batches == [] then d else Rounds(Cleaned(HandleAll(d, batches[0])), batches[1..])
  }

  ghost predicate RoundsInReach(d: Desk, batches: seq<seq<Event>>)
    decreases |batches|
  {
    batches == [] ||
    (AllInReach(d, batches[0]) && RoundsInReach(Cleaned(HandleAll(d, batches[0])), batches[1..]))
  }

  function LatestOf(last: Event, batches: seq<seq<Event>>): Event
    decreases |batches|
  {
    if batches == [] then last else LatestOf(Latest(last, batches[0]), batches[1..])
  }

  lemma {:induction false} RoundsKeepProtocol(d: Desk, last: Event, batches: seq<seq<Event>>)
    requires Protocol(d, last) && RoundsInReach(d, batches)
    ensures Protocol(Rounds(d, batches), LatestOf(last, batches))
    decreases |batches|
  {
    if batches != [] {
      BatchKeepsProtocol(d, last, batches[0]);
      CleanupKeeps(HandleAll(d, batches[0]), Latest(last, batches[0]));
      RoundsKeepProtocol(Cleaned(HandleAll(d, batches[0])), Latest(last, batches[0]), batches[1..]);
    }
  }

  /**
   After every run that starts at rest: at most the topmost window is dragged, only while the button
   is down, and it lies where the pointer holds it; with the button up, nothing is dragged.
   */
  lemma RunKeepsProtocol(d: Desk, batches: seq<seq<Event>>)
    requires Sane(d.frames) && AtRest(d) && !d.wasDown && RoundsInReach(d, batches)
    ensures var last := LatestOf(Event(0, 0, false), batches);
      Protocol(Rounds(d, batches), last) && (!last.down ==> AtRest(Rounds(d, batches)))
  {
    RoundsKeepProtocol(d, Event(0, 0, false), batches);
  }

  // ---------- The pointer ----------

  /** The pointer arithmetic of `process_mouse_events`. Its last clamp corrects the wrong coordinate. */
  function Pointer(mx: nat, my: nat, dx: int, dy: int, width: nat, height: nat): (p: (int, int)) {
    var x0 := if mx + dx < 0 then 0 else mx + dx;
    var x1 := if x0 >= width then width - 1 else x0;
    var y := if my + dy < 0 then 0 else my + dy;
    (if y >= height then height - 1 else x1, y)
  }

  /** The pointer is left on the screen exactly when the movement does not take it below the bottom edge. */
  lemma PointerOnScreenIff(mx: nat, my: nat, dx: int, dy: int, width: nat, height: nat)
    requires width > 0 && height > 0
    ensures var (x, y) := Pointer(mx, my, dx, dy, width, height);
      0 <= x < width && 0 <= y < height <==> my + dy < height
  {
  }
}
