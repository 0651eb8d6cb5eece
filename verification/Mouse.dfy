/** The main loop's side of the mouse: decoded events become pointer moves, presses and releases. */
module Mouse {
  import opened DragLaws
  import opened DragSpec
  import opened Compositor
  import opened RingBuffer

  datatype MouseEvent = MouseEvent(deltaX: int, deltaY: int, buttons: nat)

  /** The pointer and button of each event of a batch, from pointer (mx, my) */
  function Events(mx: nat, my: nat, batch: seq<MouseEvent>, width: nat, height: nat): (es: seq<Event>)
    requires width > 0 && height > 0
    ensures |es| == |batch|
    decreases |batch|
  {
    if batch == [] then [] else
      var (x, y) := Pointer(mx, my, batch[0].deltaX, batch[0].deltaY, width, height);
      [Event(x, y, batch[0].buttons % 2 == 1)] + Events(x, y, batch[1..], width, height)
  }

  /** Where the pointer is after a batch */
  function PointerAfter(mx: nat, my: nat, batch: seq<MouseEvent>, width: nat, height: nat): (nat, nat)
    requires width > 0 && height > 0
    decreases |batch|
  {
    if batch == [] then (mx, my) else
      var (x, y) := Pointer(mx, my, batch[0].deltaX, batch[0].deltaY, width, height);
      PointerAfter(x, y, batch[1..], width, height)
  }

  class MouseInput {
    var mouseX: nat
    var mouseY: nat
    var leftWasDown: bool

    constructor ()
      ensures mouseX == 0 && mouseY == 0 && !leftWasDown
    {
      mouseX, mouseY, leftWasDown := 0, 0, false;
    }

    /** The pointer arithmetic of one event */
    method MovePointer(event: MouseEvent, width: nat, height: nat)
      requires width > 0 && height > 0
      modifies this`mouseX, this`mouseY
      ensures (mouseX, mouseY) == Pointer(old(mouseX), old(mouseY), event.deltaX, event.deltaY, width, height)
    {
      var newX := mouseX + event.deltaX;
      var newY := mouseY + event.deltaY;
      if newX < 0 {
        newX := 0;
      }
      if newX >= width {
        newX := width - 1;
      }
      if newY < 0 {
        newY := 0;
      }
      if newY >= height {
        newX := height - 1;
      }
      mouseX, mouseY := newX, newY;
    }

    /** Presses and releases: the edges of the left button */
    method Click(leftIsDown: bool, comp: Compositor, ghost objects: set<object>)
      requires comp.Valid() && comp.Inside(objects) && this !in objects
      modifies objects
      ensures comp.Valid() && comp.Inside(objects)
      ensures comp.Frames() == ClickFrames(old(comp.Frames()), leftWasDown, leftIsDown, mouseX, mouseY)
    {
      if leftIsDown && !leftWasDown {
        comp.InjectMouseButton(mouseX, mouseY, true, objects);
      } else if !leftIsDown && leftWasDown {
        comp.InjectMouseButton(mouseX, mouseY, false, objects);
      }
    }

    /** A move, then perhaps a press or a release, at the pointer */
    method Deliver(leftIsDown: bool, comp: Compositor, ghost objects: set<object>)
      requires comp.Valid() && comp.Inside(objects) && this !in objects
      modifies objects
      ensures comp.Valid() && comp.Inside(objects)
      ensures comp.Frames()
           == Handle(Desk(old(comp.Frames()), leftWasDown), Event(mouseX, mouseY, leftIsDown)).frames
    {
      comp.InjectMouseMove(mouseX, mouseY, objects);
      Click(leftIsDown, comp, objects);
    }

    /** The body of the loop of `process_mouse_events`; `gui` tells whether the windows have the screen. */
    method HandleEvent(event: MouseEvent, gui: bool, comp: Compositor, width: nat, height: nat,
                       ghost objects: set<object>)
      requires comp.Valid() && comp.Inside(objects) && this !in objects && width > 0 && height > 0
      modifies this, objects
      ensures comp.Valid() && comp.Inside(objects)
      ensures (mouseX, mouseY) == Pointer(old(mouseX), old(mouseY), event.deltaX, event.deltaY, width, height)
      ensures Desk(comp.Frames(), leftWasDown)
           == Noted(gui, old(Desk(comp.Frames(), leftWasDown)), Event(mouseX, mouseY, event.buttons % 2 == 1))
    {
      MovePointer(event, width, height);
      var leftIsDown := event.buttons % 2 == 1;
      if gui {
        Deliver(leftIsDown, comp, objects);
      }
      leftWasDown := leftIsDown;
    }

    /** `HandleEvent`, seen as the first step of what is left to do */
    method HandleNext(event: MouseEvent, ghost rest: seq<MouseEvent>, gui: bool, comp: Compositor,
                      width: nat, height: nat, ghost objects: set<object>)
      requires comp.Valid() && comp.Inside(objects) && this !in objects && width > 0 && height > 0
      modifies this, objects
      ensures comp.Valid() && comp.Inside(objects)
      ensures Outcome(gui, Desk(comp.Frames(), leftWasDown), mouseX, mouseY, rest, width, height)
           == old(Outcome(gui, Desk(comp.Frames(), leftWasDown), mouseX, mouseY, [event] + rest, width, height))
    {
      OutcomeFirst(gui, Desk(comp.Frames(), leftWasDown), mouseX, mouseY, event, rest, width, height);
      HandleEvent(event, gui, comp, width, height, objects);
    }

    /** The body of the loop, and the `pop` that decides on the next round */
    method HandleOldest(event: MouseEvent, ring: RingBuffer<MouseEvent>, gui: bool, comp: Compositor,
                        width: nat, height: nat, ghost objects: set<object>)
      returns (ok: bool, next: MouseEvent)
      requires ring.Valid() && comp.Valid() && comp.Inside(objects) && width > 0 && height > 0
      requires {this, ring, ring.buffer} !! objects
      modifies this, ring`tail, objects
      ensures ring.Valid() && (!ok ==> ring.Contents() == []) && comp.Valid() && comp.Inside(objects)
      ensures old(ring.Contents()) == Waiting(ok, next, ring.Contents())
      ensures Outcome(gui, Desk(comp.Frames(), leftWasDown), mouseX, mouseY, old(ring.Contents()), width, height)
           == old(Outcome(gui, Desk(comp.Frames(), leftWasDown), mouseX, mouseY, [event] + ring.Contents(),
                          width, height))
    {
      HandleNext(event, ring.Contents(), gui, comp, width, height, objects);
      ok, next := ring.Pop(event);
    }

    /** The loop of `process_mouse_events` */
    method HandleRing(ring: RingBuffer<MouseEvent>, gui: bool, comp: Compositor, width: nat, height: nat,
                      ghost objects: set<object>)
      requires ring.Valid() && comp.Valid() && comp.Inside(objects) && width > 0 && height > 0
      requires {this, ring, ring.buffer} !! objects
      modifies this, ring`tail, objects
      ensures ring.Valid() && ring.Contents() == [] && comp.Valid() && comp.Inside(objects)
      ensures Outcome(gui, Desk(comp.Frames(), leftWasDown), mouseX, mouseY, [], width, height)
           == old(Outcome(gui, Desk(comp.Frames(), leftWasDown), mouseX, mouseY, ring.Contents(), width, height))
    {
      ghost var rest := ring.Contents();
      var ok, event := ring.Pop(MouseEvent(0, 0, 0));
      while ok
        invariant ring.Valid() && comp.Valid() && comp.Inside(objects)
        invariant rest == Waiting(ok, event, ring.Contents()) && (!ok ==> ring.Contents() == [])
        invariant Outcome(gui, Desk(comp.Frames(), leftWasDown), mouseX, mouseY, rest, width, height)
               == old(Outcome(gui, Desk(comp.Frames(), leftWasDown), mouseX, mouseY, ring.Contents(), width, height))
        decreases |rest|
      {
        rest := ring.Contents();
        ok, event := HandleOldest(event, ring, gui, comp, width, height, objects);
      }
    }

    /** `process_mouse_events`: empties the ring. */
    method ProcessMouseEvents(ring: RingBuffer<MouseEvent>, gui: bool, comp: Compositor, width: nat, height: nat,
                              ghost objects: set<object>)
      requires ring.Valid() && comp.Valid() && comp.Inside(objects) && width > 0 && height > 0
      requires {this, ring, ring.buffer} !! objects
      modifies this, ring`tail, objects
      ensures ring.Valid() && ring.Contents() == [] && comp.Valid() && comp.Inside(objects)
      ensures (mouseX, mouseY) == PointerAfter(old(mouseX), old(mouseY), old(ring.Contents()), width, height)
      ensures Desk(comp.Frames(), leftWasDown)
           == NotedAll(gui, old(Desk(comp.Frames(), leftWasDown)),
                       Events(old(mouseX), old(mouseY), old(ring.Contents()), width, height))
    {
      HandleRing(ring, gui, comp, width, height, objects);
    }

    /** One round of the main loop's mouse work in GUI context: the events, then the end of `render` */
    method GuiRound(ring: RingBuffer<MouseEvent>, comp: Compositor, width: nat, height: nat, ghost objects: set<object>)
      requires ring.Valid() && comp.Valid() && comp.Inside(objects) && width > 0 && height > 0
      requires {this, ring, ring.buffer} !! objects
      modifies this, ring`tail, objects
      ensures ring.Valid() && ring.Contents() == [] && comp.Valid() && comp.Inside(objects)
      ensures Desk(comp.Frames(), leftWasDown)
           == Cleaned(HandleAll(old(Desk(comp.Frames(), leftWasDown)),
                                Events(old(mouseX), old(mouseY), old(ring.Contents()), width, height)))
    {
      NotedIsHandled(Desk(comp.Frames(), leftWasDown), Events(mouseX, mouseY, ring.Contents(), width, height));
      ProcessMouseEvents(ring, true, comp, width, height, objects);
      comp.OwnedAll(objects);
      OwnedStaying(comp.nodes, comp.Closing(), objects);
      comp.CleanupClosedWindows();
    }
  }

  /** The events not yet handled: the one popped, if there was one, and those in the ring, or none */
  ghost function Waiting(ok: bool, event: MouseEvent, inRing: seq<MouseEvent>): seq<MouseEvent> {
    if ok then [event] + inRing else []
  }

  /** An event is handled only while the windows have the screen, but the button is always remembered. */
  function Noted(gui: bool, d: Desk, e: Event): Desk {
    if gui then Handle(d, e) else d.(wasDown := e.down)
  }

  function NotedAll(gui: bool, d: Desk, es: seq<Event>): Desk
    decreases |es|
  {
    if es == [] then d else NotedAll(gui, Noted(gui, d, es[0]), es[1..])
  }

  lemma {:induction false} NotedIsHandled(d: Desk, es: seq<Event>)
    ensures NotedAll(true, d, es) == HandleAll(d, es)
    decreases |es|
  {
    if es != [] {
      NotedIsHandled(Handle(d, es[0]), es[1..]);
    }
  }

  /** Desk and pointer after a batch */
  function Outcome(gui: bool, d: Desk, mx: nat, my: nat, batch: seq<MouseEvent>, width: nat, height: nat):
    (Desk, (nat, nat))
    requires width > 0 && height > 0
  {
    (NotedAll(gui, d, Events(mx, my, batch, width, height)), PointerAfter(mx, my, batch, width, height))
  }

  lemma OutcomeFirst(gui: bool, d: Desk, mx: nat, my: nat, event: MouseEvent, rest: seq<MouseEvent>,
                     width: nat, height: nat)
    requires width > 0 && height > 0
    ensures var (x, y) := Pointer(mx, my, event.deltaX, event.deltaY, width, height);
      Outcome(gui, d, mx, my, [event] + rest, width, height)
      == Outcome(gui, Noted(gui, d, Event(x, y, event.buttons % 2 == 1)), x, y, rest, width, height)
  {
    assert ([event] + rest)[1..] == rest;
  }

  /** Event `k` of a batch has the pointer where the first `k + 1` moves lead, and the button down if its bit is set. */
  lemma {:induction false} EventsAt(mx: nat, my: nat, batch: seq<MouseEvent>, width: nat, height: nat, k: nat)
    requires width > 0 && height > 0 && k < |batch|
    ensures var e := Events(mx, my, batch, width, height)[k];
      && (e.px, e.py) == PointerAfter(mx, my, batch[..k + 1], width, height)
      && (e.down <==> batch[k].buttons % 2 == 1)
    decreases |batch|
  {
    var (x, y) := Pointer(mx, my, batch[0].deltaX, batch[0].deltaY, width, height);
    assert batch[..k + 1][1..] == batch[1..][..k];
    if k > 0 {
      EventsAt(x, y, batch[1..], width, height, k - 1);
    }
  }

  /** While the terminal has the screen, windows stay as they are, and the button of the last event is remembered. */
  lemma {:induction false} OffScreen(d: Desk, es: seq<Event>)
    ensures NotedAll(false, d, es) == Desk(d.frames, if es == [] then d.wasDown else es[|es| - 1].down)
    decreases |es|
  {
    if es != [] {
      OffScreen(Noted(false, d, es[0]), es[1..]);
    }
  }

  /** A button held through a switch to the windows is no new press: with nothing dragged, nothing happens. */
  lemma HeldThroughSwitch(d: Desk, es: seq<Event>, e: Event)
    requires AtRest(d) && es != [] && es[|es| - 1].down && e.down
    ensures NotedAll(true, NotedAll(false, d, es), [e]) == Desk(d.frames, true)
  {
    OffScreen(d, es);
    HeldIsNoPress(Desk(d.frames, true), e);
    var one := [e];
    assert one[1..] == [];
  }
}
