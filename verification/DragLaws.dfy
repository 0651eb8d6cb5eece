/** What presses, moves and releases do to the windows on the screen, said in terms of places and not of handlers. */
module DragLaws {
  import opened DragSpec
  import opened Sequences

  // ---------- Where the pointer is ----------

  /** The pixel is on the window or its border. */
  predicate Covers(f: Frame, px: nat, py: nat) {
    f.x <= px <= f.x + f.width && f.y <= py <= f.y + f.height
  }

  /** The hit test is this, except for windows whose right or lower edge wraps around, which it never finds. */
  lemma ContainsIff(f: Frame, px: nat, py: nat)
    requires f.x < WORD64 && f.y < WORD64 && f.width < WORD64 && f.height < WORD64
    ensures Contains(f, px, py) <==>
      Covers(f, px, py) && f.x + f.width < WORD64 && f.y + f.height < WORD64
  {
    EdgeWraps(f.x, f.width);
    EdgeWraps(f.y, f.height);
  }

  lemma EdgeWraps(a: nat, len: nat)
    requires a < WORD64 && len < WORD64
    ensures (a + len) % WORD64 == if a + len < WORD64 then a + len else a + len - WORD64
  {
  }

  /** `fs[i]` is the topmost window at the point. */
  ghost predicate Topmost(fs: seq<Frame>, i: nat, px: nat, py: nat) {
    i < |fs| && Contains(fs[i], px, py) && forall j :: i < j < |fs| ==> !Contains(fs[j], px, py)
  }

  /** The 16 by 16 pixels at the right end of the title bar */
  predicate InCloseCorner(f: Frame, px: nat, py: nat) {
    f.x + f.width <= px + TITLE && f.x <= px < f.x + f.width && TITLE <= f.width && f.y <= py < f.y + TITLE
  }

  predicate InTitleBar(f: Frame, px: nat, py: nat) {
    f.y <= py < f.y + TITLE && !InCloseCorner(f, px, py)
  }

  // ---------- A press ----------

  /** All windows but the `i`th keep their state and their order, and that one is last. */
  ghost predicate Raised(fs: seq<Frame>, fs': seq<Frame>, i: nat)
    requires i < |fs|
  {
    && |fs'| == |fs|
    && (forall j :: 0 <= j < i ==> fs'[j] == fs[j])
    && (forall j :: i <= j < |fs| - 1 ==> fs'[j] == fs[j + 1])
    && fs'[|fs| - 1].id == fs[i].id
  }

  lemma RaisedToEnd(fs: seq<Frame>, i: nat, f: Frame)
    requires i < |fs| && f.id == fs[i].id
    ensures Raised(fs, ToEnd(fs[i := f], i), i) && ToEnd(fs[i := f], i)[|fs| - 1] == f
  {
  }

  lemma HitTopmost(fs: seq<Frame>, i: nat, px: nat, py: nat)
    requires Topmost(fs, i, px, py)
    ensures Hit(fs, px, py) == i
  {
  }

  lemma CornerIsCorner(f: Frame, px: nat, py: nat)
    requires f.width < WORD64 && f.x <= px && f.y <= py
    ensures InCloseCorner(f, px, py) <==>
      px - f.x < f.width && px - f.x >= Minus(f.width, TITLE) && py - f.y < TITLE
  {
  }

  lemma MoveAtRest(d: Desk, px: nat, py: nat)
    requires AtRest(d)
    ensures Move(d.frames, px, py) == d.frames
  {
  }

  /**
   A press on a desk at rest raises the topmost window under the pointer. It asks that window to close exactly
   in the corner, and starts dragging it, where it is, exactly in the rest of the title bar.
   */
  lemma PressOutcome(d: Desk, e: Event, i: nat)
    requires Sane(d.frames) && AtRest(d) && !d.wasDown && e.down && Topmost(d.frames, i, e.px, e.py)
    ensures var d', f := Handle(d, e), d.frames[i];
      && d'.wasDown && Raised(d.frames, d'.frames, i)
      && var f' := d'.frames[|d.frames| - 1];
        && f'.x == f.x && f'.y == f.y && f'.width == f.width && f'.height == f.height
        && (f'.dragging <==> InTitleBar(f, e.px, e.py))
        && (f'.closing <==> f.closing || InCloseCorner(f, e.px, e.py))
        && (f'.dragging ==> f'.dragX == e.px - f.x && f'.dragY == e.py - f.y)
  {
    var f := d.frames[i];
    MoveAtRest(d, e.px, e.py);
    HitTopmost(d.frames, i, e.px, e.py);
    CornerIsCorner(f, e.px, e.py);
    RaisedToEnd(d.frames, i, Grabbed(f, e.px - f.x, e.py - f.y));
  }

  /** A press on no window does nothing to any. */
  lemma PressOnNothing(d: Desk, e: Event)
    requires AtRest(d) && forall j :: 0 <= j < |d.frames| ==> !Contains(d.frames[j], e.px, e.py)
    ensures Handle(d, e).frames == d.frames
  {
    MoveAtRest(d, e.px, e.py);
  }

  /** Whatever is dragged or not, a press raises the window it hits and keeps the order of the others. */
  lemma PressRaises(fs: seq<Frame>, px: nat, py: nat, i: nat)
    requires Topmost(fs, i, px, py)
    ensures Raised(fs, Press(fs, px, py), i)
  {
    HitTopmost(fs, i, px, py);
    var f := Grabbed(fs[i], px - fs[i].x, py - fs[i].y);
    assert f.id == fs[i].id;
    RaisedToEnd(fs, i, f);
    assert Press(fs, px, py) == ToEnd(fs[i := f], i);
  }

  lemma PressRaisesAll(fs: seq<Frame>, px: nat, py: nat)
    ensures forall i: nat :: Topmost(fs, i, px, py) ==> i < |fs| && Raised(fs, Press(fs, px, py), i)
  {
    forall i: nat | Topmost(fs, i, px, py)
      ensures i < |fs| && Raised(fs, Press(fs, px, py), i)
    {
      PressRaises(fs, px, py, i);
    }
  }

  // ---------- A drag ----------

  /** The frames with the last one elsewhere */
  ghost predicate LastMoved(fs: seq<Frame>, fs': seq<Frame>, dx: int, dy: int) {
    && |fs'| == |fs| > 0
    && (forall j :: 0 <= j < |fs| - 1 ==> fs'[j] == fs[j])
    && var f, f' := fs[|fs| - 1], fs'[|fs| - 1];
      f'.x == f.x + dx && f'.y == f.y + dy && f' == f.(x := f'.x, y := f'.y)
  }

  /** While the button stays down and the pointer in reach, the dragged window moves exactly as the pointer does. */
  lemma DragStep(d: Desk, last: Event, e: Event)
    requires Protocol(d, last) && !AtRest(d) && e.down && InReach(d, e) && Near(e)
    ensures LastMoved(d.frames, Handle(d, e).frames, e.px - last.px, e.py - last.py)
    ensures Protocol(Handle(d, e), e) && !AtRest(Handle(d, e))
  {
    HandleKeeps(d, last, e);
    var t := |d.frames| - 1;
    assert d.frames[t].dragging;
    assert Handle(d, e).frames[t].dragging;
  }

  /** Over a whole drag, the window has moved by as much as the pointer has. */
  lemma {:induction false} DragFollows(d: Desk, last: Event, es: seq<Event>)
    requires Protocol(d, last) && !AtRest(d) && AllInReach(d, es) && forall i :: 0 <= i < |es| ==> es[i].down
    ensures var end := Latest(last, es);
      LastMoved(d.frames, HandleAll(d, es).frames, end.px - last.px, end.py - last.py)
    ensures !AtRest(HandleAll(d, es))
    decreases |es|
  {
    if es == [] {
      assert d.frames[|d.frames| - 1].dragging;
    } else {
      DragStep(d, last, es[0]);
      DragFollows(Handle(d, es[0]), es[0], es[1..]);
      assert Latest(es[0], es[1..]) == Latest(last, es);
    }
  }

  /** `fs[i]` is on top, the others as they were, and it is (dx, dy) from where it was. */
  ghost predicate Taken(fs: seq<Frame>, fs': seq<Frame>, i: nat, dx: int, dy: int)
    requires i < |fs|
  {
    && Raised(fs, fs', i)
    && fs'[|fs| - 1].x == fs[i].x + dx && fs'[|fs| - 1].y == fs[i].y + dy
  }

  lemma TakenFurther(fs: seq<Frame>, fs1: seq<Frame>, fs2: seq<Frame>, i: nat, dx: int, dy: int)
    requires i < |fs| && Taken(fs, fs1, i, 0, 0) && LastMoved(fs1, fs2, dx, dy)
    ensures Taken(fs, fs2, i, dx, dy)
  {
  }

  /** A press on a title bar takes hold of the window. */
  lemma GrabStarts(d: Desk, press: Event, i: nat)
    requires Sane(d.frames) && AtRest(d) && !d.wasDown && press.down && Near(press)
    requires Topmost(d.frames, i, press.px, press.py) && InTitleBar(d.frames[i], press.px, press.py)
    ensures Protocol(Handle(d, press), press) && !AtRest(Handle(d, press))
    ensures Taken(d.frames, Handle(d, press).frames, i, 0, 0)
  {
    PressOutcome(d, press, i);
    MoveAtRest(d, press.px, press.py);
    PressKeeps(d, press);
    assert Handle(d, press).frames[|d.frames| - 1].dragging;
  }

  lemma TakenByDrag(fs: seq<Frame>, d: Desk, press: Event, es: seq<Event>, i: nat)
    requires i < |fs| && Taken(fs, d.frames, i, 0, 0) && Protocol(d, press) && !AtRest(d)
    requires AllInReach(d, es) && forall k :: 0 <= k < |es| ==> es[k].down
    ensures var end := Latest(press, es);
      Taken(fs, HandleAll(d, es).frames, i, end.px - press.px, end.py - press.py)
  {
    var end := Latest(press, es);
    DragFollows(d, press, es);
    TakenFurther(fs, d.frames, HandleAll(d, es).frames, i, end.px - press.px, end.py - press.py);
  }

  /** Press on a title bar and drag: the window is on top, and has moved by as much as the pointer has. */
  lemma GrabAndDrag(d: Desk, press: Event, es: seq<Event>, i: nat)
    requires Sane(d.frames) && AtRest(d) && !d.wasDown && press.down && Near(press)
    requires Topmost(d.frames, i, press.px, press.py) && InTitleBar(d.frames[i], press.px, press.py)
    requires AllInReach(Handle(d, press), es) && forall k :: 0 <= k < |es| ==> es[k].down
    ensures var end := Latest(press, es);
      Taken(d.frames, HandleAll(Handle(d, press), es).frames, i, end.px - press.px, end.py - press.py)
  {
    GrabStarts(d, press, i);
    TakenByDrag(d.frames, Handle(d, press), press, es, i);
  }

  // ---------- A release ----------

  /** A release moves, closes and reorders nothing, and drags nothing that was not dragged. */
  lemma ReleaseMovesNothing(fs: seq<Frame>, px: nat, py: nat)
    ensures var fs' := Release(fs, px, py);
      && |fs'| == |fs|
      && forall j :: 0 <= j < |fs| ==>
           && fs'[j] == fs[j].(dragging := fs'[j].dragging, dragX := fs'[j].dragX, dragY := fs'[j].dragY)
           && (fs'[j].dragging ==> fs'[j] == fs[j])
           && (fs'[j] != fs[j] ==> Contains(fs[j], px, py))
  {
  }

  /** A button that stays down is no new press: at rest, such events change nothing. */
  lemma HeldIsNoPress(d: Desk, e: Event)
    requires AtRest(d) && d.wasDown == e.down
    ensures Handle(d, e).frames == d.frames
  {
    MoveAtRest(d, e.px, e.py);
  }

  // ---------- Closing ----------

  lemma {:induction false} RemainingAppend(a: seq<Frame>, b: seq<Frame>)
    ensures Remaining(a + b) == Remaining(a) + Remaining(b)
    decreases |b|
  {
    if b == [] {
      assert a + b == a;
    } else {
      var n := |b| - 1;
      RemainingAppend(a, b[..n]);
      assert (a + b)[|a + b| - 1] == b[n] && (a + b)[..|a + b| - 1] == a + b[..n];
      Associative(Remaining(a), Remaining(b[..n]), if b[n].closing then [] else [b[n]]);
    }
  }

  lemma {:induction false} RemainingAll(fs: seq<Frame>)
    requires forall f :: f in fs ==> !f.closing
    ensures Remaining(fs) == fs
    decreases |fs|
  {
    if fs != [] {
      var n := |fs| - 1;
      RemainingAll(fs[..n]);
      assert fs[n] in fs && fs == fs[..n] + [fs[n]];
    }
  }

  lemma RemainingOne(f: Frame)
    ensures Remaining([f]) == if f.closing then [] else [f]
  {
    assert [f][..0] == [];
  }

  lemma RaisedSplit(fs: seq<Frame>, fs': seq<Frame>, i: nat)
    requires i < |fs| && Raised(fs, fs', i)
    ensures fs' == fs[..i] + fs[i + 1..] + [fs'[|fs| - 1]]
  {
  }

  lemma RaisedRemaining(fs: seq<Frame>, fs': seq<Frame>, i: nat)
    requires i < |fs| && Raised(fs, fs', i) && forall j :: 0 <= j < |fs| ==> !fs[j].closing
    ensures Remaining(fs') == if fs'[|fs| - 1].closing then fs[..i] + fs[i + 1..] else fs'
  {
    var rest, f := fs[..i] + fs[i + 1..], fs'[|fs| - 1];
    RaisedSplit(fs, fs', i);
    RemainingAppend(rest, [f]);
    RemainingAll(rest);
    RemainingOne(f);
  }

  /** Where nothing wants to close, a press in the close corner removes exactly the window hit, any other press none. */
  lemma CloseRemovesOne(d: Desk, e: Event, i: nat)
    requires Sane(d.frames) && AtRest(d) && !d.wasDown && e.down && Topmost(d.frames, i, e.px, e.py)
    requires forall j :: 0 <= j < |d.frames| ==> !d.frames[j].closing
    ensures var fs := Cleaned(Handle(d, e)).frames;
      if InCloseCorner(d.frames[i], e.px, e.py) then fs == d.frames[..i] + d.frames[i + 1..]
      else fs == Handle(d, e).frames && |fs| == |d.frames|
  {
    PressOutcome(d, e, i);
    RaisedRemaining(d.frames, Handle(d, e).frames, i);
  }

  // ---------- The pointer ----------

  /** As long as it does not go below the bottom edge, the pointer moves by (dx, dy) and stops at the other edges. */
  lemma PointerMoves(mx: nat, my: nat, dx: int, dy: int, width: nat, height: nat)
    requires width > 0 && height > 0 && my + dy < height
    ensures var (x, y) := Pointer(mx, my, dx, dy, width, height);
      && x == (if mx + dx < 0 then 0 else if mx + dx >= width then width - 1 else mx + dx)
      && y == (if my + dy < 0 then 0 else my + dy)
  {
  }

  /** Below it, the pointer leaves the screen, and its x coordinate becomes that of the last row. */
  lemma PointerBelow(mx: nat, my: nat, dx: int, dy: int, width: nat, height: nat)
    requires width > 0 && height > 0 && my + dy >= height
    ensures var (x, y) := Pointer(mx, my, dx, dy, width, height);
      x == height - 1 && y == my + dy
  {
  }
}
