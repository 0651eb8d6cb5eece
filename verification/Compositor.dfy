/** The compositor: windows in a doubly linked list, bottom to top, relinked in place. */
module Compositor {
  import opened DragLaws
  import opened DragSpec
  import opened Sequences

  /** The part of a window that the mouse acts on. */
  class Window {
    var x: nat
    var y: nat
    const width: nat
    const height: nat
    var isDragging: bool
    var dragX: nat
    var dragY: nat
    var shouldClose: bool

    constructor (x: nat, y: nat, width: nat, height: nat)
      ensures this.x == x && this.y == y && this.width == width && this.height == height
      ensures !isDragging && dragX == 0 && dragY == 0 && !shouldClose
    {
      this.x, this.y, this.width, this.height := x, y, width, height;
      isDragging, dragX, dragY, shouldClose := false, 0, 0, false;
    }

    ghost function View(): Frame
      reads this
    {
      Frame(this, x, y, width, height, isDragging, dragX, dragY, shouldClose)
    }

    method OnMouseButton(localX: nat, localY: nat, isDown: bool)
      modifies this
      ensures View() == if isDown then Grabbed(old(View()), localX, localY) else Dropped(old(View()))
      ensures x == old(x) && y == old(y)
      ensures var inCorner := localX < width <= localX + TITLE && TITLE <= width < WORD64 && localY < TITLE;
        if isDown then
          width < WORD64 ==>
            && (shouldClose <==> old(shouldClose) || inCorner)
            && (isDragging <==> old(isDragging) || (localY < TITLE && !inCorner))
            && (localY < TITLE && !inCorner ==> dragX == localX && dragY == localY)
        else !isDragging && shouldClose == old(shouldClose)
    {
      if isDown {
        if localX < width && localX >= (width - TITLE) % WORD64 && localY < TITLE {
          shouldClose := true;
          return;
        }
        if localY < TITLE {
          isDragging := true;
          dragX, dragY := localX, localY;
        }
      } else {
        isDragging := false;
        dragX, dragY := 0, 0;
      }
    }

    method OnMouseMove(globalX: nat, globalY: nat)
      modifies this
      ensures View() == Dragged(old(View()), globalX, globalY)
      ensures isDragging && dragX <= globalX < WORD64 && dragY <= globalY < WORD64 ==>
                x == globalX - dragX && y == globalY - dragY
      ensures !isDragging ==> x == old(x) && y == old(y)
    {
      if !isDragging {
        return;
      }
      x, y := (globalX - dragX) % WORD64, (globalY - dragY) % WORD64;
    }
  }

  class Node {
    var next: Node?
    const window: Window
    var prev: Node?

    constructor (w: Window)
      ensures next == null && window == w && prev == null
    {
      next, window, prev := null, w, null;
    }
  }

  ghost function WindowsOf(nodes: seq<Node>): (ws: seq<Window>)
    ensures |ws| == |nodes| && forall i :: 0 <= i < |ws| ==> ws[i] == nodes[i].window
  {
    seq(|nodes|, i requires 0 <= i < |nodes| => nodes[i].window)
  }

  /** Element `k` is last now, and the others are in the order they were in. */
  ghost predicate MovedUp(ws: seq<Window>, ws': seq<Window>, k: nat)
    requires k < |ws|
  {
    && |ws'| == |ws|
    && (forall i :: 0 <= i < k ==> ws'[i] == ws[i])
    && (forall i :: k <= i < |ws| - 1 ==> ws'[i] == ws[i + 1])
    && ws'[|ws| - 1] == ws[k]
  }

  lemma ToEndMovesUp(nodes: seq<Node>, k: nat)
    requires k < |nodes|
    ensures MovedUp(WindowsOf(nodes), WindowsOf(ToEnd(nodes, k)), k)
  {
  }

  /** The nodes whose windows are not in `closing`, in order. */
  ghost function Staying(nodes: seq<Node>, closing: set<Window>): (r: seq<Node>)
    ensures |r| <= |nodes|
  {
    if nodes == [] then []
    else
      var n := nodes[|nodes| - 1];
      Staying(nodes[..|nodes| - 1], closing) + if n.window in closing then [] else [n]
  }

  lemma {:induction false} StayingAppend(a: seq<Node>, b: seq<Node>, closing: set<Window>)
    ensures Staying(a + b, closing) == Staying(a, closing) + Staying(b, closing)
    decreases |b|
  {
    if b == [] {
      assert a + b == a;
    } else {
      var n := |b| - 1;
      StayingAppend(a, b[..n], closing);
      assert (a + b)[|a + b| - 1] == b[n] && (a + b)[..|a + b| - 1] == a + b[..n];
      Associative(Staying(a, closing), Staying(b[..n], closing), if b[n].window in closing then [] else [b[n]]);
    }
  }

  /** Deleting a closing node does not change who stays. */
  lemma StayingDrop(s: seq<Node>, k: nat, closing: set<Window>)
    requires k < |s| && s[k].window in closing
    ensures Staying(s[..k] + s[k + 1..], closing) == Staying(s, closing)
  {
    assert s == s[..k] + [s[k]] + s[k + 1..];
    StayingAppend(s[..k] + [s[k]], s[k + 1..], closing);
    StayingAppend(s[..k], [s[k]], closing);
    StayingAppend(s[..k], s[k + 1..], closing);
    assert [s[k]][..0] == [];
  }

  lemma {:induction false} StayingAll(s: seq<Node>, closing: set<Window>)
    requires forall i :: 0 <= i < |s| ==> s[i].window !in closing
    ensures Staying(s, closing) == s
  {
    if s != [] {
      StayingAll(s[..|s| - 1], closing);
    }
  }

  /** `on_mouse_button` for frame `k` */
  function Clicked(fs: seq<Frame>, k: nat, lx: nat, ly: nat, isDown: bool): (r: seq<Frame>)
    requires k < |fs|
    ensures |r| == |fs|
  {
    fs[k := if isDown then Grabbed(fs[k], lx, ly) else Dropped(fs[k])]
  }

  /** A press changes the hit frame, and it does not matter whether before or after it is raised. */
  lemma PressRaisesFirst(fs: seq<Frame>, px: nat, py: nat, k: nat)
    requires k == Hit(fs, px, py)
    ensures |ToEnd(fs, k)| == |fs|
    ensures Press(fs, px, py) == Clicked(ToEnd(fs, k), |fs| - 1, px - fs[k].x, py - fs[k].y, true)
  {
  }

  /** The windows that want to close are those in `closing`. */
  ghost predicate Marked(nodes: seq<Node>, closing: set<Window>)
    reads set n | n in nodes :: n.window
  {
    forall i :: 0 <= i < |nodes| ==> (nodes[i].window.shouldClose <==> nodes[i].window in closing)
  }

  predicate Owned(n: Node, objects: set<object>) {
    n in objects && n.window in objects
  }

  ghost predicate AllOwned(nodes: seq<Node>, objects: set<object>) {
    forall n {:trigger Owned(n, objects)} :: n in nodes ==> Owned(n, objects)
  }

  lemma OwnedToEnd(nodes: seq<Node>, k: nat, objects: set<object>)
    requires AllOwned(nodes, objects) && k < |nodes|
    ensures AllOwned(ToEnd(nodes, k), objects)
  {
  }

  class Compositor {
    var head: Node?
    var tail: Node?
    ghost var nodes: seq<Node>

    ghost predicate LinkedAt(i: nat)
      requires i + 1 < |nodes|
      reads this, nodes
    {
      nodes[i].next == nodes[i + 1] && nodes[i + 1].prev == nodes[i]
    }

    ghost predicate ApartAt(i: nat, j: nat)
      requires i < j < |nodes|
      reads this
    {
      nodes[i] != nodes[j] && nodes[i].window != nodes[j].window
    }

    /** A well-formed doubly linked list of distinct nodes with distinct windows */
    ghost predicate Valid()
      reads this, nodes
    {
      && Ends()
      && (forall i {:trigger LinkedAt(i)} :: 0 <= i < |nodes| - 1 ==> LinkedAt(i))
      && (forall i, j {:trigger ApartAt(i, j)} :: 0 <= i < j < |nodes| ==> ApartAt(i, j))
    }

    ghost predicate Ends()
      reads this, nodes
    {
      && (nodes == [] ==> head == null && tail == null)
      && (nodes != [] ==> head == nodes[0] && tail == nodes[|nodes| - 1] && head.prev == null && tail.next == null)
    }

    /** `Valid` in the form in which links are followed and changed */
    ghost predicate Open()
      reads this, nodes
    {
      && Ends()
      && (forall i, j :: 0 <= i && j == i + 1 && j < |nodes| ==> nodes[i].next == nodes[j] && nodes[j].prev == nodes[i])
      && (forall i, j :: 0 <= i < j < |nodes| ==> nodes[i] != nodes[j] && nodes[i].window != nodes[j].window)
    }

    lemma Unfold()
      requires Valid()
      ensures Open()
    {
      forall i, j | 0 <= i && j == i + 1 && j < |nodes|
        ensures nodes[i].next == nodes[j] && nodes[j].prev == nodes[i]
      {
        assert LinkedAt(i);
      }
      forall i, j | 0 <= i < j < |nodes|
        ensures nodes[i] != nodes[j] && nodes[i].window != nodes[j].window
      {
        assert ApartAt(i, j);
      }
    }

    lemma Fold()
      requires Open()
      ensures Valid()
    {
    }

    ghost function Windows(): (ws: seq<Window>)
      reads this
      ensures |ws| == |nodes| && forall i :: 0 <= i < |ws| ==> ws[i] == nodes[i].window
    {
      WindowsOf(nodes)
    }

    /** Everything that mouse events may change is in `objects`. */
    ghost predicate Inside(objects: set<object>)
      reads this
    {
      this in objects && AllOwned(nodes, objects)
    }

    constructor ()
      ensures Valid() && nodes == []
    {
      head, tail, nodes := null, null, [];
    }

    method AddWindow(w: Window)
      requires Valid() && w !in Windows()
      modifies this, nodes
      ensures Valid() && Windows() == old(Windows()) + [w]
      ensures forall n :: n in nodes ==> n in old(nodes) || fresh(n)
    {
      Unfold();
      var node := new Node(w);
      if head == null {
        head := node;
        tail := node;
      } else {
        tail.next := node;
        node.prev := tail;
        tail := node;
      }
      nodes := nodes + [node];
      Fold();
    }

    /** The search of `focus_window` */
    method FindNode(w: Window) returns (current: Node?, ghost k: nat)
      requires Valid()
      ensures if current == null then w !in Windows() else k < |nodes| && nodes[k] == current && current.window == w
    {
      Unfold();
      current := head;
      k := 0;
      while current != null
        invariant k <= |nodes|
        invariant current == if k < |nodes| then nodes[k] else null
        invariant forall i :: 0 <= i < k ==> nodes[i].window != w
        decreases |nodes| - k
      {
        if current.window == w {
          return;
        }
        assert k + 1 < |nodes| ==> nodes[k].next == nodes[k + 1];
        current := current.next;
        k := k + 1;
      }
    }

    /** Takes node `k`, not the topmost, out of the list. */
    method Detach(current: Node, ghost k: nat)
      requires Valid() && k + 1 < |nodes| && nodes[k] == current
      modifies this`head, this`nodes, nodes
      ensures Valid() && nodes == old(nodes)[..k] + old(nodes)[k + 1..]
    {
      Unfold();
      ghost var before := nodes;
      assert nodes[k].next == nodes[k + 1];
      if current == head {
        head := current.next;
        if head != null {
          head.prev := null;
        }
      } else {
        assert nodes[k - 1].next == nodes[k];
        current.prev.next := current.next;
        if current.next != null {
          current.next.prev := current.prev;
        }
      }
      nodes := before[..k] + before[k + 1..];
      assert forall i {:trigger nodes[i]} :: 0 <= i < |nodes| ==> nodes[i] == before[if i < k then i else i + 1];
      Fold();
    }

    /** Puts a node on top. */
    method Attach(current: Node)
      requires Valid() && nodes != [] && current !in nodes && current.window !in Windows()
      modifies this`tail, this`nodes, nodes, current
      ensures Valid() && nodes == old(nodes) + [current]
    {
      Unfold();
      current.prev := tail;
      current.next := null;
      tail.next := current;
      tail := current;
      nodes := nodes + [current];
      Fold();
    }

    /** `focus_window`: the window comes to the top, the order of the others is kept. */
    method FocusWindow(w: Window)
      requires Valid()
      modifies this, nodes
      ensures Valid()
      ensures w !in old(Windows()) ==> nodes == old(nodes)
      ensures forall k :: 0 <= k < |old(nodes)| && old(nodes)[k].window == w ==> nodes == ToEnd(old(nodes), k)
      ensures forall k :: 0 <= k < |old(nodes)| && old(nodes)[k].window == w ==>
                MovedUp(old(Windows()), Windows(), k)
    {
      ghost var before := nodes;
      Relink(w);
      forall k | 0 <= k < |before| && before[k].window == w
        ensures MovedUp(WindowsOf(before), Windows(), k)
      {
        ToEndMovesUp(before, k);
      }
    }

    /** The search of `focus_window`, and its relinking */
    method Relink(w: Window)
      requires Valid()
      modifies this, nodes
      ensures Valid()
      ensures w !in old(Windows()) ==> nodes == old(nodes)
      ensures forall k :: 0 <= k < |old(nodes)| && old(nodes)[k].window == w ==> nodes == ToEnd(old(nodes), k)
    {
      if head == null || tail == null {
        return;
      }
      var current, k := FindNode(w);
      if current == null {
        return;
      }
      Unfold();
      if current == tail {
        assert k == |nodes| - 1;
        assert ToEnd(nodes, k) == nodes;
        return;
      }
      Detach(current, k);
      Attach(current);
    }

    /** `delete_window` */
    method DeleteWindow(win: Node, ghost k: nat)
      requires Valid() && k < |nodes| && nodes[k] == win
      modifies this, nodes
      ensures Valid() && nodes == old(nodes)[..k] + old(nodes)[k + 1..]
    {
      Unfold();
      ghost var before := nodes;
      assert k + 1 < |nodes| ==> nodes[k].next == nodes[k + 1];
      assert 0 < k ==> nodes[k - 1].next == nodes[k];
      if head == win {
        head := win.next;
        if head != null {
          head.prev := null;
        }
      }
      if tail == win {
        tail := win.prev;
        if tail != null {
          tail.next := null;
        }
      }
      if win.next != null {
        win.next.prev := win.prev;
      }
      if win.prev != null {
        win.prev.next := win.next;
      }
      nodes := before[..k] + before[k + 1..];
      assert forall i {:trigger nodes[i]} :: 0 <= i < |nodes| ==> nodes[i] == before[if i < k then i else i + 1];
      Fold();
    }

    ghost function Closing(): set<Window>
      reads this, set n | n in nodes :: n.window
    {
      set n | n in nodes && n.window.shouldClose :: n.window
    }

    /** One step of the sweep: node `k` is deleted or kept. */
    method SweepNode(current: Node, ghost k: nat, ghost closing: set<Window>) returns (next: Node?, ghost k': nat)
      requires Valid() && k < |nodes| && nodes[k] == current && Marked(nodes, closing)
      modifies this, nodes
      ensures Valid() && Marked(nodes, closing) && Staying(nodes, closing) == Staying(old(nodes), closing)
      ensures if current.window in closing then k' == k && nodes == old(nodes)[..k] + old(nodes)[k + 1..]
              else k' == k + 1 && nodes == old(nodes)
      ensures next == if k' < |nodes| then nodes[k'] else null
    {
      assert k + 1 < |nodes| ==> LinkedAt(k);
      next := current.next;
      if current.window.shouldClose {
        StayingDrop(nodes, k, closing);
        DeleteWindow(current, k);
        k' := k;
      } else {
        k' := k + 1;
      }
    }

    lemma MarkedClosing()
      ensures Marked(nodes, Closing())
    {
    }

    /** The sweep of `cleanup_closed_windows` */
    method Sweep(ghost closing: set<Window>)
      requires Valid() && Marked(nodes, closing)
      modifies this, nodes
      ensures Valid() && nodes == Staying(old(nodes), closing)
    {
      ghost var k: nat := 0;
      var current := head;
      while current != null
        invariant Valid() && Marked(nodes, closing) && Staying(nodes, closing) == Staying(old(nodes), closing)
        invariant k <= |nodes| && current == if k < |nodes| then nodes[k] else null
        invariant forall i :: 0 <= i < k ==> nodes[i].window !in closing
        invariant forall i :: 0 <= i < |nodes| ==> nodes[i] in old(nodes)
        decreases |nodes| - k
      {
        current, k := SweepNode(current, k, closing);
      }
      StayingAll(nodes, closing);
    }

    /** `cleanup_closed_windows`: exactly the windows that are not closing stay, in order. */
    method CleanupClosedWindows()
      requires Valid()
      modifies this, nodes
      ensures Valid() && nodes == Staying(old(nodes), old(Closing()))
      ensures Frames() == Remaining(old(Frames()))
    {
      ghost var closing := Closing();
      ghost var kept, frames := Staying(nodes, closing), Remaining(Frames());
      MarkedClosing();
      FramesStaying(nodes, closing);
      assert FramesOf(kept) == frames;
      Sweep(closing);
      assert nodes == kept && FramesOf(kept) == frames;
    }

    ghost function Frames(): (fs: seq<Frame>)
      reads this, set n | n in nodes :: n.window
      ensures |fs| == |nodes|
    {
      FramesOf(nodes)
    }

    /** The walk of `inject_mouse_button` from the top down, to the first window that contains the point. */
    method FindHit(px: nat, py: nat) returns (curr: Node?)
      requires Valid()
      ensures var k := Hit(Frames(), px, py);
        curr == if k == -1 then null else nodes[k]
    {
      ghost var fs := Frames();
      FramesAt(nodes);
      Unfold();
      curr := tail;
      ghost var k := |nodes| - 1;
      while curr != null
        invariant -1 <= k < |nodes| && curr == if k == -1 then null else nodes[k]
        invariant forall i :: k < i < |nodes| ==> !Contains(fs[i], px, py)
        decreases k
      {
        var win := curr.window;
        assert fs[k] == win.View();
        if px >= win.x && px <= (win.x + win.width) % WORD64 && py >= win.y && py <= (win.y + win.height) % WORD64 {
          return;
        }
        assert 0 < k ==> nodes[k - 1].next == nodes[k];
        curr := curr.prev;
        k := k - 1;
      }
    }

    /** `on_mouse_button` for the window of node `k` */
    method ButtonOn(win: Window, localX: nat, localY: nat, isDown: bool, ghost k: nat)
      requires Valid() && k < |nodes| && nodes[k].window == win
      modifies win
      ensures Valid() && nodes == old(nodes)
      ensures Frames() == Clicked(old(Frames()), k, localX, localY, isDown)
    {
      Unfold();
      FramesAt(nodes);
      win.OnMouseButton(localX, localY, isDown);
      FramesAt(nodes);
    }

    /** `focus_window` for the window of node `k`, seen from the desktop */
    method RaiseNode(win: Window, ghost k: nat)
      requires Valid() && k < |nodes| && nodes[k].window == win
      modifies this, nodes
      ensures Valid() && nodes == ToEnd(old(nodes), k) && Frames() == ToEnd(old(Frames()), k)
    {
      ghost var raised, frames := ToEnd(nodes, k), ToEnd(Frames(), k);
      FramesToEnd(nodes, k);
      FocusWindow(win);
      assert nodes == raised && FramesOf(raised) == frames;
    }

    /** A press on the window of node `k`: first it comes to the top, then it gets the press. */
    method PressOn(win: Window, px: nat, py: nat, ghost k: nat, ghost objects: set<object>)
      requires Valid() && Inside(objects) && k == Hit(Frames(), px, py) && nodes[k].window == win
      requires px >= win.x && py >= win.y
      modifies objects
      ensures Valid() && Inside(objects)
      ensures Frames() == Press(old(Frames()), px, py)
    {
      OwnedAll(objects);
      OwnedToEnd(nodes, k, objects);
      FrameOf(k);
      PressRaisesFirst(Frames(), px, py, k);
      RaiseNode(win, k);
      ButtonOn(win, px - win.x, py - win.y, true, |nodes| - 1);
    }

    /** A release on the window of node `k` */
    method ReleaseOn(win: Window, px: nat, py: nat, ghost k: nat, ghost objects: set<object>)
      requires Valid() && Inside(objects) && k == Hit(Frames(), px, py) && nodes[k].window == win
      requires px >= win.x && py >= win.y
      modifies objects
      ensures Valid() && Inside(objects)
      ensures Frames() == Release(old(Frames()), px, py)
    {
      OwnedAll(objects);
      FrameOf(k);
      ButtonOn(win, px - win.x, py - win.y, false, k);
    }

    /** `inject_mouse_button` for the left button */
    method InjectMouseButton(px: nat, py: nat, isDown: bool, ghost objects: set<object>)
      requires Valid() && Inside(objects)
      modifies objects
      ensures Valid() && Inside(objects)
      ensures isDown ==> Frames() == Press(old(Frames()), px, py)
      ensures !isDown ==> Frames() == Release(old(Frames()), px, py)
      ensures isDown ==> forall i: nat :: Topmost(old(Frames()), i, px, py) ==> Raised(old(Frames()), Frames(), i)
    {
      PressRaisesAll(Frames(), px, py);
      var curr := FindHit(px, py);
      if curr == null {
        return;
      }
      ghost var k := Hit(Frames(), px, py);
      FrameOf(k);
      if isDown {
        PressOn(curr.window, px, py, k, objects);
      } else {
        ReleaseOn(curr.window, px, py, k, objects);
      }
    }

    /** `inject_mouse_move` */
    method InjectMouseMove(px: nat, py: nat, ghost objects: set<object>)
      requires Valid() && Inside(objects)
      modifies objects
      ensures Valid() && Inside(objects)
      ensures Frames() == Move(old(Frames()), px, py)
    {
      if tail == null {
        return;
      }
      Unfold();
      OwnedAll(objects);
      FramesAt(nodes);
      tail.window.OnMouseMove(px, py);
      FramesAt(nodes);
    }

    lemma OwnedAll(objects: set<object>)
      requires Inside(objects)
      ensures forall n :: n in nodes ==> n in objects && n.window in objects
    {
      forall n | n in nodes
        ensures n in objects && n.window in objects
      {
        assert Owned(n, objects);
      }
    }

    lemma FrameOf(k: nat)
      requires k < |nodes|
      ensures Frames()[k] == nodes[k].window.View()
    {
    }
  }

  ghost function FramesOf(nodes: seq<Node>): (fs: seq<Frame>)
    reads set n | n in nodes :: n.window
    ensures |fs| == |nodes|
  {
    seq(|nodes|, i requires 0 <= i < |nodes| reads set n | n in nodes :: n.window => nodes[i].window.View())
  }

  lemma FramesAt(nodes: seq<Node>)
    ensures forall i :: 0 <= i < |nodes| ==> FramesOf(nodes)[i] == nodes[i].window.View()
  {
  }

  lemma FramesToEnd(nodes: seq<Node>, k: nat)
    requires k < |nodes|
    ensures FramesOf(ToEnd(nodes, k)) == ToEnd(FramesOf(nodes), k)
  {
  }

  lemma {:induction false} OwnedStaying(nodes: seq<Node>, closing: set<Window>, objects: set<object>)
    requires AllOwned(nodes, objects)
    ensures AllOwned(Staying(nodes, closing), objects)
    decreases |nodes|
  {
    if nodes != [] {
      OwnedStaying(nodes[..|nodes| - 1], closing, objects);
    }
  }

  lemma {:induction false} FramesStaying(nodes: seq<Node>, closing: set<Window>)
    requires Marked(nodes, closing)
    ensures FramesOf(Staying(nodes, closing)) == Remaining(FramesOf(nodes))
    decreases |nodes|
  {
    if nodes != [] {
      var n := |nodes| - 1;
      FramesStaying(nodes[..n], closing);
      FramesLast(nodes);
      FramesAppend(Staying(nodes[..n], closing), if nodes[n].window in closing then [] else [nodes[n]]);
    }
  }

  lemma FramesLast(nodes: seq<Node>)
    requires nodes != []
    ensures var n := |nodes| - 1;
      && FramesOf(nodes)[..n] == FramesOf(nodes[..n]) && FramesOf(nodes)[n] == nodes[n].window.View()
      && FramesOf([nodes[n]]) == [nodes[n].window.View()] && FramesOf([]) == []
  {
  }

  lemma FramesAppend(a: seq<Node>, b: seq<Node>)
    ensures FramesOf(a + b) == FramesOf(a) + FramesOf(b)
  {
  }
}
