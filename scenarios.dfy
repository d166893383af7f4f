/**
 * Client-side consequences of the window manager's and the mine game's
 * contracts: repeated actions, a drag from grab to release, a close sequence
 * over three windows, and a short game.
 */
module Scenarios {
  import D = Desktop
  import M = MineGrid

  /**
   * Two taskbar clicks on the active, visible window: the first minimizes it
   * (it stays active), the second restores it and raises it again.
   */
  method ClickActiveTwice(m: D.WindowManager, id: nat)
    requires m.Valid() && id in m.taskbarButtons && m.activeWindow == D.Some(id)
    requires !m.windows[D.IndexOf(D.Ids(m.windows), id).value].minimized
    modifies m
    ensures m.Valid() && m.activeWindow == D.Some(id)
    ensures var i := D.IndexOf(D.Ids(old(m.windows)), id).value;
            && m.windows == old(m.windows)[i := old(m.windows)[i].(zIndex := m.windowZIndex)]
            && !m.windows[i].minimized
    ensures m.windowZIndex == old(m.windowZIndex) + 1
  {
    ghost var i := D.IndexOf(D.Ids(m.windows), id).value;
    m.TaskbarClick(id);
    assert D.Ids(m.windows) == D.Ids(old(m.windows));
    m.TaskbarClick(id);
  }

  /** Maximizing twice, or restoring twice, leaves the registry as it was. */
  method ToggleMaximizeTwice(m: D.WindowManager, id: nat)
    requires m.Valid()
    modifies m
    ensures m.Valid() && m.windows == old(m.windows)
    ensures m.activeWindow == old(m.activeWindow) && m.windowZIndex == old(m.windowZIndex)
  {
    m.ToggleMaximizeWindow(id);
    assert D.Ids(m.windows) == D.Ids(old(m.windows));
    m.ToggleMaximizeWindow(id);
  }

  /**
   * A mousedown on a title bar reaches two listeners: the title bar's, which
   * starts the drag and activates the window, and then, as the event bubbles,
   * the window's own, which activates it again. A press on a control glyph
   * reaches only the second. Either way the window ends active and on top.
   */
  method PressTitleBar(m: D.WindowManager, id: nat, px: int, py: int, rectLeft: int, rectTop: int, onControl: bool)
    requires m.Valid() && id in D.Ids(m.windows)
    modifies m
    ensures m.Valid() && m.activeWindow == D.Some(id)
    ensures m.windowZIndex == old(m.windowZIndex) + if onControl then 1 else 2
    ensures var i := D.IndexOf(D.Ids(old(m.windows)), id).value;
            m.windows == old(m.windows)[i := if onControl then old(m.windows)[i].(zIndex := m.windowZIndex)
                                             else old(m.windows)[i].(zIndex := m.windowZIndex,
                                                                      drag := D.Drag(true, px - rectLeft, py - rectTop))]
  {
    m.MouseDownTitle(id, px, py, rectLeft, rectTop, onControl);
    assert D.Ids(m.windows) == D.Ids(old(m.windows));
    m.SetActiveWindow(id);
  }

  /**
   * A drag of a fresh window, which opens at (50, 50): grabbed at (100, 100)
   * and moved to (140, 130) it lands at (90, 80); after the release a further
   * move to (300, 300) leaves it there.
   */
  method DragScenario() returns (left: int, top: int, leftAfter: int, topAfter: int)
    ensures left == 90 && top == 80
    ensures leftAfter == 90 && topAfter == 80
  {
    var m := new D.WindowManager();
    var id := m.CreateWindow("Notepad", "notepad", 400, 300);
    assert m.windows[0].left == 50 && m.windows[0].top == 50;
    assert D.Ids(m.windows) == [id];
    PressTitleBar(m, id, 100, 100, m.windows[0].left, m.windows[0].top, false);
    assert D.Ids(m.windows) == [id];
    m.MouseMove(id, 140, 130);
    left, top := m.windows[0].left, m.windows[0].top;
    assert D.Ids(m.windows) == [id];
    m.MouseUp(id);
    assert D.Ids(m.windows) == [id];
    m.MouseMove(id, 300, 300);
    leftAfter, topAfter := m.windows[0].left, m.windows[0].top;
  }

  /**
   * Three fresh windows a, b, c, in that order; the last one created is
   * active, and each new window opens above the ones before it.
   */
  method ThreeWindows() returns (m: D.WindowManager, a: nat, b: nat, c: nat)
    ensures fresh(m) && m.Valid() && m.activeWindow == D.Some(c)
    ensures m.taskbarButtons == [a, b, c]
    ensures |m.windows| == 3 && m.windows[0].zIndex < m.windows[1].zIndex < m.windows[2].zIndex
  {
    m := new D.WindowManager();
    a := m.CreateWindow("A", "a", 300, 200);
    ghost var za := m.windows[0].zIndex;
    b := m.CreateWindow("B", "b", 300, 200);
    ghost var zb := m.windows[1].zIndex;
    assert m.windows[0].zIndex == za < zb;
    c := m.CreateWindow("C", "c", 300, 200);
    assert m.windows[0].zIndex == za && m.windows[1].zIndex == zb < m.windows[2].zIndex;
  }

  /**
   * Of three windows a, b, c, a is brought to the front from the taskbar and
   * closed, which activates c, the last one created; b and c remain, in order.
   */
  method CloseFrontOfThree() returns (m: D.WindowManager, b: nat, c: nat)
    ensures fresh(m) && m.Valid() && m.activeWindow == D.Some(c)
    ensures |m.windows| == 2 && m.windows[0].id == b && m.windows[1].id == c
  {
    var a;
    m, a, b, c := ThreeWindows();
    assert D.Ids(m.windows) == [a, b, c];
    m.TaskbarClick(a);
    ghost var three := m.windows;
    assert three[0].id == a && three[1].id == b && three[2].id == c;
    D.WithoutAt(three, 0);
    m.CloseWindow(a);
    assert D.Without(three, a) == three[1..];
  }

  /**
   * After the close above, closing b, which is not active, keeps c active;
   * closing c leaves no window and no active window.
   */
  method CloseScenario() returns (first: D.Option<nat>, second: D.Option<nat>, third: D.Option<nat>, c: nat)
    ensures first == D.Some(c) && second == D.Some(c) && third == D.None
  {
    var m, b;
    m, b, c := CloseFrontOfThree();
    first := m.activeWindow;
    ghost var two := m.windows;
    D.WithoutAt(two, 0);
    m.CloseWindow(b);
    second := m.activeWindow;
    ghost var one := m.windows;
    assert |one| == 1 && one[0].id == c;
    D.WithoutAt(one, 0);
    m.CloseWindow(c);
    third := m.activeWindow;
  }

  /** Flagging a cell twice leaves every cell as it was. */
  method ToggleFlagTwice(g: M.Game, row: int, col: int)
    requires g.Valid() && M.InBounds(row, col)
    modifies g.board
    ensures g.Valid()
    ensures forall r, c :: M.InBounds(r, c) ==> g.board[r, c] == old(g.board[r, c])
  {
    g.ToggleFlag(row, col);
    g.ToggleFlag(row, col);
  }

  /**
   * A fresh game on any layout: revealing a cell without a mine does not end
   * the game and reveals that cell; revealing a mine then does, and every mine
   * of the layout is shown, the first cell still among the revealed ones.
   */
  method SafeThenMine(layout: set<(int, int)>, sr: int, sc: int, mr: int, mc: int)
      returns (overAfterSafe: bool, g: M.Game)
    requires |layout| == M.MineCount && forall p :: p in layout ==> M.InBounds(p.0, p.1)
    requires M.InBounds(sr, sc) && (sr, sc) !in layout && (mr, mc) in layout
    ensures !overAfterSafe && g.Valid() && g.gameOver
    ensures g.board[sr, sc].isRevealed
    ensures forall p :: p in layout ==> g.board[p.0, p.1].isRevealed
  {
    g := new M.Game(layout);
    assert (mr, mc) !in g.Revealed() && (mr, mc) !in g.Flagged();
    ghost var start := g.Revealed();
    g.RevealCell(sr, sc);
    overAfterSafe := g.gameOver;
    assert M.Cascading(g.mines, g.Flagged(), start, g.Revealed(), sr, sc);
    assert (mr, mc) !in g.Revealed() && (mr, mc) !in g.Flagged();
    assert (sr, sc) in g.Revealed();
    g.RevealCell(mr, mc);
    assert (sr, sc) in g.Revealed();
  }
}
