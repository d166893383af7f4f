/**
 * The window manager of the simulated desktop: the registry of open windows,
 * the stacking counter, the active-window reference, the taskbar buttons that
 * mirror the registry, and the title-bar drag of each window.
 */
module Desktop {

  datatype Option<T> = None | Some(value: T)

  /** Initial value of the stacking counter; every assignment pre-increments it. */
  const InitialZIndex: int := 100
  /** A new window is placed at (CascadeBase + CascadeStep * n, same) for n open windows. */
  const CascadeBase: int := 50
  const CascadeStep: int := 30

  /** The per-window drag closure: whether a drag is in progress and the grab offset. */
  datatype Drag = Drag(isDragging: bool, offsetX: int, offsetY: int)

  /**
   * One open window: the registry record (id, title, icon and the two state
   * flags), the geometry and stacking key held on its element, and its drag state.
   */
  datatype Window = Window(
    id: nat,
    title: string,
    icon: string,
    left: int,
    top: int,
    width: int,
    height: int,
    zIndex: int,
    minimized: bool,
    maximized: bool,
    drag: Drag)

  /** The ids of the records, in registry order. */
  function Ids(ws: seq<Window>): (r: seq<nat>)
    ensures |r| == |ws|
    ensures forall i :: 0 <= i < |ws| ==> r[i] == ws[i].id
  {
    seq(|ws|, i requires 0 <= i < |ws| => ws[i].id)
  }

  /** The position of the first occurrence of `x` in `s`, if any (an array `find`). */
  function IndexOf<T(==)>(s: seq<T>, x: T): (r: Option<nat>)
    ensures r.Some? ==> r.value < |s| && s[r.value] == x && x !in s[..r.value]
    ensures r.None? <==> x !in s
  {
    if s == [] then None
    else if s[0] == x then Some(0)
    else match IndexOf(s[1..], x)
      case None => None
      case Some(i) =>
        assert s[..i + 1] == [s[0]] + s[1..][..i];
        Some(i + 1)
  }

  /** The records whose id is not `id`, in their original order (the `filter` of closing). */
  function Without(ws: seq<Window>, id: nat): (r: seq<Window>)
    ensures |r| <= |ws|
    ensures forall k :: 0 <= k < |r| ==> r[k].id != id
    ensures (forall k :: 0 <= k < |ws| ==> ws[k].id != id) ==> r == ws
  {
    if ws == [] then []
    else
      var rest := Without(ws[1..], id);
      assert ws == [ws[0]] + ws[1..];
      if ws[0].id == id then rest else [ws[0]] + rest
  }

  ghost predicate DistinctIds(ws: seq<Window>)
  {
    forall i, j :: 0 <= i < j < |ws| ==> ws[i].id != ws[j].id
  }

  ghost predicate DistinctZ(ws: seq<Window>)
  {
    forall i, j :: 0 <= i < j < |ws| ==> ws[i].zIndex != ws[j].zIndex
  }

  /**
   * A registry whose ids are distinct and all below the fresh-id counter, and
   * whose stacking keys are distinct, above the initial counter value and at
   * most the current counter value (which never drops below its initial value).
   */
  ghost predicate WellFormed(ws: seq<Window>, zCounter: int, nextId: nat)
  {
    && InitialZIndex <= zCounter
    && DistinctIds(ws)
    && (forall i :: 0 <= i < |ws| ==> ws[i].id < nextId)
    && DistinctZ(ws)
    && (forall i :: 0 <= i < |ws| ==> InitialZIndex < ws[i].zIndex <= zCounter)
  }

  /**
   * There is an active window exactly when there is a window; it is one of the
   * records, and its stacking key is the counter's current value.
   */
  ghost predicate ActiveOnTopOf(ws: seq<Window>, active: Option<nat>, zCounter: int)
  {
    && (active.None? <==> ws == [])
    && (active.Some? ==>
          active.value in Ids(ws) &&
          ws[IndexOf(Ids(ws), active.value).value].zIndex == zCounter)
  }

  /**
   * With distinct ids, filtering out the id of the record at `i` removes exactly
   * that record and keeps the others in order.
   */
  lemma {:induction false} WithoutAt(ws: seq<Window>, i: nat)
    requires DistinctIds(ws) && i < |ws|
    ensures Without(ws, ws[i].id) == ws[..i] + ws[i + 1..]
  {
    var id := ws[i].id;
    var tail := ws[1..];
    if i == 0 {
      assert forall k :: 0 <= k < |tail| ==> tail[k].id != id by {
        forall k | 0 <= k < |tail| ensures tail[k].id != id {
          assert tail[k] == ws[k + 1];
        }
      }
      assert Without(tail, id) == tail;
    } else {
      assert DistinctIds(tail) by {
        forall a, b | 0 <= a < b < |tail| ensures tail[a].id != tail[b].id {
          assert tail[a] == ws[a + 1] && tail[b] == ws[b + 1];
        }
      }
      assert tail[i - 1] == ws[i];
      WithoutAt(tail, i - 1);
      assert ws[0].id != id;
      calc {
        Without(ws, id);
        [ws[0]] + Without(tail, id);
        [ws[0]] + (tail[..i - 1] + tail[i..]);
        { assert ws[..i] == [ws[0]] + tail[..i - 1]; assert ws[i + 1..] == tail[i..]; }
        ws[..i] + ws[i + 1..];
      }
    }
  }

  /** In a registry with distinct ids, looking up the id of the record at `k` finds `k`. */
  lemma IndexOfDistinct(ws: seq<Window>, k: nat)
    requires DistinctIds(ws) && k < |ws|
    ensures IndexOf(Ids(ws), ws[k].id) == Some(k)
  {
  }

  /**
   * Replacing a record by one with the same id and stacking key keeps the
   * registry well formed and keeps every active window on top.
   */
  lemma ReplaceKeeps(ws: seq<Window>, i: nat, w: Window, zCounter: int, nextId: nat, active: Option<nat>)
    requires WellFormed(ws, zCounter, nextId) && i < |ws|
    requires w.id == ws[i].id && w.zIndex == ws[i].zIndex
    ensures Ids(ws[i := w]) == Ids(ws)
    ensures WellFormed(ws[i := w], zCounter, nextId)
    ensures ActiveOnTopOf(ws, active, zCounter) ==> ActiveOnTopOf(ws[i := w], active, zCounter)
  {
  }

  /**
   * Raising the record at `i` to the next counter value keeps the registry well
   * formed and puts that record on top.
   */
  lemma RaiseKeeps(ws: seq<Window>, i: nat, zCounter: int, nextId: nat)
    requires WellFormed(ws, zCounter, nextId) && i < |ws|
    ensures var ws' := ws[i := ws[i].(zIndex := zCounter + 1)];
            && Ids(ws') == Ids(ws)
            && WellFormed(ws', zCounter + 1, nextId)
            && ActiveOnTopOf(ws', Some(ws[i].id), zCounter + 1)
  {
  }

  /** Appending a record with the fresh id and the next counter value keeps the registry well formed. */
  lemma AppendKeeps(ws: seq<Window>, w: Window, zCounter: int, nextId: nat)
    requires WellFormed(ws, zCounter, nextId)
    requires w.id == nextId && w.zIndex == zCounter + 1
    ensures Ids(ws + [w]) == Ids(ws) + [w.id]
    ensures WellFormed(ws + [w], zCounter + 1, nextId + 1)
    ensures w.id !in Ids(ws)
  {
  }

  /** Updating the last element of `s + [x]` to `y` gives `s + [y]`. */
  lemma UpdateLast<T>(s: seq<T>, x: T, y: T)
    ensures (s + [x])[|s| := y] == s + [y]
  {
  }

  /** Removing one record keeps the ids distinct. */
  lemma RemoveAtDistinct(ws: seq<Window>, i: nat)
    requires DistinctIds(ws) && i < |ws|
    ensures DistinctIds(ws[..i] + ws[i + 1..])
  {
  }

  /** Removing the record at `i` removes its id and keeps the registry well formed. */
  lemma RemoveAtKeeps(ws: seq<Window>, i: nat, zCounter: int, nextId: nat)
    requires WellFormed(ws, zCounter, nextId) && i < |ws|
    ensures var rest := ws[..i] + ws[i + 1..];
            && Ids(rest) == Ids(ws)[..i] + Ids(ws)[i + 1..]
            && WellFormed(rest, zCounter, nextId)
  {
  }

  /**
   * Removing a record other than the active one keeps the active window
   * present and on top.
   */
  lemma RemoveKeepsActive(ws: seq<Window>, i: nat, a: nat, zCounter: int, nextId: nat)
    requires WellFormed(ws, zCounter, nextId) && i < |ws| && ws[i].id != a
    requires ActiveOnTopOf(ws, Some(a), zCounter)
    ensures ActiveOnTopOf(ws[..i] + ws[i + 1..], Some(a), zCounter)
  {
    var rest := ws[..i] + ws[i + 1..];
    var k := IndexOf(Ids(ws), a).value;
    var k' := if k < i then k else k - 1;
    assert rest[k'] == ws[k];
    RemoveAtDistinct(ws, i);
    IndexOfDistinct(rest, k');
  }

  /**
   * Whether the taskbar button of `w` is highlighted: exactly when `w` is the
   * active window and is not minimized.
   */
  predicate Highlighted(active: Option<nat>, w: Window): (lit: bool)
    ensures lit ==> active == Some(w.id)
    ensures w.minimized ==> !lit
  {
    active == Some(w.id) && !w.minimized
  }

  /** With distinct ids, at most one record satisfies the highlight rule. */
  lemma AtMostOneHighlighted(ws: seq<Window>, active: Option<nat>, j: nat, k: nat)
    requires DistinctIds(ws) && j < |ws| && k < |ws|
    requires Highlighted(active, ws[j]) && Highlighted(active, ws[k])
    ensures j == k
  {
  }

  class WindowManager {
    /** The registry, in creation order (which is also the order of the windows' elements). */
    var windows: seq<Window>
    /** The ids of the taskbar buttons, in the order they were appended. */
    var taskbarButtons: seq<nat>
    /** The stacking counter. */
    var windowZIndex: int
    /** The id of the active window, if any. */
    var activeWindow: Option<nat>
    /** The fresh-id counter that stands for the creation timestamps used as ids. */
    var nextId: nat

    /** The bookkeeping every transition keeps, even in the middle of one. */
    ghost predicate Registry()
      reads this
    {
      taskbarButtons == Ids(windows) && WellFormed(windows, windowZIndex, nextId)
    }

    /** The invariant between transitions: the active window exists iff a window does, and it is on top. */
    ghost predicate Valid()
      reads this
    {
      Registry() && ActiveOnTopOf(windows, activeWindow, windowZIndex)
    }

    constructor ()
      ensures Valid()
      ensures windows == [] && taskbarButtons == []
      ensures windowZIndex == InitialZIndex && activeWindow == None
    {
      windows := [];
      taskbarButtons := [];
      windowZIndex := InitialZIndex;
      activeWindow := None;
      nextId := 0;
    }

    /** The active window has the largest stacking key, strictly above every other window's. */
    lemma ActiveOnTop()
      requires Valid() && activeWindow.Some?
      ensures var a := IndexOf(Ids(windows), activeWindow.value).value;
              forall i :: 0 <= i < |windows| && i != a ==> windows[i].zIndex < windows[a].zIndex
    {
    }

    /**
     * Brings a live window to the front and makes it active. It neither
     * restores a minimized window nor touches any other record.
     */
    method SetActiveWindow(id: nat)
      requires Registry() && id in Ids(windows)
      modifies this
      ensures Valid()
      ensures windowZIndex == old(windowZIndex) + 1
      ensures activeWindow == Some(id)
      ensures var i := IndexOf(Ids(old(windows)), id).value;
              windows == old(windows)[i := old(windows)[i].(zIndex := windowZIndex)]
      ensures taskbarButtons == old(taskbarButtons) && nextId == old(nextId)
    {
      var i := IndexOf(Ids(windows), id).value;
      RaiseKeeps(windows, i, windowZIndex, nextId);
      windowZIndex := windowZIndex + 1;
      windows := windows[i := windows[i].(zIndex := windowZIndex)];
      activeWindow := Some(id);
    }

    /**
     * Opens a window: a fresh id, the cascade position for the current number
     * of windows, a new stacking key, a taskbar button, and then activation
     * (which raises the stacking key once more).
     */
    method CreateWindow(title: string, icon: string, width: int, height: int) returns (id: nat)
      requires Valid()
      modifies this
      ensures Valid()
      ensures id == old(nextId) && nextId == old(nextId) + 1
      ensures id !in Ids(old(windows))
      ensures var pos := CascadeBase + CascadeStep * |old(windows)|;
              windows == old(windows) + [Window(id, title, icon, pos, pos, width, height,
                                                old(windowZIndex) + 2, false, false, Drag(false, 0, 0))]
      ensures taskbarButtons == old(taskbarButtons) + [id]
      ensures windowZIndex == old(windowZIndex) + 2
      ensures activeWindow == Some(id)
    {
      id := nextId;
      var pos := CascadeBase + CascadeStep * |windows|;
      var w := Window(id, title, icon, pos, pos, width, height, windowZIndex + 1, false, false, Drag(false, 0, 0));
      AppendKeeps(windows, w, windowZIndex, nextId);
      nextId := nextId + 1;
      windowZIndex := windowZIndex + 1;
      taskbarButtons := taskbarButtons + [id];
      windows := windows + [w];
      ghost var appended := windows;
      assert appended[|appended| - 1] == w;
      IndexOfDistinct(appended, |appended| - 1);
      SetActiveWindow(id);
      assert windows == appended[|appended| - 1 := w.(zIndex := windowZIndex)];
      UpdateLast(old(windows), w, w.(zIndex := windowZIndex));
      assert pos == CascadeBase + CascadeStep * |old(windows)|;
      assert w.(zIndex := windowZIndex) == Window(id, title, icon, pos, pos, width, height,
                                                  old(windowZIndex) + 2, false, false, Drag(false, 0, 0));
    }

    /** Writes back the record at `i` with its id and stacking key unchanged. */
    method Store(i: nat, w: Window)
      requires Valid() && i < |windows| && w.id == windows[i].id && w.zIndex == windows[i].zIndex
      modifies this
      ensures Valid()
      ensures windows == old(windows)[i := w]
      ensures taskbarButtons == old(taskbarButtons) && windowZIndex == old(windowZIndex)
      ensures activeWindow == old(activeWindow) && nextId == old(nextId)
    {
      ReplaceKeeps(windows, i, w, windowZIndex, nextId, activeWindow);
      windows := windows[i := w];
    }

    /** Sets the minimized flag of a window; the active window and all stacking keys stay as they are. */
    method MinimizeWindow(id: nat)
      requires Valid()
      modifies this
      ensures Valid()
      ensures id !in Ids(old(windows)) ==> windows == old(windows)
      ensures id in Ids(old(windows)) ==>
                var i := IndexOf(Ids(old(windows)), id).value;
                windows == old(windows)[i := old(windows)[i].(minimized := true)]
      ensures taskbarButtons == old(taskbarButtons) && windowZIndex == old(windowZIndex)
      ensures activeWindow == old(activeWindow) && nextId == old(nextId)
    {
      var found := IndexOf(Ids(windows), id);
      if found.Some? {
        var i := found.value;
        Store(i, windows[i].(minimized := true));
      }
    }

    /** Flips the maximized flag of a window; nothing else changes. */
    method ToggleMaximizeWindow(id: nat)
      requires Valid()
      modifies this
      ensures Valid()
      ensures id !in Ids(old(windows)) ==> windows == old(windows)
      ensures id in Ids(old(windows)) ==>
                var i := IndexOf(Ids(old(windows)), id).value;
                windows == old(windows)[i := old(windows)[i].(maximized := !old(windows)[i].maximized)]
      ensures taskbarButtons == old(taskbarButtons) && windowZIndex == old(windowZIndex)
      ensures activeWindow == old(activeWindow) && nextId == old(nextId)
    {
      var found := IndexOf(Ids(windows), id);
      if found.None? { return; }
      var i := found.value;
      if windows[i].maximized {
        Store(i, windows[i].(maximized := false));
      } else {
        Store(i, windows[i].(maximized := true));
      }
    }

    /** Removes the first taskbar button carrying `id`, if there is one. */
    method RemoveTaskbarButton(id: nat)
      modifies this
      ensures match IndexOf(old(taskbarButtons), id)
                case None => taskbarButtons == old(taskbarButtons)
                case Some(b) => taskbarButtons == old(taskbarButtons)[..b] + old(taskbarButtons)[b + 1..]
      ensures windows == old(windows) && windowZIndex == old(windowZIndex)
      ensures activeWindow == old(activeWindow) && nextId == old(nextId)
    {
      var button := IndexOf(taskbarButtons, id);
      if button.Some? {
        taskbarButtons := taskbarButtons[..button.value] + taskbarButtons[button.value + 1..];
      }
    }

    /**
     * The first half of closing the record at `i`: the record is filtered out
     * of the registry and its taskbar button is removed.
     */
    method ForgetWindow(id: nat, i: nat)
      requires Valid() && i < |windows| && windows[i].id == id
      modifies this
      ensures Registry()
      ensures windows == Without(old(windows), id) == old(windows)[..i] + old(windows)[i + 1..]
      ensures taskbarButtons == old(taskbarButtons)[..i] + old(taskbarButtons)[i + 1..]
      ensures windowZIndex == old(windowZIndex) && activeWindow == old(activeWindow) && nextId == old(nextId)
      ensures old(activeWindow) != Some(id) ==> ActiveOnTopOf(windows, activeWindow, windowZIndex)
    {
      ghost var buttons := taskbarButtons;
      IndexOfDistinct(windows, i);
      assert IndexOf(taskbarButtons, id) == Some(i);
      RemoveTaskbarButton(id);
      WithoutAt(windows, i);
      RemoveAtKeeps(windows, i, windowZIndex, nextId);
      if activeWindow != Some(id) {
        RemoveKeepsActive(windows, i, activeWindow.value, windowZIndex, nextId);
      }
      windows := Without(windows, id);
    }

    /**
     * Closes a window: its record and its taskbar button go. If it was the
     * active window, the last remaining window in creation order becomes
     * active (minimized or not), or none when no window remains.
     */
    method CloseWindow(id: nat)
      requires Valid()
      modifies this
      ensures Valid()
      ensures nextId == old(nextId)
      ensures id !in Ids(old(windows)) ==>
                && windows == old(windows) && taskbarButtons == old(taskbarButtons)
                && windowZIndex == old(windowZIndex) && activeWindow == old(activeWindow)
      ensures var rest := Without(old(windows), id);
              && (old(activeWindow) != Some(id) ==>
                    windows == rest && activeWindow == old(activeWindow) && windowZIndex == old(windowZIndex))
              && (old(activeWindow) == Some(id) && rest == [] ==>
                    windows == [] && activeWindow == None && windowZIndex == old(windowZIndex))
              && (old(activeWindow) == Some(id) && rest != [] ==>
                    var last := |rest| - 1;
                    && windowZIndex == old(windowZIndex) + 1
                    && windows == rest[last := rest[last].(zIndex := windowZIndex)]
                    && activeWindow == Some(rest[last].id))
    {
      var found := IndexOf(Ids(windows), id);
      if found.None? { return; }
      ghost var rest := Without(windows, id);
      ForgetWindow(id, found.value);
      assert windows == rest;
      if activeWindow == Some(id) {
        ActivateLast();
      }
    }

    /**
     * The second half of closing the active window: the last window in
     * creation order, minimized or not, becomes active; with no window left
     * there is no active window.
     */
    method ActivateLast()
      requires Registry()
      modifies this
      ensures Valid()
      ensures old(windows) == [] ==>
                windows == [] && activeWindow == None && windowZIndex == old(windowZIndex)
      ensures old(windows) != [] ==>
                var last := |old(windows)| - 1;
                && windowZIndex == old(windowZIndex) + 1
                && windows == old(windows)[last := old(windows)[last].(zIndex := windowZIndex)]
                && activeWindow == Some(old(windows)[last].id)
      ensures taskbarButtons == old(taskbarButtons) && nextId == old(nextId)
    {
      if |windows| > 0 {
        var last := |windows| - 1;
        IndexOfDistinct(windows, last);
        SetActiveWindow(windows[last].id);
      } else {
        activeWindow := None;
      }
    }

    /** The taskbar button click: restore a minimized window, minimize the active one, activate any other. */
    method TaskbarClick(id: nat)
      requires Valid() && id in taskbarButtons
      modifies this
      ensures Valid()
      ensures var i := IndexOf(Ids(old(windows)), id).value;
              var w := old(windows)[i];
              if w.minimized then
                && windows == old(windows)[i := w.(minimized := false, zIndex := windowZIndex)]
                && activeWindow == Some(id) && windowZIndex == old(windowZIndex) + 1
              else if old(activeWindow) == Some(id) then
                && windows == old(windows)[i := w.(minimized := true)]
                && activeWindow == old(activeWindow) && windowZIndex == old(windowZIndex)
              else
                && windows == old(windows)[i := w.(zIndex := windowZIndex)]
                && activeWindow == Some(id) && windowZIndex == old(windowZIndex) + 1
      ensures taskbarButtons == old(taskbarButtons) && nextId == old(nextId)
    {
      var found := IndexOf(Ids(windows), id);
      if found.Some? && windows[found.value].minimized {
        var i := found.value;
        Store(i, windows[i].(minimized := false));
        SetActiveWindow(id);
      } else if activeWindow == Some(id) {
        MinimizeWindow(id);
      } else {
        SetActiveWindow(id);
      }
    }

    /**
     * The taskbar highlighting recomputed after a transition: every button is
     * cleared, then the active window's button is lit if that window is not
     * minimized.
     */
    method TaskbarHighlights() returns (lit: seq<bool>)
      requires Valid()
      ensures |lit| == |taskbarButtons|
      ensures forall j :: 0 <= j < |lit| ==> (lit[j] <==> Highlighted(activeWindow, windows[j]))
      ensures forall j, k :: 0 <= j < k < |lit| ==> !(lit[j] && lit[k])
      ensures (true in lit) <==>
                activeWindow.Some? && !windows[IndexOf(Ids(windows), activeWindow.value).value].minimized
    {
      lit := [];
      var j := 0;
      while j < |taskbarButtons|
        invariant j <= |taskbarButtons| && |lit| == j
        invariant forall k :: 0 <= k < j ==> !lit[k]
      {
        lit := lit + [false];
        j := j + 1;
      }
      if activeWindow.Some? {
        var found := IndexOf(Ids(windows), activeWindow.value);
        if found.Some? && !windows[found.value].minimized {
          var button := IndexOf(taskbarButtons, windows[found.value].id);
          if button.Some? {
            lit := lit[button.value := true];
          }
        }
      }
    }

    /**
     * A mousedown on the title bar: on a control glyph it does nothing here;
     * otherwise it starts a drag, activates the window and records the grab
     * offset relative to the window's bounding rectangle.
     */
    method MouseDownTitle(id: nat, px: int, py: int, rectLeft: int, rectTop: int, onControl: bool)
      requires Valid() && id in Ids(windows)
      modifies this
      ensures Valid()
      ensures onControl ==>
                && windows == old(windows) && windowZIndex == old(windowZIndex)
                && activeWindow == old(activeWindow)
      ensures !onControl ==>
                var i := IndexOf(Ids(old(windows)), id).value;
                && windows == old(windows)[i := old(windows)[i].(zIndex := windowZIndex,
                                                                 drag := Drag(true, px - rectLeft, py - rectTop))]
                && activeWindow == Some(id) && windowZIndex == old(windowZIndex) + 1
      ensures taskbarButtons == old(taskbarButtons) && nextId == old(nextId)
    {
      if onControl { return; }
      var i := IndexOf(Ids(windows), id).value;
      ghost var w0 := windows[i];
      var grabbed := windows[i].(drag := windows[i].drag.(isDragging := true));
      Store(i, grabbed);
      ghost var grabbedAll := windows;
      IndexOfDistinct(windows, i);
      SetActiveWindow(id);
      assert windows == grabbedAll[i := grabbed.(zIndex := windowZIndex)];
      var offset := windows[i].(drag := windows[i].drag.(offsetX := px - rectLeft, offsetY := py - rectTop));
      Store(i, offset);
      assert offset == w0.(zIndex := windowZIndex, drag := Drag(true, px - rectLeft, py - rectTop));
      assert windows == old(windows)[i := offset];
    }

    /** A mouse move: a window being dragged and not maximized follows the cursor position minus the grab offset. */
    method MouseMove(id: nat, px: int, py: int)
      requires Valid()
      modifies this
      ensures Valid()
      ensures var found := IndexOf(Ids(old(windows)), id);
              if found.Some? && old(windows)[found.value].drag.isDragging && !old(windows)[found.value].maximized then
                var w := old(windows)[found.value];
                windows == old(windows)[found.value := w.(left := px - w.drag.offsetX, top := py - w.drag.offsetY)]
              else
                windows == old(windows)
      ensures taskbarButtons == old(taskbarButtons) && windowZIndex == old(windowZIndex)
      ensures activeWindow == old(activeWindow) && nextId == old(nextId)
    {
      var found := IndexOf(Ids(windows), id);
      if found.None? { return; }
      var i := found.value;
      if !windows[i].drag.isDragging || windows[i].maximized { return; }
      var moved := windows[i].(left := px - windows[i].drag.offsetX, top := py - windows[i].drag.offsetY);
      Store(i, moved);
    }

    /** Mouse release: the drag of that window ends; its grab offset is kept. */
    method MouseUp(id: nat)
      requires Valid()
      modifies this
      ensures Valid()
      ensures var found := IndexOf(Ids(old(windows)), id);
              if found.Some? then
                windows == old(windows)[found.value := old(windows)[found.value].(
                             drag := old(windows)[found.value].drag.(isDragging := false))]
              else
                windows == old(windows)
      ensures taskbarButtons == old(taskbarButtons) && windowZIndex == old(windowZIndex)
      ensures activeWindow == old(activeWindow) && nextId == old(nextId)
    {
      var found := IndexOf(Ids(windows), id);
      if found.None? { return; }
      var i := found.value;
      var released := windows[i].(drag := windows[i].drag.(isDragging := false));
      Store(i, released);
    }
  }
}
