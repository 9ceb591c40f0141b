/** The interactive menu: a tree of menus linked by submenu items and
    parent pointers, each keeping its own selection and scroll window, and
    the controller that moves through the tree one button at a time.
    Item actions run arbitrary code; their results are parameters. */
module Menus {
  import opened Util
  import opened Buttons

  /** One entry. The action itself is not modelled, only whether there is
      one; the dynamic `Value` display belongs to rendering. */
  datatype MenuItem = MenuItem(caption: string, hasAction: bool, subMenu: Menu?, disabled: bool)

  /** The index k places after s, and k places before s, wrapping round n:
      the increment with wrap to 0 and the decrement with wrap to n-1 of
      the selection loops, taken k times. */
  function Fwd(n: int, s: int, k: int): int
    requires 0 <= s < n && 0 <= k <= n
  {
    if s + k >= n then s + k - n else s + k
  }

  function Bwd(n: int, s: int, k: int): int
    requires 0 <= s < n && 0 <= k <= n
  {
    if s - k < 0 then s - k + n else s - k
  }

  /** The offsets are the remainders of s+k and s-k modulo n. */
  lemma WrapIsRemainder(n: int, s: int, k: int)
    requires 0 <= s < n && 0 <= k <= n
    ensures Fwd(n, s, k) == (s + k) % n && Bwd(n, s, k) == (s - k) % n
  {
    if s + k >= n { DivMod(s + k, n, 1, s + k - n); } else { DivMod(s + k, n, 0, s + k); }
    if s - k < 0 { DivMod(s - k, n, -1, s - k + n); } else { DivMod(s - k, n, 0, s - k); }
  }

  /** Every item is disabled (vacuously so for no items). */
  predicate AllDisabled(items: seq<MenuItem>)
  {
    forall i :: 0 <= i < |items| ==> items[i].disabled
  }

  /** The forward search of `SelectNext` from offset k: the first enabled
      item at offsets k .. n from s (wrapping), or the item at offset n. */
  function ScanNext(items: seq<MenuItem>, s: int, k: int): (r: int)
    requires 0 <= s < |items| && 1 <= k <= |items|
    ensures 0 <= r < |items|
    decreases |items| - k
  {
    var i := Fwd(|items|, s, k);
    if !items[i].disabled || k == |items| then i else ScanNext(items, s, k + 1)
  }

  /** Where `SelectNext` moves the selection from s. */
  function NextIndex(items: seq<MenuItem>, s: int): (r: int)
    requires 0 <= s < |items|
    ensures 0 <= r < |items|
  {
    if AllDisabled(items) then Fwd(|items|, s, 1) else ScanNext(items, s, 1)
  }

  /** The backward search of `SelectPrevious`, the mirror image of `ScanNext`. */
  function ScanPrev(items: seq<MenuItem>, s: int, k: int): (r: int)
    requires 0 <= s < |items| && 1 <= k <= |items|
    ensures 0 <= r < |items|
    decreases |items| - k
  {
    var i := Bwd(|items|, s, k);
    if !items[i].disabled || k == |items| then i else ScanPrev(items, s, k + 1)
  }

  function PrevIndex(items: seq<MenuItem>, s: int): (r: int)
    requires 0 <= s < |items|
    ensures 0 <= r < |items|
  {
    if AllDisabled(items) then Bwd(|items|, s, 1) else ScanPrev(items, s, 1)
  }

  /** Offsets 1 .. n from any start visit every index, so if all of them are
      disabled, every item is. */
  lemma CoverAll(items: seq<MenuItem>, s: int, forward: bool)
    requires 0 <= s < |items|
    requires forward ==> forall k :: 1 <= k <= |items| ==> items[Fwd(|items|, s, k)].disabled
    requires !forward ==> forall k :: 1 <= k <= |items| ==> items[Bwd(|items|, s, k)].disabled
    ensures AllDisabled(items)
  {
    var n := |items|;
    forall i | 0 <= i < n
      ensures items[i].disabled
    {
      if forward {
        assert Fwd(n, s, if i > s then i - s else i - s + n) == i;
      } else {
        assert Bwd(n, s, if i < s then s - i else s - i + n) == i;
      }
    }
  }

  /** The scan stops at the first enabled item: every offset before it is
      disabled, and it is enabled itself unless the whole menu is disabled. */
  lemma {:induction false} ScanNextMeaning(items: seq<MenuItem>, s: int, k: int)
    requires 0 <= s < |items| && 1 <= k <= |items|
    ensures exists m ::
      k <= m <= |items| && ScanNext(items, s, k) == Fwd(|items|, s, m)
      && (forall j :: k <= j < m ==> items[Fwd(|items|, s, j)].disabled)
      && (!items[Fwd(|items|, s, m)].disabled || m == |items|)
    decreases |items| - k
  {
    var i := Fwd(|items|, s, k);
    if !items[i].disabled || k == |items| {
      assert k <= k <= |items| && ScanNext(items, s, k) == Fwd(|items|, s, k);
    } else {
      ScanNextMeaning(items, s, k + 1);
    }
  }

  lemma {:induction false} ScanPrevMeaning(items: seq<MenuItem>, s: int, k: int)
    requires 0 <= s < |items| && 1 <= k <= |items|
    ensures exists m ::
      k <= m <= |items| && ScanPrev(items, s, k) == Bwd(|items|, s, m)
      && (forall j :: k <= j < m ==> items[Bwd(|items|, s, j)].disabled)
      && (!items[Bwd(|items|, s, m)].disabled || m == |items|)
    decreases |items| - k
  {
    var i := Bwd(|items|, s, k);
    if !items[i].disabled || k == |items| {
      assert k <= k <= |items| && ScanPrev(items, s, k) == Bwd(|items|, s, k);
    } else {
      ScanPrevMeaning(items, s, k + 1);
    }
  }

  /** `SelectNext` lands on the first enabled item after s (wrapping), with
      every item passed over disabled; with every item disabled it moves
      exactly one place. */
  lemma NextIndexMeaning(items: seq<MenuItem>, s: int)
    requires 0 <= s < |items|
    ensures AllDisabled(items) ==> NextIndex(items, s) == (s + 1) % |items|
    ensures !AllDisabled(items) ==> !items[NextIndex(items, s)].disabled
    ensures !AllDisabled(items) ==>
      exists m :: 1 <= m <= |items| && NextIndex(items, s) == Fwd(|items|, s, m)
        && forall j :: 1 <= j < m ==> items[Fwd(|items|, s, j)].disabled
  {
    WrapIsRemainder(|items|, s, 1);
    if !AllDisabled(items) {
      ScanNextMeaning(items, s, 1);
      var m :| 1 <= m <= |items| && ScanNext(items, s, 1) == Fwd(|items|, s, m)
        && (forall j :: 1 <= j < m ==> items[Fwd(|items|, s, j)].disabled)
        && (!items[Fwd(|items|, s, m)].disabled || m == |items|);
      if items[Fwd(|items|, s, m)].disabled {
        CoverAll(items, s, true);
      }
    }
  }

  /** The mirror image for `SelectPrevious`. */
  lemma PrevIndexMeaning(items: seq<MenuItem>, s: int)
    requires 0 <= s < |items|
    ensures AllDisabled(items) ==> PrevIndex(items, s) == (s - 1) % |items|
    ensures !AllDisabled(items) ==> !items[PrevIndex(items, s)].disabled
    ensures !AllDisabled(items) ==>
      exists m :: 1 <= m <= |items| && PrevIndex(items, s) == Bwd(|items|, s, m)
        && forall j :: 1 <= j < m ==> items[Bwd(|items|, s, j)].disabled
  {
    WrapIsRemainder(|items|, s, 1);
    if !AllDisabled(items) {
      ScanPrevMeaning(items, s, 1);
      var m :| 1 <= m <= |items| && ScanPrev(items, s, 1) == Bwd(|items|, s, m)
        && (forall j :: 1 <= j < m ==> items[Bwd(|items|, s, j)].disabled)
        && (!items[Bwd(|items|, s, m)].disabled || m == |items|);
      if items[Bwd(|items|, s, m)].disabled {
        CoverAll(items, s, false);
      }
    }
  }

  /** A disabled item that is not the last offset passes the search on. */
  lemma NextSkip(items: seq<MenuItem>, s: int, k: int)
    requires 0 <= s < |items| && 1 <= k < |items|
    requires items[Fwd(|items|, s, k)].disabled
    ensures ScanNext(items, s, k) == ScanNext(items, s, k + 1)
  {
  }

  lemma PrevSkip(items: seq<MenuItem>, s: int, k: int)
    requires 0 <= s < |items| && 1 <= k < |items|
    requires items[Bwd(|items|, s, k)].disabled
    ensures ScanPrev(items, s, k) == ScanPrev(items, s, k + 1)
  {
  }

  /** Leaving the forward search at an enabled item reached after
      disabled ones is where `NextIndex` lands. */
  lemma NextExit(items: seq<MenuItem>, s: int, k: int)
    requires 0 <= s < |items| && 1 <= k <= |items|
    requires !items[Fwd(|items|, s, k)].disabled
    requires k > 1 ==> ScanNext(items, s, k) == ScanNext(items, s, 1)
    ensures NextIndex(items, s) == Fwd(|items|, s, k)
  {
  }

  /** Leaving the backward search at an enabled item reached after
      disabled ones is where `PrevIndex` lands. */
  lemma PrevExit(items: seq<MenuItem>, s: int, k: int)
    requires 0 <= s < |items| && 1 <= k <= |items|
    requires !items[Bwd(|items|, s, k)].disabled
    requires k > 1 ==> ScanPrev(items, s, k) == ScanPrev(items, s, 1)
    ensures PrevIndex(items, s) == Bwd(|items|, s, k)
  {
  }

  /** One round of the `SelectNext` loop, taken after `steps` items all
      found disabled: the selection moves one place; an enabled item there
      is where `NextIndex` lands, and so is the first place when the whole
      menu is disabled; otherwise the search goes on with one more disabled
      item behind it, and there is still an offset left to try. */
  lemma NextRound(items: seq<MenuItem>, s: int, steps: int)
    requires 0 <= s < |items| && 0 <= steps < |items|
    requires forall j :: 1 <= j <= steps ==> items[Fwd(|items|, s, j)].disabled
    requires steps >= 1 ==> !AllDisabled(items)
    requires !AllDisabled(items) ==> ScanNext(items, s, steps + 1) == ScanNext(items, s, 1)
    ensures Fwd(|items|, s, steps + 1) == if Fwd(|items|, s, steps) + 1 >= |items| then 0 else Fwd(|items|, s, steps) + 1
    ensures !items[Fwd(|items|, s, steps + 1)].disabled ==> NextIndex(items, s) == Fwd(|items|, s, steps + 1)
    ensures AllDisabled(items) ==> NextIndex(items, s) == Fwd(|items|, s, steps + 1)
    ensures items[Fwd(|items|, s, steps + 1)].disabled && !AllDisabled(items) ==>
      steps + 1 < |items| && ScanNext(items, s, steps + 2) == ScanNext(items, s, 1)
    ensures items[Fwd(|items|, s, steps + 1)].disabled ==>
      forall j :: 1 <= j <= steps + 1 ==> items[Fwd(|items|, s, j)].disabled
  {
    var k := steps + 1;
    if items[Fwd(|items|, s, k)].disabled && !AllDisabled(items) {
      if k == |items| {
        CoverAll(items, s, true);
      }
      NextSkip(items, s, k);
    } else if !items[Fwd(|items|, s, k)].disabled {
      NextExit(items, s, k);
    }
  }

  /** One round of the `SelectPrevious` loop, the mirror image of `NextRound`. */
  lemma PrevRound(items: seq<MenuItem>, s: int, steps: int)
    requires 0 <= s < |items| && 0 <= steps < |items|
    requires forall j :: 1 <= j <= steps ==> items[Bwd(|items|, s, j)].disabled
    requires steps >= 1 ==> !AllDisabled(items)
    requires !AllDisabled(items) ==> ScanPrev(items, s, steps + 1) == ScanPrev(items, s, 1)
    ensures Bwd(|items|, s, steps + 1) == if Bwd(|items|, s, steps) - 1 < 0 then |items| - 1 else Bwd(|items|, s, steps) - 1
    ensures !items[Bwd(|items|, s, steps + 1)].disabled ==> PrevIndex(items, s) == Bwd(|items|, s, steps + 1)
    ensures AllDisabled(items) ==> PrevIndex(items, s) == Bwd(|items|, s, steps + 1)
    ensures items[Bwd(|items|, s, steps + 1)].disabled && !AllDisabled(items) ==>
      steps + 1 < |items| && ScanPrev(items, s, steps + 2) == ScanPrev(items, s, 1)
    ensures items[Bwd(|items|, s, steps + 1)].disabled ==>
      forall j :: 1 <= j <= steps + 1 ==> items[Bwd(|items|, s, j)].disabled
  {
    var k := steps + 1;
    if items[Bwd(|items|, s, k)].disabled && !AllDisabled(items) {
      if k == |items| {
        CoverAll(items, s, false);
      }
      PrevSkip(items, s, k);
    } else if !items[Bwd(|items|, s, k)].disabled {
      PrevExit(items, s, k);
    }
  }

  /** The scroll offset `updateScroll` picks for selection s. */
  function ScrollFor(s: int, offset: int, maxVisible: int): int
  {
    var o := if s >= offset + maxVisible then s - maxVisible + 1 else offset;
    if s < o then s else o
  }

  /** With a window of at least one row, the selection ends up visible, and
      a selection that was visible already leaves the window where it was. */
  lemma ScrollKeepsVisible(s: int, offset: int, maxVisible: int)
    requires maxVisible >= 1
    ensures var o := ScrollFor(s, offset, maxVisible); o <= s < o + maxVisible
    ensures offset <= s < offset + maxVisible ==> ScrollFor(s, offset, maxVisible) == offset
  {
  }

  class Menu {
    var title: string
    var items: seq<MenuItem>
    var parent: Menu?
    var selected: int
    var scrollOffset: int
    var maxVisible: int

    /** The selection indexes an item, or is 0 while there are none. */
    predicate Valid() reads this
    {
      0 <= selected && (selected < |items| || selected == 0) && scrollOffset >= 0
    }

    /** `NewMenu`: first item selected, six visible rows, no parent. */
    constructor New(title: string, items: seq<MenuItem>)
      ensures Valid() && this.title == title && this.items == items && parent == null
      ensures selected == 0 && scrollOffset == 0 && maxVisible == 6
    {
      this.title := title;
      this.items := items;
      parent := null;
      selected := 0;
      scrollOffset := 0;
      maxVisible := 6;
    }

    method SetMaxVisible(n: int)
      modifies this
      ensures maxVisible == n
      ensures title == old(title) && items == old(items) && parent == old(parent)
      ensures selected == old(selected) && scrollOffset == old(scrollOffset)
    {
      maxVisible := n;
    }

    method AddItem(item: MenuItem)
      requires Valid()
      modifies this
      ensures Valid() && items == old(items) + [item]
      ensures title == old(title) && parent == old(parent) && maxVisible == old(maxVisible)
      ensures selected == old(selected) && scrollOffset == old(scrollOffset)
    {
      items := items + [item];
    }

    /** Links `sub` below this menu: its parent becomes this menu and one
        item `label >` leading to it is appended. */
    method AddSubMenu(caption: string, sub: Menu)
      requires Valid()
      modifies this, sub
      ensures sub.parent == this && Valid()
      ensures items == old(items) + [MenuItem(caption + " >", false, sub, false)]
      ensures title == old(title) && maxVisible == old(maxVisible)
      ensures selected == old(selected) && scrollOffset == old(scrollOffset)
      ensures sub != this ==> parent == old(parent)
      ensures sub != this ==>
        sub.items == old(sub.items) && sub.selected == old(sub.selected)
        && sub.scrollOffset == old(sub.scrollOffset) && sub.maxVisible == old(sub.maxVisible)
    {
      sub.parent := this;
      items := items + [MenuItem(caption + " >", false, sub, false)];
    }

    method AllItemsDisabled() returns (all: bool)
      ensures all == AllDisabled(items)
    {
      for i := 0 to |items|
        invariant forall j :: 0 <= j < i ==> items[j].disabled
      {
        if !items[i].disabled {
          return false;
        }
      }
      return true;
    }

    /** Moves to the next enabled item, wrapping; an all-disabled menu moves
        one place. The menu must have an item. */
    method SelectNext()
      requires Valid() && |items| >= 1
      modifies this
      ensures Valid()
      ensures selected == NextIndex(old(items), old(selected))
      ensures scrollOffset == ScrollFor(selected, old(scrollOffset), maxVisible)
      ensures title == old(title) && items == old(items) && parent == old(parent) && maxVisible == old(maxVisible)
    {
      MoveNext();
      UpdateScroll();
    }

    /** The search loop of `SelectNext`: steps the selection to the next
        enabled item, stopping after one step when every item is disabled. */
    method MoveNext()
      requires Valid() && |items| >= 1
      modifies this`selected
      ensures selected == NextIndex(items, old(selected))
    {
      var n := |items|;
      ghost var s := selected;
      ghost var steps := 0;
      while true
        invariant 0 <= steps < n && selected == Fwd(n, s, steps)
        invariant forall j :: 1 <= j <= steps ==> items[Fwd(n, s, j)].disabled
        invariant steps >= 1 ==> !AllDisabled(items)
        invariant !AllDisabled(items) ==> ScanNext(items, s, steps + 1) == ScanNext(items, s, 1)
        decreases n - steps
      {
        NextRound(items, s, steps);
        selected := selected + 1;
        if selected >= n {
          selected := 0;
        }
        steps := steps + 1;
        if !items[selected].disabled {
          break;
        }
        var all := AllItemsDisabled();
        if all {
          break;
        }
      }
    }

    /** Moves to the previous enabled item, wrapping to the last; the mirror
        image of `SelectNext`. */
    method SelectPrevious()
      requires Valid() && |items| >= 1
      modifies this
      ensures Valid()
      ensures selected == PrevIndex(old(items), old(selected))
      ensures scrollOffset == ScrollFor(selected, old(scrollOffset), maxVisible)
      ensures title == old(title) && items == old(items) && parent == old(parent) && maxVisible == old(maxVisible)
    {
      MovePrevious();
      UpdateScroll();
    }

    /** The search loop of `SelectPrevious`: steps the selection to the previous
        enabled item, stopping after one step when every item is disabled. */
    method MovePrevious()
      requires Valid() && |items| >= 1
      modifies this`selected
      ensures selected == PrevIndex(items, old(selected))
    {
      var n := |items|;
      ghost var s := selected;
      ghost var steps := 0;
      while true
        invariant 0 <= steps < n && selected == Bwd(n, s, steps)
        invariant forall j :: 1 <= j <= steps ==> items[Bwd(n, s, j)].disabled
        invariant steps >= 1 ==> !AllDisabled(items)
        invariant !AllDisabled(items) ==> ScanPrev(items, s, steps + 1) == ScanPrev(items, s, 1)
        decreases n - steps
      {
        PrevRound(items, s, steps);
        selected := selected - 1;
        if selected < 0 {
          selected := n - 1;
        }
        steps := steps + 1;
        if !items[selected].disabled {
          break;
        }
        var all := AllItemsDisabled();
        if all {
          break;
        }
      }
    }

    /** `updateScroll`: slides the window just far enough to show the selection. */
    method UpdateScroll()
      requires 0 <= selected && scrollOffset >= 0
      modifies this
      ensures scrollOffset == ScrollFor(selected, old(scrollOffset), maxVisible) && scrollOffset >= 0
      ensures title == old(title) && items == old(items) && parent == old(parent)
      ensures selected == old(selected) && maxVisible == old(maxVisible)
    {
      if selected >= scrollOffset + maxVisible {
        scrollOffset := selected - maxVisible + 1;
      }
      if selected < scrollOffset {
        scrollOffset := selected;
      }
    }

    /** Runs the selected item: nothing for an out-of-range or disabled
        selection; a submenu is returned in preference to running the
        action; otherwise the action's own error (`actionErr`) is returned. */
    method Execute(actionErr: Option<string>) returns (sub: Menu?, err: Option<string>)
      ensures !(0 <= selected < |items|) ==> sub == null && err == None
      ensures 0 <= selected < |items| ==>
        var item := items[selected];
        (item.disabled ==> sub == null && err == None)
        && (!item.disabled && item.subMenu != null ==> sub == item.subMenu && err == None)
        && (!item.disabled && item.subMenu == null && item.hasAction ==> sub == null && err == actionErr)
        && (!item.disabled && item.subMenu == null && !item.hasAction ==> sub == null && err == None)
    {
      if 0 <= selected < |items| {
        var item := items[selected];
        if item.disabled {
          return null, None;
        }
        if item.subMenu != null {
          return item.subMenu, None;
        }
        if item.hasAction {
          return null, actionErr;
        }
      }
      return null, None;
    }

    /** The rows `Render` draws: from the scroll offset, at most
        `maxVisible` of them, never past the last item. */
    function VisibleEnd(): (end: int)
      reads this
      ensures end <= |items| && end <= scrollOffset + maxVisible
      ensures end == |items| || end == scrollOffset + maxVisible
    {
      Min(scrollOffset + maxVisible, |items|)
    }
  }

  /** After a move, the selected row is among the rows drawn. */
  lemma SelectedIsDrawn(s: int, offset: int, maxVisible: int, n: int)
    requires 0 <= s < n && maxVisible >= 1
    ensures var o := ScrollFor(s, offset, maxVisible); o <= s < Min(o + maxVisible, n)
  {
    ScrollKeepsVisible(s, offset, maxVisible);
  }

  /** What one button press did to the controller. */
  datatype Outcome = Outcome(exit: bool, rerender: bool)

  /** The per-button step of `MenuController.Run`. `menus` is the set of
      menus reachable so far; it is closed under parents and submenus. */
  class Controller {
    var current: Menu
    const root: Menu
    ghost var menus: set<Menu>

    ghost predicate Valid()
      reads this, menus
    {
      root in menus && current in menus
      && forall m :: m in menus ==>
        m.Valid() && (m.parent != null ==> m.parent in menus)
        && forall i :: 0 <= i < |m.items| ==> m.items[i].subMenu != null ==> m.items[i].subMenu in menus
    }

    constructor New(root: Menu, ghost menus: set<Menu>)
      requires root in menus
      requires forall m :: m in menus ==>
        m.Valid() && (m.parent != null ==> m.parent in menus)
        && forall i :: 0 <= i < |m.items| ==> m.items[i].subMenu != null ==> m.items[i].subMenu in menus
      ensures Valid() && this.root == root && current == root && this.menus == menus
    {
      this.root := root;
      current := root;
      this.menus := menus;
    }

    /** One button press. Up and Down move the selection (the menu must
        have an item, as the source indexes it); Enter and Right descend
        into a submenu and suppress the redraw when the action failed;
        Left and Escape climb to the parent or, at the top, end the loop;
        any other key changes nothing and draws nothing. */
    method Handle(btn: Button, actionErr: Option<string>) returns (o: Outcome)
      requires Valid()
      requires btn == ButtonUp || btn == ButtonDown ==> |current.items| >= 1
      modifies this, current
      ensures Valid() && menus == old(menus)
      ensures btn == ButtonUp ==>
        current == old(current) && o == Outcome(false, true)
        && current.selected == PrevIndex(old(current.items), old(current.selected))
        && current.scrollOffset == ScrollFor(current.selected, old(current.scrollOffset), old(current.maxVisible))
        && current.title == old(current.title) && current.items == old(current.items)
        && current.parent == old(current.parent) && current.maxVisible == old(current.maxVisible)
      ensures btn == ButtonDown ==>
        current == old(current) && o == Outcome(false, true)
        && current.selected == NextIndex(old(current.items), old(current.selected))
        && current.scrollOffset == ScrollFor(current.selected, old(current.scrollOffset), old(current.maxVisible))
        && current.title == old(current.title) && current.items == old(current.items)
        && current.parent == old(current.parent) && current.maxVisible == old(current.maxVisible)
      ensures btn == ButtonEnter || btn == ButtonRight ==>
        var i := old(current.selected);
        var item := if 0 <= i < |old(current.items)| then Some(old(current.items)[i]) else None;
        var descend := item.Some? && !item.value.disabled && item.value.subMenu != null;
        var failed := item.Some? && !item.value.disabled && item.value.subMenu == null
                      && item.value.hasAction && actionErr.Some?;
        (descend ==> current == item.value.subMenu) && (!descend ==> current == old(current))
        && o == Outcome(false, !failed)
      ensures btn == ButtonLeft || btn == ButtonEsc ==>
        (old(current.parent) != null ==> current == old(current.parent) && o == Outcome(false, true))
        && (old(current.parent) == null ==> current == old(current) && o.exit)
      ensures !(btn in {ButtonUp, ButtonDown, ButtonEnter, ButtonRight, ButtonLeft, ButtonEsc}) ==>
        current == old(current) && o == Outcome(false, false)
      ensures btn != ButtonUp && btn != ButtonDown ==> unchanged(old(current))
    {
      o := Outcome(false, true);
      if btn == ButtonUp {
        current.SelectPrevious();
      } else if btn == ButtonDown {
        current.SelectNext();
      } else if btn == ButtonEnter || btn == ButtonRight {
        var sub, err := current.Execute(actionErr);
        if err != None {
          o := Outcome(false, false);
        }
        if sub != null {
          current := sub;
        }
      } else if btn == ButtonLeft || btn == ButtonEsc {
        if current.parent != null {
          current := current.parent;
        } else {
          o := Outcome(true, true);
        }
      } else {
        o := Outcome(false, false);
      }
    }

    method GoToRoot()
      requires Valid()
      modifies this
      ensures Valid() && current == root && menus == old(menus)
    {
      current := root;
    }
  }
}
