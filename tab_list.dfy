/**
 * The `TabList` component's state and handlers. Each handler that changes
 * `tabs` is followed by the component's two effects on `tabs`: the layout is
 * written back to storage without icons, and the visible/overflow split is
 * recomputed for the current container width.
 */
module TabListComponent {
  import opened Wrappers
  import opened Tabs
  import TabLoad
  import opened TabLayout
  import TabPin
  import TabClose
  import TabReorder

  class TabList {
    var tabs: seq<Tab>
    /** The container's `offsetWidth`, as last observed. */
    var offsetWidth: int
    var visibleTabs: seq<Tab>
    var overflowTabs: seq<Tab>
    var activeTabId: Option<string>
    var isOverflowOpen: bool
    /** The stored layout entry, as the save effect last wrote it. */
    var stored: Option<seq<PlainTab>>

    /** The effects have run: storage and the split both reflect `tabs`. */
    ghost predicate Valid()
      reads this
    {
      && Split(visibleTabs, overflowTabs) == LayoutOf(tabs, offsetWidth - Buffer)
      && stored == Some(StripAll(tabs))
    }

    /** Mount: restore the saved layout, activate the first tab, run the effects. */
    constructor (saved: Option<seq<PlainTab>>, offsetWidth: int)
      ensures Valid()
      ensures tabs == TabLoad.Load(saved) && this.offsetWidth == offsetWidth
      ensures activeTabId == if tabs == [] then None else Some(tabs[0].id)
      ensures !isOverflowOpen
    {
      tabs := TabLoad.Load(saved);
      this.offsetWidth := offsetWidth;
      activeTabId := None;
      isOverflowOpen := false;
      stored := None;
      visibleTabs, overflowTabs := [], [];
      new;
      activeTabId := if tabs == [] then None else Some(tabs[0].id);
      RunEffects();
    }

    /** The two effects that run after every change of `tabs`. */
    method RunEffects()
      modifies this
      ensures Valid()
      ensures tabs == old(tabs) && offsetWidth == old(offsetWidth)
      ensures activeTabId == old(activeTabId) && isOverflowOpen == old(isOverflowOpen)
    {
      stored := Some(StripAll(tabs));
      visibleTabs, overflowTabs := HandleResize(tabs, offsetWidth);
    }

    /** The resize observer fired with a new container width; `tabs` is untouched. */
    method Resize(newOffsetWidth: int)
      requires Valid()
      modifies this
      ensures Valid()
      ensures offsetWidth == newOffsetWidth
      ensures tabs == old(tabs) && stored == old(stored)
      ensures activeTabId == old(activeTabId) && isOverflowOpen == old(isOverflowOpen)
    {
      offsetWidth := newOffsetWidth;
      visibleTabs, overflowTabs := HandleResize(tabs, offsetWidth);
    }

    method TogglePin(id: string)
      modifies this
      ensures Valid()
      ensures tabs == TabPin.TogglePin(old(tabs), id)
      ensures offsetWidth == old(offsetWidth)
      ensures activeTabId == old(activeTabId) && isOverflowOpen == old(isOverflowOpen)
    {
      tabs := TabPin.TogglePin(tabs, id);
      RunEffects();
    }

    method CloseTab(id: string)
      modifies this
      ensures Valid()
      ensures tabs == TabClose.CloseTab(old(tabs), id)
      ensures offsetWidth == old(offsetWidth)
      ensures activeTabId == old(activeTabId) && isOverflowOpen == old(isOverflowOpen)
    {
      tabs := TabClose.CloseTab(tabs, id);
      RunEffects();
    }

    /** A drop of tab `activeId` over tab `overId`, both rendered tabs of the strip. */
    method HandleDragEnd(activeId: string, overId: string)
      requires activeId in Ids(tabs) && overId in Ids(tabs)
      modifies this
      ensures Valid()
      ensures tabs == TabReorder.DragEnd(old(tabs), activeId, overId)
      ensures offsetWidth == old(offsetWidth)
      ensures this.activeTabId == old(this.activeTabId) && isOverflowOpen == old(isOverflowOpen)
    {
      if activeId != overId {
        tabs := TabReorder.DragEnd(tabs, activeId, overId);
      }
      RunEffects();
    }

    /** The strip's `onSelect` handler makes the tab active; nothing else changes. */
    method SelectInStrip(id: string)
      requires Valid()
      modifies this
      ensures Valid()
      ensures activeTabId == Some(id) && isOverflowOpen == old(isOverflowOpen)
      ensures tabs == old(tabs) && visibleTabs == old(visibleTabs) && overflowTabs == old(overflowTabs)
      ensures offsetWidth == old(offsetWidth) && stored == old(stored)
    {
      activeTabId := Some(id);
    }

    /**
     * Selecting a tab in the overflow menu: it becomes active and the menu
     * closes. The tab is not moved into the visible strip.
     */
    method Select(id: string)
      requires Valid()
      modifies this
      ensures Valid()
      ensures activeTabId == Some(id) && !isOverflowOpen
      ensures tabs == old(tabs) && visibleTabs == old(visibleTabs) && overflowTabs == old(overflowTabs)
      ensures offsetWidth == old(offsetWidth) && stored == old(stored)
    {
      activeTabId := Some(id);
      isOverflowOpen := false;
    }

    /** A click on the overflow trigger negates the menu flag. */
    method ToggleOverflow()
      requires Valid()
      modifies this
      ensures Valid()
      ensures isOverflowOpen == !old(isOverflowOpen)
      ensures tabs == old(tabs) && visibleTabs == old(visibleTabs) && overflowTabs == old(overflowTabs)
      ensures activeTabId == old(activeTabId) && stored == old(stored) && offsetWidth == old(offsetWidth)
    {
      isOverflowOpen := !isOverflowOpen;
    }

    /**
     * The menu's `onToggle` callback, which sets the flag outright. The menu
     * calls it with `false` on a mouse press outside itself while it is open.
     */
    method SetOverflowOpen(open: bool)
      requires Valid()
      modifies this
      ensures Valid()
      ensures isOverflowOpen == open
      ensures tabs == old(tabs) && visibleTabs == old(visibleTabs) && overflowTabs == old(overflowTabs)
      ensures activeTabId == old(activeTabId) && stored == old(stored) && offsetWidth == old(offsetWidth)
    {
      isOverflowOpen := open;
    }
  }
}
