/**
 * The page state that script.js changes: the card list and its rendered grid, the
 * detail panel with its `active` and `no-scroll` classes and the document-level
 * outside-click listener, and the light/dark theme with the `mode` entry it keeps in
 * localStorage. DOM elements are reduced to the flags the script reads and writes.
 */
module Gallery {
  import opened Wrappers
  import opened CardParser

  /** The value `toggleMode` stores under `mode`. */
  function ModeName(light: bool): (name: string)
    ensures name == "light" <==> light
    ensures name == "light" || name == "dark"
  {
    if light then "light" else "dark"
  }

  /** Whether the startup code adds `light-mode`: only for a stored `'light'`. */
  predicate LightAtStartup(saved: Option<string>) {
    saved == Some("light")
  }

  /** A stored mode is read back as the mode that stored it. */
  lemma ModeSurvivesReload(light: bool)
    ensures LightAtStartup(Some(ModeName(light))) == light
  {
  }

  /**
   * Where a click lands: inside the detail panel or not, on its close button or not, on
   * the tile of card `tile` (`event.target.closest('.card')`) or on none, on the mode
   * toggle button or not.
   */
  datatype ClickTarget = ClickTarget(inPanel: bool, onCloseButton: bool, tile: Option<nat>, onModeToggle: bool)

  /** The test of `closeCardDetailsOutside`: not inside the panel and not on a card tile. */
  predicate OutsideClick(target: ClickTarget) {
    !target.inPanel && target.tile.None?
  }

  class Page {
    /** The global `cards` array. */
    var cards: seq<Card>
    /** The number of tiles `renderCards` has put in the grid. */
    var tiles: nat
    /** Whether the grid has the `handleCardClick` listener. */
    var gridListening: bool
    /** The card whose details the panel's content shows, if any was ever shown. */
    var detail: Option<Card>
    /** The `active` class of `#card-details`. */
    var panelActive: bool
    /** The `no-scroll` class of the body. */
    var noScroll: bool
    /** Whether `closeCardDetailsOutside` listens on the document. */
    var outsideListening: bool
    /** The `light-mode` class of the body. */
    var lightMode: bool
    /** localStorage's `mode` entry. */
    var storedMode: Option<string>

    /**
     * The tiles show cards of the list and answer clicks; the body stops scrolling and the
     * document watches for outside clicks exactly while the panel is open, and the open
     * panel shows a card; the theme shown is the one a reload would show.
     */
    ghost predicate Valid()
      reads this
    {
      && tiles <= |cards|
      && (tiles > 0 ==> gridListening)
      && noScroll == panelActive
      && outsideListening == panelActive
      && (panelActive ==> detail.Some?)
      && lightMode == LightAtStartup(storedMode)
    }

    /**
     * The page as `DOMContentLoaded` leaves it before any card has loaded: an empty grid,
     * the panel closed, and `light-mode` exactly when localStorage holds `'light'`.
     */
    constructor (saved: Option<string>)
      ensures Valid()
      ensures cards == [] && tiles == 0 && !gridListening && detail == None
      ensures !panelActive && !noScroll && !outsideListening
      ensures storedMode == saved && lightMode == LightAtStartup(saved)
    {
      cards := [];
      tiles := 0;
      gridListening := false;
      detail := None;
      panelActive := false;
      noScroll := false;
      outsideListening := false;
      storedMode := saved;
      var light := false;
      if saved == Some("light") {
        light := true;
      }
      lightMode := light;
    }

    /**
     * `loadCards` with the text of cards.txt (`None` when the fetch fails, which the
     * script catches): every record of five non-blank lines whose values are all present
     * is appended, in order, and the grid is rendered with a tile per card.
     */
    method LoadCards(response: Option<string>)
      requires Valid()
      modifies this
      ensures Valid()
      ensures response.None? ==> cards == old(cards) && tiles == old(tiles) && gridListening == old(gridListening)
      ensures response.Some? ==>
        cards == old(cards) + ParseCatalog(response.value) && tiles == |cards| && gridListening
      ensures detail == old(detail) && panelActive == old(panelActive) && noScroll == old(noScroll)
      ensures outsideListening == old(outsideListening)
      ensures lightMode == old(lightMode) && storedMode == old(storedMode)
    {
      if response.None? {
        return;
      }
      var lines := NonBlankLines(response.value);
      var i := 0;
      ghost var k := 0;
      while i < |lines|
        invariant i == FieldsPerCard * k
        invariant k == 0 || FieldsPerCard * (k - 1) < |lines|
        invariant cards == old(cards) + ParseGroups(lines, k)
        invariant tiles <= |cards|
        modifies this`cards
        decreases |lines| - i
      {
        AddRecord(lines, i);
        ParseGroupsNext(old(cards), lines, k);
        i := i + FieldsPerCard;
        k := k + 1;
      }
      assert k == GroupCount(|lines|);
      tiles := |cards|;
      gridListening := true;
    }

    /**
     * One pass of the `loadCards` loop body, for the record starting at line `i`: read its
     * five labelled values and push the card when all of them are present.
     */
    method AddRecord(lines: seq<string>, i: nat)
      modifies this`cards
      ensures cards == old(cards) + Admit(GroupCard(lines, i))
    {
      var catboxLink := GetValueFromLine(LineAt(lines, i), CatboxLabel);
      var chubLink := GetValueFromLine(LineAt(lines, i + 1), ChubLabel);
      var imagePath := GetValueFromLine(LineAt(lines, i + 2), ImageLabel);
      var name := GetValueFromLine(LineAt(lines, i + 3), NameLabel);
      var description := GetValueFromLine(LineAt(lines, i + 4), DescriptionLabel);
      if Present(catboxLink) && Present(chubLink) && Present(imagePath) && Present(name) && Present(description) {
        cards := cards + [Card(catboxLink.value, chubLink.value, imagePath.value, name.value, description.value)];
      }
      GroupCardUnrolled(lines, i, catboxLink, chubLink, imagePath, name, description);
    }

    /**
     * `showCardDetails(index)`: the panel shows card `index` and opens, the body stops
     * scrolling and the document starts watching for outside clicks. For an index past the
     * end, `cards[index]` is undefined and the script throws before changing anything.
     */
    method ShowCardDetails(index: nat)
      requires Valid()
      modifies this
      ensures Valid()
      ensures index < |cards| ==> detail == Some(cards[index]) && panelActive && noScroll && outsideListening
      ensures index >= |cards| ==>
        detail == old(detail) && panelActive == old(panelActive) && noScroll == old(noScroll)
        && outsideListening == old(outsideListening)
      ensures cards == old(cards) && tiles == old(tiles) && gridListening == old(gridListening)
      ensures lightMode == old(lightMode) && storedMode == old(storedMode)
    {
      if index < |cards| {
        detail := Some(cards[index]);
        panelActive := true;
        noScroll := true;
        outsideListening := true;
      }
    }

    /** `closeCardDetails`: the panel closes, the body scrolls again, the outside listener goes; the content stays. */
    method CloseCardDetails()
      requires Valid()
      modifies this
      ensures Valid()
      ensures !panelActive && !noScroll && !outsideListening
      ensures detail == old(detail) && cards == old(cards) && tiles == old(tiles)
      ensures gridListening == old(gridListening) && lightMode == old(lightMode) && storedMode == old(storedMode)
    {
      panelActive := false;
      noScroll := false;
      outsideListening := false;
    }

    /** `closeCardDetailsOutside`: closes the panel for a click outside it and off every card, and otherwise does nothing. */
    method CloseCardDetailsOutside(target: ClickTarget)
      requires Valid()
      modifies this
      ensures Valid()
      ensures OutsideClick(target) ==> !panelActive && !noScroll && !outsideListening
      ensures !OutsideClick(target) ==>
        panelActive == old(panelActive) && noScroll == old(noScroll) && outsideListening == old(outsideListening)
      ensures detail == old(detail) && cards == old(cards) && tiles == old(tiles)
      ensures gridListening == old(gridListening) && lightMode == old(lightMode) && storedMode == old(storedMode)
    {
      if OutsideClick(target) {
        CloseCardDetails();
      }
    }

    /** `handleCardClick`: a click on the tile of card `index` shows that card; elsewhere it does nothing. */
    method HandleCardClick(tile: Option<nat>)
      requires Valid()
      modifies this
      ensures Valid()
      ensures tile.Some? && tile.value < |cards| ==>
        detail == Some(cards[tile.value]) && panelActive && noScroll && outsideListening
      ensures !(tile.Some? && tile.value < |cards|) ==>
        detail == old(detail) && panelActive == old(panelActive) && noScroll == old(noScroll)
        && outsideListening == old(outsideListening)
      ensures cards == old(cards) && tiles == old(tiles) && gridListening == old(gridListening)
      ensures lightMode == old(lightMode) && storedMode == old(storedMode)
    {
      if tile.Some? {
        ShowCardDetails(tile.value);
      }
    }

    /** `toggleMode`: flips `light-mode` and stores the new mode's name. */
    method ToggleMode()
      requires Valid()
      modifies this
      ensures Valid()
      ensures lightMode == !old(lightMode) && storedMode == Some(ModeName(lightMode))
      ensures cards == old(cards) && tiles == old(tiles) && gridListening == old(gridListening)
      ensures detail == old(detail) && panelActive == old(panelActive) && noScroll == old(noScroll)
      ensures outsideListening == old(outsideListening)
    {
      lightMode := !lightMode;
      storedMode := Some(ModeName(lightMode));
      ModeSurvivesReload(lightMode);
    }

    /**
     * One click, dispatched as the browser does: the close button's listener first, which
     * stops the event; otherwise the mode toggle's or the grid's listener at the target,
     * then, as the event bubbles to the document, the outside-click listener if the
     * document has it by then (one the grid listener has just added included). A click on
     * a card therefore opens its details and never closes them.
     */
    method Click(target: ClickTarget)
      requires Valid()
      requires target.tile.Some? ==> target.tile.value < tiles
      modifies this
      ensures Valid()
      ensures cards == old(cards) && tiles == old(tiles) && gridListening == old(gridListening)
      ensures target.onCloseButton && old(detail).Some? ==>
        !panelActive && detail == old(detail) && lightMode == old(lightMode)
      ensures !(target.onCloseButton && old(detail).Some?) ==>
        && lightMode == (if target.onModeToggle then !old(lightMode) else old(lightMode))
        && detail == (if target.tile.Some? then Some(cards[target.tile.value]) else old(detail))
        && panelActive == (target.tile.Some? || (old(panelActive) && !OutsideClick(target)))
      ensures storedMode ==
        if !(target.onCloseButton && old(detail).Some?) && target.onModeToggle then Some(ModeName(lightMode))
        else old(storedMode)
    {
      if target.onCloseButton && detail.Some? {
        CloseCardDetails();
        return;
      }
      if target.onModeToggle {
        ToggleMode();
      }
      if gridListening {
        HandleCardClick(target.tile);
      }
      if outsideListening {
        CloseCardDetailsOutside(target);
      }
    }
  }

  /** Toggling twice restores the theme and leaves the other mode stored. */
  method ToggleTwice(p: Page)
    requires p.Valid()
    modifies p
    ensures p.Valid()
    ensures p.lightMode == old(p.lightMode) && p.storedMode == Some(ModeName(old(p.lightMode)))
  {
    p.ToggleMode();
    p.ToggleMode();
  }

  /** Reloading any page starts it with the theme it showed and the same stored mode. */
  method Reload(p: Page) returns (q: Page)
    requires p.Valid()
    ensures fresh(q) && q.Valid()
    ensures q.lightMode == p.lightMode && q.storedMode == p.storedMode
  {
    q := new Page(p.storedMode);
  }

  /** After a toggle, reloading the page shows the theme the toggle chose. */
  method ToggleThenReload(p: Page) returns (q: Page)
    requires p.Valid()
    modifies p
    ensures fresh(q) && q.Valid()
    ensures q.lightMode == !old(p.lightMode) && q.lightMode == p.lightMode
  {
    p.ToggleMode();
    q := new Page(p.storedMode);
  }
}
