/** The DataBricks component's state and its handlers. Each React state hook
    is a field; each handler updates the fields it sets, and a handler whose
    new state feeds the filter-and-sort effect also stores that effect's
    result, so every method ends in the state the board shows after it. */
module BricksBoard {
  import opened Seqs
  import opened JsValues
  import opened Text
  import opened ItemOrder
  import opened Bricks

  datatype Layout = Masonry | Vertical

  class DataBricks {
    /** The `items` prop. */
    var items: seq<Record>
    /** `schema.order`, or `None` when there is no schema or no order. */
    const order: Option<seq<string>>
    var filteredItems: seq<Record>
    var sortHistory: seq<string>
    /** The search text; `None` stands for a `null` filter prop. */
    var categoryFilter: Option<string>
    var layoutMode: Layout
    var selectedCardId: Value
    var fullWidthCardId: Value
    var alertDialogOpen: bool
    var cardToDelete: Value

    /** The state after the first render and its effect; the defaults of the
        props are the caller's `Some("*")` and `["original-order"]`. */
    constructor (items: seq<Record>, filter: Option<string>, sortBy: seq<string>, order: Option<seq<string>>)
      ensures this.items == items && this.order == order
      ensures categoryFilter == filter && sortHistory == sortBy
      ensures filteredItems == View(items, filter, sortBy)
      ensures layoutMode == Masonry
      ensures selectedCardId == Null && fullWidthCardId == Null
      ensures !alertDialogOpen && cardToDelete == Null
    {
      this.items := items;
      this.order := order;
      categoryFilter := filter;
      sortHistory := sortBy;
      filteredItems := View(items, filter, sortBy);
      layoutMode := Masonry;
      selectedCardId := Null;
      fullWidthCardId := Null;
      alertDialogOpen := false;
      cardToDelete := Null;
    }

    /** A new `items` prop: the effect recomputes the view. */
    method SetItems(newItems: seq<Record>)
      modifies this`items, this`filteredItems
      ensures items == newItems
      ensures filteredItems == View(newItems, categoryFilter, sortHistory)
    {
      items := newItems;
      filteredItems := View(items, categoryFilter, sortHistory);
    }

    /** The text the search box shows: nothing while the filter is `*`. */
    function SearchBoxText(): string
      reads this
    {
      match categoryFilter
      case None => ""
      case Some(f) => if f == "*" then "" else f
    }

    /** Typing in the search box: an emptied box stores `*`. The box then
        shows what was typed (unless that was `*` itself), and every item
        passes exactly when the text is blank or a padded `*`. React skips a
        state update to the value already stored, and the effect then does
        not run: the view is re-derived only when the stored text changes,
        and otherwise keeps any deletions, hidden flags and reordering. */
    method Search(text: string)
      modifies this`categoryFilter, this`filteredItems
      ensures categoryFilter == Some(if text == "" then "*" else text)
      ensures text != "*" ==> SearchBoxText() == text
      ensures AcceptsAll(categoryFilter) <==> IsBlank(text) || IsPaddedStar(text)
      ensures categoryFilter != old(categoryFilter) ==> filteredItems == View(items, categoryFilter, sortHistory)
      ensures categoryFilter == old(categoryFilter) ==> filteredItems == old(filteredItems)
    {
      var stored := Some(if text == "" then "*" else text);
      SearchTextAcceptsAll(text);
      if stored != categoryFilter {
        categoryFilter := stored;
        filteredItems := View(items, categoryFilter, sortHistory);
      }
    }

    /** What the search box stores accepts every item exactly when the typed
        text is blank or a padded `*`. */
    static lemma SearchTextAcceptsAll(text: string)
      ensures AcceptsAll(Some(if text == "" then "*" else text)) <==> IsBlank(text) || IsPaddedStar(text)
    {
      AcceptsAllMeaning(Some(if text == "" then "*" else text));
      if text == "" {
        assert IsPaddedStar("*") by {
          assert "*"[..0] == [] && "*"[1..] == [];
        }
      }
    }

    /** The "Sort by Title" and "Sort by Category" buttons: a new sort
        history, and the effect re-sorts the matching items by it. */
    method SetSortHistory(keys: seq<string>)
      modifies this`sortHistory, this`filteredItems
      ensures sortHistory == keys
      ensures filteredItems == View(items, categoryFilter, keys)
      ensures SortedBy(keys, true, filteredItems)
    {
      sortHistory := keys;
      filteredItems := View(items, categoryFilter, sortHistory);
      SortItemsSorted(keys, true, Matching(categoryFilter, items));
    }

    /** The "Toggle Layout" button. */
    method ToggleLayout()
      modifies this`layoutMode
      ensures layoutMode == if old(layoutMode) == Masonry then Vertical else Masonry
    {
      layoutMode := if layoutMode == Masonry then Vertical else Masonry;
    }

    /** A click on a card. In the vertical layout the first card with the id
        moves to the bottom of the stack, keeping the same cards. Otherwise a
        click on the maximised card restores it, and any other click selects
        the card, or deselects it when it was selected. */
    method CardClick(clickedItemId: Value)
      modifies this`filteredItems, this`selectedCardId, this`fullWidthCardId
      ensures old(layoutMode) == Vertical ==>
        filteredItems == MoveToEnd(old(filteredItems), clickedItemId) &&
        multiset(filteredItems) == multiset(old(filteredItems)) &&
        selectedCardId == old(selectedCardId) && fullWidthCardId == old(fullWidthCardId)
      ensures old(layoutMode) == Masonry ==> filteredItems == old(filteredItems)
      ensures old(layoutMode) == Masonry && old(fullWidthCardId) == clickedItemId ==>
        fullWidthCardId == Null && selectedCardId == old(selectedCardId)
      ensures old(layoutMode) == Masonry && old(fullWidthCardId) != clickedItemId ==>
        fullWidthCardId == old(fullWidthCardId) &&
        selectedCardId == if old(selectedCardId) == clickedItemId then Null else clickedItemId
    {
      if layoutMode == Vertical {
        var prevItems := filteredItems;
        MoveToEndPermutes(prevItems, clickedItemId);
        var clickedItemIndex := CardIndex(prevItems, clickedItemId);
        if clickedItemIndex != -1 {
          var updatedItems := prevItems;
          var clickedItem := updatedItems[clickedItemIndex];
          updatedItems := updatedItems[..clickedItemIndex] + updatedItems[clickedItemIndex + 1..];
          updatedItems := updatedItems + [clickedItem];
          assert updatedItems == MoveToEnd(prevItems, clickedItemId);
          filteredItems := updatedItems;
        }
      } else if fullWidthCardId == clickedItemId {
        fullWidthCardId := Null;
      } else {
        selectedCardId := if selectedCardId == clickedItemId then Null else clickedItemId;
      }
    }

    /** The trash icon: opens the confirmation and remembers the card. */
    method ConfirmDelete(id: Value)
      modifies this`alertDialogOpen, this`cardToDelete
      ensures alertDialogOpen && cardToDelete == id
    {
      alertDialogOpen := true;
      cardToDelete := id;
    }

    /** "Delete" in the confirmation: closes it, drops every shown card with
        the remembered id, keeping the others in order, and forgets the id. */
    method DeleteCard()
      modifies this`alertDialogOpen, this`filteredItems, this`cardToDelete
      ensures !alertDialogOpen && cardToDelete == Null
      ensures filteredItems == WithoutCard(old(filteredItems), old(cardToDelete))
      ensures IsSubsequence(filteredItems, old(filteredItems))
      ensures forall i :: 0 <= i < |filteredItems| ==> CardId(filteredItems[i]) != old(cardToDelete)
    {
      alertDialogOpen := false;
      filteredItems := WithoutCard(filteredItems, cardToDelete);
      WithoutCardMeaning(old(filteredItems), cardToDelete);
      forall i | 0 <= i < |filteredItems| ensures CardId(filteredItems[i]) != old(cardToDelete) {
        assert multiset(filteredItems)[filteredItems[i]] > 0;
      }
      cardToDelete := Null;
    }

    /** The eye icon: flips `isHidden` on every shown card with the id. */
    method ToggleHiddenCard(id: Value)
      modifies this`filteredItems
      ensures filteredItems == ToggleHidden(old(filteredItems), id)
    {
      filteredItems := ToggleHidden(filteredItems, id);
    }

    /** The maximise icon: maximises the card, or restores it when it is the
        maximised one, and clears the selection. */
    method Maximise(id: Value)
      modifies this`fullWidthCardId, this`selectedCardId
      ensures fullWidthCardId == if old(fullWidthCardId) == id then Null else id
      ensures selectedCardId == Null
    {
      fullWidthCardId := if fullWidthCardId == id then Null else id;
      selectedCardId := Null;
    }

    /** `isFullWidth`: the maximised card, and every card in the vertical
        layout. */
    function IsFullWidth(item: Record): (fullWidth: bool)
      reads this
      ensures layoutMode == Vertical ==> fullWidth
      ensures layoutMode == Masonry ==> (fullWidth <==> fullWidthCardId == CardId(item))
    {
      fullWidthCardId == CardId(item) || layoutMode == Vertical
    }

    /** `isLargeSize`: the selected card, unless it is full width. */
    function IsLargeSize(item: Record): (large: bool)
      reads this
      ensures large <==>
        layoutMode == Masonry && selectedCardId == CardId(item) && fullWidthCardId != CardId(item)
      ensures large ==> !IsFullWidth(item)
    {
      selectedCardId == CardId(item) && !IsFullWidth(item)
    }

    /** The key/value pairs a card lists: the first 20 of its detail fields
        when it is large, all of them when it is full width, the first 5
        otherwise. */
    function CardFields(item: Record): (shown: seq<Field>)
      reads this
      ensures var pairs := DetailFields(item, order);
        shown == pairs[..Min(|pairs|, if IsLargeSize(item) then 20 else if IsFullWidth(item) then |pairs| else 5)]
      ensures forall i :: 0 <= i < |shown| ==> shown[i].key !in HeaderKeys
    {
      var pairs := DetailFields(item, order);
      ShownFieldsMeaning(pairs, IsFullWidth(item), IsLargeSize(item));
      DetailFieldsSkipHeader(item, order);
      ShownFields(pairs, IsFullWidth(item), IsLargeSize(item))
    }
  }
}
