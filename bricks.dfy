/** The pure logic of the DataBricks card board: the search test, the sorted
    view, the key formatter, the detail-field layout and the card-list updates
    the board's handlers apply. */
module Bricks {
  import opened Seqs
  import opened JsValues
  import opened Text
  import opened ItemOrder

  // ---------------------------------------------------------------- search

  /** `getFilterTest` short-circuits to "accept everything" for a missing
      filter and for a filter that trims to `*` or to nothing. */
  predicate AcceptsAll(filter: Option<string>) {
    filter.None? || filter.value == "" || Trim(filter.value) == "*" || Trim(filter.value) == ""
  }

  /** `String(v).toLowerCase().includes(needle)` */
  predicate TextMatches(v: Value, needle: string) {
    Contains(Lower(ToText(v)), needle)
  }

  /** `elems.some(e => TextMatches(e, needle))` */
  predicate SomeElementMatches(elems: seq<Value>, needle: string) {
    elems != [] && (TextMatches(elems[0], needle) || SomeElementMatches(elems[1..], needle))
  }

  /** The callback `Object.values(item).some` applies to each field value:
      an array matches through its elements, anything else through its text. */
  predicate ValueMatches(v: Value, needle: string) {
    if v.Arr? then SomeElementMatches(v.elems, needle) else TextMatches(v, needle)
  }

  /** `Object.values(item).some(v => ValueMatches(v, needle))` */
  predicate SomeFieldMatches(item: Record, needle: string) {
    item != [] && (ValueMatches(item[0].val, needle) || SomeFieldMatches(item[1..], needle))
  }

  /** `getFilterTest(filter)(item)`. The needle is the lower-cased filter,
      not trimmed. */
  predicate FilterTest(filter: Option<string>, item: Record) {
    AcceptsAll(filter) || SomeFieldMatches(item, Lower(filter.value))
  }

  /** The needle occurs somewhere in the lower-cased text of `v`. */
  ghost predicate TextHit(v: Value, needle: string) {
    exists k: nat :: OccursAt(Lower(ToText(v)), needle, k)
  }

  /** The needle occurs in the text of `v`, or of one of its elements if it is an array. */
  ghost predicate FieldHit(v: Value, needle: string) {
    if v.Arr? then exists j :: 0 <= j < |v.elems| && TextHit(v.elems[j], needle)
    else TextHit(v, needle)
  }

  lemma TextMatchesMeaning(v: Value, needle: string)
    ensures TextMatches(v, needle) <==> TextHit(v, needle)
  {
    ContainsIffOccurs(Lower(ToText(v)), needle);
  }

  lemma {:induction false} SomeElementMatchesMeaning(elems: seq<Value>, needle: string)
    ensures SomeElementMatches(elems, needle) <==>
      exists j :: 0 <= j < |elems| && TextHit(elems[j], needle)
  {
    if elems != [] {
      TextMatchesMeaning(elems[0], needle);
      SomeElementMatchesMeaning(elems[1..], needle);
      assert forall j :: 1 <= j < |elems| ==> elems[1..][j - 1] == elems[j];
    }
  }

  lemma ValueMatchesMeaning(v: Value, needle: string)
    ensures ValueMatches(v, needle) <==> FieldHit(v, needle)
  {
    if v.Arr? {
      SomeElementMatchesMeaning(v.elems, needle);
    } else {
      TextMatchesMeaning(v, needle);
    }
  }

  lemma {:induction false} SomeFieldMatchesMeaning(item: Record, needle: string)
    ensures SomeFieldMatches(item, needle) <==>
      exists i :: 0 <= i < |item| && FieldHit(item[i].val, needle)
  {
    if item != [] {
      ValueMatchesMeaning(item[0].val, needle);
      SomeFieldMatchesMeaning(item[1..], needle);
      assert forall i :: 1 <= i < |item| ==> item[1..][i - 1] == item[i];
    }
  }

  /** The shortcut accepts exactly the missing filter, the all-blank filter
      and a single `*` padded with white space. */
  lemma AcceptsAllMeaning(filter: Option<string>)
    ensures AcceptsAll(filter) <==>
      filter.None? || IsBlank(filter.value) || IsPaddedStar(filter.value)
  {
    if filter.Some? {
      TrimEmptyIffBlank(filter.value);
      TrimStarIffPaddedStar(filter.value);
    }
  }

  /** The test passes exactly when the filter accepts everything, or when the
      lower-cased filter occurs in the text of some field of the item (for an
      array field, in the text of one of its elements). */
  lemma FilterTestMeaning(filter: Option<string>, item: Record)
    ensures FilterTest(filter, item) <==>
      AcceptsAll(filter) || exists i :: 0 <= i < |item| && FieldHit(item[i].val, Lower(filter.value))
  {
    if !AcceptsAll(filter) {
      SomeFieldMatchesMeaning(item, Lower(filter.value));
    }
  }

  /** The search ignores case: two filters that lower-case alike pass the same items. */
  lemma FilterIgnoresCase(f: string, g: string, item: Record)
    requires Lower(f) == Lower(g)
    ensures FilterTest(Some(f), item) == FilterTest(Some(g), item)
  {
    AcceptsAllMeaning(Some(f));
    AcceptsAllMeaning(Some(g));
    SameLowerSameShape(f, g);
  }

  /** `items.filter(filterTest)` */
  function Matching(filter: Option<string>, items: seq<Record>): seq<Record> {
    Filter(items, item => FilterTest(filter, item))
  }

  /** The matching items keep their order, and each item occurs as often as in
      `items` when it passes the test and not at all otherwise. */
  lemma MatchingMeaning(filter: Option<string>, items: seq<Record>)
    ensures IsSubsequence(Matching(filter, items), items)
    ensures forall x ::
      multiset(Matching(filter, items))[x] == if FilterTest(filter, x) then multiset(items)[x] else 0
  {
    FilterMeaning(items, item => FilterTest(filter, item));
  }

  // ------------------------------------------------------------- the view

  /** The list the board's effect stores: the matching items, sorted by the
      sort history in ascending order. */
  function View(items: seq<Record>, filter: Option<string>, sortHistory: seq<string>): seq<Record> {
    SortItems(sortHistory, true, Matching(filter, items))
  }

  /** The view holds exactly the matching items, sorted, and items the sort
      cannot tell apart keep their order in `items`. */
  lemma ViewMeaning(items: seq<Record>, filter: Option<string>, sortHistory: seq<string>, y: Record)
    ensures forall x ::
      multiset(View(items, filter, sortHistory))[x] == if FilterTest(filter, x) then multiset(items)[x] else 0
    ensures SortedBy(sortHistory, true, View(items, filter, sortHistory))
    ensures Ties(sortHistory, true, y, View(items, filter, sortHistory)) ==
      Ties(sortHistory, true, y, Matching(filter, items))
  {
    MatchingMeaning(filter, items);
    SortItemsPermutes(sortHistory, true, Matching(filter, items));
    SortItemsSorted(sortHistory, true, Matching(filter, items));
    SortItemsStable(sortHistory, true, y, Matching(filter, items));
  }

  /** With the default sort key `original-order`, which the records do not
      set, the view is the matching items in their given order. */
  lemma DefaultViewKeepsOrder(items: seq<Record>, filter: Option<string>)
    requires forall i :: 0 <= i < |items| ==> !Truthy(Get(items[i], "original-order"))
    ensures View(items, filter, ["original-order"]) == Matching(filter, items)
  {
    var m := Matching(filter, items);
    MatchingMeaning(filter, items);
    SubsequenceMembers(m, items);
    forall i, k | 0 <= i < |m| && k in ["original-order"]
      ensures !Truthy(Get(m[i], k))
    {
      assert m[i] in items;
    }
    SortByFalsyKeysKeepsOrder(["original-order"], true, m);
  }

  // ------------------------------------------------------- key formatting

  /** `formatKey`: underscores become spaces, then every word's first
      character is upper-cased. */
  function FormatKey(key: string): string {
    CapitalizeWords(UnderscoresToSpaces(key), false)
  }

  /** Position `i` of `key` starts a word once underscores are spaces. */
  predicate TitleStart(key: string, i: int)
    requires 0 <= i < |key|
  {
    IsWordChar(key[i]) && key[i] != '_' &&
    (i == 0 || !IsWordChar(key[i - 1]) || key[i - 1] == '_')
  }

  /** Every underscore becomes a space, every word start is upper-cased, and
      every other character is kept. */
  lemma FormatKeyAt(key: string, i: int)
    requires 0 <= i < |key|
    ensures |FormatKey(key)| == |key|
    ensures FormatKey(key)[i] ==
      if key[i] == '_' then ' ' else if TitleStart(key, i) then UpperChar(key[i]) else key[i]
  {
    var t := UnderscoresToSpaces(key);
    CapitalizeWordsAt(t, false, i);
  }

  /** A formatted key has no underscore. */
  lemma FormatKeyHasNoUnderscore(key: string)
    ensures forall i :: 0 <= i < |FormatKey(key)| ==> FormatKey(key)[i] != '_'
  {
    forall i | 0 <= i < |FormatKey(key)| ensures FormatKey(key)[i] != '_' {
      FormatKeyAt(key, i);
    }
  }

  /** Formatting a formatted key changes nothing. */
  lemma FormatKeyIdempotent(key: string)
    ensures FormatKey(FormatKey(key)) == FormatKey(key)
  {
    var r := FormatKey(key);
    FormatKeyHasNoUnderscore(key);
    forall j | 0 <= j < |key|
      ensures IsWordChar(r[j]) == (IsWordChar(key[j]) && key[j] != '_')
    {
      FormatKeyAt(key, j);
    }
    forall i | 0 <= i < |r| ensures FormatKey(r)[i] == r[i] {
      FormatKeyAt(r, i);
      FormatKeyAt(key, i);
    }
  }

  // ------------------------------------------------------ field ordering

  /** `[key, item[key]]` for each key in `keys`. */
  function EntriesFor(item: Record, keys: seq<string>): (entries: seq<Field>)
    ensures Keys(entries) == keys
    ensures forall i :: 0 <= i < |entries| ==> entries[i].val == Get(item, keys[i])
  {
    var entries := seq(|keys|, i requires 0 <= i < |keys| => Field(keys[i], Get(item, keys[i])));
    assert Keys(entries) == keys;
    entries
  }

  /** `orderedKeys.filter(key => key in item)` */
  function KnownKeys(item: Record, orderedKeys: seq<string>): seq<string> {
    Filter(orderedKeys, k => HasKey(item, k))
  }

  /** `Object.keys(item).filter(key => !keysSet.has(key))` */
  function UnknownKeys(item: Record, orderedKeys: seq<string>): seq<string> {
    Filter(Keys(item), k => k !in orderedKeys)
  }

  /** The two key lists keep, in order, the ordered keys the item has and
      the item keys the order does not name. */
  lemma SplitKeysMeaning(item: Record, orderedKeys: seq<string>)
    ensures IsSubsequence(KnownKeys(item, orderedKeys), orderedKeys)
    ensures forall k :: k in KnownKeys(item, orderedKeys) <==> k in orderedKeys && HasKey(item, k)
    ensures IsSubsequence(UnknownKeys(item, orderedKeys), Keys(item))
    ensures forall k :: k in UnknownKeys(item, orderedKeys) <==> k in Keys(item) && k !in orderedKeys
  {
    FilterMembers(orderedKeys, k => HasKey(item, k));
    FilterMembers(Keys(item), k => k !in orderedKeys);
  }

  /** `reorderKeys(item, schema)`, with `schema.order` passed as `order`. */
  function ReorderKeys(item: Record, order: Option<seq<string>>): seq<Field> {
    match order
    case None => item
    case Some(orderedKeys) =>
      EntriesFor(item, KnownKeys(item, orderedKeys) + UnknownKeys(item, orderedKeys))
  }

  /** Without an order the entries are the item's own. */
  lemma ReorderKeysWithoutOrder(item: Record)
    ensures ReorderKeys(item, None) == item
    ensures WellFormed(item) ==>
      forall i :: 0 <= i < |item| ==> ReorderKeys(item, None)[i].val == Get(item, item[i].key)
  {
    if WellFormed(item) {
      forall i | 0 <= i < |item| ensures item[i].val == Get(item, item[i].key) {
        GetFindsField(item, i);
      }
    }
  }

  /** With an order, every entry carries the item's value for its key, and
      the keys are exactly the item's. */
  lemma ReorderKeysSameFields(item: Record, orderedKeys: seq<string>)
    ensures var r := ReorderKeys(item, Some(orderedKeys));
      (forall i :: 0 <= i < |r| ==> r[i].val == Get(item, r[i].key)) &&
      (forall k :: k in Keys(r) <==> HasKey(item, k))
  {
    SplitKeysMeaning(item, orderedKeys);
  }

  /** With an order, the keys the order names come first, in the order's
      sequence, and the item's other keys follow in the item's sequence. */
  lemma ReorderKeysOrder(item: Record, orderedKeys: seq<string>)
    ensures var r := ReorderKeys(item, Some(orderedKeys));
      exists n :: 0 <= n <= |r| &&
        IsSubsequence(Keys(r)[..n], orderedKeys) &&
        IsSubsequence(Keys(r)[n..], Keys(item)) &&
        forall i :: n <= i < |r| ==> r[i].key !in orderedKeys
  {
    var known, unknown := KnownKeys(item, orderedKeys), UnknownKeys(item, orderedKeys);
    var r := ReorderKeys(item, Some(orderedKeys));
    assert Keys(r) == known + unknown;
    SplitKeysMeaning(item, orderedKeys);
    SplitOrder(r, known, unknown, orderedKeys, Keys(item));
    var n := |known|;
    assert 0 <= n <= |r|;
  }

  /** Entries whose keys are a subsequence of the order followed by a
      subsequence of the item's keys that the order does not name. */
  lemma SplitOrder(r: seq<Field>, known: seq<string>, unknown: seq<string>, orderedKeys: seq<string>, itemKeys: seq<string>)
    requires Keys(r) == known + unknown
    requires IsSubsequence(known, orderedKeys) && IsSubsequence(unknown, itemKeys)
    requires forall k :: k in unknown ==> k !in orderedKeys
    ensures |known| <= |r|
    ensures IsSubsequence(Keys(r)[..|known|], orderedKeys)
    ensures IsSubsequence(Keys(r)[|known|..], itemKeys)
    ensures forall i :: |known| <= i < |r| ==> r[i].key !in orderedKeys
  {
    var n := |known|;
    var keys := Keys(r);
    SplitAt(keys, known, unknown);
    TailKeysUnordered(r, n, unknown, orderedKeys);
  }

  lemma TailKeysUnordered(r: seq<Field>, n: nat, unknown: seq<string>, orderedKeys: seq<string>)
    requires n <= |r| && Keys(r)[n..] == unknown
    requires forall k :: k in unknown ==> k !in orderedKeys
    ensures forall i :: n <= i < |r| ==> r[i].key !in orderedKeys
  {
    var keys := Keys(r);
    forall i | n <= i < |r| ensures r[i].key !in orderedKeys {
      assert keys[i] == r[i].key;
      assert unknown[i - n] == keys[i];
      assert unknown[i - n] in unknown;
    }
  }

  /** With an order that names no key twice, the entries name no key twice. */
  lemma ReorderKeysDistinct(item: Record, orderedKeys: seq<string>)
    requires Distinct(orderedKeys) && WellFormed(item)
    ensures WellFormed(ReorderKeys(item, Some(orderedKeys)))
  {
    var known, unknown := KnownKeys(item, orderedKeys), UnknownKeys(item, orderedKeys);
    SplitKeysMeaning(item, orderedKeys);
    SubsequenceDistinct(known, orderedKeys);
    SubsequenceDistinct(unknown, Keys(item));
    DistinctAppend(known, unknown);
  }

  // --------------------------------------------------------- detail fields

  /** The keys the card shows elsewhere, or not at all. */
  const HeaderKeys: seq<string> := ["id", "title", "description", "category", "isHidden", "tags"]

  /** The key/value pairs a card lists: the reordered entries minus `HeaderKeys`. */
  function DetailFields(item: Record, order: Option<seq<string>>): seq<Field> {
    Filter(ReorderKeys(item, order), (f: Field) => f.key !in HeaderKeys)
  }

  /** `keyValuePairs.slice(0, 5)` */
  function FirstColumn(pairs: seq<Field>): seq<Field> {
    Slice(pairs, 0, 5)
  }

  /** `keyValuePairs.slice(5, isLargeSize ? 20 : isFullWidth ? keyValuePairs.length : 0)` */
  function SecondColumn(pairs: seq<Field>, isFullWidth: bool, isLargeSize: bool): seq<Field> {
    Slice(pairs, 5, if isLargeSize then 20 else if isFullWidth then |pairs| else 0)
  }

  /** No detail pair, nor any pair of a prefix of them, is a header key. */
  lemma DetailFieldsSkipHeader(item: Record, order: Option<seq<string>>)
    ensures forall n, i :: 0 <= i < n <= |DetailFields(item, order)| ==>
      DetailFields(item, order)[..n][i].key !in HeaderKeys
  {
    var pairs := DetailFields(item, order);
    FilterMembers(ReorderKeys(item, order), (f: Field) => f.key !in HeaderKeys);
    forall n, i | 0 <= i < n <= |pairs| ensures pairs[..n][i].key !in HeaderKeys {
      assert pairs[..n][i] == pairs[i] && pairs[i] in pairs;
    }
  }

  /** The pairs the card renders: the first column, then the second one when
      it is non-empty and the card is large or full width. */
  function ShownFields(pairs: seq<Field>, isFullWidth: bool, isLargeSize: bool): seq<Field> {
    var second := SecondColumn(pairs, isFullWidth, isLargeSize);
    FirstColumn(pairs) + if |second| > 0 && (isLargeSize || isFullWidth) then second else []
  }

  /** A card lists a prefix of its pairs: the first 20 when large, all of them
      when full width, the first 5 otherwise. */
  lemma ShownFieldsMeaning(pairs: seq<Field>, isFullWidth: bool, isLargeSize: bool)
    ensures ShownFields(pairs, isFullWidth, isLargeSize) ==
      pairs[..Min(|pairs|, if isLargeSize then 20 else if isFullWidth then |pairs| else 5)]
  {
    var n := Min(|pairs|, if isLargeSize then 20 else if isFullWidth then |pairs| else 5);
    var first := FirstColumn(pairs);
    var second := SecondColumn(pairs, isFullWidth, isLargeSize);
    assert first == pairs[..Min(|pairs|, 5)];
    if |pairs| > 5 && (isLargeSize || isFullWidth) {
      assert second == pairs[5..n];
      assert pairs[..n] == pairs[..5] + pairs[5..n];
    }
  }

  // ------------------------------------------------------------ card lists

  /** `item.id` */
  function CardId(item: Record): Value {
    Get(item, "id")
  }

  /** The id of every card, in order. */
  function CardIds(items: seq<Record>): (ids: seq<Value>)
    ensures |ids| == |items| && forall j :: 0 <= j < |items| ==> ids[j] == CardId(items[j])
  {
    seq(|items|, j requires 0 <= j < |items| => CardId(items[j]))
  }

  /** `items.findIndex(item => item.id === id)` */
  function CardIndex(items: seq<Record>, id: Value): (i: int)
    ensures -1 <= i < |items|
    ensures i == -1 <==> forall j :: 0 <= j < |items| ==> CardId(items[j]) != id
    ensures i >= 0 ==> CardId(items[i]) == id && forall j :: 0 <= j < i ==> CardId(items[j]) != id
  {
    var ids := CardIds(items);
    var i := IndexOf(ids, id);
    assert i >= 0 ==> forall j :: 0 <= j < i ==> ids[j] == ids[..i][j];
    i
  }

  /** The vertical layout's click: the first card with the id is taken out
      and put last; an unknown id leaves the list as it is. */
  function MoveToEnd(items: seq<Record>, id: Value): seq<Record> {
    var i := CardIndex(items, id);
    if i == -1 then items else items[..i] + items[i + 1..] + [items[i]]
  }

  /** `items.filter(item => item.id !== id)` */
  function WithoutCard(items: seq<Record>, id: Value): seq<Record> {
    Filter(items, item => CardId(item) != id)
  }

  /** Deleting keeps the other cards in order, each as often as before, and
      drops every card with the id. */
  lemma WithoutCardMeaning(items: seq<Record>, id: Value)
    ensures IsSubsequence(WithoutCard(items, id), items)
    ensures forall x ::
      multiset(WithoutCard(items, id))[x] == if CardId(x) == id then 0 else multiset(items)[x]
  {
    FilterMeaning(items, item => CardId(item) != id);
  }

  /** Moving a card to the end keeps the same cards; an unknown id changes
      nothing, and a known one ends up last. */
  lemma MoveToEndPermutes(items: seq<Record>, id: Value)
    ensures |MoveToEnd(items, id)| == |items|
    ensures multiset(MoveToEnd(items, id)) == multiset(items)
    ensures (forall j :: 0 <= j < |items| ==> CardId(items[j]) != id) ==> MoveToEnd(items, id) == items
    ensures (exists j :: 0 <= j < |items| && CardId(items[j]) == id) ==>
      CardId(MoveToEnd(items, id)[|items| - 1]) == id
  {
    var i := CardIndex(items, id);
    if i != -1 {
      RotateToEnd(items, i);
    }
  }

  /** Moving a card to the end leaves the other cards in their order. */
  lemma MoveToEndKeepsOthers(items: seq<Record>, id: Value)
    ensures WithoutCard(MoveToEnd(items, id), id) == WithoutCard(items, id)
  {
    var i := CardIndex(items, id);
    if i != -1 {
      FilterRotate(items, i, item => CardId(item) != id);
    }
  }

  /** `items.map(i => i.id === id ? { ...i, isHidden: !i.isHidden } : i)` */
  function ToggleHidden(items: seq<Record>, id: Value): (r: seq<Record>)
    ensures |r| == |items|
    ensures forall i :: 0 <= i < |items| && CardId(items[i]) != id ==> r[i] == items[i]
    ensures forall i :: 0 <= i < |items| && CardId(items[i]) == id ==>
      Get(r[i], "isHidden") == Bool(!Truthy(Get(items[i], "isHidden"))) &&
      forall k :: k != "isHidden" ==> Get(r[i], k) == Get(items[i], k)
  {
    seq(|items|, i requires 0 <= i < |items| =>
      if CardId(items[i]) == id then Put(items[i], "isHidden", Bool(!Truthy(Get(items[i], "isHidden"))))
      else items[i])
  }

  /** Toggling a card twice shows or hides it as before and restores every
      other field. */
  lemma ToggleHiddenTwice(items: seq<Record>, id: Value)
    ensures var r := ToggleHidden(ToggleHidden(items, id), id);
      |r| == |items| &&
      forall i :: 0 <= i < |items| ==>
        Truthy(Get(r[i], "isHidden")) == Truthy(Get(items[i], "isHidden")) &&
        forall k :: k != "isHidden" ==> Get(r[i], k) == Get(items[i], k)
  {
    var once := ToggleHidden(items, id);
    forall i | 0 <= i < |items| ensures CardId(once[i]) == CardId(items[i]) {
      assert "id" != "isHidden";
    }
  }
}
