/** The faceted filter of the card board: the distinct values a column
    offers, the values selected for it, and the two updates a facet makes to
    the map of per-column filters. */
module FacetedFilter {
  import opened Seqs
  import opened JsValues

  /** `columnFilters`: for each column key, the list of selected values. */
  type ColumnFilters = map<string, seq<Value>>

  /** `items.map(item => item[columnKey])` */
  function ColumnValues(items: seq<Record>, columnKey: string): seq<Value> {
    seq(|items|, i requires 0 <= i < |items| => Get(items[i], columnKey))
  }

  /** `items.map(item => item[columnKey]).filter(Boolean)` */
  function PresentValues(items: seq<Record>, columnKey: string): seq<Value> {
    Filter(ColumnValues(items, columnKey), v => Truthy(v))
  }

  /** The `uniqueValues` memo: `Array.from(new Set(...))` of the present values. */
  function UniqueValues(items: seq<Record>, columnKey: string): seq<Value> {
    Dedup(PresentValues(items, columnKey))
  }

  /** The offered values repeat nothing, are exactly the truthy values some
      item has in the column, and come in the order of their first
      occurrence among the items. */
  lemma UniqueValuesMeaning(items: seq<Record>, columnKey: string)
    ensures Distinct(UniqueValues(items, columnKey))
    ensures forall v :: v in UniqueValues(items, columnKey) <==>
      Truthy(v) && exists i :: 0 <= i < |items| && Get(items[i], columnKey) == v
    ensures FirstOccurrenceOrder(PresentValues(items, columnKey), UniqueValues(items, columnKey))
  {
    var vs := ColumnValues(items, columnKey);
    FilterMembers(vs, v => Truthy(v));
    DedupMembers(PresentValues(items, columnKey));
    DedupFirstOccurrence(PresentValues(items, columnKey));
    forall v ensures v in vs <==> exists i :: 0 <= i < |items| && Get(items[i], columnKey) == v {
      if v in vs {
        var i :| 0 <= i < |vs| && vs[i] == v;
      }
      if exists i :: 0 <= i < |items| && Get(items[i], columnKey) == v {
        var i :| 0 <= i < |items| && Get(items[i], columnKey) == v;
        assert vs[i] == v;
      }
    }
  }

  /** `columnFilters[columnKey] || []` */
  function Stored(filters: ColumnFilters, columnKey: string): seq<Value> {
    if columnKey in filters then filters[columnKey] else []
  }

  /** The `selectedValues` memo. */
  function SelectedValues(filters: ColumnFilters, columnKey: string): set<Value> {
    set v | v in Stored(filters, columnKey)
  }

  /** The number on the facet's badge. */
  function BadgeCount(filters: ColumnFilters, columnKey: string): nat {
    |SelectedValues(filters, columnKey)|
  }

  predicate ShowsBadge(filters: ColumnFilters, columnKey: string) {
    BadgeCount(filters, columnKey) > 0
  }

  /** The badge counts the distinct stored values, so a list without repeats
      is counted in full, and it shows exactly when the column has a
      non-empty list. */
  lemma BadgeMeaning(filters: ColumnFilters, columnKey: string)
    ensures BadgeCount(filters, columnKey) == |Dedup(Stored(filters, columnKey))|
    ensures Distinct(Stored(filters, columnKey)) ==> BadgeCount(filters, columnKey) == |Stored(filters, columnKey)|
    ensures ShowsBadge(filters, columnKey) <==> columnKey in filters && filters[columnKey] != []
  {
    var s := Stored(filters, columnKey);
    DedupMembers(s);
    DistinctCardinality(Dedup(s));
    assert (set v | v in Dedup(s)) == SelectedValues(filters, columnKey);
    if s != [] {
      assert s[0] in SelectedValues(filters, columnKey);
    }
    if Distinct(s) {
      DedupOfDistinct(s);
    }
  }

  /** The list `toggleFilter` stores for the column: the stored values
      without repeats, with `value` deleted if present and appended if not. */
  function Toggled(stored: seq<Value>, value: Value): seq<Value> {
    var current := Dedup(stored);
    if value in current then Filter(current, v => v != value) else current + [value]
  }

  /** The toggled list repeats nothing and holds `value` exactly when the
      stored list did not, and every other value exactly when the stored
      list did. A list without repeats keeps its order: `value` is removed
      from it in place, or appended to it. */
  lemma ToggledMeaning(stored: seq<Value>, value: Value)
    ensures Distinct(Toggled(stored, value))
    ensures forall v :: v in Toggled(stored, value) <==> if v == value then value !in stored else v in stored
    ensures Distinct(stored) && value in stored ==> IsSubsequence(Toggled(stored, value), stored)
    ensures Distinct(stored) && value !in stored ==> Toggled(stored, value) == stored + [value]
  {
    var current := Dedup(stored);
    DedupMembers(stored);
    if value in current {
      FilterMembers(current, v => v != value);
      SubsequenceDistinct(Filter(current, v => v != value), current);
    } else {
      DistinctAppend(current, [value]);
    }
    if Distinct(stored) {
      DedupOfDistinct(stored);
    }
  }

  /** Toggling a value twice restores the selected set, and restores the
      list itself when it had no repeats and lacked the value. */
  lemma ToggledTwice(stored: seq<Value>, value: Value)
    ensures forall v :: v in Toggled(Toggled(stored, value), value) <==> v in stored
    ensures Distinct(stored) && value !in stored ==> Toggled(Toggled(stored, value), value) == stored
  {
    assert forall v :: v in Toggled(Toggled(stored, value), value) <==> v in stored by {
      ToggledMeaning(stored, value);
      ToggledMeaning(Toggled(stored, value), value);
    }
    if Distinct(stored) && value !in stored {
      ToggledAbsentTwice(stored, value);
    }
  }

  /** Adding a missing value to a list without repeats and removing it again
      gives the list back. */
  lemma ToggledAbsentTwice(stored: seq<Value>, value: Value)
    requires Distinct(stored) && value !in stored
    ensures Toggled(Toggled(stored, value), value) == stored
  {
    var once := stored + [value];
    assert Toggled(stored, value) == once by {
      ToggledMeaning(stored, value);
    }
    assert Dedup(once) == once by {
      DistinctAppend(stored, [value]);
      DedupOfDistinct(once);
    }
    assert Filter(once, v => v != value) == stored by {
      FilterAppend(stored, [value], v => v != value);
      FilterKeepsAll(stored, v => v != value);
      assert Filter([value], v => v != value) == [];
    }
    assert value in once;
  }

  /** The updater `toggleFilter(value)` passes to `setColumnFilters`: copy
      the map, toggle the value in the column's set, store the set as a list. */
  method ToggleFilter(prev: ColumnFilters, columnKey: string, value: Value) returns (updatedFilters: ColumnFilters)
    ensures columnKey in updatedFilters && updatedFilters[columnKey] == Toggled(Stored(prev, columnKey), value)
    ensures Distinct(updatedFilters[columnKey])
    ensures forall v :: v in SelectedValues(updatedFilters, columnKey) <==>
      if v == value then v !in SelectedValues(prev, columnKey) else v in SelectedValues(prev, columnKey)
    ensures forall k :: k != columnKey ==> (k in updatedFilters <==> k in prev)
    ensures forall k :: k != columnKey && k in prev ==> updatedFilters[k] == prev[k]
  {
    updatedFilters := prev;
    var currentValues := Dedup(Stored(updatedFilters, columnKey));
    if value in currentValues {
      currentValues := Filter(currentValues, v => v != value);
    } else {
      currentValues := currentValues + [value];
    }
    updatedFilters := updatedFilters[columnKey := currentValues];
    ToggledMeaning(Stored(prev, columnKey), value);
  }

  /** The updater `clearFilters` passes to `setColumnFilters`: copy the map
      and delete the column's entry. Clearing a column that has no entry
      changes nothing, so clearing twice is clearing once. */
  method ClearFilters(prev: ColumnFilters, columnKey: string) returns (updatedFilters: ColumnFilters)
    ensures columnKey !in updatedFilters
    ensures SelectedValues(updatedFilters, columnKey) == {}
    ensures forall k :: k != columnKey ==> (k in updatedFilters <==> k in prev)
    ensures forall k :: k != columnKey && k in prev ==> updatedFilters[k] == prev[k]
    ensures columnKey !in prev ==> updatedFilters == prev
  {
    updatedFilters := prev;
    updatedFilters := updatedFilters - {columnKey};
  }
}
