/** The DataGrid table: header formatting, the columns a schema yields, the
    initial sorting, row identities, cell updates, and the edit and delete
    state of the component. */
module Grid {
  import opened Seqs
  import opened JsValues
  import opened Text
  import opened Bricks

  // -------------------------------------------------------------- headers

  /** `formatHeader`: a two-character key is upper-cased whole; any other
      key is formatted like a card key. */
  function FormatHeader(key: string): string {
    if |key| == 2 then Upper(key) else FormatKey(key)
  }

  /** A header has the key's length. A two-character key is upper-cased in
      both characters; any other key has its underscores turned into spaces,
      its word starts upper-cased, its other characters kept, and no
      underscore left. */
  lemma FormatHeaderMeaning(key: string)
    ensures |FormatHeader(key)| == |key|
    ensures |key| == 2 ==> FormatHeader(key) == [UpperChar(key[0]), UpperChar(key[1])]
    ensures |key| != 2 ==> forall i :: 0 <= i < |key| ==>
      FormatHeader(key)[i] != '_' &&
      FormatHeader(key)[i] == if key[i] == '_' then ' ' else if TitleStart(key, i) then UpperChar(key[i]) else key[i]
  {
    if |key| != 2 {
      FormatKeyHasNoUnderscore(key);
      forall i | 0 <= i < |key|
        ensures FormatHeader(key)[i] == if key[i] == '_' then ' ' else if TitleStart(key, i) then UpperChar(key[i]) else key[i]
      {
        FormatKeyAt(key, i);
      }
      if key != [] {
        FormatKeyAt(key, 0);
      }
    }
  }

  // ------------------------------------------------------- schema defaults

  /** One `defaultSorting` entry of a schema. */
  datatype SortDefault = SortDefault(key: string, desc: Value)

  /** One entry of the table's `sorting` state. */
  datatype SortEntry = SortEntry(id: string, desc: Value)

  /** The parts of a grid schema the logic reads; `None` is an absent property. */
  datatype GridSchema = GridSchema(
    order: Option<seq<string>>,
    sortableColumns: Option<seq<string>>,
    editableColumns: Option<seq<string>>,
    defaultSorting: Option<seq<SortDefault>>)

  /** The initial `sorting` state: `(schema?.defaultSorting || []).map(...)`. */
  function InitialSorting(schema: Option<GridSchema>): (sorting: seq<SortEntry>)
    ensures schema.None? || schema.value.defaultSorting.None? ==> sorting == []
    ensures schema.Some? && schema.value.defaultSorting.Some? ==>
      var defaults := schema.value.defaultSorting.value;
      |sorting| == |defaults| &&
      forall i :: 0 <= i < |defaults| ==>
        sorting[i].id == defaults[i].key &&
        (Truthy(defaults[i].desc) ==> sorting[i].desc == defaults[i].desc) &&
        (!Truthy(defaults[i].desc) ==> sorting[i].desc == Bool(false))
  {
    var defaults := if schema.Some? && schema.value.defaultSorting.Some? then schema.value.defaultSorting.value else [];
    seq(|defaults|, i requires 0 <= i < |defaults| => SortEntry(defaults[i].key, Or(defaults[i].desc, Bool(false))))
  }

  /** `schema?.order || Object.keys(data[0] || {})` */
  function DisplayColumns(schema: Option<GridSchema>, data: seq<Record>): seq<string> {
    if schema.Some? && schema.value.order.Some? then schema.value.order.value
    else if data == [] then []
    else Keys(data[0])
  }

  /** `schema?.sortableColumns || ['title', 'description', 'category']` */
  function SortableColumns(schema: Option<GridSchema>): seq<string> {
    if schema.Some? && schema.value.sortableColumns.Some? then schema.value.sortableColumns.value
    else ["title", "description", "category"]
  }

  /** `schema?.editableColumns || schemaColumns.filter(col => col !== 'id')` */
  function EditableColumns(schema: Option<GridSchema>, data: seq<Record>): seq<string> {
    if schema.Some? && schema.value.editableColumns.Some? then schema.value.editableColumns.value
    else Filter(DisplayColumns(schema, data), col => col != "id")
  }

  /** Without a schema list, the editable columns are the displayed ones
      except `id`, in display order. */
  lemma EditableColumnsDefault(schema: Option<GridSchema>, data: seq<Record>)
    requires schema.None? || schema.value.editableColumns.None?
    ensures forall c :: c in EditableColumns(schema, data) <==> c in DisplayColumns(schema, data) && c != "id"
    ensures IsSubsequence(EditableColumns(schema, data), DisplayColumns(schema, data))
  {
    FilterMembers(DisplayColumns(schema, data), col => col != "id");
  }

  /** Without a schema, the columns are the first record's keys in order,
      none when there is no record, and only `title`, `description` and
      `category` sort. */
  lemma ColumnsWithoutSchema(data: seq<Record>)
    ensures DisplayColumns(None, data) == if data == [] then [] else Keys(data[0])
    ensures forall c :: c in SortableColumns(None) <==> c == "title" || c == "description" || c == "category"
    ensures "id" !in EditableColumns(None, data)
  {
    EditableColumnsDefault(None, data);
  }

  // ------------------------------------------------------------- row ids

  /** `getRowId`: `row?.id || row?.key || `row-${index}``. */
  function RowId(row: Record, index: nat): (id: Value)
    ensures Truthy(id)
    ensures Truthy(Get(row, "id")) ==> id == Get(row, "id")
    ensures !Truthy(Get(row, "id")) && Truthy(Get(row, "key")) ==> id == Get(row, "key")
    ensures !Truthy(Get(row, "id")) && !Truthy(Get(row, "key")) ==> id == Str("row-" + NatToText(index))
  {
    Or(Get(row, "id"), Or(Get(row, "key"), Str("row-" + NatToText(index))))
  }

  /** Rows with neither a truthy `id` nor a truthy `key` get different ids
      at different positions. */
  lemma RowIdsOfAnonymousRows(a: Record, i: nat, b: Record, j: nat)
    requires !Truthy(Get(a, "id")) && !Truthy(Get(a, "key"))
    requires !Truthy(Get(b, "id")) && !Truthy(Get(b, "key"))
    requires i != j
    ensures RowId(a, i) != RowId(b, j)
  {
    if RowId(a, i) == RowId(b, j) {
      var sa, sb := "row-" + NatToText(i), "row-" + NatToText(j);
      assert sa[4..] == NatToText(i) && sb[4..] == NatToText(j);
      NatToTextInjective(i, j);
    }
  }

  /** The generated id is not reserved: a row whose own `id` is `"row-1"`
      shares its id with an anonymous row at position 1. */
  lemma RowIdsCanCollide()
    ensures RowId([Field("id", Str("row-1"))], 0) == RowId([], 1)
  {
    assert NatToText(1) == "1";
  }

  // ---------------------------------------------------------- cell edits

  /** `updateCellValue`'s update:
      `rows.map(row => row.id === rowId ? { ...row, [columnId]: value } : row)`. */
  function UpdateCell(rows: seq<Record>, rowId: Value, columnId: string, value: Value): (r: seq<Record>)
    ensures |r| == |rows|
    ensures forall i :: 0 <= i < |rows| && Get(rows[i], "id") != rowId ==> r[i] == rows[i]
    ensures forall i :: 0 <= i < |rows| && Get(rows[i], "id") == rowId ==>
      Get(r[i], columnId) == value &&
      (forall k :: k != columnId ==> Get(r[i], k) == Get(rows[i], k)) &&
      Keys(r[i]) == if HasKey(rows[i], columnId) then Keys(rows[i]) else Keys(rows[i]) + [columnId]
  {
    seq(|rows|, i requires 0 <= i < |rows| =>
      if Get(rows[i], "id") == rowId then Put(rows[i], columnId, value) else rows[i])
  }

  /** Editing a cell of the same rows twice keeps the last value only, unless
      the edit rewrites the `id` the rows are found by. */
  lemma UpdateCellLastWins(rows: seq<Record>, rowId: Value, columnId: string, v1: Value, v2: Value)
    requires columnId != "id"
    ensures UpdateCell(UpdateCell(rows, rowId, columnId, v1), rowId, columnId, v2) ==
      UpdateCell(rows, rowId, columnId, v2)
  {
    var once := UpdateCell(rows, rowId, columnId, v1);
    forall i | 0 <= i < |rows|
      ensures UpdateCell(once, rowId, columnId, v2)[i] == UpdateCell(rows, rowId, columnId, v2)[i]
    {
      if Get(rows[i], "id") == rowId {
        PutPut(rows[i], columnId, v1, v2);
      }
    }
  }

  // ------------------------------------------------------------ the table

  /** The DataGrid component's state. `data` and `schema` are its props;
      the other fields are its state hooks. */
  class DataGrid {
    var data: seq<Record>
    const schema: Option<GridSchema>
    var isEditing: bool
    var editingRow: Value
    var editingData: seq<Record>
    /** The row the delete dialog asks about; `None` is `null`. */
    var rowToDelete: Option<Record>
    var alertDialogOpen: bool
    const sorting: seq<SortEntry>

    /** Outside edit mode the edit buffer follows `data`, which the effect
        on `[data, isEditing]` guarantees, and no row is being edited. */
    predicate Valid()
      reads this
    {
      !isEditing ==> editingData == data && editingRow == Null
    }

    constructor (data: seq<Record>, schema: Option<GridSchema>)
      ensures Valid()
      ensures this.data == data && this.schema == schema
      ensures !isEditing && rowToDelete.None? && !alertDialogOpen
      ensures sorting == InitialSorting(schema)
    {
      this.data := data;
      this.schema := schema;
      isEditing := false;
      editingRow := Null;
      editingData := data;
      rowToDelete := None;
      alertDialogOpen := false;
      sorting := InitialSorting(schema);
    }

    /** The rows the table shows: `isEditing ? editingData : data`, which
        is always the edit buffer. */
    function TableData(): (rows: seq<Record>)
      reads this
      ensures Valid() ==> rows == editingData
      ensures !isEditing ==> rows == data
    {
      if isEditing then editingData else data
    }

    /** A cell shows an editor when the table is in edit mode, its row is
        the edited one and its column is editable; without a schema list of
        editable columns, the `id` column never shows one. */
    function IsCellEditable(row: Record, key: string): (editable: bool)
      reads this
      ensures editable ==> isEditing && Get(row, "id") == editingRow
      ensures editable ==> key in EditableColumns(schema, data)
      ensures (schema.None? || schema.value.editableColumns.None?) && key == "id" ==> !editable
    {
      FilterMembers(DisplayColumns(schema, data), col => col != "id");
      isEditing && Get(row, "id") == editingRow && key in EditableColumns(schema, data)
    }

    /** A new `data` prop: the effect copies it into the edit buffer unless
        a row is being edited. */
    method SetData(newData: seq<Record>)
      requires Valid()
      modifies this`data, this`editingData
      ensures Valid()
      ensures data == newData
      ensures old(isEditing) ==> editingData == old(editingData)
    {
      data := newData;
      if !isEditing {
        editingData := data;
      }
    }

    /** "Edit" in a row's menu. The buffer keeps any edits already made. */
    method EditClick(row: Record)
      requires Valid()
      modifies this`isEditing, this`editingRow
      ensures Valid()
      ensures isEditing && editingRow == Get(row, "id")
      ensures forall k :: IsCellEditable(row, k) <==> k in EditableColumns(schema, data)
    {
      isEditing := true;
      editingRow := Get(row, "id");
    }

    /** "Cancel": leaves edit mode and drops the edits. */
    method CancelClick()
      requires Valid()
      modifies this`isEditing, this`editingRow, this`editingData
      ensures Valid()
      ensures !isEditing && editingRow == Null && editingData == data
      ensures forall r, k :: !IsCellEditable(r, k)
    {
      isEditing := false;
      editingRow := Null;
      editingData := data;
    }

    /** "Save": logs the edit buffer and leaves edit mode; the effect then
        copies `data` back into the buffer, so the table shows `data` again
        and the edits survive only in what was logged. */
    method SaveClick() returns (logged: seq<Record>)
      requires Valid()
      modifies this`isEditing, this`editingRow, this`editingData
      ensures Valid()
      ensures logged == old(editingData)
      ensures !isEditing && editingRow == Null
      ensures TableData() == data
      ensures forall r, k :: !IsCellEditable(r, k)
    {
      logged := editingData;
      isEditing := false;
      editingRow := Null;
      editingData := data;
    }

    /** An editor's change: sets the column on the edited rows of the buffer. */
    method UpdateCellValue(rowId: Value, columnId: string, value: Value)
      requires Valid() && isEditing
      modifies this`editingData
      ensures Valid()
      ensures editingData == UpdateCell(old(editingData), rowId, columnId, value)
      ensures data == old(data)
    {
      editingData := UpdateCell(editingData, rowId, columnId, value);
    }

    /** "Delete" in a row's menu: remembers the row and opens the dialog. */
    method RequestDelete(row: Record)
      requires Valid()
      modifies this`rowToDelete, this`alertDialogOpen
      ensures Valid()
      ensures rowToDelete == Some(row) && alertDialogOpen
    {
      rowToDelete := Some(row);
      alertDialogOpen := true;
    }

    /** The dialog's "Delete": closes the dialog, computes the rows without
        the remembered row's id, and forgets the row. The computed rows are
        only logged: neither `data` nor the buffer changes. With no row
        remembered, reading its `id` throws and the row stays `null`. */
    method HandleDelete() returns (updatedData: Option<seq<Record>>)
      requires Valid()
      modifies this`alertDialogOpen, this`rowToDelete
      ensures Valid()
      ensures !alertDialogOpen && rowToDelete.None?
      ensures old(rowToDelete).None? ==> updatedData.None?
      ensures old(rowToDelete).Some? ==>
        var id := Get(old(rowToDelete).value, "id");
        && updatedData == Some(WithoutCard(data, id))
        && IsSubsequence(updatedData.value, data)
        && (forall i :: 0 <= i < |updatedData.value| ==> Get(updatedData.value[i], "id") != id)
        && (forall x :: multiset(updatedData.value)[x] == if Get(x, "id") == id then 0 else multiset(data)[x])
      ensures data == old(data) && editingData == old(editingData)
    {
      alertDialogOpen := false;
      if rowToDelete.None? {
        updatedData := None;
      } else {
        var id := Get(rowToDelete.value, "id");
        var kept := WithoutCard(data, id);
        WithoutCardMeaning(data, id);
        forall i | 0 <= i < |kept| ensures Get(kept[i], "id") != id {
          assert multiset(kept)[kept[i]] > 0;
        }
        updatedData := Some(kept);
        rowToDelete := None;
      }
    }
  }
}
