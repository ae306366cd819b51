/** Turning one line item of a receipt into the record shown as a table row
    (streamlit_ui/main.py, lines 38-49). */
module LineItems {
  import opened Options
  import opened AssocList
  import opened Rossum

  /** The four columns of the item table. */
  datatype Column = Item | Price | Quantity | Total {
    /** The dictionary key the column is stored under. */
    function Name(): string {
      match this
      case Item => "Item"
      case Price => "Price (Kč)"
      case Quantity => "Quantity"
      case Total => "Total (Kč)"
    }
  }

  /** Different columns are stored under different keys, so keying a record
      by `Column` rather than by its key string loses nothing. */
  lemma NameInjective(a: Column, b: Column)
    requires a != b
    ensures a.Name() != b.Name()
  {
  }

  /** An item record: an insertion-ordered dictionary from column to text. */
  type Record = seq<(Column, string)>

  /** The column a field with this schema id fills, if it is one of the four
      recognised fields. */
  function ColumnOf(schemaId: Option<string>): Option<Column> {
    if schemaId == Some(ItemDescription) then Some(Item)
    else if schemaId == Some(ItemAmount) then Some(Price)
    else if schemaId == Some(ItemQuantity) then Some(Quantity)
    else if schemaId == Some(ItemAmountTotal) then Some(Total)
    else None
  }

  /** A field without a value contributes the empty string. */
  function FieldValue(field: Node): string {
    field.value.GetOr("")
  }

  /** The record built from the fields of one line item, one field after the
      other, each recognised field assigning its column. */
  function RecordOf(fields: seq<Node>): (r: Record)
    ensures Distinct(Keys(r))
    decreases |fields|
  {
    if fields == [] then []
    else
      var r := RecordOf(fields[..|fields| - 1]);
      var f := fields[|fields| - 1];
      if ColumnOf(f.schemaId).Some? then PutDistinct(r, ColumnOf(f.schemaId).value, FieldValue(f)); Assign(r, f)
      else Assign(r, f)
  }

  /** One field's effect on the record under construction. */
  function Assign(r: Record, f: Node): Record {
    match ColumnOf(f.schemaId)
    case None => r
    case Some(c) => Put(r, c, FieldValue(f))
  }

  /** A field that fills another column leaves column `c` alone. */
  lemma AssignOther(r: Record, f: Node, c: Column)
    requires ColumnOf(f.schemaId) != Some(c)
    ensures Find(Assign(r, f), c) == Find(r, c)
  {
    if ColumnOf(f.schemaId).Some? {
      PutOther(r, ColumnOf(f.schemaId).value, FieldValue(f), c);
    }
  }

  /** The columns of the recognised fields, field by field, repeats included. */
  function Columns(fields: seq<Node>): seq<Column>
    decreases |fields|
  {
    if fields == [] then []
    else
      var cs := Columns(fields[..|fields| - 1]);
      match ColumnOf(fields[|fields| - 1].schemaId)
      case None => cs
      case Some(c) => cs + [c]
  }

  /** `item_data` (line 38 to 47): the fields are scanned in order and each
      recognised one is stored under its column. */
  method BuildItemData(fields: seq<Node>) returns (itemData: Record)
    ensures itemData == RecordOf(fields)
  {
    itemData := [];
    var i := 0;
    while i < |fields|
      invariant 0 <= i <= |fields|
      invariant itemData == RecordOf(fields[..i])
    {
      var field := fields[i];
      assert fields[..i + 1][..i] == fields[..i];
      if field.schemaId == Some(ItemDescription) {
        itemData := Put(itemData, Item, FieldValue(field));
      } else if field.schemaId == Some(ItemAmount) {
        itemData := Put(itemData, Price, FieldValue(field));
      } else if field.schemaId == Some(ItemQuantity) {
        itemData := Put(itemData, Quantity, FieldValue(field));
      } else if field.schemaId == Some(ItemAmountTotal) {
        itemData := Put(itemData, Total, FieldValue(field));
      }
      i := i + 1;
    }
    assert fields[..i] == fields;
  }

  /** The record of a field sequence is the record of all but the last
      field, with the last one assigned. */
  lemma RecordSnoc(fields: seq<Node>)
    requires fields != []
    ensures RecordOf(fields) == Assign(RecordOf(fields[..|fields| - 1]), fields[|fields| - 1])
  {
  }

  /** Assigning a field adds its column, if any, to the record's columns. */
  lemma AssignKeys(r: Record, f: Node, c: Column)
    ensures c in Keys(Assign(r, f)) <==> c in Keys(r) || ColumnOf(f.schemaId) == Some(c)
  {
  }

  /** Some field of the item maps to column `c`. */
  ghost predicate Fills(fields: seq<Node>, c: Column) {
    exists i :: 0 <= i < |fields| && ColumnOf(fields[i].schemaId) == Some(c)
  }

  lemma FillsSnoc(fields: seq<Node>, c: Column)
    requires fields != []
    ensures var n := |fields| - 1;
            Fills(fields, c) <==> Fills(fields[..n], c) || ColumnOf(fields[n].schemaId) == Some(c)
  {
    var n := |fields| - 1;
    var init := fields[..n];
    if Fills(fields, c) {
      var i :| 0 <= i < |fields| && ColumnOf(fields[i].schemaId) == Some(c);
      if i < n {
        assert init[i] == fields[i];
      }
    }
    if Fills(init, c) {
      var i :| 0 <= i < n && ColumnOf(init[i].schemaId) == Some(c);
      assert fields[i] == init[i];
    }
  }

  /** A record has a column exactly when some field of the item maps to it:
      no column is invented and none is lost. */
  lemma {:induction false} RecordKeys(fields: seq<Node>, c: Column)
    ensures c in Keys(RecordOf(fields)) <==> Fills(fields, c)
    decreases |fields|
  {
    if fields != [] {
      var n := |fields| - 1;
      var init := fields[..n];
      RecordSnoc(fields);
      AssignKeys(RecordOf(init), fields[n], c);
      RecordKeys(init, c);
      FillsSnoc(fields, c);
    }
  }

  /** A record is empty exactly when none of the item's fields is recognised;
      such an item is dropped (line 48). */
  lemma RecordEmpty(fields: seq<Node>)
    ensures RecordOf(fields) == [] <==>
            forall i :: 0 <= i < |fields| ==> ColumnOf(fields[i].schemaId) == None
  {
    var r := RecordOf(fields);
    if r != [] {
      var c := Keys(r)[0];
      RecordKeys(fields, c);
    } else {
      forall i | 0 <= i < |fields| ensures ColumnOf(fields[i].schemaId) == None {
        if ColumnOf(fields[i].schemaId).Some? {
          RecordKeys(fields, ColumnOf(fields[i].schemaId).value);
        }
      }
    }
  }

  /** The last field that fills a column decides its value. */
  lemma {:induction false} RecordLastWins(fields: seq<Node>, i: nat, c: Column)
    requires i < |fields| && ColumnOf(fields[i].schemaId) == Some(c)
    requires forall j :: i < j < |fields| ==> ColumnOf(fields[j].schemaId) != Some(c)
    ensures Find(RecordOf(fields), c) == Some(FieldValue(fields[i]))
    decreases |fields|
  {
    var n := |fields| - 1;
    var init := fields[..n];
    var r := RecordOf(init);
    RecordSnoc(fields);
    if i < n {
      assert ColumnOf(fields[n].schemaId) != Some(c);
      assert Find(r, c) == Some(FieldValue(fields[i])) by {
        assert init[i] == fields[i];
        assert forall j :: i < j < n ==> init[j] == fields[j];
        RecordLastWins(init, i, c);
      }
      AssignOther(r, fields[n], c);
    } else {
      assert i == n;
      AssignSame(r, fields[i], c);
    }
  }

  /** A field that fills column `c` sets it to the field's value. */
  lemma AssignSame(r: Record, f: Node, c: Column)
    requires ColumnOf(f.schemaId) == Some(c)
    ensures Find(Assign(r, f), c) == Some(FieldValue(f))
  {
  }

  /** Columns keep the order in which they were first filled, as a Python
      dictionary keeps insertion order. */
  lemma {:induction false} RecordColumnOrder(fields: seq<Node>)
    ensures Keys(RecordOf(fields)) == FirstOccurrences(Columns(fields))
    decreases |fields|
  {
    if fields != [] {
      RecordColumnOrder(fields[..|fields| - 1]);
    }
  }
}
