# Receipt grouping of the Streamlit receipt viewer

The viewer asks the Rossum document-extraction service for its exported
annotations. Each annotation is one photographed receipt. The viewer groups
the receipts' line items by the day the receipt arrived and then by store
name, and shows the days newest first. This project models that grouping
(`streamlit_ui/main.py`, lines 13-56) and the part of the display loop that
decides what appears and in what order (lines 59-73).

The export is a tree of nodes tagged by `schema_id`. A receipt is filed under
the part of `arrived_at` before the first `T`. Its store is the value of the
last `store_name` child of any `basic_info_section`. Its item records come
from the `tuple` items under `line_items` in `line_items_section`. Each
record maps the four recognised fields to the keys `"Item"`, `"Price (Kč)"`,
`"Quantity"` and `"Total (Kč)"`.

Modules, one per file:

- `Options` (`options.dfy`): an `Option` datatype.
- `AssocList` (`assoc.dfy`): Python's insertion-ordered dictionaries, as
  sequences of pairs. `d[k] = v` overwrites a key in place or appends a new
  one.
- `Rossum` (`rossum.dfy`): the export payload, as a closed node datatype.
- `LineItems` (`line_items.dfy`): one line item's record (lines 38-49).
- `Receipt` (`receipt.dfy`): one receipt's store key and item records
  (lines 24-49).
- `Buckets` (`buckets.dfy`): the two-level dictionary of lists, with
  generic keys (lines 15 and 52-56).
- `Grouping` (`grouping.dfy`): the loop over the results (lines 13-56).
- `Display` (`display.dfy`): the descending date order and the
  empty-bucket rule (lines 59-73).
- `Examples` (`example.dfy`): small worked examples of the store rule and of
  bucket accumulation.

**How the layers fit.** Each loop of the source is a method. The method is
proved equal to a specification function, typically a left fold over its
input. The lemmas then state what that function means. Each such statement
is an all-inputs property, usually an if-and-only-if, about the specification
function. Buckets are compared with two reference definitions: `Bucket`, over
the contributions, and `Grouping.Collected`, read off the results directly.

**Details worth noting.**

- **Record keys.** The keys are the code's own: `"Item"`, `"Price (Kč)"`,
  `"Quantity"`, `"Total (Kč)"` (`streamlit_ui/main.py:41-47`). Records are
  keyed by the `Column` datatype, whose `Name` gives these strings, one per
  column.
- **Missing values.** A field without a value yields `""` (line 41). A
  `store_name` child without a value yields `"Unknown Store"` (line 31). When
  there is no `store_name` child at all, the store key is `None`, a separate
  key.

**Inputs.** The payload arrives as a parameter. The call to
`api_client.export_annotations()` on line 10 is not modelled, and neither is
the network behind it.

## Model

| member | source | states |
|---|---|---|
| `Grouping.Normalize` | streamlit_ui/main.py:13 | a grouping exists exactly when the payload is present and has `results` |
| `Grouping.GroupAnnotations` | streamlit_ui/main.py:13-56 | the nested loops, with their in-place dictionary inserts and `extend`, compute `Normalize` of the payload |
| `Grouping.FileResult` | streamlit_ui/main.py:19-56 | one result with a date has its store and items filed under that date by one `Extend`; a result without a date leaves the grouping unchanged |
| `Grouping.BeforeFirstT` | streamlit_ui/main.py:19 | the result is a prefix of the input with no `T`, and stops at the first `T` when shorter |
| `Grouping.DateKey` | streamlit_ui/main.py:19-21 | the date is empty exactly when `arrived_at` is missing, empty or starts with `T` |
| `Grouping.Group` | streamlit_ui/main.py:17-56 | the loop over the results as a fold of their contributions; characterised by `GroupSnoc`, `GroupDates`, `GroupBucketExists` and `GroupBucket` |
| `Grouping.GroupSnoc` | streamlit_ui/main.py:17-56 | one more result extends the grouping by its date, store and items when placed, and leaves it unchanged when its date is empty |
| `Grouping.EntriesMembers` | streamlit_ui/main.py:19-21 | the contributions are exactly those of the results with a non-empty date |
| `Grouping.GroupDates` | streamlit_ui/main.py:52-53 | a date key exists exactly when some placed result carries that date |
| `Grouping.GroupDateHasStore` | streamlit_ui/main.py:52-55 | every date has at least one store, even one whose result had no items, and its stores are distinct |
| `Grouping.GroupBucketExists` | streamlit_ui/main.py:54-55 | a bucket exists exactly when some placed result has its date and store, items or not |
| `Grouping.EntriesAny` | streamlit_ui/main.py:19-31 | some contribution has a date and a store exactly when some placed result has them |
| `Grouping.GroupBucket` | streamlit_ui/main.py:52-56 | a bucket holds the items of all placed results with its date and store, concatenated in result order |
| `Grouping.BucketCollected` | streamlit_ui/main.py:56 | bucket contents over the contributions equal the reference read off the results |
| `Buckets.Extend` | streamlit_ui/main.py:52-56 | lines 52-56 as one step; characterised by `ExtendSteps`, `ExtendBucket`, `ExtendKeys` and `ExtendWellFormed` |
| `Buckets.Fold` | streamlit_ui/main.py:17-56 | the contributions filed one after the other by `Extend`; characterised by `FoldWellFormed`, `FoldBucket`, `FoldDateOrder` and `FoldStoreOrder` |
| `Buckets.ExtendSteps` | streamlit_ui/main.py:52-56 | insert the date if missing, insert the store if missing, then extend: together one `Extend` step |
| `Buckets.ExtendBucket` | streamlit_ui/main.py:52-56 | `Extend` appends the items after the bucket's old items, creating the bucket if missing, and changes no other bucket |
| `Buckets.ExtendKeys` | streamlit_ui/main.py:52-55 | `Extend` appends a date or store key only when it is new, and leaves the stores of other dates unchanged |
| `Buckets.ExtendWellFormed` | streamlit_ui/main.py:52-56 | `Extend` keeps dates distinct, stores distinct and every date non-empty |
| `Buckets.FoldWellFormed` | streamlit_ui/main.py:15-56 | the whole grouping has distinct dates, distinct stores per date and no date without a store |
| `Buckets.FoldBucket` | streamlit_ui/main.py:52-56 | a bucket exists exactly when some contribution has its date and store, and holds all such items in order |
| `Buckets.BucketNone` | streamlit_ui/main.py:56 | with no contribution for a date and a store, the reference bucket is empty |
| `Buckets.FoldDateOrder` | streamlit_ui/main.py:52-53 | dates keep the order in which contributions first brought them |
| `Buckets.FoldStoreOrder` | streamlit_ui/main.py:54-55 | under a date, stores keep the order in which that date's contributions first brought them |
| `Buckets.DatesMembers` | streamlit_ui/main.py:52-53 | a date occurs among the contributions' dates exactly when some contribution has it |
| `Receipt.ScanContent` | streamlit_ui/main.py:24-49 | the section loop yields the receipt's store key and item records as the specification functions define them |
| `Receipt.ScanStoreName` | streamlit_ui/main.py:29-31 | each `store_name` child overwrites the name; no such child leaves the incoming name |
| `Receipt.CollectSectionItems` | streamlit_ui/main.py:34-49 | the non-empty records of the tuple items under `line_items` children are appended after the existing items |
| `Receipt.CollectTuples` | streamlit_ui/main.py:36-49 | the non-empty records of the `tuple` items are appended in order |
| `Receipt.StoreKeyOf` | streamlit_ui/main.py:24-31 | the value of the last `store_name` child of a `basic_info_section`, or `None`; characterised by `StoreKeyLastWins` and `StoreKeyNone` |
| `Receipt.StoreValue` | streamlit_ui/main.py:31 | a `store_name` child's value, `"Unknown Store"` when it has none; see `UnknownStoreExample` |
| `Receipt.ItemsOf` | streamlit_ui/main.py:33-49 | the non-empty records of the considered tuple items, in document order; characterised by `TupleItemsMembers` and `NonEmptyRecordsMembers` |
| `Receipt.StoreKeyLastWins` | streamlit_ui/main.py:27-31 | a `store_name` child with no later one, in its own section or in a later `basic_info_section`, decides the store key |
| `Receipt.StoreChildrenOfLast` | streamlit_ui/main.py:29-31 | within one section, the last `store_name` child is the last candidate |
| `Receipt.StoreKeyNone` | streamlit_ui/main.py:24-31 | the store key is `None` exactly when no `basic_info_section` has a `store_name` child |
| `Receipt.StoreChildrenMembers` | streamlit_ui/main.py:27-30 | the candidate store children are exactly the `store_name` children of `basic_info_section` sections |
| `Receipt.StoreChildrenOfMembers` | streamlit_ui/main.py:29-30 | within one section, the candidates are exactly the children tagged `store_name` |
| `Receipt.TupleItemsMembers` | streamlit_ui/main.py:33-37 | an item is considered only if it is a `tuple` under a `line_items` child of a `line_items_section`, and every such item is considered |
| `Receipt.SectionTuplesMembers` | streamlit_ui/main.py:34-37 | within one section, the items considered are exactly the `tuple` items of its `line_items` children |
| `Receipt.TuplesOfMembers` | streamlit_ui/main.py:36-37 | within one `line_items` node, exactly the items of category `tuple` are considered |
| `Receipt.NonEmptyRecordsMembers` | streamlit_ui/main.py:48-49 | no more records than items; every record is non-empty and built from some item; every item with a non-empty record contributes it |
| `Receipt.NonEmptyRecordsAppend` | streamlit_ui/main.py:48-49 | the kept records of two item lists are those of each, in order |
| `LineItems.BuildItemData` | streamlit_ui/main.py:38-47 | the `elif` chain over the fields builds `RecordOf` the fields |
| `LineItems.RecordOf` | streamlit_ui/main.py:38-47 | a record never has a column twice |
| `LineItems.ColumnOf` | streamlit_ui/main.py:40-47 | the schema id of a field picks its column, whose `Column.Name` is the key string; characterised by `RecordKeys` and `NameInjective` |
| `LineItems.FieldValue` | streamlit_ui/main.py:41-47 | a field's value, `""` when it has none; see `RecordLastWins` |
| `LineItems.RecordKeys` | streamlit_ui/main.py:40-47 | a record has a column exactly when some field of the item maps to it |
| `LineItems.RecordEmpty` | streamlit_ui/main.py:48 | a record is empty, so the item is dropped, exactly when no field is recognised |
| `LineItems.RecordLastWins` | streamlit_ui/main.py:40-47 | the last field filling a column decides its value, `""` when it has none |
| `LineItems.RecordColumnOrder` | streamlit_ui/main.py:38-47 | columns appear in the order in which they were first filled |
| `LineItems.NameInjective` | streamlit_ui/main.py:41-47 | different columns are stored under different key strings |
| `LineItems.AssignOther` | streamlit_ui/main.py:40-47 | a field filling one column leaves the others unchanged |
| `AssocList.Put` | streamlit_ui/main.py:41 | `d[k] = v` keeps the key order for a present key, appends a new key, and maps the key to `v` |
| `AssocList.PutOther` | streamlit_ui/main.py:41 | `d[k] = v` leaves every other key's value unchanged |
| `AssocList.PutFresh` | streamlit_ui/main.py:53 | inserting a missing key is appending it |
| `AssocList.PutPut` | streamlit_ui/main.py:55-56 | writing the same key twice keeps only the second value |
| `Examples.UnknownStoreExample` | streamlit_ui/main.py:28-31 | a `store_name` child without a value gives the key `"Unknown Store"` |
| `Examples.NoStoreExample` | streamlit_ui/main.py:24-31 | a `basic_info_section` without a `store_name` child gives the key `None` |
| `Examples.AccumulateExample` | streamlit_ui/main.py:52-56 | two contributions for one date and store accumulate `[x, y]`; a third with no items still creates its store, after the first |
| `Display.SortDesc` | streamlit_ui/main.py:59 | `sorted(..., reverse=True)` on the date keys; characterised by `SortDescCorrect` |
| `Display.Less` | streamlit_ui/main.py:59 | Python's `<` on strings, code point by code point with a proper prefix first; characterised by `LessTotal`, `LessTransitive` and `LessAsymmetric` |
| `Display.SortDescCorrect` | streamlit_ui/main.py:59 | the date sort is a permutation into descending order |
| `Display.DisplayDatesOrder` | streamlit_ui/main.py:59 | the shown dates of a grouping are its date keys, each once, strictly newest first |
| `Display.DisplayDatesMembers` | streamlit_ui/main.py:59 | a date is shown exactly when some placed result carries it |
| `Display.LessTotal` | streamlit_ui/main.py:59 | two different strings are ordered one way or the other |
| `Display.LessTransitive` | streamlit_ui/main.py:59 | the string order is transitive |
| `Display.LessAsymmetric` | streamlit_ui/main.py:59 | the string order is asymmetric |
| `Display.Render` | streamlit_ui/main.py:59-73 | one block per date in the sorted order, one block per store of that date in insertion order, a table exactly when the store has items and "No items found" otherwise |
| `Display.ShowStores` | streamlit_ui/main.py:62-73 | one block per store, in order, a table of its items when it has any and the placeholder otherwise |

## Left out

- **Rendering.** The Streamlit and pandas calls are not modelled: the
  button (lines 5-6), the headings (lines 60 and 63), the `DataFrame` and
  the table (lines 67-71). `Display.Render` returns which blocks appear
  instead.
- **The export call.** `api_client.export_annotations()` (line 10) and the
  HTTP client and services behind it are not part of this model. The payload
  is a parameter.
- **JSON values.** `null` values and values that are not strings are not
  modelled. A field's `value` is either a string or absent. A `null`
  `arrived_at` would make `split` raise. A `results` entry that is not a list,
  or nodes that are not objects, would also raise or be iterated differently.
- **Absent lists.** An absent `content` or `children` list is the empty
  sequence. The code reads each with a default of `[]`, so Python cannot
  tell them apart either.
- **Empty dictionaries.** A payload that is an empty dictionary is falsy. It
  has no `results` key either, so it is the `Export(None)` case, in which
  nothing is grouped.
- **String order.** The order is Python code-point order, taken as Dafny's
  `char` order on Unicode scalar values.
- **Sort stability.** Stability under `reverse=True` is not modelled. The
  sorted keys are distinct, so it has no effect.
