/** The export payload of the Rossum extraction service, as far as the
    grouping reads it. Every node of the content tree carries the same four
    keys; a list the payload leaves out is the empty sequence, since the code
    reads each list with a default of `[]`. */
module Rossum {
  import opened Options

  /** A node of the annotation content tree: a section, a child of a section,
      a line item or a field of a line item. */
  datatype Node = Node(
    schemaId: Option<string>,
    value: Option<string>,
    category: Option<string>,
    children: seq<Node>)

  /** One exported annotation (one processed receipt). */
  datatype AnnotationResult = AnnotationResult(arrivedAt: Option<string>, content: seq<Node>)

  /** The export response: a JSON object that may or may not hold `results`. */
  datatype Export = Export(results: Option<seq<AnnotationResult>>)

  const BasicInfoSection := "basic_info_section"
  const StoreNameId := "store_name"
  const LineItemsSection := "line_items_section"
  const LineItemsId := "line_items"
  const TupleCategory := "tuple"

  const ItemDescription := "item_description"
  const ItemAmount := "item_amount"
  const ItemQuantity := "item_quantity"
  const ItemAmountTotal := "item_amount_total"

  /** Does `n` carry the schema id `id`? (`n.get("schema_id") == id`) */
  predicate Tagged(n: Node, id: string) {
    n.schemaId == Some(id)
  }
}
