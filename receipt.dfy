/** What one annotation result contributes: its store name and its item
    records, read from the content tree (streamlit_ui/main.py, lines 24-49). */
module Receipt {
  import opened Options
  import opened Rossum
  import opened LineItems

  /** The store name read from a `store_name` child without a value. */
  const UnknownStore := "Unknown Store"

  /** `child.get("value", "Unknown Store")`. */
  function StoreValue(child: Node): string {
    child.value.GetOr(UnknownStore)
  }

  // ---------------------------------------------------------------------
  // Specification: the store key

  /** The `store_name` children among the children of one section. */
  function StoreChildrenOf(children: seq<Node>): seq<Node>
    decreases |children|
  {
    if children == [] then []
    else
      var rest := StoreChildrenOf(children[..|children| - 1]);
      var child := children[|children| - 1];
      if Tagged(child, StoreNameId) then rest + [child] else rest
  }

  /** Every `store_name` child of every `basic_info_section`, in document order. */
  function StoreChildren(content: seq<Node>): seq<Node>
    decreases |content|
  {
    if content == [] then []
    else
      var rest := StoreChildren(content[..|content| - 1]);
      var section := content[|content| - 1];
      if Tagged(section, BasicInfoSection) then rest + StoreChildrenOf(section.children) else rest
  }

  /** The store a result is filed under: the value of the last `store_name`
      child in document order, or `None` when there is no such child. */
  function StoreKeyOf(content: seq<Node>): Option<string> {
    var found := StoreChildren(content);
    if found == [] then None else Some(StoreValue(found[|found| - 1]))
  }

  // ---------------------------------------------------------------------
  // Specification: the item records

  /** The items of one `line_items` node whose category is `tuple`. */
  function TuplesOf(items: seq<Node>): seq<Node>
    decreases |items|
  {
    if items == [] then []
    else
      var rest := TuplesOf(items[..|items| - 1]);
      var item := items[|items| - 1];
      if item.category == Some(TupleCategory) then rest + [item] else rest
  }

  /** The tuple items under the `line_items` children of one section. */
  function SectionTuples(children: seq<Node>): seq<Node>
    decreases |children|
  {
    if children == [] then []
    else
      var rest := SectionTuples(children[..|children| - 1]);
      var child := children[|children| - 1];
      if Tagged(child, LineItemsId) then rest + TuplesOf(child.children) else rest
  }

  /** Every tuple item, under a `line_items` child of a `line_items_section`,
      in document order. */
  function TupleItems(content: seq<Node>): seq<Node>
    decreases |content|
  {
    if content == [] then []
    else
      var rest := TupleItems(content[..|content| - 1]);
      var section := content[|content| - 1];
      if Tagged(section, LineItemsSection) then rest + SectionTuples(section.children) else rest
  }

  /** The records of `items` that have at least one column, in order. */
  function NonEmptyRecords(items: seq<Node>): seq<Record>
    decreases |items|
  {
    if items == [] then []
    else
      var rest := NonEmptyRecords(items[..|items| - 1]);
      var r := RecordOf(items[|items| - 1].children);
      if r != [] then rest + [r] else rest
  }

  /** The item records of one result. */
  function ItemsOf(content: seq<Node>): seq<Record> {
    NonEmptyRecords(TupleItems(content))
  }

  // ---------------------------------------------------------------------
  // The scanning loops

  /** Lines 29-31: every `store_name` child overwrites the store name. */
  method ScanStoreName(children: seq<Node>, storeName: Option<string>) returns (found: Option<string>)
    ensures var names := StoreChildrenOf(children);
            found == if names == [] then storeName else Some(StoreValue(names[|names| - 1]))
  {
    found := storeName;
    var i := 0;
    while i < |children|
      invariant 0 <= i <= |children|
      invariant var names := StoreChildrenOf(children[..i]);
                found == if names == [] then storeName else Some(StoreValue(names[|names| - 1]))
    {
      var child := children[i];
      assert children[..i + 1][..i] == children[..i];
      if child.schemaId == Some(StoreNameId) {
        found := Some(child.value.GetOr(UnknownStore));
      }
      i := i + 1;
    }
    assert children[..i] == children;
  }

  /** Lines 36-49: the records of the tuple items of one `line_items` node
      that have at least one column are appended to `items`. */
  method CollectTuples(lineItems: seq<Node>, items: seq<Record>) returns (collected: seq<Record>)
    ensures collected == items + NonEmptyRecords(TuplesOf(lineItems))
  {
    collected := items;
    var j := 0;
    while j < |lineItems|
      invariant 0 <= j <= |lineItems|
      invariant collected == items + NonEmptyRecords(TuplesOf(lineItems[..j]))
    {
      var item := lineItems[j];
      assert lineItems[..j + 1][..j] == lineItems[..j];
      if item.category == Some(TupleCategory) {
        var itemData := BuildItemData(item.children);
        NonEmptyRecordsAppend(TuplesOf(lineItems[..j]), [item]);
        assert NonEmptyRecords([item]) == if itemData != [] then [itemData] else [];
        if itemData != [] {
          collected := collected + [itemData];
        }
      }
      j := j + 1;
    }
    assert lineItems[..j] == lineItems;
  }

  /** Lines 34-49: the records of the tuple items under the `line_items`
      children of one `line_items_section` are appended to `items`. */
  method CollectSectionItems(children: seq<Node>, items: seq<Record>) returns (collected: seq<Record>)
    ensures collected == items + NonEmptyRecords(SectionTuples(children))
  {
    collected := items;
    var i := 0;
    while i < |children|
      invariant 0 <= i <= |children|
      invariant collected == items + NonEmptyRecords(SectionTuples(children[..i]))
    {
      var child := children[i];
      ghost var prev := SectionTuples(children[..i]);
      assert children[..i + 1] == children[..i] + [child];
      SectionTuplesSnoc(children[..i], child);
      if child.schemaId == Some(LineItemsId) {
        ghost var done := NonEmptyRecords(prev);
        ghost var added := NonEmptyRecords(TuplesOf(child.children));
        collected := CollectTuples(child.children, collected);
        assert collected == (items + done) + added;
        NonEmptyRecordsAppend(prev, TuplesOf(child.children));
        ConcatAssoc(items, done, added);
      }
      i := i + 1;
    }
    assert children[..i] == children;
  }

  /** Lines 24-49: one pass over the sections of a result, reading the store
      name and collecting the item records. */
  method ScanContent(content: seq<Node>) returns (storeName: Option<string>, items: seq<Record>)
    ensures storeName == StoreKeyOf(content)
    ensures items == ItemsOf(content)
  {
    storeName := None;
    items := [];
    var i := 0;
    while i < |content|
      invariant 0 <= i <= |content|
      invariant storeName == StoreKeyOf(content[..i])
      invariant items == ItemsOf(content[..i])
    {
      var section := content[i];
      assert content[..i + 1][..i] == content[..i];
      if section.schemaId == Some(BasicInfoSection) {
        storeName := ScanStoreName(section.children, storeName);
      } else if section.schemaId == Some(LineItemsSection) {
        items := CollectSectionItems(section.children, items);
        NonEmptyRecordsAppend(TupleItems(content[..i]), SectionTuples(section.children));
      }
      i := i + 1;
    }
    assert content[..i] == content;
  }

  // ---------------------------------------------------------------------
  // Properties

  /** Collecting records distributes over concatenation: the records keep the
      document order of their items. */
  lemma {:induction false} NonEmptyRecordsAppend(a: seq<Node>, b: seq<Node>)
    ensures NonEmptyRecords(a + b) == NonEmptyRecords(a) + NonEmptyRecords(b)
    decreases |b|
  {
    if b == [] {
      assert a + b == a;
    } else {
      var n := |b| - 1;
      var x := b[n];
      assert a + b == (a + b[..n]) + [x];
      assert b == b[..n] + [x];
      NonEmptyRecordsSnoc(a + b[..n], x);
      NonEmptyRecordsSnoc(b[..n], x);
      NonEmptyRecordsAppend(a, b[..n]);
    }
  }

  lemma ConcatAssoc<T>(a: seq<T>, b: seq<T>, c: seq<T>)
    ensures (a + b) + c == a + (b + c)
  {
  }

  lemma SectionTuplesSnoc(children: seq<Node>, child: Node)
    ensures SectionTuples(children + [child]) ==
            if Tagged(child, LineItemsId) then SectionTuples(children) + TuplesOf(child.children)
            else SectionTuples(children)
  {
    assert (children + [child])[..|children|] == children;
  }

  lemma NonEmptyRecordsSnoc(s: seq<Node>, x: Node)
    ensures var r := RecordOf(x.children);
            NonEmptyRecords(s + [x]) == NonEmptyRecords(s) + if r != [] then [r] else []
  {
    assert (s + [x])[..|s|] == s;
  }

  /** Every collected record has at least one column and is the record of
      one of the items, and every item with a recognised field yields its
      record. */
  lemma {:induction false} NonEmptyRecordsMembers(items: seq<Node>)
    ensures |NonEmptyRecords(items)| <= |items|
    ensures forall r :: r in NonEmptyRecords(items) ==>
              r != [] && exists n :: n in items && r == RecordOf(n.children)
    ensures forall n :: n in items && RecordOf(n.children) != [] ==>
              RecordOf(n.children) in NonEmptyRecords(items)
    decreases |items|
  {
    if items != [] {
      var init := items[..|items| - 1];
      var item := items[|items| - 1];
      NonEmptyRecordsMembers(init);
      assert forall n :: n in items <==> n in init || n == item;
    }
  }

  /** A node is a store-name source exactly when it is a `store_name` child
      of a `basic_info_section`. */
  lemma {:induction false} StoreChildrenMembers(content: seq<Node>, n: Node)
    ensures n in StoreChildren(content) <==>
            Tagged(n, StoreNameId) &&
            exists s :: s in content && Tagged(s, BasicInfoSection) && n in s.children
    decreases |content|
  {
    if content != [] {
      var init := content[..|content| - 1];
      var section := content[|content| - 1];
      StoreChildrenMembers(init, n);
      if Tagged(section, BasicInfoSection) {
        StoreChildrenOfMembers(section.children, n);
      }
      assert forall s :: s in content <==> s in init || s == section;
    }
  }

  lemma {:induction false} StoreChildrenOfMembers(children: seq<Node>, n: Node)
    ensures n in StoreChildrenOf(children) <==> n in children && Tagged(n, StoreNameId)
    decreases |children|
  {
    if children != [] {
      var init := children[..|children| - 1];
      StoreChildrenOfMembers(init, n);
      assert forall c :: c in children <==> c in init || c == children[|children| - 1];
    }
  }

  /** The store key is `None` exactly when no `basic_info_section` has a
      `store_name` child, whether the section is missing or only the child. */
  lemma StoreKeyNone(content: seq<Node>)
    ensures StoreKeyOf(content) == None <==>
            !exists s, c :: s in content && Tagged(s, BasicInfoSection) && c in s.children && Tagged(c, StoreNameId)
  {
    var found := StoreChildren(content);
    if found != [] {
      StoreChildrenMembers(content, found[0]);
    } else {
      forall s, c | s in content && Tagged(s, BasicInfoSection) && c in s.children && Tagged(c, StoreNameId)
        ensures false
      {
        StoreChildrenMembers(content, c);
      }
    }
  }

  /** No child of `section` is tagged `store_name`. */
  predicate NoStoreChild(section: Node) {
    forall k :: 0 <= k < |section.children| ==> !Tagged(section.children[k], StoreNameId)
  }

  /** Document order decides the store: a `store_name` child of a
      `basic_info_section` with no `store_name` child after it, neither later
      in its own section nor in a later `basic_info_section`, gives the key. */
  lemma {:induction false} StoreKeyLastWins(content: seq<Node>, s: nat, c: nat)
    requires s < |content| && Tagged(content[s], BasicInfoSection)
    requires c < |content[s].children| && Tagged(content[s].children[c], StoreNameId)
    requires forall k :: c < k < |content[s].children| ==> !Tagged(content[s].children[k], StoreNameId)
    requires forall t :: s < t < |content| && Tagged(content[t], BasicInfoSection) ==> NoStoreChild(content[t])
    ensures StoreKeyOf(content) == Some(StoreValue(content[s].children[c]))
  {
    StoreChildrenLast(content, s, c);
  }

  lemma {:induction false} StoreChildrenLast(content: seq<Node>, s: nat, c: nat)
    requires s < |content| && Tagged(content[s], BasicInfoSection)
    requires c < |content[s].children| && Tagged(content[s].children[c], StoreNameId)
    requires forall k :: c < k < |content[s].children| ==> !Tagged(content[s].children[k], StoreNameId)
    requires forall t :: s < t < |content| && Tagged(content[t], BasicInfoSection) ==> NoStoreChild(content[t])
    ensures var found := StoreChildren(content);
            found != [] && found[|found| - 1] == content[s].children[c]
    decreases |content|
  {
    var n := |content| - 1;
    var init := content[..n];
    var section := content[n];
    if s == n {
      StoreChildrenOfLast(section.children, c);
    } else {
      assert init[s] == content[s];
      assert forall t :: s < t < |init| ==> init[t] == content[t];
      StoreChildrenLast(init, s, c);
      if Tagged(section, BasicInfoSection) {
        StoreChildrenOfNone(section.children);
      }
    }
  }

  lemma {:induction false} StoreChildrenOfLast(children: seq<Node>, c: nat)
    requires c < |children| && Tagged(children[c], StoreNameId)
    requires forall k :: c < k < |children| ==> !Tagged(children[k], StoreNameId)
    ensures var names := StoreChildrenOf(children);
            names != [] && names[|names| - 1] == children[c]
    decreases |children|
  {
    var n := |children| - 1;
    if c < n {
      var init := children[..n];
      assert init[c] == children[c];
      assert forall k :: c < k < |init| ==> init[k] == children[k];
      StoreChildrenOfLast(init, c);
    }
  }

  lemma {:induction false} StoreChildrenOfNone(children: seq<Node>)
    requires forall k :: 0 <= k < |children| ==> !Tagged(children[k], StoreNameId)
    ensures StoreChildrenOf(children) == []
    decreases |children|
  {
    if children != [] {
      var init := children[..|children| - 1];
      assert forall k :: 0 <= k < |init| ==> init[k] == children[k];
      StoreChildrenOfNone(init);
    }
  }

  /** Only tuple items found under a `line_items` child of a
      `line_items_section` produce records; everything else is passed over. */
  lemma {:induction false} TupleItemsMembers(content: seq<Node>, n: Node)
    ensures n in TupleItems(content) <==>
            n.category == Some(TupleCategory) &&
            exists s, c :: s in content && Tagged(s, LineItemsSection) &&
                           c in s.children && Tagged(c, LineItemsId) && n in c.children
    decreases |content|
  {
    if content != [] {
      var init := content[..|content| - 1];
      var section := content[|content| - 1];
      TupleItemsMembers(init, n);
      if Tagged(section, LineItemsSection) {
        SectionTuplesMembers(section.children, n);
      }
      assert forall s :: s in content <==> s in init || s == section;
    }
  }

  lemma {:induction false} SectionTuplesMembers(children: seq<Node>, n: Node)
    ensures n in SectionTuples(children) <==>
            n.category == Some(TupleCategory) &&
            exists c :: c in children && Tagged(c, LineItemsId) && n in c.children
    decreases |children|
  {
    if children != [] {
      var init := children[..|children| - 1];
      var child := children[|children| - 1];
      SectionTuplesMembers(init, n);
      if Tagged(child, LineItemsId) {
        TuplesOfMembers(child.children, n);
      }
      assert forall c :: c in children <==> c in init || c == child;
    }
  }

  lemma {:induction false} TuplesOfMembers(items: seq<Node>, n: Node)
    ensures n in TuplesOf(items) <==> n in items && n.category == Some(TupleCategory)
    decreases |items|
  {
    if items != [] {
      var init := items[..|items| - 1];
      TuplesOfMembers(init, n);
      assert forall c :: c in items <==> c in init || c == items[|items| - 1];
    }
  }
}
