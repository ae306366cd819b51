/** Grouping the exported annotation results by date and then by store
    (streamlit_ui/main.py, lines 13-56). */
module Grouping {
  import opened Options
  import opened AssocList
  import opened Rossum
  import opened LineItems
  import opened Receipt
  import opened Buckets

  /** A store key: a store name, or Python's `None` when the result names no store. */
  type StoreKey = Option<string>

  /** `transactions_by_date`: date string to store to item records. */
  type Transactions = Nest<string, StoreKey, Record>

  // ---------------------------------------------------------------------
  // Specification

  /** `s.split("T")[0]`: the part of `s` before its first `T`. */
  function BeforeFirstT(s: string): (r: string)
    ensures r <= s
    ensures 'T' !in r
    ensures |r| < |s| ==> s[|r|] == 'T'
  {
    if s == [] || s[0] == 'T' then [] else [s[0]] + BeforeFirstT(s[1..])
  }

  /** The date a result is filed under, read from `arrived_at` (default `""`).
      It is empty exactly when the timestamp is missing, empty or starts with `T`. */
  function DateKey(arrivedAt: Option<string>): (d: string)
    ensures d == "" <==> arrivedAt == None || arrivedAt.value == "" || arrivedAt.value[0] == 'T'
  {
    BeforeFirstT(arrivedAt.GetOr(""))
  }

  /** A result with an empty date is skipped (line 20). */
  predicate Placed(r: AnnotationResult) {
    DateKey(r.arrivedAt) != ""
  }

  /** What a placed result contributes: its date, its store and its items. */
  type Contribution = Entry<string, StoreKey, Record>

  function EntryOf(r: AnnotationResult): Contribution {
    Entry(DateKey(r.arrivedAt), StoreKeyOf(r.content), ItemsOf(r.content))
  }

  /** The contributions of the placed results, in result order. */
  function Entries(results: seq<AnnotationResult>): seq<Contribution>
    decreases |results|
  {
    if results == [] then []
    else
      var r := results[|results| - 1];
      Entries(results[..|results| - 1]) + if Placed(r) then [EntryOf(r)] else []
  }

  /** The grouping of `results`. */
  function Group(results: seq<AnnotationResult>): Transactions {
    Fold(Entries(results))
  }

  /** Reference definition of a bucket, read off the results directly: the
      items of every placed result with this date and this store, in result
      order. */
  function Collected(results: seq<AnnotationResult>, date: string, store: StoreKey): seq<Record>
    decreases |results|
  {
    if results == [] then []
    else
      var r := results[|results| - 1];
      Collected(results[..|results| - 1], date, store) +
      if Placed(r) && DateKey(r.arrivedAt) == date && StoreKeyOf(r.content) == store then ItemsOf(r.content) else []
  }

  /** Line 13: a grouping is produced only for a payload that holds `results`. */
  function Normalize(annotations: Option<Export>): (out: Option<Transactions>)
    ensures out.Some? <==> annotations.Some? && annotations.value.results.Some?
  {
    if annotations.Some? && annotations.value.results.Some? then
      Some(Group(annotations.value.results.value))
    else None
  }

  // ---------------------------------------------------------------------
  // The grouping loop

  /** Lines 13-56: walk the results, skip those without a date, and file the
      items of the others under their date and store. */
  method GroupAnnotations(annotations: Option<Export>) returns (byDate: Option<Transactions>)
    ensures byDate == Normalize(annotations)
  {
    if annotations.Some? && annotations.value.results.Some? {
      var results := annotations.value.results.value;
      var transactions: Transactions := [];
      var i := 0;
      while i < |results|
        invariant 0 <= i <= |results|
        invariant transactions == Group(results[..i])
      {
        assert results[..i + 1] == results[..i] + [results[i]];
        GroupSnoc(results[..i], results[i]);
        transactions := FileResult(transactions, results[i]);
        i := i + 1;
      }
      assert results[..i] == results;
      byDate := Some(transactions);
    } else {
      byDate := None;
    }
  }

  /** Lines 19-56 for one result: a result with a date has its store and
      items filed under that date; one without is skipped. */
  method FileResult(transactions: Transactions, result: AnnotationResult) returns (updated: Transactions)
    ensures updated == if Placed(result)
                       then Extend(transactions, DateKey(result.arrivedAt), StoreKeyOf(result.content), ItemsOf(result.content))
                       else transactions
  {
    updated := transactions;
    var dateStr := BeforeFirstT(result.arrivedAt.GetOr(""));
    if dateStr == "" {
      return;
    }
    var storeName, items := ScanContent(result.content);
    if dateStr !in Keys(updated) {
      PutFresh(updated, dateStr, []);
      updated := updated + [(dateStr, [])];
    }
    assert updated == if dateStr in Keys(transactions) then transactions else Put(transactions, dateStr, []);
    var stores := Lookup(updated, dateStr);
    ghost var s0 := stores;
    if storeName !in Keys(stores) {
      PutFresh(stores, storeName, []);
      stores := stores + [(storeName, [])];
    }
    assert stores == if storeName in Keys(s0) then s0 else Put(s0, storeName, []);
    var bucket := Lookup(stores, storeName) + items;
    updated := Put(updated, dateStr, Put(stores, storeName, bucket));
    ExtendSteps(transactions, dateStr, storeName, items);
  }

  // ---------------------------------------------------------------------
  // Properties

  /** One more result extends the grouping when it is placed and leaves it
      alone otherwise. */
  lemma GroupSnoc(results: seq<AnnotationResult>, r: AnnotationResult)
    ensures Group(results + [r]) ==
            if Placed(r) then Extend(Group(results), DateKey(r.arrivedAt), StoreKeyOf(r.content), ItemsOf(r.content))
            else Group(results)
  {
    var rs := results + [r];
    assert rs[..|results|] == results;
    if Placed(r) {
      assert Entries(rs) == Entries(results) + [EntryOf(r)];
      FoldSnoc(Entries(results), EntryOf(r));
    } else {
      assert Entries(rs) == Entries(results);
    }
  }

  /** A result is an entry exactly when it is placed: the entries are the
      placed results, and only they. */
  lemma {:induction false} EntriesMembers(results: seq<AnnotationResult>, e: Contribution)
    ensures e in Entries(results) <==> exists r :: r in results && Placed(r) && EntryOf(r) == e
    decreases |results|
  {
    if results != [] {
      var init := results[..|results| - 1];
      var last := results[|results| - 1];
      EntriesMembers(init, e);
      assert forall r :: r in results <==> r in init || r == last;
    }
  }

  /** A date key exists exactly when some placed result carries that date. */
  lemma GroupDates(results: seq<AnnotationResult>, date: string)
    ensures date in Keys(Group(results)) <==>
            exists r :: r in results && Placed(r) && DateKey(r.arrivedAt) == date
  {
    var es := Entries(results);
    FoldDateOrder(es);
    FirstOccurrencesMembers(Dates(es), date);
    DatesMembers(es, date);
    if exists r :: r in results && Placed(r) && DateKey(r.arrivedAt) == date {
      var r :| r in results && Placed(r) && DateKey(r.arrivedAt) == date;
      EntriesMembers(results, EntryOf(r));
    }
    if date in Dates(es) {
      var e :| e in es && e.date == date;
      EntriesMembers(results, e);
    }
  }

  /** Every date of the grouping has at least one store (line 55 runs even
      for a result with no items), and the stores under a date are distinct. */
  lemma GroupDateHasStore(results: seq<AnnotationResult>, date: string)
    requires date in Keys(Group(results))
    ensures StoresAt(Group(results), date) != []
    ensures Distinct(Keys(StoresAt(Group(results), date)))
  {
    FoldWellFormed(Entries(results));
    assert (date, StoresAt(Group(results), date)) in Group(results);
  }

  /** A bucket exists exactly when some placed result carries its date and its
      store, whether or not that result had items. */
  lemma GroupBucketExists(results: seq<AnnotationResult>, date: string, store: StoreKey)
    ensures FindBucket(Group(results), date, store).Some? <==>
            exists r :: r in results && Placed(r) && DateKey(r.arrivedAt) == date && StoreKeyOf(r.content) == store
  {
    var es := Entries(results);
    FoldBucket(es, date, store);
    EntriesAny(results, date, store);
  }

  /** Some contribution has a date and a store exactly when some placed
      result has them. */
  lemma EntriesAny(results: seq<AnnotationResult>, date: string, store: StoreKey)
    ensures AnyEntry(Entries(results), date, store) <==>
            exists r :: r in results && Placed(r) && DateKey(r.arrivedAt) == date && StoreKeyOf(r.content) == store
  {
    var es := Entries(results);
    if exists r :: r in results && Placed(r) && DateKey(r.arrivedAt) == date && StoreKeyOf(r.content) == store {
      var r :| r in results && Placed(r) && DateKey(r.arrivedAt) == date && StoreKeyOf(r.content) == store;
      assert AnyEntry(es, date, store) by {
        EntriesMembers(results, EntryOf(r));
        var i :| 0 <= i < |es| && es[i] == EntryOf(r);
      }
    }
    if AnyEntry(es, date, store) {
      var i :| 0 <= i < |es| && es[i].date == date && es[i].store == store;
      EntriesMembers(results, es[i]);
    }
  }

  /** The bucket of a date and a store holds the items of all placed results
      with that date and store, in result order: buckets accumulate across
      results. */
  lemma GroupBucket(results: seq<AnnotationResult>, date: string, store: StoreKey)
    ensures FindBucket(Group(results), date, store) ==
            if exists r :: r in results && Placed(r) && DateKey(r.arrivedAt) == date && StoreKeyOf(r.content) == store
            then Some(Collected(results, date, store)) else None
  {
    GroupBucketExists(results, date, store);
    FoldBucket(Entries(results), date, store);
    BucketCollected(results, date, store);
  }

  lemma {:induction false} BucketCollected(results: seq<AnnotationResult>, date: string, store: StoreKey)
    ensures Bucket(Entries(results), date, store) == Collected(results, date, store)
    decreases |results|
  {
    if results != [] {
      var init := results[..|results| - 1];
      var r := results[|results| - 1];
      BucketCollected(init, date, store);
      var es := Entries(init);
      if Placed(r) {
        assert Entries(results) == es + [EntryOf(r)];
        BucketSnoc(es, EntryOf(r), date, store);
      } else {
        assert Entries(results) == es;
      }
    }
  }
}
