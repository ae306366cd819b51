/** A two-level insertion-ordered dictionary of lists, the shape of
    `transactions_by_date` (streamlit_ui/main.py, lines 15 and 52-56):
    outer key (a date) to inner key (a store) to a list of items. The keys
    and the items are kept abstract here. */
module Buckets {
  import opened Options
  import opened AssocList

  type Inner<S, I> = seq<(S, seq<I>)>
  type Nest<D, S, I> = seq<(D, Inner<S, I>)>

  /** One contribution: items to append under an outer and an inner key. */
  datatype Entry<D, S, I> = Entry(date: D, store: S, items: seq<I>)

  /** The inner dictionary under `date` (empty when the date is absent). */
  function StoresAt<D(==), S, I>(g: Nest<D, S, I>, date: D): Inner<S, I> {
    Find(g, date).GetOr([])
  }

  /** The list under `date` and `store`, if both keys exist. */
  function FindBucket<D(==), S(==), I>(g: Nest<D, S, I>, date: D, store: S): Option<seq<I>> {
    match Find(g, date)
    case None => None
    case Some(stores) => Find(stores, store)
  }

  /** Lines 52-56 as one step: make sure `date` and `store` exist, then
      append `items` to their list. */
  function Extend<D(==), S(==), I>(g: Nest<D, S, I>, date: D, store: S, items: seq<I>): Nest<D, S, I> {
    var stores := StoresAt(g, date);
    Put(g, date, Put(stores, store, Find(stores, store).GetOr([]) + items))
  }

  /** The dictionary built from `entries`, one after the other. */
  function Fold<D(==), S(==), I>(entries: seq<Entry<D, S, I>>): Nest<D, S, I>
    decreases |entries|
  {
    if entries == [] then []
    else
      var e := entries[|entries| - 1];
      Extend(Fold(entries[..|entries| - 1]), e.date, e.store, e.items)
  }

  lemma FoldSnoc<D, S, I>(entries: seq<Entry<D, S, I>>, e: Entry<D, S, I>)
    ensures Fold(entries + [e]) == Extend(Fold(entries), e.date, e.store, e.items)
  {
    assert (entries + [e])[..|entries|] == entries;
  }

  /** Distinct outer keys, distinct inner keys, and no outer key without an inner one. */
  ghost predicate WellFormed<D, S, I>(g: Nest<D, S, I>) {
    && Distinct(Keys(g))
    && forall p :: p in g ==> p.1 != [] && Distinct(Keys(p.1))
  }

  /** Some entry has this date and this store. */
  ghost predicate AnyEntry<D, S, I>(entries: seq<Entry<D, S, I>>, date: D, store: S) {
    exists i :: 0 <= i < |entries| && entries[i].date == date && entries[i].store == store
  }

  /** Reference definition of a list: the items of the entries with this
      date and this store, concatenated in order. */
  function Bucket<D(==), S(==), I>(entries: seq<Entry<D, S, I>>, date: D, store: S): seq<I>
    decreases |entries|
  {
    if entries == [] then []
    else
      var e := entries[|entries| - 1];
      Bucket(entries[..|entries| - 1], date, store) +
      if e.date == date && e.store == store then e.items else []
  }

  lemma BucketSnoc<D, S, I>(entries: seq<Entry<D, S, I>>, e: Entry<D, S, I>, date: D, store: S)
    ensures Bucket(entries + [e], date, store) ==
            Bucket(entries, date, store) + if e.date == date && e.store == store then e.items else []
  {
    assert (entries + [e])[..|entries|] == entries;
  }

  /** The dates of the entries, in order, repeats included. */
  function Dates<D, S, I>(entries: seq<Entry<D, S, I>>): seq<D>
    decreases |entries|
  {
    if entries == [] then []
    else Dates(entries[..|entries| - 1]) + [entries[|entries| - 1].date]
  }

  /** The stores of the entries dated `date`, in order, repeats included. */
  function StoresOn<D(==), S, I>(entries: seq<Entry<D, S, I>>, date: D): seq<S>
    decreases |entries|
  {
    if entries == [] then []
    else
      var e := entries[|entries| - 1];
      StoresOn(entries[..|entries| - 1], date) + if e.date == date then [e.store] else []
  }

  // ---------------------------------------------------------------------
  // One step

  /** The insert-if-missing steps of lines 52-55 followed by the `extend` of
      line 56 are one `Extend`. */
  lemma ExtendSteps<D, S, I>(g: Nest<D, S, I>, date: D, store: S, items: seq<I>)
    ensures var g1 := if date in Keys(g) then g else Put(g, date, []);
            var s0 := Lookup(g1, date);
            var s1 := if store in Keys(s0) then s0 else Put(s0, store, []);
            Put(g1, date, Put(s1, store, Lookup(s1, store) + items)) == Extend(g, date, store, items)
  {
    var stores := StoresAt(g, date);
    var bucket := Find(stores, store).GetOr([]);
    if date !in Keys(g) {
      PutPut(g, date, [], Put(stores, store, bucket + items));
    }
    if store !in Keys(stores) {
      PutPut(stores, store, [], bucket + items);
    }
  }

  /** `Extend` appends `items` to the list of `date` and `store`, creating
      it (even for no items) when missing, and changes no other list. */
  lemma ExtendBucket<D, S, I>(g: Nest<D, S, I>, date: D, store: S, items: seq<I>, date': D, store': S)
    ensures FindBucket(Extend(g, date, store, items), date', store') ==
            if date' == date && store' == store then Some(FindBucket(g, date, store).GetOr([]) + items)
            else FindBucket(g, date', store')
  {
    var stores := StoresAt(g, date);
    var bucket := Find(stores, store).GetOr([]);
    if date' != date {
      PutOther(g, date, Put(stores, store, bucket + items), date');
    } else if store' != store {
      PutOther(stores, store, bucket + items, store');
    }
  }

  /** `Extend` adds a date at the end only when it is new, and a store at the
      end of that date's stores only when it is new there; the stores of
      every other date are untouched. */
  lemma ExtendKeys<D, S, I>(g: Nest<D, S, I>, date: D, store: S, items: seq<I>)
    ensures Keys(Extend(g, date, store, items)) == if date in Keys(g) then Keys(g) else Keys(g) + [date]
    ensures Keys(StoresAt(Extend(g, date, store, items), date)) ==
            if store in Keys(StoresAt(g, date)) then Keys(StoresAt(g, date)) else Keys(StoresAt(g, date)) + [store]
    ensures forall d :: d != date ==> StoresAt(Extend(g, date, store, items), d) == StoresAt(g, d)
  {
    var stores := StoresAt(g, date);
    var stores' := Put(stores, store, Find(stores, store).GetOr([]) + items);
    forall d | d != date ensures StoresAt(Extend(g, date, store, items), d) == StoresAt(g, d) {
      PutOther(g, date, stores', d);
    }
  }

  lemma ExtendWellFormed<D, S, I>(g: Nest<D, S, I>, date: D, store: S, items: seq<I>)
    requires WellFormed(g)
    ensures WellFormed(Extend(g, date, store, items))
  {
    var stores := StoresAt(g, date);
    var stores' := Put(stores, store, Find(stores, store).GetOr([]) + items);
    PutDistinct(g, date, stores');
    assert Distinct(Keys(stores)) by {
      if Find(g, date).Some? {
        assert (date, stores) in g;
      }
    }
    PutDistinct(stores, store, Find(stores, store).GetOr([]) + items);
    assert stores' != [] by {
      assert store in Keys(stores');
    }
    forall p | p in Extend(g, date, store, items) ensures p.1 != [] && Distinct(Keys(p.1)) {
      PutMembers(g, date, stores', p);
    }
  }

  // ---------------------------------------------------------------------
  // The whole fold

  /** Dates are distinct, stores under a date are distinct, and every date has
      at least one store, even when none of its entries had items. */
  lemma {:induction false} FoldWellFormed<D, S, I>(entries: seq<Entry<D, S, I>>)
    ensures WellFormed(Fold(entries))
    decreases |entries|
  {
    if entries != [] {
      var e := entries[|entries| - 1];
      FoldWellFormed(entries[..|entries| - 1]);
      ExtendWellFormed(Fold(entries[..|entries| - 1]), e.date, e.store, e.items);
    }
  }

  /** The list of a date and a store exists exactly when some entry has both,
      and then holds the items of all such entries in order: entries sharing
      a date and a store accumulate. */
  lemma {:induction false} FoldBucket<D, S, I>(entries: seq<Entry<D, S, I>>, date: D, store: S)
    ensures FindBucket(Fold(entries), date, store) ==
            if AnyEntry(entries, date, store) then Some(Bucket(entries, date, store)) else None
    decreases |entries|
  {
    if entries != [] {
      var n := |entries| - 1;
      var init := entries[..n];
      var e := entries[n];
      var g := Fold(init);
      var hit := e.date == date && e.store == store;
      var before := FindBucket(g, date, store);
      assert FindBucket(Fold(entries), date, store) ==
             if hit then Some(before.GetOr([]) + e.items) else before by {
        assert Fold(entries) == Extend(g, e.date, e.store, e.items);
        ExtendBucket(g, e.date, e.store, e.items, date, store);
      }
      assert before == if AnyEntry(init, date, store) then Some(Bucket(init, date, store)) else None by {
        FoldBucket(init, date, store);
      }
      assert AnyEntry(entries, date, store) <==> AnyEntry(init, date, store) || hit by {
        AnyEntrySnoc(entries, date, store);
      }
      if hit {
        if !AnyEntry(init, date, store) {
          BucketNone(init, date, store);
        }
        assert Bucket(entries, date, store) == Bucket(init, date, store) + e.items;
      } else {
        assert Bucket(entries, date, store) == Bucket(init, date, store);
      }
    }
  }

  lemma AnyEntrySnoc<D, S, I>(entries: seq<Entry<D, S, I>>, date: D, store: S)
    requires entries != []
    ensures var n := |entries| - 1;
            AnyEntry(entries, date, store) <==>
            AnyEntry(entries[..n], date, store) || (entries[n].date == date && entries[n].store == store)
  {
    var n := |entries| - 1;
    if AnyEntry(entries[..n], date, store) {
      var i :| 0 <= i < n && entries[..n][i].date == date && entries[..n][i].store == store;
      assert entries[i] == entries[..n][i];
    }
  }

  /** With no entry for a date and a store, their list collects nothing. */
  lemma {:induction false} BucketNone<D, S, I>(entries: seq<Entry<D, S, I>>, date: D, store: S)
    requires !AnyEntry(entries, date, store)
    ensures Bucket(entries, date, store) == []
    decreases |entries|
  {
    if entries != [] {
      BucketNone(entries[..|entries| - 1], date, store);
    }
  }

  /** Dates appear in the order in which entries first brought them. */
  lemma {:induction false} FoldDateOrder<D, S, I>(entries: seq<Entry<D, S, I>>)
    ensures Keys(Fold(entries)) == FirstOccurrences(Dates(entries))
    decreases |entries|
  {
    if entries != [] {
      var e := entries[|entries| - 1];
      FoldDateOrder(entries[..|entries| - 1]);
      ExtendKeys(Fold(entries[..|entries| - 1]), e.date, e.store, e.items);
    }
  }

  /** Under each date, stores appear in the order in which entries of that
      date first brought them. */
  lemma {:induction false} FoldStoreOrder<D, S, I>(entries: seq<Entry<D, S, I>>, date: D)
    ensures Keys(StoresAt(Fold(entries), date)) == FirstOccurrences(StoresOn(entries, date))
    decreases |entries|
  {
    if entries != [] {
      var init := entries[..|entries| - 1];
      var e := entries[|entries| - 1];
      FoldStoreOrder(init, date);
      ExtendKeys(Fold(init), e.date, e.store, e.items);
      if e.date == date {
        assert StoresOn(entries, date) == StoresOn(init, date) + [e.store];
      } else {
        assert StoresOn(entries, date) == StoresOn(init, date);
      }
    }
  }

  lemma {:induction false} DatesMembers<D, S, I>(entries: seq<Entry<D, S, I>>, date: D)
    ensures date in Dates(entries) <==> exists e :: e in entries && e.date == date
    decreases |entries|
  {
    if entries != [] {
      var init := entries[..|entries| - 1];
      DatesMembers(init, date);
      assert forall e :: e in entries <==> e in init || e == entries[|entries| - 1];
    }
  }
}
