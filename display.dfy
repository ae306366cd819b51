/** What the page shows for a grouping (streamlit_ui/main.py, lines 59-73):
    the dates newest first, and under each date every store with either a
    table of its items or the "No items found" placeholder. The rendering
    itself is not modelled, only which blocks appear and in what order. */
module Display {
  import opened Rossum
  import opened AssocList
  import opened LineItems
  import opened Buckets
  import opened Grouping

  // ---------------------------------------------------------------------
  // String order

  /** Python's `a < b` on strings: `a` is a proper prefix of `b`, or the
      first character where they differ is smaller in `a`. */
  predicate Less(a: string, b: string)
    decreases |a|
  {
    if a == [] then b != []
    else if b == [] then false
    else if a[0] != b[0] then a[0] < b[0]
    else Less(a[1..], b[1..])
  }

  lemma {:induction false} LessAsymmetric(a: string, b: string)
    requires Less(a, b)
    ensures !Less(b, a)
    decreases |a|
  {
    if a != [] && a[0] == b[0] {
      LessAsymmetric(a[1..], b[1..]);
    }
  }

  lemma {:induction false} LessTransitive(a: string, b: string, c: string)
    requires Less(a, b) && Less(b, c)
    ensures Less(a, c)
    decreases |a|
  {
    if a != [] && a[0] == b[0] && b[0] == c[0] {
      LessTransitive(a[1..], b[1..], c[1..]);
    }
  }

  /** Two different strings are always ordered one way or the other. */
  lemma {:induction false} LessTotal(a: string, b: string)
    requires a != b
    ensures Less(a, b) || Less(b, a)
    decreases |a|
  {
    if a != [] && b != [] && a[0] == b[0] {
      assert a == [a[0]] + a[1..];
      assert b == [b[0]] + b[1..];
      LessTotal(a[1..], b[1..]);
    }
  }

  // ---------------------------------------------------------------------
  // `sorted(..., reverse=True)`

  /** No element is smaller than one after it. */
  ghost predicate Descending(s: seq<string>) {
    forall i, j :: 0 <= i < j < |s| ==> !Less(s[i], s[j])
  }

  /** Every element is larger than every one after it. */
  ghost predicate StrictlyDescending(s: seq<string>) {
    forall i, j :: 0 <= i < j < |s| ==> Less(s[j], s[i])
  }

  /** `x` placed before the first element of `s` smaller than it. */
  function Insert(x: string, s: seq<string>): seq<string>
    decreases |s|
  {
    if s == [] then [x]
    else if Less(s[0], x) then [x] + s
    else [s[0]] + Insert(x, s[1..])
  }

  /** The elements of `s`, largest first. */
  function SortDesc(s: seq<string>): seq<string>
    decreases |s|
  {
    if s == [] then [] else Insert(s[0], SortDesc(s[1..]))
  }

  lemma {:induction false} InsertMultiset(x: string, s: seq<string>)
    ensures multiset(Insert(x, s)) == multiset{x} + multiset(s)
    decreases |s|
  {
    if s != [] && !Less(s[0], x) {
      InsertMultiset(x, s[1..]);
      assert s == [s[0]] + s[1..];
    }
  }

  lemma {:induction false} InsertDescending(x: string, s: seq<string>)
    requires Descending(s)
    ensures Descending(Insert(x, s))
    decreases |s|
  {
    if s == [] {
    } else if Less(s[0], x) {
      var t := [x] + s;
      forall i, j | 0 <= i < j < |t| ensures !Less(t[i], t[j]) {
        if i == 0 {
          if j == 1 {
            LessAsymmetric(s[0], x);
          } else if Less(x, t[j]) {
            assert t[j] == s[j - 1];
            LessTransitive(s[0], x, t[j]);
          }
        } else {
          assert t[i] == s[i - 1] && t[j] == s[j - 1];
        }
      }
    } else {
      var rest := s[1..];
      assert Descending(rest) by {
        forall i, j | 0 <= i < j < |rest| ensures !Less(rest[i], rest[j]) {
          assert rest[i] == s[i + 1] && rest[j] == s[j + 1];
        }
      }
      InsertDescending(x, rest);
      InsertMultiset(x, rest);
      var u := Insert(x, rest);
      var t := [s[0]] + u;
      forall i, j | 0 <= i < j < |t| ensures !Less(t[i], t[j]) {
        if i == 0 {
          var y := t[j];
          assert y in multiset(u);
          if y != x {
            assert y in multiset(rest);
            var k :| 0 <= k < |rest| && rest[k] == y;
            assert s[k + 1] == y;
          }
        } else {
          assert t[i] == u[i - 1] && t[j] == u[j - 1];
        }
      }
    }
  }

  /** `SortDesc` rearranges its input, and only rearranges it, into
      descending order. */
  lemma {:induction false} SortDescCorrect(s: seq<string>)
    ensures multiset(SortDesc(s)) == multiset(s)
    ensures Descending(SortDesc(s))
    decreases |s|
  {
    if s != [] {
      var sorted := SortDesc(s[1..]);
      assert SortDesc(s) == Insert(s[0], sorted);
      SortDescCorrect(s[1..]);
      assert multiset(SortDesc(s)) == multiset(s) by {
        InsertMultiset(s[0], sorted);
        assert s == [s[0]] + s[1..];
      }
      InsertDescending(s[0], sorted);
    }
  }

  /** The dates of a grouping in the order they are shown (line 59). */
  function DisplayDates(g: Transactions): seq<string> {
    SortDesc(Keys(g))
  }

  /** The dates of a grouping are shown newest first, each exactly once:
      `arrived_at` starts with an ISO date, so the string order is the
      calendar order. */
  lemma DisplayDatesOrder(results: seq<AnnotationResult>)
    ensures multiset(DisplayDates(Group(results))) == multiset(Keys(Group(results)))
    ensures StrictlyDescending(DisplayDates(Group(results)))
  {
    var g := Group(results);
    var s := DisplayDates(g);
    FoldWellFormed(Entries(results));
    SortDescCorrect(Keys(g));
    forall i, j | 0 <= i < j < |s| ensures Less(s[j], s[i]) {
      DistinctMultiset(Keys(g), s, i, j);
      LessTotal(s[i], s[j]);
    }
  }

  /** A permutation of a sequence of distinct elements has no repeats. */
  lemma DistinctMultiset<T>(ks: seq<T>, s: seq<T>, i: nat, j: nat)
    requires Distinct(ks) && multiset(s) == multiset(ks)
    requires i < j < |s|
    ensures s[i] != s[j]
  {
    if s[i] == s[j] {
      var x := s[i];
      assert multiset(s)[x] >= 2 by {
        assert s == s[..i] + [x] + s[i + 1..j] + [x] + s[j + 1..];
      }
      DistinctCount(ks, x);
      assert false;
    }
  }

  lemma {:induction false} DistinctCount<T>(ks: seq<T>, x: T)
    requires Distinct(ks)
    ensures multiset(ks)[x] <= 1
    decreases |ks|
  {
    if ks != [] {
      var rest := ks[1..];
      assert ks == [ks[0]] + rest;
      DistinctTail(ks);
      DistinctCount(rest, x);
      if x == ks[0] {
        assert x !in rest;
      }
    }
  }

  /** A date is shown exactly when some placed result carries it. */
  lemma DisplayDatesMembers(results: seq<AnnotationResult>, date: string)
    ensures date in DisplayDates(Group(results)) <==>
            exists r :: r in results && Placed(r) && DateKey(r.arrivedAt) == date
  {
    SortDescCorrect(Keys(Group(results)));
    assert date in DisplayDates(Group(results)) <==> date in multiset(Keys(Group(results)));
    GroupDates(results, date);
  }

  // ---------------------------------------------------------------------
  // The page

  /** What is shown for one store: a table of its items, or the placeholder. */
  datatype Body = Table(rows: seq<Record>) | NoItemsFound

  datatype StoreBlock = StoreBlock(store: StoreKey, body: Body)

  datatype DateBlock = DateBlock(date: string, stores: seq<StoreBlock>)

  /** Lines 59-73: for each date, newest first, and each store of it in
      insertion order, show the items, or "No items found" when the store's
      list is empty. */
  method Render(g: Transactions) returns (page: seq<DateBlock>)
    ensures |page| == |DisplayDates(g)|
    ensures forall i :: 0 <= i < |page| ==>
              page[i].date == DisplayDates(g)[i] && Shows(page[i].stores, StoresAt(g, DisplayDates(g)[i]))
  {
    var dates := SortDesc(Keys(g));
    SortDescCorrect(Keys(g));
    page := [];
    var i := 0;
    while i < |dates|
      invariant 0 <= i <= |dates|
      invariant |page| == i
      invariant forall k :: 0 <= k < i ==> page[k].date == dates[k] && Shows(page[k].stores, StoresAt(g, dates[k]))
    {
      var date := dates[i];
      assert date in multiset(Keys(g));
      var stores := Lookup(g, date);
      var blocks := ShowStores(stores);
      page := page + [DateBlock(date, blocks)];
      i := i + 1;
    }
  }

  /** Lines 62-73: one block per store of a date, in insertion order. */
  method ShowStores(stores: seq<(StoreKey, seq<Record>)>) returns (blocks: seq<StoreBlock>)
    ensures Shows(blocks, stores)
  {
    blocks := [];
    var j := 0;
    while j < |stores|
      invariant 0 <= j <= |stores|
      invariant |blocks| == j
      invariant forall k :: 0 <= k < j ==> Shown(blocks[k], stores[k])
    {
      var (storeName, items) := stores[j];
      if items != [] {
        blocks := blocks + [StoreBlock(storeName, Table(items))];
      } else {
        blocks := blocks + [StoreBlock(storeName, NoItemsFound)];
      }
      j := j + 1;
    }
  }

  /** `block` shows the store and the items of `entry`. */
  predicate Shown(block: StoreBlock, entry: (StoreKey, seq<Record>)) {
    && block.store == entry.0
    && (block.body == NoItemsFound <==> entry.1 == [])
    && (entry.1 != [] ==> block.body == Table(entry.1))
  }

  /** `blocks` show the stores of one date, one block per store, in order. */
  predicate Shows(blocks: seq<StoreBlock>, stores: seq<(StoreKey, seq<Record>)>) {
    |blocks| == |stores| && forall j :: 0 <= j < |stores| ==> Shown(blocks[j], stores[j])
  }
}
