/** Small worked examples of the store rule and of bucket accumulation. */
module Examples {
  import opened Options
  import opened Rossum
  import opened Receipt
  import opened AssocList
  import opened Buckets

  /** A `store_name` child without a value names the store "Unknown Store". */
  lemma UnknownStoreExample()
    ensures StoreKeyOf([Node(Some(BasicInfoSection), None, None, [Node(Some(StoreNameId), None, None, [])])]) ==
            Some(UnknownStore)
  {
    var child := Node(Some(StoreNameId), None, None, []);
    var section := Node(Some(BasicInfoSection), None, None, [child]);
    assert [section][..0] == [] && [child][..0] == [];
    assert StoreChildrenOf([child]) == [child];
    assert StoreChildren([section]) == [child];
  }

  /** A `basic_info_section` without a `store_name` child leaves the store `None`,
      a different key from "Unknown Store". */
  lemma NoStoreExample()
    ensures StoreKeyOf([Node(Some(BasicInfoSection), None, None, [])]) == None
  {
    var section := Node(Some(BasicInfoSection), None, None, []);
    assert [section][..0] == [];
    assert StoreChildren([section]) == [];
  }

  /** Two contributions for the same date and store accumulate in order; a
      third with no items still creates its store, after the first. */
  lemma AccumulateExample<D, S, I>(date: D, store: S, other: S, x: I, y: I)
    requires store != other
    ensures Fold([Entry(date, store, [x]), Entry(date, store, [y]), Entry(date, other, [])]) ==
            [(date, [(store, [x, y]), (other, [])])]
  {
    var none: seq<I> := [];
    var e1, e2, e3 := Entry(date, store, [x]), Entry(date, store, [y]), Entry(date, other, none);
    assert [] + [e1] == [e1] && [e1] + [e2] == [e1, e2] && [e1, e2] + [e3] == [e1, e2, e3];
    var g1: Nest<D, S, I> := [(date, [(store, [x])])];
    var g2: Nest<D, S, I> := [(date, [(store, [x, y])])];
    assert Fold([e1]) == g1 by {
      FoldSnoc([], e1);
      FirstStep(date, store, x);
    }
    assert Fold([e1, e2]) == g2 by {
      FoldSnoc([e1], e2);
      SecondStep(date, store, x, y);
    }
    FoldSnoc([e1, e2], e3);
    ThirdStep(date, store, other, x, y);
  }

  /** The first contribution creates the date and the store. */
  lemma FirstStep<D, S, I>(date: D, store: S, x: I)
    ensures Extend([], date, store, [x]) == [(date, [(store, [x])])]
  {
    var none: seq<I> := [];
    assert none + [x] == [x];
  }

  /** A second contribution to the same store appends to its list. */
  lemma SecondStep<D, S, I>(date: D, store: S, x: I, y: I)
    ensures Extend([(date, [(store, [x])])], date, store, [y]) == [(date, [(store, [x, y])])]
  {
    var s1: Inner<S, I> := [(store, [x])];
    var s2: Inner<S, I> := [(store, [x, y])];
    var g1: Nest<D, S, I> := [(date, s1)];
    assert StoresAt(g1, date) == s1;
    assert Find(s1, store) == Some([x]);
    var v := [x] + [y];
    assert v == [x, y];
    assert s1[1..] == [] && g1[1..] == [];
    assert Put(s1, store, v) == [(store, v)] + s1[1..];
    assert [(store, v)] + s1[1..] == s2;
    assert Put(g1, date, s2) == [(date, s2)] + g1[1..];
  }

  /** A contribution without items to a new store still creates it, last. */
  lemma ThirdStep<D, S, I>(date: D, store: S, other: S, x: I, y: I)
    requires store != other
    ensures Extend([(date, [(store, [x, y])])], date, other, []) ==
            [(date, [(store, [x, y]), (other, [])])]
  {
    var none: seq<I> := [];
    var s2: Inner<S, I> := [(store, [x, y])];
    var s3: Inner<S, I> := [(store, [x, y]), (other, none)];
    var g2: Nest<D, S, I> := [(date, s2)];
    assert StoresAt(g2, date) == s2;
    assert Find(s2, other) == None;
    assert Put(s2, other, none) == s3 by {
      PutFresh(s2, other, none);
      assert s2 + [(other, none)] == s3;
    }
    assert none + none == none;
    assert Extend(g2, date, other, none) == Put(g2, date, s3);
    assert g2[1..] == [];
    assert Put(g2, date, s3) == [(date, s3)] + g2[1..];
  }
}
