/** Grouping slots by block for the block listing: one group per distinct
    block value, each sorted by closing time, ties in input order. */
module Utils {
  import Sorting

  /** A slot as the grouping reads it: its block and its closing time. */
  datatype SlotRow = SlotRow(id: nat, block: int, endsAt: int)

  function EndsAt(s: SlotRow): int {
    s.endsAt
  }

  function InBlock(b: int): SlotRow -> bool {
    (s: SlotRow) => s.block == b
  }

  function Blocks(slots: seq<SlotRow>): set<int> {
    set s | s in slots :: s.block
  }

  /** The slots of each block in input order: the dictionary after the
      first loop. */
  function Collected(slots: seq<SlotRow>): map<int, seq<SlotRow>> {
    map b | b in Blocks(slots) :: Sorting.Filter(slots, InBlock(b))
  }

  /** The dictionary the grouping returns. */
  function Groups(slots: seq<SlotRow>): map<int, seq<SlotRow>> {
    map b | b in Blocks(slots) :: Sorting.SortBy(Sorting.Filter(slots, InBlock(b)), EndsAt)
  }

  /** The dictionary the first loop builds, one slot at a time: the slot
      is appended to the list of its block, which is created empty when
      the block is new. */
  function Appending(slots: seq<SlotRow>): map<int, seq<SlotRow>>
    decreases |slots|
  {
    if slots == [] then map[]
    else
      var before, x := Appending(slots[..|slots| - 1]), slots[|slots| - 1];
      before[x.block := (if x.block in before then before[x.block] else []) + [x]]
  }

  /** Building the dictionary slot by slot collects each block's slots in
      input order, under exactly the blocks that occur. */
  lemma {:induction false} AppendingCollects(slots: seq<SlotRow>)
    ensures Appending(slots) == Collected(slots)
    decreases |slots|
  {
    if slots != [] {
      var n := |slots| - 1;
      assert slots[..n + 1] == slots;
      AppendingCollects(slots[..n]);
      CollectStep(slots, n);
    }
  }

  /** One step of the first loop: the slot is appended to the list of its
      block, which is created empty when the block is new. */
  lemma CollectStep(slots: seq<SlotRow>, i: nat)
    requires i < |slots|
    ensures var b := slots[i].block;
            var before := Collected(slots[..i]);
            Collected(slots[..i + 1]) == before[b := (if b in before then before[b] else []) + [slots[i]]]
  {
    var x, prefix := slots[i], slots[..i];
    assert slots[..i + 1] == prefix + [x];
    var before := Collected(prefix);
    var after := Collected(prefix + [x]);
    var expected := before[x.block := (if x.block in before then before[x.block] else []) + [x]];
    assert Blocks(prefix + [x]) == Blocks(prefix) + {x.block};
    forall c | c in after
      ensures after[c] == expected[c]
    {
      Sorting.FilterSnoc(prefix, x, InBlock(c));
      if c == x.block && c !in before {
        Sorting.FilterNone(prefix, InBlock(c));
      }
    }
    assert after == expected;
  }

  /** One step of the first loop on the key order: a block met for the
      first time goes to the end. */
  lemma OrderStep(slots: seq<SlotRow>, i: nat, order: seq<int>, isNew: bool)
    requires i < |slots| && order == BlockOrder(slots[..i])
    requires isNew <==> slots[i].block !in Appending(slots[..i])
    ensures BlockOrder(slots[..i + 1]) == if isNew then order + [slots[i].block] else order
  {
    AppendingCollects(slots[..i]);
    assert slots[..i + 1][..i] == slots[..i];
    BlockOrderFacts(slots[..i]);
  }

  /** group_slots_by_block: collect, then sort each group. The dictionary
      is returned with its key order, the order in which the page lists
      the blocks. */
  method GroupSlotsByBlock(slots: seq<SlotRow>) returns (groups: map<int, seq<SlotRow>>, order: seq<int>)
    ensures groups == Groups(slots)
    ensures order == BlockOrder(slots)
  {
    groups, order := Collect(slots);
    groups := SortEach(slots, groups);
  }

  /** The first loop: each slot is appended to the list of its block, and
      a new block is added at the end of the key order. */
  method Collect(slots: seq<SlotRow>) returns (groups: map<int, seq<SlotRow>>, order: seq<int>)
    ensures groups == Collected(slots)
    ensures order == BlockOrder(slots)
  {
    groups, order := map[], [];
    var i := 0;
    while i < |slots|
      invariant 0 <= i <= |slots|
      invariant groups == Appending(slots[..i])
      invariant order == BlockOrder(slots[..i])
    {
      var slot := slots[i];
      var isNew := slot.block !in groups;
      assert slots[..i + 1][..i] == slots[..i];
      OrderStep(slots, i, order, isNew);
      if isNew {
        groups := groups[slot.block := []];
        order := order + [slot.block];
      }
      groups := groups[slot.block := groups[slot.block] + [slot]];
      i := i + 1;
    }
    assert slots[..i] == slots;
    AppendingCollects(slots);
  }

  /** The dictionary part way through the second loop: the entries whose
      keys are still in todo are unsorted. */
  function PartlySorted(collected: map<int, seq<SlotRow>>, todo: set<int>): map<int, seq<SlotRow>> {
    map b | b in collected :: if b in todo then collected[b] else Sorting.SortBy(collected[b], EndsAt)
  }

  lemma SortOne(collected: map<int, seq<SlotRow>>, todo: set<int>, b: int)
    requires b in todo && b in collected
    ensures PartlySorted(collected, todo)[b := Sorting.SortBy(collected[b], EndsAt)]
            == PartlySorted(collected, todo - {b})
  {
  }

  lemma AllSorted(slots: seq<SlotRow>)
    ensures PartlySorted(Collected(slots), {}) == Groups(slots)
  {
  }

  /** The second loop: every entry is replaced by its sorted list. */
  method SortEach(slots: seq<SlotRow>, collected: map<int, seq<SlotRow>>) returns (groups: map<int, seq<SlotRow>>)
    requires collected == Collected(slots)
    ensures groups == Groups(slots)
  {
    groups := collected;
    var todo := collected.Keys;
    assert groups == PartlySorted(collected, todo);
    while todo != {}
      invariant todo <= collected.Keys
      invariant groups == PartlySorted(collected, todo)
      decreases todo
    {
      var b :| b in todo;
      SortOne(collected, todo, b);
      groups := groups[b := Sorting.SortBy(groups[b], EndsAt)];
      todo := todo - {b};
    }
    AllSorted(slots);
  }

  /** Every slot is in the group of its own block and in no other; each
      group holds exactly the slots of its block, sorted by closing time,
      with slots closing at the same time in input order. */
  lemma GroupFacts(slots: seq<SlotRow>, b: int)
    requires b in Blocks(slots)
    ensures forall x :: x in Groups(slots)[b] <==> x in slots && x.block == b
    ensures multiset(Groups(slots)[b]) == multiset(Sorting.Filter(slots, InBlock(b)))
    ensures Sorting.SortedBy(Groups(slots)[b], EndsAt)
    ensures forall t :: Sorting.WithKey(Groups(slots)[b], EndsAt, t)
                        == Sorting.WithKey(Sorting.Filter(slots, InBlock(b)), EndsAt, t)
  {
    var f := Sorting.Filter(slots, InBlock(b));
    Sorting.SortByFacts(f, EndsAt);
    Sorting.FilterMembers(slots, InBlock(b));
    forall x ensures x in Groups(slots)[b] <==> x in f {
      assert x in Groups(slots)[b] <==> x in multiset(Groups(slots)[b]);
      assert x in f <==> x in multiset(f);
    }
  }

  /** The group keys are exactly the blocks that occur. */
  lemma GroupKeys(slots: seq<SlotRow>)
    ensures forall b :: b in Groups(slots) <==> exists i :: 0 <= i < |slots| && slots[i].block == b
  {
    forall b | b in Groups(slots)
      ensures exists i :: 0 <= i < |slots| && slots[i].block == b
    {
      var s :| s in slots && s.block == b;
      var i :| 0 <= i < |slots| && slots[i] == s;
    }
    forall b | exists i :: 0 <= i < |slots| && slots[i].block == b
      ensures b in Groups(slots)
    {
      var i :| 0 <= i < |slots| && slots[i].block == b;
      assert slots[i] in slots;
    }
  }

  // ----- The group sizes add up -----

  /** The blocks in order of first appearance: the key order of the
      dictionary. */
  function BlockOrder(slots: seq<SlotRow>): seq<int>
    decreases |slots|
  {
    if slots == [] then []
    else
      var r := BlockOrder(slots[..|slots| - 1]);
      if slots[|slots| - 1].block in r then r else r + [slots[|slots| - 1].block]
  }

  /** The key order lists exactly the blocks that occur, each once. */
  lemma {:induction false} BlockOrderFacts(slots: seq<SlotRow>)
    ensures forall b :: b in BlockOrder(slots) <==> b in Blocks(slots)
    ensures forall i, j :: 0 <= i < j < |BlockOrder(slots)| ==> BlockOrder(slots)[i] != BlockOrder(slots)[j]
    decreases |slots|
  {
    if slots != [] {
      var prefix, last := slots[..|slots| - 1], slots[|slots| - 1];
      BlockOrderFacts(prefix);
      assert slots == prefix + [last];
      assert Blocks(slots) == Blocks(prefix) + {last.block};
    }
  }

  /** The total size of the groups listed in keys. */
  function SizeSum(groups: map<int, seq<SlotRow>>, keys: seq<int>): nat
    decreases |keys|
  {
    if keys == [] then 0
    else (if keys[0] in groups then |groups[keys[0]]| else 0) + SizeSum(groups, keys[1..])
  }

  /** The number of slots of each block in keys, added up. */
  function Sizes(slots: seq<SlotRow>, keys: seq<int>): nat
    decreases |keys|
  {
    if keys == [] then 0 else |Sorting.Filter(slots, InBlock(keys[0]))| + Sizes(slots, keys[1..])
  }

  lemma {:induction false} SizesCons(x: SlotRow, t: seq<SlotRow>, keys: seq<int>)
    requires forall i, j :: 0 <= i < j < |keys| ==> keys[i] != keys[j]
    ensures Sizes([x] + t, keys) == Sizes(t, keys) + (if x.block in keys then 1 else 0)
    decreases |keys|
  {
    if keys != [] {
      SizesCons(x, t, keys[1..]);
      assert ([x] + t)[1..] == t;
      if x.block == keys[0] {
        assert x.block !in keys[1..];
      }
      assert x.block in keys <==> x.block == keys[0] || x.block in keys[1..];
    }
  }

  lemma {:induction false} SizesTotal(slots: seq<SlotRow>, keys: seq<int>)
    requires forall i, j :: 0 <= i < j < |keys| ==> keys[i] != keys[j]
    requires forall s :: s in slots ==> s.block in keys
    ensures Sizes(slots, keys) == |slots|
    decreases |slots|
  {
    if slots == [] {
      EmptySizes(keys);
    } else {
      assert slots == [slots[0]] + slots[1..];
      SizesTotal(slots[1..], keys);
      SizesCons(slots[0], slots[1..], keys);
    }
  }

  lemma {:induction false} EmptySizes(keys: seq<int>)
    ensures Sizes([], keys) == 0
    decreases |keys|
  {
    if keys != [] {
      EmptySizes(keys[1..]);
    }
  }

  lemma {:induction false} GroupSizes(slots: seq<SlotRow>, keys: seq<int>)
    requires forall i :: 0 <= i < |keys| ==> keys[i] in Blocks(slots)
    ensures SizeSum(Groups(slots), keys) == Sizes(slots, keys)
    decreases |keys|
  {
    if keys != [] {
      GroupSizes(slots, keys[1..]);
    }
  }

  /** The group sizes add up to the number of slots. */
  lemma GroupSizesAddUp(slots: seq<SlotRow>)
    ensures SizeSum(Groups(slots), BlockOrder(slots)) == |slots|
  {
    var keys := BlockOrder(slots);
    BlockOrderFacts(slots);
    GroupSizes(slots, keys);
    assert forall s :: s in slots ==> s.block in Blocks(slots);
    SizesTotal(slots, keys);
  }
}
