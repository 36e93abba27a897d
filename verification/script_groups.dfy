/** The majority-block partitioner: the local-part's code points grouped by
    normalized Unicode block (`map`), the election of the majority block and
    the set of the code points of every other block
    (`eliminateFirstAndGetCodePoints`). */
module ScriptGroups {
  import opened Utf16
  import opened Wrappers
  import opened UnicodeBlocks

  /** `Character.UnicodeBlock.of`, left uninterpreted. */
  type Classifier = CodePoint -> Block

  /** The `HashMap<UnicodeBlock, List<String>>` built by `map`. Each list holds
      the string forms of code points; `ToChars` is injective
      (`Utf16.ToCharsInjective`), so the code points themselves stand for them. */
  type Groups = map<Block, seq<CodePoint>>

  /** The group a code point is filed under. */
  function Key(classify: Classifier, cp: CodePoint): Block
  {
    Normalize(classify(cp))
  }

  /** The code points of `cps` filed under `b`, in their order in `cps`,
      duplicates kept. */
  function Filter(classify: Classifier, cps: seq<CodePoint>, b: Block): (r: seq<CodePoint>)
    ensures |r| <= |cps|
    ensures forall c :: c in r ==> c in cps && Key(classify, c) == b
  {
    if cps == [] then []
    else
      var c := cps[|cps| - 1];
      Filter(classify, cps[..|cps| - 1], b) + (if Key(classify, c) == b then [c] else [])
  }

  /** What `map` builds after walking `cps`: each code point is added at the
      end of its block's group, and a group is created when its block first
      occurs. */
  function Partition(classify: Classifier, cps: seq<CodePoint>): Groups
  {
    if cps == [] then map[]
    else
      var g, c := Partition(classify, cps[..|cps| - 1]), cps[|cps| - 1];
      var k := Key(classify, c);
      g[k := (if k in g then g[k] else []) + [c]]
  }

  /** Each occurrence of a code point is counted in its own block's group and
      in no other. */
  lemma {:induction false} FilterCount(classify: Classifier, cps: seq<CodePoint>, b: Block, c: CodePoint)
    ensures multiset(Filter(classify, cps, b))[c] == if Key(classify, c) == b then multiset(cps)[c] else 0
  {
    if cps != [] {
      var init, last := cps[..|cps| - 1], cps[|cps| - 1];
      FilterCount(classify, init, b, c);
      assert cps == init + [last];
      assert multiset(cps) == multiset(init) + multiset{last};
      assert Filter(classify, cps, b) == Filter(classify, init, b) + (if Key(classify, last) == b then [last] else []);
    }
  }

  /** The map built step by step agrees with the direct description: a block
      has a group exactly when some code point of it occurs, and its group
      is the in-order list of that block's code points. */
  lemma {:induction false} PartitionIsFilter(classify: Classifier, cps: seq<CodePoint>, b: Block)
    ensures b in Partition(classify, cps) <==> Filter(classify, cps, b) != []
    ensures b in Partition(classify, cps) ==> Partition(classify, cps)[b] == Filter(classify, cps, b)
  {
    if cps != [] {
      PartitionIsFilter(classify, cps[..|cps| - 1], b);
    }
  }

  /** Every code point of the local-part lands in exactly the group of its
      normalized block, and each group keeps all its duplicates. */
  lemma PartitionPlacesEach(classify: Classifier, cps: seq<CodePoint>)
    ensures forall c :: c in cps ==>
      Key(classify, c) in Partition(classify, cps) && c in Partition(classify, cps)[Key(classify, c)]
    ensures forall b, c :: b in Partition(classify, cps) && c in Partition(classify, cps)[b] ==>
      c in cps && Key(classify, c) == b
    ensures forall b, c :: b in Partition(classify, cps) && Key(classify, c) == b ==>
      multiset(Partition(classify, cps)[b])[c] == multiset(cps)[c]
  {
    var g := Partition(classify, cps);
    forall c | c in cps ensures Key(classify, c) in g && c in g[Key(classify, c)] {
      FilterCount(classify, cps, Key(classify, c), c);
      PartitionIsFilter(classify, cps, Key(classify, c));
    }
    forall b, c | b in g && c in g[b] ensures c in cps && Key(classify, c) == b {
      PartitionIsFilter(classify, cps, b);
    }
    forall b, c | b in g && Key(classify, c) == b ensures multiset(g[b])[c] == multiset(cps)[c] {
      FilterCount(classify, cps, b, c);
      PartitionIsFilter(classify, cps, b);
    }
  }

  /** No group is empty, and there are no groups at all exactly when the
      local-part is empty. */
  lemma PartitionGroupsNonEmpty(classify: Classifier, cps: seq<CodePoint>)
    ensures forall b :: b in Partition(classify, cps) ==> Partition(classify, cps)[b] != []
    ensures Partition(classify, cps) == map[] <==> cps == []
  {
    var g := Partition(classify, cps);
    forall b | b in g ensures g[b] != [] {
      PartitionIsFilter(classify, cps, b);
    }
  }

  /** Sum of the sizes of the groups named in `order`. */
  function SizeSum(groups: Groups, order: seq<Block>): nat
    requires forall b :: b in order ==> b in groups
  {
    if order == [] then 0
    else SizeSum(groups, order[..|order| - 1]) + |groups[order[|order| - 1]]|
  }

  /** Sum over `order` of the sizes of `Filter(cps, b)`. */
  function FilterSizeSum(classify: Classifier, cps: seq<CodePoint>, order: seq<Block>): nat
  {
    if order == [] then 0
    else FilterSizeSum(classify, cps, order[..|order| - 1]) + |Filter(classify, cps, order[|order| - 1])|
  }

  /** Number of times `b` occurs in `order`. */
  function CountOf(order: seq<Block>, b: Block): nat
  {
    if order == [] then 0
    else CountOf(order[..|order| - 1], b) + (if order[|order| - 1] == b then 1 else 0)
  }

  lemma {:induction false} CountOfDistinct(order: seq<Block>, b: Block)
    requires forall i, j :: 0 <= i < j < |order| ==> order[i] != order[j]
    ensures CountOf(order, b) == if b in order then 1 else 0
  {
    if order != [] {
      var init := order[..|order| - 1];
      CountOfDistinct(init, b);
      assert order == init + [order[|order| - 1]];
      if order[|order| - 1] == b {
        forall i | 0 <= i < |init| ensures init[i] != b {
          assert order[i] != order[|order| - 1];
        }
      }
    }
  }

  lemma {:induction false} FilterSizeSumSnoc(classify: Classifier, cps: seq<CodePoint>, c: CodePoint, order: seq<Block>)
    ensures FilterSizeSum(classify, cps + [c], order)
         == FilterSizeSum(classify, cps, order) + CountOf(order, Key(classify, c))
  {
    assert (cps + [c])[..|cps|] == cps;
    if order != [] {
      FilterSizeSumSnoc(classify, cps, c, order[..|order| - 1]);
    }
  }

  lemma {:induction false} FilterSizeSumCovers(classify: Classifier, cps: seq<CodePoint>, order: seq<Block>)
    requires forall i, j :: 0 <= i < j < |order| ==> order[i] != order[j]
    requires forall c :: c in cps ==> Key(classify, c) in order
    ensures FilterSizeSum(classify, cps, order) == |cps|
  {
    if cps == [] {
      FilterSizeSumOfEmpty(classify, order);
    } else {
      var init, last := cps[..|cps| - 1], cps[|cps| - 1];
      assert cps == init + [last];
      FilterSizeSumCovers(classify, init, order);
      FilterSizeSumSnoc(classify, init, last, order);
      CountOfDistinct(order, Key(classify, last));
    }
  }

  lemma {:induction false} FilterSizeSumOfEmpty(classify: Classifier, order: seq<Block>)
    ensures FilterSizeSum(classify, [], order) == 0
  {
    if order != [] {
      FilterSizeSumOfEmpty(classify, order[..|order| - 1]);
    }
  }

  lemma {:induction false} SizeSumOfPartition(classify: Classifier, cps: seq<CodePoint>, order: seq<Block>)
    requires forall b :: b in order ==> b in Partition(classify, cps)
    ensures SizeSum(Partition(classify, cps), order) == FilterSizeSum(classify, cps, order)
  {
    if order != [] {
      SizeSumOfPartition(classify, cps, order[..|order| - 1]);
      PartitionIsFilter(classify, cps, order[|order| - 1]);
    }
  }

  /** The group sizes add up to the number of code points of the local-part,
      whatever order the groups are visited in. */
  lemma PartitionSizesSum(classify: Classifier, cps: seq<CodePoint>, order: seq<Block>)
    requires Enumerates(order, Partition(classify, cps).Keys)
    ensures SizeSum(Partition(classify, cps), order) == |cps|
  {
    PartitionPlacesEach(classify, cps);
    SizeSumOfPartition(classify, cps, order);
    FilterSizeSumCovers(classify, cps, order);
  }

  /** The map `map` returns, built by walking the local-part code point by
      code point. */
  method MapLocal(classify: Classifier, local: Text) returns (groups: Groups)
    ensures groups == Partition(classify, CodePoints(local))
  {
    groups := map[];
    ghost var done: seq<CodePoint> := [];
    var length := |local|;
    var offset := 0;
    while offset < length
      invariant 0 <= offset <= length
      invariant !SplitsPair(local, offset)
      invariant CodePoints(local) == done + CodePointsFrom(local, offset)
      invariant groups == Partition(classify, done)
      decreases length - offset
    {
      var codePoint := CodePointAt(local, offset);
      var block := Normalize(classify(codePoint));
      var codePoints: seq<CodePoint>;
      if block in groups {
        codePoints := groups[block];
      } else {
        codePoints := [];
        groups := groups[block := codePoints];
      }
      // The list is shared with the map, so adding to it updates the entry.
      codePoints := codePoints + [codePoint];
      groups := groups[block := codePoints];
      PartitionSnoc(classify, done, codePoint, groups);
      StepKeepsBoundary(local, offset);
      WalkStep(local, offset, done, CodePoints(local));
      done := done + [codePoint];
      offset := offset + CharCount(codePoint);
    }
    WalkEnd(local, offset, done, CodePoints(local));
  }

  /** One step of `map`'s loop files the code point at the end of its
      block's group, creating the group when it is missing. */
  lemma PartitionSnoc(classify: Classifier, cps: seq<CodePoint>, c: CodePoint, next: Groups)
    requires var g, k := Partition(classify, cps), Key(classify, c);
      next == (if k in g then g else g[k := []])[k := (if k in g then g[k] else []) + [c]]
    ensures next == Partition(classify, cps + [c])
  {
    assert (cps + [c])[..|cps|] == cps;
  }

  /** The state `(block, size)` of the election loop after visiting the
      entries of `order`: the first strictly larger group replaces the
      current candidate, starting from BASIC_LATIN with size 0. */
  function Elect(groups: Groups, order: seq<Block>): (r: (Block, nat))
    requires forall b :: b in order ==> b in groups
    ensures forall i :: 0 <= i < |order| ==> |groups[order[i]]| <= r.1
    ensures r.1 == 0 ==> r.0 == BasicLatin
    ensures r.1 > 0 ==> r.0 in order && r.1 == |groups[r.0]|
  {
    if order == [] then (BasicLatin, 0)
    else
      var (block, size) := Elect(groups, order[..|order| - 1]);
      var entry := order[|order| - 1];
      if |groups[entry]| > size then (entry, |groups[entry]|) else (block, size)
  }

  /** The block `eliminateFirstAndGetCodePoints` removes. */
  function Majority(groups: Groups, order: seq<Block>): Block
    requires forall b :: b in order ==> b in groups
  {
    Elect(groups, order).0
  }

  /** Ties go to the group met first: when no group is empty, every group
      visited before the elected one is strictly smaller. */
  lemma {:induction false} ElectFirstMaximal(groups: Groups, order: seq<Block>, j: nat)
    requires forall b :: b in order ==> b in groups
    requires forall i, k :: 0 <= i < k < |order| ==> order[i] != order[k]
    requires forall b :: b in groups ==> groups[b] != []
    requires j < |order| && order[j] == Majority(groups, order)
    ensures forall i :: 0 <= i < j ==> |groups[order[i]]| < |groups[order[j]]|
  {
    var init := order[..|order| - 1];
    var (block, size) := Elect(groups, init);
    var entry := order[|order| - 1];
    if |groups[entry]| <= size && j < |order| - 1 {
      ElectFirstMaximal(groups, init, j);
    }
  }

  /** For a non-empty map without empty groups the elected block is one of
      its keys, and no group is larger. */
  lemma MajorityIsPresent(groups: Groups, order: seq<Block>)
    requires Enumerates(order, groups.Keys)
    requires groups != map[] && forall b :: b in groups ==> groups[b] != []
    ensures Majority(groups, order) in groups
    ensures forall b :: b in groups ==> |groups[b]| <= |groups[Majority(groups, order)]|
  {
    var b :| b in groups;
    var i :| 0 <= i < |order| && order[i] == b;
    assert |groups[order[i]]| > 0;
  }

  /** A group strictly larger than every other is elected whatever the
      iteration order. */
  lemma UniqueMaximumWins(groups: Groups, order: seq<Block>, k: Block)
    requires Enumerates(order, groups.Keys)
    requires k in groups && groups[k] != []
    requires forall b :: b in groups && b != k ==> |groups[b]| < |groups[k]|
    ensures Majority(groups, order) == k
  {
    var i :| 0 <= i < |order| && order[i] == k;
    assert |groups[order[i]]| > 0;
  }

  /** The code points of all groups of `g`, de-duplicated. */
  function Members(g: Groups): set<CodePoint>
  {
    set b, c | b in g && c in g[b] :: c
  }

  /** One round of the election loop, stated on prefixes of the order. */
  lemma ElectStep(groups: Groups, order: seq<Block>, i: nat)
    requires forall b :: b in order ==> b in groups
    requires i < |order|
    ensures var (block, size) := Elect(groups, order[..i]);
      Elect(groups, order[..i + 1])
        == if |groups[order[i]]| > size then (order[i], |groups[order[i]]|) else (block, size)
  {
    assert order[..i + 1][..i] == order[..i];
  }

  /** The elements of a list, as `Set.addAll` adds them. */
  function Elements(list: seq<CodePoint>): (r: set<CodePoint>)
    ensures forall c :: c in r <==> c in list
  {
    set c | c in list
  }

  /** The set the `addAll` loop has built after visiting the entries of
      `order` that are keys of `g`. */
  function Collect(g: Groups, order: seq<Block>): set<CodePoint>
  {
    if order == [] then {}
    else
      var b := order[|order| - 1];
      Collect(g, order[..|order| - 1]) + if b in g then Elements(g[b]) else {}
  }

  /** Collecting along an order that visits every key gathers the code
      points of all groups and nothing else. */
  lemma {:induction false} CollectGathersMembers(g: Groups, order: seq<Block>, c: CodePoint)
    ensures c in Collect(g, order) <==> exists i :: 0 <= i < |order| && order[i] in g && c in g[order[i]]
  {
    if order != [] {
      var init := order[..|order| - 1];
      CollectGathersMembers(g, init, c);
      if c in Collect(g, init) {
        var i :| 0 <= i < |init| && init[i] in g && c in g[init[i]];
        assert order[i] == init[i];
      }
      if exists i :: 0 <= i < |order| && order[i] in g && c in g[order[i]] {
        var i :| 0 <= i < |order| && order[i] in g && c in g[order[i]];
        if i < |init| {
          assert init[i] == order[i];
        }
      }
    }
  }

  /** Collecting along an order that visits every key of `g` gives the code
      points of all its groups. */
  lemma CollectIsMembers(g: Groups, order: seq<Block>)
    requires forall b :: b in g ==> b in order
    ensures Collect(g, order) == Members(g)
  {
    forall c ensures c in Collect(g, order) <==> c in Members(g) {
      CollectGathersMembers(g, order, c);
      if c in Members(g) {
        var b :| b in g && c in g[b];
        var j :| 0 <= j < |order| && order[j] == b;
      }
    }
  }

  /** One round of the `addAll` loop, stated on prefixes of the order. */
  lemma CollectStep(g: Groups, order: seq<Block>, i: nat)
    requires i < |order|
    ensures Collect(g, order[..i + 1])
      == Collect(g, order[..i]) + if order[i] in g then Elements(g[order[i]]) else {}
  {
    assert order[..i + 1][..i] == order[..i];
  }

  /** What `eliminateFirstAndGetCodePoints` does to the map it is given and
      what it returns: it removes the majority group and collects the code
      points of the remaining groups. */
  method EliminateFirstAndGetCodePoints(groups: Groups, order: seq<Block>) returns (remaining: Groups, all: set<CodePoint>)
    requires Enumerates(order, groups.Keys)
    ensures remaining == groups - {Majority(groups, order)}
    ensures all == Members(remaining)
  {
    var block := BasicLatin;
    var size := 0;
    var i := 0;
    while i < |order|
      invariant 0 <= i <= |order|
      invariant (block, size) == Elect(groups, order[..i])
    {
      var entry := order[i];
      ElectStep(groups, order, i);
      if |groups[entry]| > size {
        size := |groups[entry]|;
        block := entry;
      }
      i := i + 1;
    }
    assert order[..i] == order;
    remaining := groups - {block};
    all := {};
    i := 0;
    while i < |order|
      invariant 0 <= i <= |order|
      invariant all == Collect(remaining, order[..i])
    {
      CollectStep(remaining, order, i);
      if order[i] in remaining {
        all := all + Elements(remaining[order[i]]);
      }
      i := i + 1;
    }
    assert order[..i] == order;
    CollectIsMembers(remaining, order);
  }

  /** The minority code points of a local-part: those of every group but
      the majority group. */
  function Minority(classify: Classifier, cps: seq<CodePoint>, order: seq<Block>): set<CodePoint>
    requires Enumerates(order, Partition(classify, cps).Keys)
  {
    var g := Partition(classify, cps);
    Members(g - {Majority(g, order)})
  }

  /** A code point of a group of `Partition(cps)` other than `m` occurs in
      `cps` under a block other than `m`. */
  lemma MinorityOnlyFromOtherBlocks(classify: Classifier, cps: seq<CodePoint>, m: Block, c: CodePoint)
    requires c in Members(Partition(classify, cps) - {m})
    ensures c in cps && Key(classify, c) != m
  {
    var rest := Partition(classify, cps) - {m};
    var b :| b in rest && c in rest[b];
    PartitionIsFilter(classify, cps, b);
  }

  /** Every code point of `cps` under a block other than `m` is in a group
      of `Partition(cps)` other than `m`. */
  lemma OtherBlocksInMinority(classify: Classifier, cps: seq<CodePoint>, m: Block, c: CodePoint)
    requires c in cps && Key(classify, c) != m
    ensures c in Members(Partition(classify, cps) - {m})
  {
    var b := Key(classify, c);
    FilterCount(classify, cps, b, c);
    assert c in multiset(Filter(classify, cps, b));
    PartitionIsFilter(classify, cps, b);
    var rest := Partition(classify, cps) - {m};
    assert b in rest && c in rest[b];
  }

  /** The minority set of a local-part: a code point is in it exactly when
      it occurs in the local-part and its block is not the majority block. */
  lemma MinorityIff(classify: Classifier, cps: seq<CodePoint>, order: seq<Block>, c: CodePoint)
    requires Enumerates(order, Partition(classify, cps).Keys)
    ensures c in Minority(classify, cps, order)
        <==> c in cps && Key(classify, c) != Majority(Partition(classify, cps), order)
  {
    var m := Majority(Partition(classify, cps), order);
    if c in Minority(classify, cps, order) {
      MinorityOnlyFromOtherBlocks(classify, cps, m, c);
    }
    if c in cps && Key(classify, c) != m {
      OtherBlocksInMinority(classify, cps, m, c);
    }
  }

  /** A non-empty local-part whose code points all belong to block `b` is
      partitioned into the one group of `b`. */
  lemma SingleBlockSingleGroup(classify: Classifier, cps: seq<CodePoint>, b: Block)
    requires cps != []
    requires forall c :: c in cps ==> Key(classify, c) == b
    ensures Partition(classify, cps).Keys == {b}
  {
    var g := Partition(classify, cps);
    forall k | k in g ensures k == b {
      PartitionIsFilter(classify, cps, k);
      assert Filter(classify, cps, k)[0] in Filter(classify, cps, k);
    }
    FilterCount(classify, cps, b, cps[0]);
    assert cps[0] in multiset(Filter(classify, cps, b));
    PartitionIsFilter(classify, cps, b);
  }

  /** A local-part whose code points all belong to one normalized block, or
      that is empty, has no minority code points. */
  lemma SingleBlockHasNoMinority(classify: Classifier, cps: seq<CodePoint>, order: seq<Block>, b: Block)
    requires Enumerates(order, Partition(classify, cps).Keys)
    requires forall c :: c in cps ==> Key(classify, c) == b
    ensures Minority(classify, cps, order) == {}
  {
    var g := Partition(classify, cps);
    if cps != [] {
      SingleBlockSingleGroup(classify, cps, b);
      PartitionGroupsNonEmpty(classify, cps);
      UniqueMaximumWins(g, order, b);
      assert g - {b} == map[];
    }
  }
}
