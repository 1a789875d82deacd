/** What the wrapping 32-bit weights cost. Below 2^33 the built tree is optimal; at 2^33 there are tables where it is
    not,
    and above it tables where an early join wraps and the tree is optimal all the same. */
module HuffmanOverflow {
  import opened Huffman
  import opened HuffmanOptimal
  import opened Words

  const HALF: nat := 0x8000_0000
  const UNIT: nat := 0x2000_0000

  // ----- Merging the light trees down to one -----

  /** The list once at most m trees are left. */
  function Down(list: seq<Entry>, m: nat): (l: seq<Entry>)
    requires m >= 1
    decreases |list|
  {
    if |list| <= m then list
    else
      InsertLength(Joined(list[0], list[1]), list[2..]);
      Down(InsertSorted(Joined(list[0], list[1]), list[2..]), m)
  }

  lemma {:induction false} DownMerges(list: seq<Entry>, m: nat)
    requires |list| >= m >= 1
    ensures |Down(list, m)| == m && MergeAll(Down(list, m)) == MergeAll(list)
    ensures m >= 4 && NoEarlyWrap(list) ==> NoEarlyWrap(Down(list, m))
    decreases |list|
  {
    if |list| > m {
      var e, rest := Joined(list[0], list[1]), list[2..];
      InsertLength(e, rest);
      DownMerges(InsertSorted(e, rest), m);
    }
  }

  lemma {:induction false} InsertBefore(x: nat, ws: seq<nat>, tail: seq<nat>)
    requires tail != [] ==> x <= tail[0]
    ensures InsertWeight(x, ws + tail) == InsertWeight(x, ws) + tail
  {
    if ws == [] {
      assert ws + tail == tail;
    } else {
      assert (ws + tail)[1..] == ws[1..] + tail;
      InsertBefore(x, ws[1..], tail);
    }
  }

  /** Light trees in front of trees that are each as heavy as all of them are merged to one before anything else. */
  lemma {:induction false} LightFirst(list: seq<Entry>, w: seq<nat>, small: seq<nat>, tail: seq<nat>)
    requires Weighed(list, w) && Weights(list) == small + tail && small != []
    requires Sum(small) < TWO32 && (tail != [] ==> Sum(small) <= tail[0])
    ensures var l := Down(list, 1 + |tail|);
            && Weighed(l, w) && Weights(l) == [Sum(small)] + tail
            && ForestCost(l, w) + GreedyCost(Weights(l)) == ForestCost(list, w) + GreedyCost(Weights(list))
    decreases |list|
  {
    hide Weighed, ForestCost, Weights, InsertWeight, InsertSorted;
    if |small| == 1 {
      assert small == [small[0]] && Sum(small) == small[0] + Sum(small[1..]);
    } else {
      var e, rest := Joined(list[0], list[1]), list[2..];
      SumTwo(small);
      WeightsRest(list);
      assert (small + tail)[0] == small[0] && (small + tail)[1] == small[1] && (small + tail)[2..] == small[2..] + tail;
      FirstTwo(list, w);
      InsertEffect(e, rest, w);
      InsertProjects(e, rest);
      InsertLength(e, rest);
      InsertBefore(e.weight, small[2..], tail);
      InsertWeightSum(e.weight, small[2..]);
      LightFirst(InsertSorted(e, rest), w, InsertWeight(e.weight, small[2..]), tail);
    }
  }

  // ----- Sorting -----

  function SortWeights(ws: seq<nat>): (r: seq<nat>)
    ensures |r| == |ws|
  {
    if ws == [] then [] else InsertWeight(ws[0], SortWeights(ws[1..]))
  }

  lemma {:induction false} SortWeightsSorts(ws: seq<nat>)
    ensures Sorted(SortWeights(ws)) && multiset(SortWeights(ws)) == multiset(ws)
  {
    if ws != [] {
      SortWeightsSorts(ws[1..]);
      InsertWeightSorted(ws[0], SortWeights(ws[1..]));
      InsertWeightMultiset(ws[0], SortWeights(ws[1..]));
      assert ws == [ws[0]] + ws[1..];
    }
  }

  lemma {:induction false} SortedUnique(a: seq<nat>, b: seq<nat>)
    requires Sorted(a) && Sorted(b) && multiset(a) == multiset(b)
    ensures a == b
  {
    hide Sorted;
    SameSize(a, b);
    if a != [] {
      AllAtLeast(a, b);
      AllAtLeast(b, a);
      SameRest(a, b);
      SortedTail(a);
      SortedTail(b);
      SortedUnique(a[1..], b[1..]);
      HeadAndTail(a, b);
    }
  }

  lemma SameRest(a: seq<nat>, b: seq<nat>)
    requires |a| == |b| >= 1 && a[0] == b[0] && multiset(a) == multiset(b)
    ensures multiset(a[1..]) == multiset(b[1..])
  {
    RemoveAt(a, 0, b);
    assert a[..0] + a[1..] == a[1..];
  }

  lemma HeadAndTail(a: seq<nat>, b: seq<nat>)
    requires |a| == |b| >= 1 && a[0] == b[0] && a[1..] == b[1..]
    ensures a == b
  {
    assert a == [a[0]] + a[1..] && b == [b[0]] + b[1..];
  }

  lemma SortedTail(ws: seq<nat>)
    requires Sorted(ws) && ws != []
    ensures Sorted(ws[1..])
  {
  }

  lemma {:induction false} PartBelowSum(ws: seq<nat>)
    ensures forall i :: 0 <= i < |ws| ==> ws[i] <= Sum(ws)
  {
    if ws != [] { PartBelowSum(ws[1..]); }
  }

  /** Sorted weights, of which some are together no heavier than each of the others, which are all alike. */
  lemma LightInFront(ws: seq<nat>, small: seq<nat>, tail: seq<nat>, heavy: nat)
    requires Sorted(ws) && multiset(ws) == multiset(small + tail) && Sum(small) <= heavy
    requires forall i :: 0 <= i < |tail| ==> tail[i] == heavy
    ensures ws == SortWeights(small) + tail && Sum(SortWeights(small)) == Sum(small)
  {
    var front := SortWeights(small);
    SortWeightsSorts(small);
    MultisetSum(front, small);
    PartBelowSum(front);
    assert Sorted(front + tail);
    SortedUnique(ws, front + tail);
  }

  /** The leaf list of such a table, merged down until one light tree is left. */
  lemma TableDown(freq: seq<nat>, small: seq<nat>, tail: seq<nat>, heavy: nat) returns (l: seq<Entry>)
    requires multiset(AdjustedAll(freq)) == multiset(small + tail) && small != [] && tail != []
    requires Sum(small) <= heavy < TWO32 && forall i :: 0 <= i < |tail| ==> tail[i] == heavy
    ensures |freq| == |small| + |tail| && l == Down(LeafList(freq, |freq|), 1 + |tail|) && |l| == 1 + |tail|
    ensures MergeAll(l) == Build(freq) && Weighed(l, AdjustedAll(freq)) && Weights(l) == [Sum(small)] + tail
    ensures ForestCost(l, AdjustedAll(freq)) + GreedyCost(Weights(l)) == GreedyCost(Weights(LeafList(freq, |freq|)))
    ensures |tail| >= 3 && NoEarlyWrap(LeafList(freq, |freq|)) ==> NoEarlyWrap(l)
  {
    hide Weighed, ForestCost, Weights, LeafList, Down, MergeAll, NoEarlyWrap, Sorted;
    var w, n := AdjustedAll(freq), |freq|;
    SameSize(w, small + tail);
    LeafListLength(freq, n);
    LeafListWeighed(freq, n);
    LeafListWeights(freq, n);
    assert w[..n] == w;
    LightInFront(Weights(LeafList(freq, n)), small, tail, heavy);
    LightFirst(LeafList(freq, n), w, SortWeights(small), tail);
    DownMerges(LeafList(freq, n), 1 + |tail|);
    l := Down(LeafList(freq, n), 1 + |tail|);
  }

  // ----- At 2^33 -----

  /** Four trees of weight 2^31: the first join seems to weigh nothing, so the merge makes a chain. */
  lemma FourMerge(a: Entry, b: Entry, c: Entry, d: Entry)
    requires a.weight == HALF && b.weight == HALF && c.weight == HALF && d.weight == HALF
    ensures MergeAll([a, b, c, d]) == Fork(Fork(Fork(a.tree, b.tree), c.tree), d.tree)
  {
    hide MergeAll;
    var p := Joined(a, b);
    var q := Joined(p, c);
    assert p.weight == 0 && q.weight == HALF;
    assert InsertSorted(p, [c, d]) == [p, c, d] && InsertSorted(q, [d]) == [q, d];
    MergeStep(a, b, [c, d], [p, c, d]);
    MergeStep(p, c, [d], [q, d]);
    MergeStep(q, d, [], [Joined(q, d)]);
    assert [a, b] + [c, d] == [a, b, c, d] && [p, c] + [d] == [p, c, d] && [q, d] + [] == [q, d];
    MergeOne(Joined(q, d));
  }

  lemma MergeStep(a: Entry, b: Entry, rest: seq<Entry>, next: seq<Entry>)
    requires next == InsertSorted(Joined(a, b), rest) && |next| >= 1
    ensures MergeAll([a, b] + rest) == MergeAll(next)
  {
    assert ([a, b] + rest)[2..] == rest;
  }

  lemma MergeOne(e: Entry)
    ensures MergeAll([e]) == e.tree
  {}

  /** The chain costs 2^31 more than the square of the same four trees, which has the same leaves. */
  lemma FourCosts(a: Entry, b: Entry, c: Entry, d: Entry, w: seq<nat>)
    requires Weighed([a, b, c, d], w)
    requires a.weight == HALF && b.weight == HALF && c.weight == HALF && d.weight == HALF
    ensures var chain := Fork(Fork(Fork(a.tree, b.tree), c.tree), d.tree);
            var square := Fork(Fork(a.tree, b.tree), Fork(c.tree, d.tree));
            && Leaves(square) == Leaves(chain) && Fits(square, w) && Fits(chain, w)
            && Cost(chain, w) == Cost(square, w) + HALF
  {
    EachWeighed(a, b, c, d, w);
    SameLeaves(a.tree, b.tree, c.tree, d.tree);
    hide Weighed, Cost, Weight, Fits, Leaves;
    ForkCost(a.tree, b.tree, w);
    ForkCost(c.tree, d.tree, w);
    ForkCost(Fork(a.tree, b.tree), c.tree, w);
    ForkCost(Fork(Fork(a.tree, b.tree), c.tree), d.tree, w);
    ForkCost(Fork(a.tree, b.tree), Fork(c.tree, d.tree), w);
  }

  lemma EachWeighed(a: Entry, b: Entry, c: Entry, d: Entry, w: seq<nat>)
    requires Weighed([a, b, c, d], w)
    ensures Fits(a.tree, w) && a.weight == Weight(a.tree, w) && Fits(b.tree, w) && b.weight == Weight(b.tree, w)
    ensures Fits(c.tree, w) && c.weight == Weight(c.tree, w) && Fits(d.tree, w) && d.weight == Weight(d.tree, w)
  {
    hide Fits, Weight;
    var l := [a, b, c, d];
    assert l[0] == a && l[1] == b && l[2] == c && l[3] == d;
  }

  lemma SameLeaves(a: Tree, b: Tree, c: Tree, d: Tree)
    ensures Leaves(Fork(Fork(a, b), Fork(c, d))) == Leaves(Fork(Fork(Fork(a, b), c), d))
  {
    assert Leaves(a) + Leaves(b) + (Leaves(c) + Leaves(d)) == Leaves(a) + Leaves(b) + Leaves(c) + Leaves(d);
  }

  /** Every table whose weights are three times 2^31 and others that make 2^31 together, so that all sum to 2^33, gets a
      tree that is not optimal. */
  lemma HeavyTablesLose(freq: seq<nat>, small: seq<nat>)
    requires multiset(AdjustedAll(freq)) == multiset(small + [HALF, HALF, HALF]) && Sum(small) == HALF
    ensures Sum(AdjustedAll(freq)) == 2 * TWO32 && |freq| >= 1
    ensures TreeOver(Build(freq), |freq|) && Fits(Build(freq), AdjustedAll(freq))
    ensures exists t :: TreeOver(t, |freq|) && Fits(t, AdjustedAll(freq))
                        && Cost(Build(freq), AdjustedAll(freq)) == Cost(t, AdjustedAll(freq)) + HALF
  {
    hide Cost, Fits, Weighed, ForestCost, LeafList, Build, MergeAll, GreedyCost, Leaves, NoEarlyWrap;
    var w, tail := AdjustedAll(freq), [HALF, HALF, HALF];
    MultisetSum(w, small + tail);
    SumConcat(small, tail);
    SumThree(HALF);
    var l := TableDown(freq, small, tail, HALF);
    WeightsAt(l);
    var a, b, c, d := l[0], l[1], l[2], l[3];
    assert l == [a, b, c, d];
    FourMerge(a, b, c, d);
    FourCosts(a, b, c, d, w);
    BuildCompetes(freq);
    var square := Fork(Fork(a.tree, b.tree), Fork(c.tree, d.tree));
    assert TreeOver(square, |freq|);
  }

  lemma SumThree(h: nat)
    ensures Sum([h, h, h]) == 3 * h
  {
    assert [h, h, h][1..] == [h, h] && [h, h][1..] == [h] && [h][1..] == [];
    assert Sum([h]) == h && Sum([h, h]) == 2 * h;
  }

  function Ones(n: nat): (s: seq<nat>)
    ensures |s| == n
  {
    seq(n, _ => 1)
  }

  lemma {:induction false} SumOnes(n: nat)
    ensures Sum(Ones(n)) == n
  {
    if n > 0 {
      SumOnes(n - 1);
      assert Ones(n)[1..] == Ones(n - 1);
    }
  }

  lemma SumLight(n: nat, last: nat)
    ensures Sum(Ones(n) + [last]) == n + last
  {
    SumOnes(n);
    SumConcat(Ones(n), [last]);
    assert Sum([last]) == last + Sum([last][1..]);
  }

  /** 252 counts of one, one of 2^31 - 252, and three of 2^31. */
  function HeavyTable(): (freq: seq<nat>)
    ensures |freq| == 256
  {
    Ones(252) + [HALF - 252] + [HALF, HALF, HALF]
  }

  /** So the bound in Optimal cannot be raised: a table of 256 counts that sum to 2^33 exactly gets a tree that costs
      2^31
      more than another. */
  lemma OverflowLosesOptimality()
    ensures var freq := HeavyTable();
            && Sum(AdjustedAll(freq)) == 2 * TWO32 && (forall c :: 0 <= c < 256 ==> freq[c] < TWO32)
            && TreeOver(Build(freq), 256) && Fits(Build(freq), AdjustedAll(freq))
            && exists t :: TreeOver(t, 256) && Fits(t, AdjustedAll(freq))
                           && Cost(Build(freq), AdjustedAll(freq)) == Cost(t, AdjustedAll(freq)) + HALF
  {
    hide Cost, Fits, Build, TreeOver;
    var freq := HeavyTable();
    SumLight(252, HALF - 252);
    assert AdjustedAll(freq) == freq;
    HeavyTablesLose(freq, Ones(252) + [HALF - 252]);
  }

  // ----- An early wrap that does no harm -----

  /** Trees of 3, 6, 6, 6 and 6 units of 2^29: the first join wraps, yet the merge makes an optimal tree. */
  lemma FiveMerge(a: Entry, b: Entry, c: Entry, d: Entry, e: Entry)
    requires a.weight == 3 * UNIT && b.weight == 6 * UNIT && c.weight == 6 * UNIT && d.weight == 6 * UNIT
             && e.weight == 6 * UNIT
    ensures MergeAll([a, b, c, d, e]) == Fork(Fork(d.tree, e.tree), Fork(Fork(a.tree, b.tree), c.tree))
    ensures !NoEarlyWrap([a, b, c, d, e])
  {
    hide MergeAll;
    var p := Joined(a, b);
    var q := Joined(p, c);
    var r := Joined(d, e);
    assert p.weight == UNIT && q.weight == 7 * UNIT && r.weight == 4 * UNIT;
    assert InsertSorted(p, [c, d, e]) == [p, c, d, e];
    assert [d, e][1..] == [e] && [e][1..] == [] && InsertSorted(q, []) == [q] && InsertSorted(q, [e]) == [e, q];
    assert InsertSorted(q, [d, e]) == [d, e, q] && InsertSorted(r, [q]) == [r, q];
    MergeStep(a, b, [c, d, e], [p, c, d, e]);
    MergeStep(p, c, [d, e], [d, e, q]);
    MergeStep(d, e, [q], [r, q]);
    MergeStep(r, q, [], [Joined(r, q)]);
    assert [a, b] + [c, d, e] == [a, b, c, d, e] && [p, c] + [d, e] == [p, c, d, e];
    assert [d, e] + [q] == [d, e, q] && [r, q] + [] == [r, q];
    MergeOne(Joined(r, q));
  }

  lemma FiveCosts(a: Entry, b: Entry, c: Entry, d: Entry, e: Entry, w: seq<nat>)
    requires Weighed([a, b, c, d, e], w)
    requires a.weight == 3 * UNIT && b.weight == 6 * UNIT && c.weight == 6 * UNIT && d.weight == 6 * UNIT
             && e.weight == 6 * UNIT
    ensures var t := Fork(Fork(d.tree, e.tree), Fork(Fork(a.tree, b.tree), c.tree));
            Fits(t, w) && Cost(t, w) == ForestCost([a, b, c, d, e], w) + 63 * UNIT
  {
    hide Cost, Weight, Fits, ForestCost;
    var l := [a, b, c, d, e];
    assert l[0] == a && l[1] == b && l[2] == c && l[3] == d && l[4] == e;
    ForestFive(a, b, c, d, e, w);
    ForkCost(a.tree, b.tree, w);
    ForkCost(Fork(a.tree, b.tree), c.tree, w);
    ForkCost(d.tree, e.tree, w);
    ForkCost(Fork(d.tree, e.tree), Fork(Fork(a.tree, b.tree), c.tree), w);
  }

  lemma ForestFive(a: Entry, b: Entry, c: Entry, d: Entry, e: Entry, w: seq<nat>)
    requires Fits(a.tree, w) && Fits(b.tree, w) && Fits(c.tree, w) && Fits(d.tree, w) && Fits(e.tree, w)
    ensures ForestCost([a, b, c, d, e], w)
         == Cost(a.tree, w) + Cost(b.tree, w) + Cost(c.tree, w) + Cost(d.tree, w) + Cost(e.tree, w)
  {
    hide Cost, Fits;
    ForestThree(c, d, e, w);
    assert [a, b, c, d, e][1..] == [b, c, d, e] && [b, c, d, e][1..] == [c, d, e];
    assert ForestCost([b, c, d, e], w) == Cost(b.tree, w) + ForestCost([c, d, e], w);
  }

  lemma GreedyFive()
    ensures GreedyCost([3 * UNIT] + [6 * UNIT, 6 * UNIT, 6 * UNIT, 6 * UNIT]) == 63 * UNIT
  {
    hide GreedyCost;
    var six := 6 * UNIT;
    GreedyStep(3 * UNIT, six, [six, six, six], [six, six, six, 9 * UNIT]) by {
      assert [six, six, six][1..] == [six, six] && [six, six][1..] == [six] && [six][1..] == [];
      assert InsertWeight(9 * UNIT, []) == [9 * UNIT] && InsertWeight(9 * UNIT, [six]) == [six, 9 * UNIT];
      assert InsertWeight(9 * UNIT, [six, six]) == [six, six, 9 * UNIT];
    }
    GreedyStep(six, six, [six, 9 * UNIT], [six, 9 * UNIT, 12 * UNIT]) by {
      assert [six, 9 * UNIT][1..] == [9 * UNIT] && [9 * UNIT][1..] == [];
      assert InsertWeight(12 * UNIT, []) == [12 * UNIT] && InsertWeight(12 * UNIT, [9 * UNIT]) == [9 * UNIT, 12 * UNIT];
    }
    GreedyThree(six, 9 * UNIT, 12 * UNIT);
    assert [3 * UNIT] + [six, six, six, six] == [3 * UNIT, six] + [six, six, six];
    assert [six, six, six, 9 * UNIT] == [six, six] + [six, 9 * UNIT];
  }

  lemma GreedyStep(x: nat, y: nat, rest: seq<nat>, next: seq<nat>)
    requires next == InsertWeight(x + y, rest)
    ensures GreedyCost([x, y] + rest) == x + y + GreedyCost(next)
  {
    assert ([x, y] + rest)[2..] == rest;
  }

  /** 251 counts of one, one of 3 * 2^29 - 251, and four of 6 * 2^29. */
  function LuckyTable(): (freq: seq<nat>)
    ensures |freq| == 256
  {
    Ones(251) + [3 * UNIT - 251] + [6 * UNIT, 6 * UNIT, 6 * UNIT, 6 * UNIT]
  }

  /** The converse of OptimalWithoutEarlyWrap fails: an early join of this table wraps, and no tree is cheaper. */
  lemma EarlyWrapMayBeOptimal(t: Tree)
    requires TreeOver(t, 256)
    ensures var freq := LuckyTable();
            && !NoEarlyWrap(LeafList(freq, 256)) && Fits(t, AdjustedAll(freq)) && Fits(Build(freq), AdjustedAll(freq))
            && Cost(Build(freq), AdjustedAll(freq)) <= Cost(t, AdjustedAll(freq))
  {
    hide Cost, Fits, Weighed, ForestCost, LeafList, Build, MergeAll, GreedyCost, NoEarlyWrap, TreeOver;
    var freq, small := LuckyTable(), Ones(251) + [3 * UNIT - 251];
    var tail := [6 * UNIT, 6 * UNIT, 6 * UNIT, 6 * UNIT];
    var w := AdjustedAll(freq);
    SumLight(251, 3 * UNIT - 251);
    assert w == freq;
    var l := TableDown(freq, small, tail, 6 * UNIT);
    WeightsAt(l);
    var a, b, c, d, e := l[0], l[1], l[2], l[3], l[4];
    assert l == [a, b, c, d, e];
    FiveMerge(a, b, c, d, e);
    FiveCosts(a, b, c, d, e, w);
    GreedyFive();
    GreedyBelow(freq, t);
  }
}
