/** Which leaf and which side comes first: the order that makes the code of DS_HuffmanEncodingTree.cpp the same on both
    ends of a connection. */
module HuffmanOrder {
  import opened Huffman
  import opened HuffmanOptimal
  import opened HuffmanSize
  import opened Words

  // ----- Equal counts -----

  /** a comes before b: it is lighter, or as light and its symbol is greater. */
  predicate Precedes(a: Entry, b: Entry) {
    && a.tree.Leaf? && b.tree.Leaf?
    && (a.weight < b.weight || (a.weight == b.weight && a.tree.symbol > b.tree.symbol))
  }

  ghost predicate InOrder(list: seq<Entry>) { forall i, j :: 0 <= i < j < |list| ==> Precedes(list[i], list[j]) }

  lemma {:induction false} InsertInOrder(e: Entry, list: seq<Entry>)
    requires e.tree.Leaf? && InOrder(list)
    requires forall i :: 0 <= i < |list| ==> list[i].tree.Leaf? && list[i].tree.symbol < e.tree.symbol
    ensures InOrder(InsertSorted(e, list))
    ensures forall x :: x in InsertSorted(e, list) ==> x == e || x in list
  {
    if list != [] && list[0].weight < e.weight {
      var rest := InsertSorted(e, list[1..]);
      InsertInOrder(e, list[1..]);
      assert forall x :: x in rest ==> Precedes(list[0], x);
    }
  }

  /** The leaves stand by weight, those of equal weight with the greater byte value first. */
  lemma {:induction false} LeavesInOrder(freq: seq<nat>, k: nat)
    requires k <= |freq|
    ensures InOrder(LeafList(freq, k))
    ensures forall x :: x in LeafList(freq, k) ==>
              && x.tree.Leaf? && x.tree.symbol < k
              && x.weight == if freq[x.tree.symbol] == 0 then 1 else freq[x.tree.symbol]
  {
    if k > 0 {
      LeavesInOrder(freq, k - 1);
      InsertInOrder(Entry(Adjusted(freq[k - 1]), Leaf(k - 1)), LeafList(freq, k - 1));
    }
  }

  // ----- The lighter side -----

  /** At every branch the left side is no heavier than the right one. */
  ghost predicate LightLeft(t: Tree, w: seq<nat>) {
    t.Fork? ==>
      && Fits(t.left, w) && Fits(t.right, w) && Weight(t.left, w) <= Weight(t.right, w)
      && LightLeft(t.left, w) && LightLeft(t.right, w)
  }

  ghost predicate AllLightLeft(list: seq<Entry>, w: seq<nat>) {
    forall x :: x in list ==> LightLeft(x.tree, w)
  }

  lemma {:induction false} InsertLightLeft(e: Entry, list: seq<Entry>, w: seq<nat>)
    requires AllLightLeft(list, w) && LightLeft(e.tree, w)
    ensures AllLightLeft(InsertSorted(e, list), w)
  {
    hide LightLeft;
    if list != [] && list[0].weight < e.weight {
      InsertLightLeft(e, list[1..], w);
    }
  }

  lemma {:induction false} MergeLightLeft(list: seq<Entry>, w: seq<nat>)
    requires |list| >= 1 && Weighed(list, w) && Sorted(Weights(list)) && Sum(Weights(list)) < TWO32
    requires AllLightLeft(list, w)
    ensures Fits(MergeAll(list), w) && LightLeft(MergeAll(list), w)
    decreases |list|
  {
    hide Weighed, Sorted, Weights, Sum, AllLightLeft, LightLeft, Fits, InsertSorted, Joined;
    if |list| == 1 {
      OnlyOne(list, w);
    } else {
      var e, rest := Joined(list[0], list[1]), list[2..];
      JoinLight(list, w);
      InsertEffect(e, rest, w);
      InsertProjects(e, rest);
      InsertLength(e, rest);
      InsertWeightSorted(e.weight, Weights(rest));
      InsertWeightSum(e.weight, Weights(rest));
      InsertLightLeft(e, rest, w);
      MergeLightLeft(InsertSorted(e, rest), w);
    }
  }

  lemma OnlyOne(list: seq<Entry>, w: seq<nat>)
    requires |list| == 1 && Weighed(list, w) && AllLightLeft(list, w)
    ensures Fits(list[0].tree, w) && LightLeft(list[0].tree, w)
  {}

  /** Joining the two lightest. */
  lemma JoinLight(list: seq<Entry>, w: seq<nat>)
    requires |list| >= 2 && Weighed(list, w) && Sorted(Weights(list)) && Sum(Weights(list)) < TWO32
    requires AllLightLeft(list, w)
    ensures var e, rest := Joined(list[0], list[1]), list[2..];
            && Weighed(rest, w) && Fits(e.tree, w) && e.weight == Weight(e.tree, w) && Sorted(Weights(rest))
            && Sum(Weights(rest)) + e.weight == Sum(Weights(list)) && AllLightLeft(rest, w) && LightLeft(e.tree, w)
  {
    hide Weights, Sum, Weight, Fits;
    WeightsRest(list);
    SumTwo(Weights(list));
    FirstTwo(list, w);
    SortedRest(Weights(list));
  }

  /** With weights summing below 2^32, so that none wraps, the tree built has its lighter sides on the left. */
  lemma BuildLightLeft(freq: seq<nat>)
    requires |freq| >= 1 && Sum(AdjustedAll(freq)) < TWO32
    ensures Fits(Build(freq), AdjustedAll(freq)) && LightLeft(Build(freq), AdjustedAll(freq))
  {
    hide Sum, Sorted, Weights, AdjustedAll, Weighed, Fits, LightLeft, AllLightLeft;
    var n, w := |freq|, AdjustedAll(freq);
    LeafListLength(freq, n);
    LeafListWeighed(freq, n);
    LeafListWeights(freq, n);
    assert w[..n] == w;
    MultisetSum(Weights(LeafList(freq, n)), w);
    LeavesInOrder(freq, n);
    LeavesLightLeft(LeafList(freq, n), w);
    MergeLightLeft(LeafList(freq, n), w);
  }

  lemma LeavesLightLeft(list: seq<Entry>, w: seq<nat>)
    requires forall x :: x in list ==> x.tree.Leaf?
    ensures AllLightLeft(list, w)
  {}

  // ----- In terms of the code -----

  /** The symbols whose code words begin with p. */
  function Carriers(t: Tree, p: seq<bool>): (s: set<nat>)
    ensures s <= Symbols(t)
  {
    set c | c in Symbols(t) && p <= Code(t, c)
  }

  /** The weight of the symbols below n that lie in s. */
  function WeightOf(s: set<nat>, w: seq<nat>, n: nat): nat
    requires n <= |w|
  {
    if n == 0 then 0 else WeightOf(s, w, n - 1) + if n - 1 in s then w[n - 1] else 0
  }

  lemma {:induction false} WeightOfUnion(a: set<nat>, b: set<nat>, w: seq<nat>, n: nat)
    requires n <= |w| && a !! b
    ensures WeightOf(a + b, w, n) == WeightOf(a, w, n) + WeightOf(b, w, n)
  {
    if n > 0 { WeightOfUnion(a, b, w, n - 1); }
  }

  lemma {:induction false} WeightOfOne(c: nat, w: seq<nat>, n: nat)
    requires n <= |w|
    ensures WeightOf({c}, w, n) == if c < n then w[c] else 0
  {
    if n > 0 { WeightOfOne(c, w, n - 1); }
  }

  lemma {:induction false} WeightOfSymbols(t: Tree, w: seq<nat>)
    requires Proper(t) && Fits(t, w)
    ensures WeightOf(Symbols(t), w, |w|) == Weight(t, w)
  {
    match t
    case Leaf(c) =>
      LeafWeight(c, w);
      WeightOfOne(c, w, |w|);
    case Fork(l, r) =>
      FitsParts(l, r, w);
      WeightOfSymbols(l, w);
      WeightOfSymbols(r, w);
      WeightOfUnion(Symbols(l), Symbols(r), w, |w|);
      ForkCost(l, r, w);
  }

  lemma CarriersBelow(l: Tree, r: Tree, b: bool, p: seq<bool>)
    requires Symbols(l) !! Symbols(r)
    ensures Carriers(Fork(l, r), [b] + p) == Carriers(if b then r else l, p)
  {
    var t, side := Fork(l, r), if b then r else l;
    forall c | c in Symbols(t)
      ensures [b] + p <= Code(t, c) <==> c in Symbols(side) && p <= Code(side, c)
    {
      var code := Code(t, c);
      assert code == [code[0]] + code[1..];
      assert [b] + p <= code <==> b == code[0] && p <= code[1..];
    }
  }

  lemma AllCarry(t: Tree)
    ensures Carriers(t, []) == Symbols(t)
  {}

  /** Whatever the bits read so far, the symbols that go on with a zero weigh no more than those that go on with a
      one. */
  lemma {:induction false} ZeroSideLighter(t: Tree, w: seq<nat>, p: seq<bool>)
    requires Proper(t) && Fits(t, w) && LightLeft(t, w)
    ensures WeightOf(Carriers(t, p + [false]), w, |w|) <= WeightOf(Carriers(t, p + [true]), w, |w|)
    decreases t
  {
    hide Carriers, WeightOf, Weight, Fits;
    if t.Leaf? {
      NothingCarries(t.symbol, p, w);
    } else if p == [] {
      CarriersBelow(t.left, t.right, false, []);
      CarriersBelow(t.left, t.right, true, []);
      assert [] + [false] == [false] + [] && [] + [true] == [true] + [];
      AllCarry(t.left);
      AllCarry(t.right);
      WeightOfSymbols(t.left, w);
      WeightOfSymbols(t.right, w);
    } else {
      CarriersBelow(t.left, t.right, p[0], p[1..] + [false]);
      CarriersBelow(t.left, t.right, p[0], p[1..] + [true]);
      assert p + [false] == [p[0]] + (p[1..] + [false]) && p + [true] == [p[0]] + (p[1..] + [true]);
      ZeroSideLighter(if p[0] then t.right else t.left, w, p[1..]);
    }
  }

  lemma {:induction false} NothingCarries(c: nat, p: seq<bool>, w: seq<nat>)
    ensures WeightOf(Carriers(Leaf(c), p + [false]), w, |w|) == 0
  {
    assert Carriers(Leaf(c), p + [false]) == {};
    WeightOfNothing(w, |w|);
  }

  lemma {:induction false} WeightOfNothing(w: seq<nat>, n: nat)
    requires n <= |w|
    ensures WeightOf({}, w, n) == 0
  {
    if n > 0 { WeightOfNothing(w, n - 1); }
  }

  /** For every table that sums below 2^32. */
  lemma BuildZeroSideLighter(freq: seq<nat>, p: seq<bool>)
    requires |freq| >= 1 && Sum(AdjustedAll(freq)) < TWO32
    ensures var t, w := Build(freq), AdjustedAll(freq);
            WeightOf(Carriers(t, p + [false]), w, |freq|) <= WeightOf(Carriers(t, p + [true]), w, |freq|)
  {
    hide Build, Carriers, WeightOf, LightLeft, Fits;
    BuildProper(freq);
    BuildLightLeft(freq);
    ZeroSideLighter(Build(freq), AdjustedAll(freq), p);
  }
}
