/** No binary tree over the same symbols is cheaper than the one built by merging the two lightest. */
module HuffmanOptimal {
  import opened Huffman
  import opened Words

  // ----- Cost of a tree -----

  /** The symbols from left to right. */
  function Leaves(t: Tree): seq<nat> {
    match t
    case Leaf(c) => [c]
    case Fork(l, r) => Leaves(l) + Leaves(r)
  }

  /** The depth of each leaf from left to right, when the root stands at depth d. */
  function Depths(t: Tree, d: nat): (ds: seq<nat>)
    ensures |ds| == |Leaves(t)| > 0
  {
    match t
    case Leaf(_) => [d]
    case Fork(l, r) => Depths(l, d + 1) + Depths(r, d + 1)
  }

  function Dot(ws: seq<nat>, ds: seq<nat>): nat
    requires |ws| == |ds|
  {
    if ws == [] then 0 else ws[0] * ds[0] + Dot(ws[1..], ds[1..])
  }

  function Select(w: seq<nat>, s: seq<nat>): (r: seq<nat>)
    requires forall i :: 0 <= i < |s| ==> s[i] < |w|
    ensures |r| == |s|
  {
    seq(|s|, i requires 0 <= i < |s| => w[s[i]])
  }

  ghost predicate Fits(t: Tree, w: seq<nat>) {
    forall i :: 0 <= i < |Leaves(t)| ==> Leaves(t)[i] < |w|
  }

  /** The sum over the leaves of weight times depth. */
  function Cost(t: Tree, w: seq<nat>): nat
    requires Fits(t, w)
  {
    Dot(Select(w, Leaves(t)), Depths(t, 0))
  }

  function Sum(ws: seq<nat>): nat {
    if ws == [] then 0 else ws[0] + Sum(ws[1..])
  }

  // ----- Arithmetic of Dot -----

  lemma {:induction false} DotConcat(a: seq<nat>, b: seq<nat>, da: seq<nat>, db: seq<nat>)
    requires |a| == |da| && |b| == |db|
    ensures Dot(a + b, da + db) == Dot(a, da) + Dot(b, db)
  {
    if a == [] {
      assert a + b == b && da + db == db;
    } else {
      assert (a + b)[1..] == a[1..] + b && (da + db)[1..] == da[1..] + db;
      DotConcat(a[1..], b, da[1..], db);
    }
  }

  function Gain(x: int, d: int): int { x * d }

  lemma {:induction false} DotUpdate(ws: seq<nat>, ds: seq<nat>, i: nat, x: nat)
    requires |ws| == |ds| && i < |ws|
    ensures Dot(ws[i := x], ds) == Dot(ws, ds) + Gain(x - ws[i], ds[i])
  {
    if i == 0 {
      assert ws[0 := x][1..] == ws[1..];
    } else {
      assert ws[i := x][1..] == ws[1..][i - 1 := x];
      DotUpdate(ws[1..], ds[1..], i - 1, x);
    }
  }

  function Swap(ws: seq<nat>, i: nat, j: nat): (r: seq<nat>)
    requires i < |ws| && j < |ws|
    ensures |r| == |ws|
  {
    ws[i := ws[j]][j := ws[i]]
  }

  /** Moving a weight no heavier down to a place no higher does not raise the cost. */
  lemma DotSwap(ws: seq<nat>, ds: seq<nat>, p: nat, i: nat)
    requires |ws| == |ds| && p < |ws| && i < |ws|
    requires ws[i] <= ws[p] && ds[i] <= ds[p]
    ensures Dot(Swap(ws, p, i), ds) <= Dot(ws, ds)
    ensures multiset(Swap(ws, p, i)) == multiset(ws)
  {
    hide Dot, Gain, Swap;
    SwapMultiset(ws, p, i);
    DotSwapBy(ws, ds, p, i);
    Rearrange(ws[i], ws[p], ds[i], ds[p]);
  }

  lemma MovedFirst(ws: seq<nat>, p: nat, i: nat) returns (moved: seq<nat>)
    requires p < |ws| && i < |ws|
    ensures moved == ws[p := ws[i]] && |moved| == |ws| && moved[i] == ws[i] && Swap(ws, p, i) == moved[i := ws[p]]
  {
    moved := ws[p := ws[i]];
  }

  lemma DotSwapBy(ws: seq<nat>, ds: seq<nat>, p: nat, i: nat)
    requires |ws| == |ds| && p < |ws| && i < |ws|
    ensures var x: int, y: int := ws[i], ws[p];
            Dot(Swap(ws, p, i), ds) == Dot(ws, ds) + Gain(x - y, ds[p]) + Gain(y - x, ds[i])
  {
    hide Dot, Gain, Swap;
    var moved := MovedFirst(ws, p, i);
    DotUpdate(ws, ds, p, ws[i]);
    DotUpdate(moved, ds, i, ws[p]);
  }

  lemma SwapMultiset(ws: seq<nat>, p: nat, i: nat)
    requires p < |ws| && i < |ws|
    ensures multiset(Swap(ws, p, i)) == multiset(ws)
  {}

  lemma Rearrange(x: int, y: int, dx: int, dy: int)
    requires x <= y && dx <= dy
    ensures Gain(x - y, dy) + Gain(y - x, dx) <= 0
  {
    assert (x - y) * dy + (y - x) * dx == (y - x) * (dx - dy);
  }

  lemma DotThree(a: seq<nat>, m: seq<nat>, b: seq<nat>, da: seq<nat>, dm: seq<nat>, db: seq<nat>)
    requires |a| == |da| && |m| == |dm| && |b| == |db|
    ensures Dot(a + m + b, da + dm + db) == Dot(a, da) + Dot(m, dm) + Dot(b, db)
  {
    DotConcat(a + m, b, da + dm, db);
    DotConcat(a, m, da, dm);
  }

  /** Replacing two siblings by one leaf of their joint weight, one level up. */
  lemma SplitPair(s: seq<nat>, p: nat)
    requires p + 1 < |s|
    ensures s == s[..p] + [s[p], s[p + 1]] + s[p + 2..]
  {}

  lemma DotContract(ws: seq<nat>, ds: seq<nat>, p: nat)
    requires |ws| == |ds| && p + 1 < |ws| && ds[p] == ds[p + 1] > 0
    ensures Dot(ws, ds) == Dot(ws[..p] + [ws[p] + ws[p + 1]] + ws[p + 2..], Contracted(ds, p)) + ws[p] + ws[p + 1]
  {
    hide Dot;
    var x, y, d := ws[p], ws[p + 1], ds[p];
    SplitPair(ws, p);
    SplitPair(ds, p);
    DotThree(ws[..p], [x, y], ws[p + 2..], ds[..p], [d, d], ds[p + 2..]);
    DotThree(ws[..p], [x + y], ws[p + 2..], ds[..p], [d - 1], ds[p + 2..]);
    PairCost(x, y, d);
  }

  lemma PairCost(x: nat, y: nat, d: nat)
    requires d > 0
    ensures Dot([x, y], [d, d]) == Dot([x + y], [d - 1]) + x + y
  {
    assert [x, y][1..] == [y] && [d, d][1..] == [d];
    assert Dot([y], [d]) == y * d + Dot([y][1..], [d][1..]) == y * d;
    assert Dot([x + y], [d - 1]) == (x + y) * (d - 1);
    assert (x + y) * (d - 1) == x * d + y * d - (x + y);
  }

  // ----- A deepest pair of siblings -----

  /** Positions p and p + 1 hold the greatest depth, and it is below the root's depth d. */
  ghost predicate DeepPair(ds: seq<nat>, d: nat, p: nat)
    ensures DeepPair(ds, d, p) ==> p + 1 < |ds| && ds[p] == ds[p + 1] > d
  {
    p + 1 < |ds| && ds[p] == ds[p + 1] > d && forall i :: 0 <= i < |ds| ==> ds[i] <= ds[p]
  }

  function Contracted(ds: seq<nat>, p: nat): seq<nat>
    requires p + 1 < |ds| && ds[p] > 0
  {
    ds[..p] + [ds[p] - 1] + ds[p + 2..]
  }

  /** Leaves p and p + 1 are siblings at the greatest depth, and t' is t with a leaf in their place. */
  lemma {:induction false} DeepestPair(t: Tree, d: nat) returns (p: nat, t': Tree)
    requires t.Fork?
    ensures DeepPair(Depths(t, d), d, p) && Depths(t', d) == Contracted(Depths(t, d), p)
  {
    hide DeepPair, Contracted;
    match t
    case Fork(l, r) =>
      var dl, dr := Depths(l, d + 1), Depths(r, d + 1);
      if l.Leaf? && r.Leaf? {
        p, t' := 0, Leaf(0);
        PairLeaves(d);
      } else {
        var pl, l', pr, r' := 0, l, 0, r;
        if l.Fork? { pl, l' := DeepestPair(l, d + 1); }
        if r.Fork? { pr, r' := DeepestPair(r, d + 1); }
        if r.Leaf? || (l.Fork? && dl[pl] >= dr[pr]) {
          p, t' := pl, Fork(l', r);
          PairLeft(dl, dr, d, pl, pr);
        } else {
          p, t' := |dl| + pr, Fork(l, r');
          PairRight(dl, dr, d, pr, pl);
        }
      }
  }

  lemma PairLeaves(d: nat)
    ensures DeepPair([d + 1] + [d + 1], d, 0) && Contracted([d + 1] + [d + 1], 0) == [d]
  {}

  lemma PairLeft(dl: seq<nat>, dr: seq<nat>, d: nat, p: nat, q: nat)
    requires DeepPair(dl, d + 1, p) && (dr == [d + 1] || (DeepPair(dr, d + 1, q) && dr[q] <= dl[p]))
    ensures DeepPair(dl + dr, d, p) && Contracted(dl + dr, p) == Contracted(dl, p) + dr
  {}

  lemma PairRight(dl: seq<nat>, dr: seq<nat>, d: nat, p: nat, q: nat)
    requires DeepPair(dr, d + 1, p) && (dl == [d + 1] || (DeepPair(dl, d + 1, q) && dl[q] <= dr[p]))
    ensures DeepPair(dl + dr, d, |dl| + p) && Contracted(dl + dr, |dl| + p) == dl + Contracted(dr, p)
  {
    assert (dl + dr)[|dl| + p + 2..] == dr[p + 2..];
    assert (dl + dr)[..|dl| + p] == dl + dr[..p];
  }

  // ----- The greedy cost -----

  function InsertWeight(x: nat, ws: seq<nat>): (r: seq<nat>)
    ensures |r| == |ws| + 1
  {
    if ws == [] || ws[0] >= x then [x] + ws else [ws[0]] + InsertWeight(x, ws[1..])
  }

  ghost predicate Sorted(ws: seq<nat>) {
    forall i, j :: 0 <= i < j < |ws| ==> ws[i] <= ws[j]
  }

  lemma {:induction false} InsertWeightMultiset(x: nat, ws: seq<nat>)
    ensures multiset(InsertWeight(x, ws)) == multiset(ws) + multiset{x}
  {
    if ws != [] && ws[0] < x {
      InsertWeightMultiset(x, ws[1..]);
      assert ws == [ws[0]] + ws[1..];
    }
  }

  lemma {:induction false} InsertWeightAtLeast(b: nat, x: nat, ws: seq<nat>)
    requires b <= x && forall i :: 0 <= i < |ws| ==> b <= ws[i]
    ensures forall i :: 0 <= i < |InsertWeight(x, ws)| ==> b <= InsertWeight(x, ws)[i]
  {
    if ws != [] && ws[0] < x { InsertWeightAtLeast(b, x, ws[1..]); }
  }

  lemma {:induction false} InsertWeightSorted(x: nat, ws: seq<nat>)
    requires Sorted(ws)
    ensures Sorted(InsertWeight(x, ws))
  {
    if ws != [] && ws[0] < x {
      InsertWeightSorted(x, ws[1..]);
      InsertWeightAtLeast(ws[0], x, ws[1..]);
    }
  }

  /** What merging the two lightest over and over adds up to. */
  function GreedyCost(ws: seq<nat>): nat
    decreases |ws|
  {
    if |ws| < 2 then 0 else ws[0] + ws[1] + GreedyCost(InsertWeight(ws[0] + ws[1], ws[2..]))
  }

  /** Any tree can be rearranged, at no extra cost, so that the two lightest weights are deepest siblings;
      joining them gives a tree over the merged weights. */
  lemma Exchange(t: Tree, ws: seq<nat>, sorted: seq<nat>) returns (t': Tree, ws': seq<nat>)
    requires t.Fork? && |ws| == |Leaves(t)| && multiset(ws) == multiset(sorted) && Sorted(sorted)
    ensures |ws'| == |Leaves(t')| == |ws| - 1 && |sorted| >= 2
    ensures multiset(ws') == multiset(sorted[2..]) + multiset{sorted[0] + sorted[1]}
    ensures Dot(ws', Depths(t', 0)) + sorted[0] + sorted[1] <= Dot(ws, Depths(t, 0))
  {
    var p: nat;
    var ds := Depths(t, 0);
    p, t' := DeepestPair(t, 0);
    SameSize(ws, sorted);
    var ws1 := PlaceFirst(ws, ds, p, sorted);
    var ws2 := PlaceSecond(ws1, ds, p, sorted);
    DotContract(ws2, ds, p);
    ws' := ws2[..p] + [sorted[0] + sorted[1]] + ws2[p + 2..];
    MergedMultiset(ws2, p, sorted);
  }

  lemma PlaceFirst(ws: seq<nat>, ds: seq<nat>, p: nat, sorted: seq<nat>) returns (ws': seq<nat>)
    requires |ws| == |ds| && DeepPair(ds, 0, p) && multiset(ws) == multiset(sorted) && Sorted(sorted) && sorted != []
    ensures |ws'| == |ws| && multiset(ws') == multiset(sorted) && Dot(ws', ds) <= Dot(ws, ds) && ws'[p] == sorted[0]
  {
    var i := Locate(ws, sorted[0], sorted);
    AllAtLeast(ws, sorted);
    DotSwap(ws, ds, p, i);
    ws' := Swap(ws, p, i);
  }

  lemma PlaceSecond(ws: seq<nat>, ds: seq<nat>, p: nat, sorted: seq<nat>) returns (ws': seq<nat>)
    requires |ws| == |ds| && DeepPair(ds, 0, p) && multiset(ws) == multiset(sorted) && Sorted(sorted)
    requires |sorted| >= 2 && ws[p] == sorted[0]
    ensures |ws'| == |ws| && multiset(ws') == multiset(sorted) && Dot(ws', ds) <= Dot(ws, ds)
    ensures ws'[p] == sorted[0] && ws'[p + 1] == sorted[1]
  {
    var j := LocateSecond(ws, p, sorted);
    RestAtLeast(ws, p, sorted, p + 1);
    DotSwap(ws, ds, p + 1, j);
    ws' := Swap(ws, p + 1, j);
  }

  lemma MergedMultiset(ws: seq<nat>, p: nat, sorted: seq<nat>)
    requires p + 1 < |ws| && |sorted| >= 2 && multiset(ws) == multiset(sorted)
    requires ws[p] == sorted[0] && ws[p + 1] == sorted[1]
    ensures multiset(ws[..p] + [sorted[0] + sorted[1]] + ws[p + 2..])
            == multiset(sorted[2..]) + multiset{sorted[0] + sorted[1]}
  {
    var pair := [sorted[0], sorted[1]];
    assert ws == ws[..p] + pair + ws[p + 2..];
    assert sorted == pair + sorted[2..];
    assert multiset(ws) - multiset(pair) == multiset(ws[..p]) + multiset(ws[p + 2..]);
    assert multiset(sorted) - multiset(pair) == multiset(sorted[2..]);
  }

  lemma SameSize(a: seq<nat>, b: seq<nat>)
    requires multiset(a) == multiset(b)
    ensures |a| == |b|
  {
    assert |multiset(a)| == |multiset(b)|;
  }

  lemma Locate(ws: seq<nat>, x: nat, s: seq<nat>) returns (i: nat)
    requires multiset(ws) == multiset(s) && x in s
    ensures i < |ws| && ws[i] == x
  {
    assert x in multiset(ws);
    i :| 0 <= i < |ws| && ws[i] == x;
  }

  lemma AllAtLeast(ws: seq<nat>, sorted: seq<nat>)
    requires multiset(ws) == multiset(sorted) && Sorted(sorted) && sorted != []
    ensures forall k :: 0 <= k < |ws| ==> sorted[0] <= ws[k]
  {
    forall k | 0 <= k < |ws|
      ensures sorted[0] <= ws[k]
    {
      assert ws[k] in multiset(sorted);
      assert ws[k] in sorted;
    }
  }

  lemma RemoveAt(ws: seq<nat>, p: nat, sorted: seq<nat>)
    requires p < |ws| && sorted != [] && ws[p] == sorted[0] && multiset(ws) == multiset(sorted)
    ensures multiset(ws[..p] + ws[p + 1..]) == multiset(sorted[1..])
  {
    assert ws == ws[..p] + [ws[p]] + ws[p + 1..];
    assert sorted == [sorted[0]] + sorted[1..];
    assert multiset(ws) - multiset{ws[p]} == multiset(ws[..p] + ws[p + 1..]);
    assert multiset(sorted) - multiset{ws[p]} == multiset(sorted[1..]);
  }

  lemma LocateSecond(ws: seq<nat>, p: nat, sorted: seq<nat>) returns (j: nat)
    requires p < |ws| && |sorted| >= 2 && ws[p] == sorted[0] && multiset(ws) == multiset(sorted)
    ensures j < |ws| && j != p && ws[j] == sorted[1]
  {
    RemoveAt(ws, p, sorted);
    assert sorted[1] == sorted[1..][0];
    var k := Locate(ws[..p] + ws[p + 1..], sorted[1], sorted[1..]);
    j := if k < p then k else k + 1;
  }

  lemma RestAtLeast(ws: seq<nat>, p: nat, sorted: seq<nat>, k: nat)
    requires p < |ws| && |sorted| >= 2 && ws[p] == sorted[0] && multiset(ws) == multiset(sorted) && Sorted(sorted)
    requires k < |ws| && k != p
    ensures sorted[1] <= ws[k]
  {
    RemoveAt(ws, p, sorted);
    AllAtLeast(ws[..p] + ws[p + 1..], sorted[1..]);
    assert ws[k] == (ws[..p] + ws[p + 1..])[if k < p then k else k - 1];
  }

  lemma SortedRest(sorted: seq<nat>)
    requires Sorted(sorted) && |sorted| >= 2
    ensures Sorted(sorted[2..])
  {}

  lemma OneLeaf(t: Tree)
    requires t.Leaf?
    ensures |Leaves(t)| == 1
  {}

  /** The greedy cost is a lower bound for every tree shape and every placing of the weights. */
  lemma {:induction false} LowerBound(t: Tree, ws: seq<nat>, sorted: seq<nat>)
    requires |ws| == |Leaves(t)| && multiset(ws) == multiset(sorted) && Sorted(sorted)
    ensures GreedyCost(sorted) <= Dot(ws, Depths(t, 0))
    decreases |sorted|
  {
    hide Dot, Depths, InsertWeight, Sorted, Leaves;
    SameSize(ws, sorted);
    if t.Leaf? {
      OneLeaf(t);
    } else {
      var t', ws' := Exchange(t, ws, sorted);
      var merged := InsertWeight(sorted[0] + sorted[1], sorted[2..]);
      SortedRest(sorted);
      InsertWeightSorted(sorted[0] + sorted[1], sorted[2..]);
      InsertWeightMultiset(sorted[0] + sorted[1], sorted[2..]);
      LowerBound(t', ws', merged);
    }
  }

  // ----- The built tree reaches the greedy cost -----

  function Weight(t: Tree, w: seq<nat>): nat
    requires Fits(t, w)
  {
    Sum(Select(w, Leaves(t)))
  }

  lemma {:induction false} DepthShift(t: Tree, d: nat)
    ensures forall i :: 0 <= i < |Depths(t, d)| ==> Depths(t, d + 1)[i] == Depths(t, d)[i] + 1
  {
    if t.Fork? {
      DepthShift(t.left, d + 1);
      DepthShift(t.right, d + 1);
    }
  }

  lemma {:induction false} DotPlusOne(ws: seq<nat>, ds: seq<nat>, es: seq<nat>)
    requires |ws| == |ds| == |es| && forall i :: 0 <= i < |ds| ==> es[i] == ds[i] + 1
    ensures Dot(ws, es) == Dot(ws, ds) + Sum(ws)
  {
    if ws != [] {
      DotPlusOne(ws[1..], ds[1..], es[1..]);
      assert ws[0] * es[0] == ws[0] * ds[0] + ws[0];
    }
  }

  lemma SelectConcat(w: seq<nat>, a: seq<nat>, b: seq<nat>)
    requires forall i :: 0 <= i < |a| ==> a[i] < |w|
    requires forall i :: 0 <= i < |b| ==> b[i] < |w|
    ensures Select(w, a + b) == Select(w, a) + Select(w, b)
  {}

  lemma {:induction false} SumConcat(a: seq<nat>, b: seq<nat>)
    ensures Sum(a + b) == Sum(a) + Sum(b)
  {
    if a == [] {
      assert a + b == b;
    } else {
      assert (a + b)[1..] == a[1..] + b;
      SumConcat(a[1..], b);
    }
  }

  /** The cost of a tree is the sum of the weights of its inner nodes. */
  lemma ForkCost(l: Tree, r: Tree, w: seq<nat>)
    requires Fits(l, w) && Fits(r, w)
    ensures Fits(Fork(l, r), w)
    ensures Weight(Fork(l, r), w) == Weight(l, w) + Weight(r, w)
    ensures Cost(Fork(l, r), w) == Cost(l, w) + Cost(r, w) + Weight(l, w) + Weight(r, w)
  {
    var wl, wr := Select(w, Leaves(l)), Select(w, Leaves(r));
    SelectConcat(w, Leaves(l), Leaves(r));
    SumConcat(wl, wr);
    DotConcat(wl, wr, Depths(l, 1), Depths(r, 1));
    DepthShift(l, 0);
    DepthShift(r, 0);
    DotPlusOne(wl, Depths(l, 0), Depths(l, 1));
    DotPlusOne(wr, Depths(r, 0), Depths(r, 1));
  }

  function Weights(list: seq<Entry>): (ws: seq<nat>)
    ensures |ws| == |list|
  {
    if list == [] then [] else [list[0].weight] + Weights(list[1..])
  }

  ghost predicate Weighed(list: seq<Entry>, w: seq<nat>) {
    forall i :: 0 <= i < |list| ==> Fits(list[i].tree, w) && list[i].weight == Weight(list[i].tree, w)
  }

  function ForestCost(list: seq<Entry>, w: seq<nat>): nat
    requires forall i :: 0 <= i < |list| ==> Fits(list[i].tree, w)
  {
    if list == [] then 0 else Cost(list[0].tree, w) + ForestCost(list[1..], w)
  }

  lemma {:induction false} InsertProjects(e: Entry, list: seq<Entry>)
    ensures Weights(InsertSorted(e, list)) == InsertWeight(e.weight, Weights(list))
  {
    if list == [] || list[0].weight >= e.weight {
      assert ([e] + list)[1..] == list;
    } else {
      InsertProjects(e, list[1..]);
    }
  }

  lemma {:induction false} InsertEffect(e: Entry, list: seq<Entry>, w: seq<nat>)
    requires Weighed(list, w) && Fits(e.tree, w) && e.weight == Weight(e.tree, w)
    ensures Weighed(InsertSorted(e, list), w)
    ensures ForestCost(InsertSorted(e, list), w) == ForestCost(list, w) + Cost(e.tree, w)
  {
    if list == [] || list[0].weight >= e.weight {
      assert ([e] + list)[1..] == list;
    } else {
      InsertEffect(e, list[1..], w);
      assert InsertSorted(e, list)[1..] == InsertSorted(e, list[1..]);
    }
  }

  lemma {:induction false} InsertWeightSum(x: nat, ws: seq<nat>)
    ensures Sum(InsertWeight(x, ws)) == Sum(ws) + x
  {
    if ws != [] && ws[0] < x {
      InsertWeightSum(x, ws[1..]);
    } else {
      assert ([x] + ws)[1..] == ws;
    }
  }

  /** No join that is made while four or more trees are left reaches 2^32. Later joins may: of three trees a wrapped
      weight
      only decides which comes left, and of two the joined weight is not looked at. */
  predicate NoEarlyWrap(list: seq<Entry>)
    decreases |list|
  {
    |list| >= 4 ==>
      && list[0].weight + list[1].weight < TWO32
      && (InsertLength(Joined(list[0], list[1]), list[2..]);
          NoEarlyWrap(InsertSorted(Joined(list[0], list[1]), list[2..])))
  }

  /** Then merging adds exactly the greedy cost. */
  lemma {:induction false} MergeCost(list: seq<Entry>, w: seq<nat>)
    requires |list| >= 1 && Weighed(list, w) && NoEarlyWrap(list)
    ensures Fits(MergeAll(list), w)
    ensures Cost(MergeAll(list), w) == ForestCost(list, w) + GreedyCost(Weights(list))
    decreases |list|
  {
    if |list| == 1 {
      assert list[1..] == [];
    } else if |list| == 2 {
      MergeTwo(list, w);
    } else if |list| == 3 {
      MergeThree(list, w);
    } else {
      var e, rest := Joined(list[0], list[1]), list[2..];
      FirstTwo(list, w);
      InsertEffect(e, rest, w);
      InsertProjects(e, rest);
      InsertLength(e, rest);
      var next := InsertSorted(e, rest);
      assert GreedyCost(Weights(list)) == e.weight + GreedyCost(Weights(next));
      MergeCost(next, w);
      assert MergeAll(list) == MergeAll(next);
    }
  }

  lemma MergeLast(a: Entry, b: Entry, w: seq<nat>)
    requires Fits(a.tree, w) && Fits(b.tree, w)
    ensures MergeAll([a, b]) == Fork(a.tree, b.tree) && Fits(Fork(a.tree, b.tree), w)
    ensures Cost(MergeAll([a, b]), w) == Cost(a.tree, w) + Cost(b.tree, w) + Weight(a.tree, w) + Weight(b.tree, w)
  {
    hide Cost, Weight, Fits;
    ForkCost(a.tree, b.tree, w);
    assert [a, b][2..] == [] && InsertSorted(Joined(a, b), []) == [Joined(a, b)];
    assert MergeAll([Joined(a, b)]) == Joined(a, b).tree;
  }

  lemma MergeTwo(list: seq<Entry>, w: seq<nat>)
    requires |list| == 2 && Weighed(list, w)
    ensures Fits(MergeAll(list), w)
    ensures Cost(MergeAll(list), w) == ForestCost(list, w) + GreedyCost(Weights(list))
  {
    hide Cost, Weight, Fits, MergeAll;
    var a, b := list[0], list[1];
    assert list == [a, b];
    MergeLast(a, b, w);
    ForestTwo(a, b, w);
    GreedyTwo(a.weight, b.weight);
  }

  lemma MergeThree(list: seq<Entry>, w: seq<nat>)
    requires |list| == 3 && Weighed(list, w)
    ensures Fits(MergeAll(list), w)
    ensures Cost(MergeAll(list), w) == ForestCost(list, w) + GreedyCost(Weights(list))
  {
    hide Cost, Weight, Fits, MergeAll;
    var a, b, c := list[0], list[1], list[2];
    var e := Joined(a, b);
    assert list == [a, b, c];
    ForkCost(a.tree, b.tree, w);
    MergeFirst(a, b, c);
    MergeLast(e, c, w);
    MergeLast(c, e, w);
    ForestThree(a, b, c, w);
    GreedyThree(a.weight, b.weight, c.weight);
  }

  lemma MergeFirst(a: Entry, b: Entry, c: Entry)
    ensures var e := Joined(a, b); MergeAll([a, b, c]) == MergeAll(if c.weight >= e.weight then [e, c] else [c, e])
  {
    var e := Joined(a, b);
    assert [a, b, c][2..] == [c] && [c][1..] == [];
    assert InsertSorted(e, [c]) == if c.weight >= e.weight then [e, c] else [c, e];
  }

  lemma ForestTwo(a: Entry, b: Entry, w: seq<nat>)
    requires Fits(a.tree, w) && Fits(b.tree, w)
    ensures ForestCost([a, b], w) == Cost(a.tree, w) + Cost(b.tree, w) && Weights([a, b]) == [a.weight, b.weight]
  {
    hide Cost, Fits;
    assert [a, b][1..] == [b] && [b][1..] == [];
    assert ForestCost([b], w) == Cost(b.tree, w);
  }

  lemma ForestThree(a: Entry, b: Entry, c: Entry, w: seq<nat>)
    requires Fits(a.tree, w) && Fits(b.tree, w) && Fits(c.tree, w)
    ensures ForestCost([a, b, c], w) == Cost(a.tree, w) + Cost(b.tree, w) + Cost(c.tree, w)
    ensures Weights([a, b, c]) == [a.weight, b.weight, c.weight]
  {
    hide Cost, Fits;
    assert [a, b, c][1..] == [b, c];
    ForestTwo(b, c, w);
  }

  lemma GreedyTwo(x: nat, y: nat)
    ensures GreedyCost([x, y]) == x + y
  {
    assert [x, y][2..] == [] && InsertWeight(x + y, []) == [x + y];
  }

  lemma GreedyThree(x: nat, y: nat, z: nat)
    ensures GreedyCost([x, y, z]) == 2 * (x + y) + z
  {
    assert [x, y, z][2..] == [z] && [z][1..] == [];
    assert InsertWeight(x + y, [z]) == if z >= x + y then [x + y, z] else [z, x + y];
    GreedyTwo(x + y, z);
    GreedyTwo(z, x + y);
  }

  /** Of four or more weights the two lightest make at most half, so below 2^33 no early join wraps. */
  lemma {:induction false} LightSums(list: seq<Entry>)
    requires Sorted(Weights(list)) && Sum(Weights(list)) < 2 * TWO32
    ensures NoEarlyWrap(list)
    decreases |list|
  {
    if |list| >= 4 {
      var e, rest, ws := Joined(list[0], list[1]), list[2..], Weights(list);
      FourWeights(list);
      InsertProjects(e, rest);
      InsertLength(e, rest);
      InsertWeightSorted(e.weight, Weights(rest));
      InsertWeightSum(e.weight, Weights(rest));
      LightSums(InsertSorted(e, rest));
    }
  }

  lemma FourWeights(list: seq<Entry>)
    requires |list| >= 4 && Sorted(Weights(list)) && Sum(Weights(list)) < 2 * TWO32
    ensures var e, rest := Joined(list[0], list[1]), list[2..];
            && list[0].weight + list[1].weight < TWO32 && e.weight == list[0].weight + list[1].weight
            && Sorted(Weights(rest)) && Sum(Weights(list)) == e.weight + Sum(Weights(rest))
  {
    hide Weights, Sum, Joined;
    var ws := Weights(list);
    WeightsRest(list);
    SumTwo(ws);
    SumTwo(ws[2..]);
    SortedRest(ws);
    assert ws[2..][0] == ws[2] && ws[2..][1] == ws[3];
    JoinedWeight(list[0], list[1]);
  }

  lemma JoinedWeight(a: Entry, b: Entry)
    requires a.weight + b.weight < TWO32
    ensures Joined(a, b).weight == a.weight + b.weight
  {}

  lemma {:induction false} WeightsAt(list: seq<Entry>)
    ensures forall i :: 0 <= i < |list| ==> Weights(list)[i] == list[i].weight
  {
    if list != [] { WeightsAt(list[1..]); }
  }

  lemma WeightsRest(list: seq<Entry>)
    requires |list| >= 2
    ensures Weights(list)[0] == list[0].weight && Weights(list)[1] == list[1].weight
    ensures Weights(list)[2..] == Weights(list[2..])
  {
    hide Weights;
    WeightsAt(list);
    WeightsAt(list[2..]);
  }

  lemma SumTwo(ws: seq<nat>)
    requires |ws| >= 2
    ensures Sum(ws) == ws[0] + ws[1] + Sum(ws[2..])
  {
    assert ws[1..][1..] == ws[2..];
  }

  lemma FirstTwo(list: seq<Entry>, w: seq<nat>)
    requires |list| >= 2 && Weighed(list, w) && list[0].weight + list[1].weight < TWO32
    ensures var e, rest := Joined(list[0], list[1]), list[2..];
            && Weighed(rest, w) && Fits(e.tree, w) && e.weight == Weight(e.tree, w) == list[0].weight + list[1].weight
            && Weights(list)[2..] == Weights(rest) && Weights(list)[0] == list[0].weight
                && Weights(list)[1] == list[1].weight
            && ForestCost(list, w) + e.weight == Cost(e.tree, w) + ForestCost(rest, w)
  {
    hide Cost, Weight, Fits, Weights;
    WeightsRest(list);
    assert list[1..][1..] == list[2..];
    ForkCost(list[0].tree, list[1].tree, w);
    assert ForestCost(list, w) == Cost(list[0].tree, w) + (Cost(list[1].tree, w) + ForestCost(list[2..], w));
  }

  function AdjustedAll(freq: seq<nat>): (w: seq<nat>)
    ensures |w| == |freq| && forall i :: 0 <= i < |w| ==> w[i] == if freq[i] == 0 then 1 else freq[i]
  {
    seq(|freq|, i requires 0 <= i < |freq| => Adjusted(freq[i]))
  }

  lemma LeafWeight(c: nat, w: seq<nat>)
    requires c < |w|
    ensures Fits(Leaf(c), w) && Weight(Leaf(c), w) == w[c] && Cost(Leaf(c), w) == 0
  {
    assert [c][1..] == [];
    assert Select(w, [c]) == [w[c]];
    assert Dot([w[c]], [0]) == w[c] * 0 + Dot([w[c]][1..], [0][1..]);
    assert Sum([w[c]]) == w[c] + Sum([w[c]][1..]);
  }

  lemma {:induction false} LeafListWeighed(freq: seq<nat>, k: nat)
    requires k <= |freq|
    ensures var list, w := LeafList(freq, k), AdjustedAll(freq); Weighed(list, w) && ForestCost(list, w) == 0
  {
    if k > 0 {
      LeafListWeighed(freq, k - 1);
      LeafWeight(k - 1, AdjustedAll(freq));
      InsertEffect(Entry(Adjusted(freq[k - 1]), Leaf(k - 1)), LeafList(freq, k - 1), AdjustedAll(freq));
    }
  }

  lemma NoWeights(freq: seq<nat>)
    ensures Weights(LeafList(freq, 0)) == [] == AdjustedAll(freq)[..0] && Sorted([])
  {}

  lemma {:induction false} LeafListWeights(freq: seq<nat>, k: nat)
    requires k <= |freq|
    ensures Sorted(Weights(LeafList(freq, k)))
    ensures multiset(Weights(LeafList(freq, k))) == multiset(AdjustedAll(freq)[..k])
  {
    hide InsertSorted, InsertWeight, AdjustedAll, Sorted, Weights;
    if k == 0 {
      NoWeights(freq);
    } else {
      LeafListWeights(freq, k - 1);
      var e, list, w := Entry(Adjusted(freq[k - 1]), Leaf(k - 1)), LeafList(freq, k - 1), AdjustedAll(freq);
      InsertProjects(e, list);
      InsertWeightSorted(e.weight, Weights(list));
      InsertWeightMultiset(e.weight, Weights(list));
      assert w[..k] == w[..k - 1] + [w[k - 1]];
    }
  }

  lemma {:induction false} MultisetSum(a: seq<nat>, b: seq<nat>)
    requires multiset(a) == multiset(b)
    ensures Sum(a) == Sum(b)
  {
    SameSize(a, b);
    if a != [] {
      var j := Locate(b, a[0], a);
      RemoveAt(b, j, a);
      MultisetSum(a[1..], b[..j] + b[j + 1..]);
      SumConcat(b[..j], b[j + 1..]);
      SumConcat(b[..j], b[j..]);
      assert b == b[..j] + b[j..] && b[j..][1..] == b[j + 1..];
    }
  }

  lemma {:induction false} SelectMultiset(w: seq<nat>, a: seq<nat>, b: seq<nat>)
    requires forall i :: 0 <= i < |a| ==> a[i] < |w|
    requires forall i :: 0 <= i < |b| ==> b[i] < |w|
    requires multiset(a) == multiset(b)
    ensures multiset(Select(w, a)) == multiset(Select(w, b))
  {
    hide Select;
    SameSize(a, b);
    if a != [] {
      var j := Locate(b, a[0], a);
      RemoveAt(b, j, a);
      SelectMultiset(w, a[1..], b[..j] + b[j + 1..]);
      SelectSplit(w, b, j);
      SelectSplit(w, a, 0);
      assert a[..0] + a[1..] == a[1..];
    }
  }

  lemma SelectSplit(w: seq<nat>, s: seq<nat>, j: nat)
    requires forall i :: 0 <= i < |s| ==> s[i] < |w|
    requires j < |s|
    ensures multiset(Select(w, s)) == multiset(Select(w, s[..j] + s[j + 1..])) + multiset{w[s[j]]}
  {
    SelectConcat(w, s[..j], s[j + 1..]);
    SelectAround(w, s, j);
  }

  lemma SelectAround(w: seq<nat>, s: seq<nat>, j: nat)
    requires forall i :: 0 <= i < |s| ==> s[i] < |w|
    requires j < |s|
    ensures Select(w, s) == Select(w, s[..j]) + [w[s[j]]] + Select(w, s[j + 1..])
  {}

  function Range(n: nat): (r: seq<nat>)
    ensures |r| == n
  {
    seq(n, i => i)
  }

  /** t is a binary tree whose leaves are the symbols below n, each once. */
  ghost predicate TreeOver(t: Tree, n: nat) {
    multiset(Leaves(t)) == multiset(Range(n))
  }

  lemma TreeOverFits(t: Tree, w: seq<nat>)
    requires TreeOver(t, |w|)
    ensures Fits(t, w) && multiset(Select(w, Leaves(t))) == multiset(w)
  {
    forall i | 0 <= i < |Leaves(t)|
      ensures Leaves(t)[i] < |w|
    {
      assert Leaves(t)[i] in multiset(Range(|w|));
      assert Leaves(t)[i] in Range(|w|);
    }
    SelectMultiset(w, Leaves(t), Range(|w|));
    assert Select(w, Range(|w|)) == w;
  }

  // ----- The built tree is itself one of the competing trees -----

  lemma {:induction false} ProperLeaves(t: Tree)
    requires Proper(t)
    ensures multiset(Leaves(t)) == multiset(Symbols(t))
  {
    if t.Fork? {
      ProperLeaves(t.left);
      ProperLeaves(t.right);
    }
  }

  lemma {:induction false} RangeMultiset(n: nat)
    ensures multiset(Range(n)) == multiset(Below(n))
  {
    if n > 0 {
      RangeMultiset(n - 1);
      assert Range(n) == Range(n - 1) + [n - 1];
    }
  }

  lemma BuildCompetes(freq: seq<nat>)
    requires |freq| >= 1
    ensures TreeOver(Build(freq), |freq|)
  {
    BuildProper(freq);
    ProperLeaves(Build(freq));
    RangeMultiset(|freq|);
  }

  /** Optimality: for every frequency table of which no early join wraps, the tree built is a tree over its symbols, and
      none has a smaller total of weight times depth. */
  lemma OptimalWithoutEarlyWrap(freq: seq<nat>, t: Tree)
    requires |freq| >= 1 && NoEarlyWrap(LeafList(freq, |freq|)) && TreeOver(t, |freq|)
    ensures TreeOver(Build(freq), |freq|)
    ensures Fits(t, AdjustedAll(freq)) && Fits(Build(freq), AdjustedAll(freq))
    ensures Cost(Build(freq), AdjustedAll(freq)) <= Cost(t, AdjustedAll(freq))
  {
    hide NoEarlyWrap, Cost, Fits, TreeOver, AdjustedAll;
    var n := |freq|;
    LeafListLength(freq, n);
    LeafListWeighed(freq, n);
    BuildCompetes(freq);
    MergeCost(LeafList(freq, n), AdjustedAll(freq));
    GreedyBelow(freq, t);
  }

  lemma GreedyBelow(freq: seq<nat>, t: Tree)
    requires TreeOver(t, |freq|)
    ensures Fits(t, AdjustedAll(freq)) && GreedyCost(Weights(LeafList(freq, |freq|))) <= Cost(t, AdjustedAll(freq))
  {
    hide TreeOver, Depths, Dot, Select, Leaves, GreedyCost, LeafList;
    var w := AdjustedAll(freq);
    LeafListWeights(freq, |freq|);
    assert w[..|freq|] == w;
    TreeOverFits(t, w);
    LowerBound(t, Select(w, Leaves(t)), Weights(LeafList(freq, |freq|)));
  }

  /** In particular for every table whose weights sum below 2^33. */
  lemma Optimal(freq: seq<nat>, t: Tree)
    requires |freq| >= 1 && Sum(AdjustedAll(freq)) < 2 * TWO32 && TreeOver(t, |freq|)
    ensures TreeOver(Build(freq), |freq|)
    ensures Fits(t, AdjustedAll(freq)) && Fits(Build(freq), AdjustedAll(freq))
    ensures Cost(Build(freq), AdjustedAll(freq)) <= Cost(t, AdjustedAll(freq))
  {
    hide NoEarlyWrap, Cost, Fits, TreeOver, LeafList, Build, Sorted;
    var w, n := AdjustedAll(freq), |freq|;
    LeafListWeights(freq, n);
    assert w[..n] == w;
    MultisetSum(Weights(LeafList(freq, n)), w);
    LightSums(LeafList(freq, n));
    OptimalWithoutEarlyWrap(freq, t);
  }
}
