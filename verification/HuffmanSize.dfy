/** How many bits the built code spends on the very data it was built from. */
module HuffmanSize {
  import opened Huffman
  import opened HuffmanOptimal
  import opened Words

  /** How often each of the n symbols occurs. */
  function Counts(s: seq<nat>, n: nat): (w: seq<nat>)
    ensures |w| == n && forall c :: 0 <= c < n ==> w[c] == multiset(s)[c]
  {
    seq(n, c requires 0 <= c < n => multiset(s)[c])
  }

  /** One for each symbol that does not occur. */
  function Missing(w: seq<nat>): (m: seq<nat>)
    ensures |m| == |w| && forall c :: 0 <= c < |w| ==> m[c] == if w[c] == 0 then 1 else 0
  {
    seq(|w|, c requires 0 <= c < |w| => if w[c] == 0 then 1 else 0)
  }

  ghost predicate Over(s: seq<nat>, n: nat) {
    forall i :: 0 <= i < |s| ==> s[i] < n
  }

  // ----- The length of an encoding is a cost -----

  lemma {:induction false} DotZero(ws: seq<nat>, ds: seq<nat>)
    requires |ws| == |ds| && forall i :: 0 <= i < |ws| ==> ws[i] == 0
    ensures Dot(ws, ds) == 0
  {
    if ws != [] { DotZero(ws[1..], ds[1..]); }
  }

  /** One more occurrence of c costs its code length more. */
  lemma {:induction false} DotBump(t: Tree, w: seq<nat>, c: nat, d: nat)
    requires Proper(t) && Fits(t, w) && c < |w|
    ensures Dot(Select(w[c := w[c] + 1], Leaves(t)), Depths(t, d))
         == Dot(Select(w, Leaves(t)), Depths(t, d)) + if c in Symbols(t) then d + |Code(t, c)| else 0
  {
    var w' := w[c := w[c] + 1];
    match t
    case Leaf(x) =>
      assert Leaves(t)[0] == x;
      assert Select(w, [x]) == [w[x]] && Select(w', [x]) == [w'[x]];
      DotOne(w[x], d);
      DotOne(w'[x], d);
      if x == c {
        assert (w[x] + 1) * d == w[x] * d + d;
      }
    case Fork(l, r) =>
      FitsParts(l, r, w);
      DotBump(l, w, c, d + 1);
      DotBump(r, w, c, d + 1);
      SelectConcat(w, Leaves(l), Leaves(r));
      SelectConcat(w', Leaves(l), Leaves(r));
      DotConcat(Select(w, Leaves(l)), Select(w, Leaves(r)), Depths(l, d + 1), Depths(r, d + 1));
      DotConcat(Select(w', Leaves(l)), Select(w', Leaves(r)), Depths(l, d + 1), Depths(r, d + 1));
  }

  lemma DotOne(x: nat, d: nat)
    ensures Dot([x], [d]) == x * d
  {
    assert [x][1..] == [] && [d][1..] == [];
  }

  lemma FitsParts(l: Tree, r: Tree, w: seq<nat>)
    requires Fits(Fork(l, r), w)
    ensures Fits(l, w) && Fits(r, w)
  {
    forall i | 0 <= i < |Leaves(l)|
      ensures Leaves(l)[i] < |w|
    {
      assert Leaves(l)[i] == Leaves(Fork(l, r))[i];
    }
    forall i | 0 <= i < |Leaves(r)|
      ensures Leaves(r)[i] < |w|
    {
      assert Leaves(r)[i] == Leaves(Fork(l, r))[|Leaves(l)| + i];
    }
  }

  lemma {:induction false} EncodeLength(t: Tree, s: seq<nat>, n: nat)
    requires Proper(t) && Symbols(t) == Below(n) && Over(s, n)
    ensures Fits(t, Counts(s, n)) && |Encode(t, s)| == Cost(t, Counts(s, n))
  {
    hide Counts, Fits, Cost, Encode;
    SymbolsFit(t, Counts(s, n));
    if s == [] {
      NothingEncoded(t, n);
    } else {
      EncodeLength(t, s[1..], n);
      CountsStep(s, n);
      OneMoreEncoded(t, s, n);
    }
  }

  lemma NothingEncoded(t: Tree, n: nat)
    requires Fits(t, Counts([], n))
    ensures Encode(t, []) == [] && Cost(t, Counts([], n)) == 0
  {
    DotZero(Select(Counts([], n), Leaves(t)), Depths(t, 0));
  }

  lemma OneMoreEncoded(t: Tree, s: seq<nat>, n: nat)
    requires Proper(t) && Symbols(t) == Below(n) && Over(s, n) && s != []
    requires Fits(t, Counts(s, n)) && Fits(t, Counts(s[1..], n))
    requires Counts(s, n) == Counts(s[1..], n)[s[0] := Counts(s[1..], n)[s[0]] + 1]
    ensures Cost(t, Counts(s, n)) == Cost(t, Counts(s[1..], n)) + |Code(t, s[0])|
    ensures |Encode(t, s)| == |Code(t, s[0])| + |Encode(t, s[1..])|
  {
    hide Counts, Fits, Code, Select, Depths, Dot;
    DotBump(t, Counts(s[1..], n), s[0], 0);
  }

  lemma CountsStep(s: seq<nat>, n: nat)
    requires Over(s, n) && s != []
    ensures Counts(s, n) == Counts(s[1..], n)[s[0] := Counts(s[1..], n)[s[0]] + 1]
  {
    assert s == [s[0]] + s[1..];
  }

  lemma {:induction false} LeavesAreSymbols(t: Tree)
    ensures forall i :: 0 <= i < |Leaves(t)| ==> Leaves(t)[i] in Symbols(t)
  {
    if t.Fork? {
      LeavesAreSymbols(t.left);
      LeavesAreSymbols(t.right);
    }
  }

  lemma SymbolsFit(t: Tree, w: seq<nat>)
    requires Symbols(t) == Below(|w|)
    ensures Fits(t, w)
  {
    LeavesAreSymbols(t);
  }

  // ----- The balanced tree as a yardstick -----

  /** The full tree of height k over the symbols from base on. */
  function Balanced(k: nat, base: nat): Tree {
    if k == 0 then Leaf(base) else Fork(Balanced(k - 1, base), Balanced(k - 1, base + Pow2(k - 1)))
  }

  lemma {:induction false} BalancedLeaves(k: nat, base: nat, d: nat)
    ensures |Leaves(Balanced(k, base))| == Pow2(k)
    ensures forall i :: 0 <= i < Pow2(k) ==> Leaves(Balanced(k, base))[i] == base + i
    ensures forall i :: 0 <= i < Pow2(k) ==> Depths(Balanced(k, base), d)[i] == d + k
  {
    if k > 0 {
      BalancedLeaves(k - 1, base, d + 1);
      BalancedLeaves(k - 1, base + Pow2(k - 1), d + 1);
    }
  }

  lemma {:induction false} DotConstant(ws: seq<nat>, ds: seq<nat>, k: nat)
    requires |ws| == |ds| && forall i :: 0 <= i < |ds| ==> ds[i] == k
    ensures Dot(ws, ds) == k * Sum(ws)
  {
    if ws != [] {
      DotConstant(ws[1..], ds[1..], k);
      assert k * (ws[0] + Sum(ws[1..])) == k * ws[0] + k * Sum(ws[1..]);
    }
  }

  lemma BalancedCost(k: nat, w: seq<nat>)
    requires |w| == Pow2(k)
    ensures TreeOver(Balanced(k, 0), |w|) && Fits(Balanced(k, 0), w) && Cost(Balanced(k, 0), w) == k * Sum(w)
  {
    BalancedLeaves(k, 0, 0);
    assert Leaves(Balanced(k, 0)) == Range(|w|);
    assert Select(w, Range(|w|)) == w;
    DotConstant(w, Depths(Balanced(k, 0), 0), k);
  }

  lemma PowerEight()
    ensures Pow2(8) == 256
  {
    assert Pow2(4) == 16;
  }

  // ----- The bound -----

  lemma {:induction false} DotSum(a: seq<nat>, b: seq<nat>, c: seq<nat>, ds: seq<nat>)
    requires |a| == |b| == |c| == |ds| && forall i :: 0 <= i < |a| ==> c[i] == a[i] + b[i]
    ensures Dot(c, ds) == Dot(a, ds) + Dot(b, ds)
  {
    if a != [] {
      DotSum(a[1..], b[1..], c[1..], ds[1..]);
      assert (a[0] + b[0]) * ds[0] == a[0] * ds[0] + b[0] * ds[0];
    }
  }

  lemma {:induction false} DotAtLeastSum(ws: seq<nat>, ds: seq<nat>)
    requires |ws| == |ds| && forall i :: 0 <= i < |ds| ==> ds[i] >= 1
    ensures Dot(ws, ds) >= Sum(ws)
  {
    if ws != [] {
      DotAtLeastSum(ws[1..], ds[1..]);
      assert ws[0] * ds[0] >= ws[0];
    }
  }

  lemma {:induction false} DepthsAtLeast(t: Tree, d: nat)
    ensures forall i :: 0 <= i < |Depths(t, d)| ==> Depths(t, d)[i] >= if t.Fork? then d + 1 else d
  {
    if t.Fork? {
      DepthsAtLeast(t.left, d + 1);
      DepthsAtLeast(t.right, d + 1);
    }
  }

  lemma {:induction false} SumAdd(a: seq<nat>, b: seq<nat>, c: seq<nat>)
    requires |a| == |b| == |c| && forall i :: 0 <= i < |a| ==> c[i] == a[i] + b[i]
    ensures Sum(c) == Sum(a) + Sum(b)
  {
    if a != [] { SumAdd(a[1..], b[1..], c[1..]); }
  }

  lemma {:induction false} SumBump(w: seq<nat>, c: nat)
    requires c < |w|
    ensures Sum(w[c := w[c] + 1]) == Sum(w) + 1
  {
    if c > 0 {
      assert w[c := w[c] + 1][1..] == w[1..][c - 1 := w[1..][c - 1] + 1];
      SumBump(w[1..], c - 1);
    } else {
      assert w[0 := w[0] + 1][1..] == w[1..];
    }
  }

  lemma {:induction false} SumCounts(s: seq<nat>, n: nat)
    requires Over(s, n)
    ensures Sum(Counts(s, n)) == |s|
  {
    if s == [] {
      SumZero(Counts(s, n));
    } else {
      SumCounts(s[1..], n);
      CountsStep(s, n);
      SumBump(Counts(s[1..], n), s[0]);
    }
  }

  lemma {:induction false} SumZero(w: seq<nat>)
    requires forall i :: 0 <= i < |w| ==> w[i] == 0
    ensures Sum(w) == 0
  {
    if w != [] { SumZero(w[1..]); }
  }

  /** The table the data gives: its weights add up to the data's length plus the number of missing symbols. */
  lemma TableSum(s: seq<nat>, n: nat)
    requires Over(s, n)
    ensures Sum(AdjustedAll(Counts(s, n))) == |s| + Sum(Missing(Counts(s, n)))
  {
    SumCounts(s, n);
    SumAdd(Counts(s, n), Missing(Counts(s, n)), AdjustedAll(Counts(s, n)));
  }

  lemma MissingCost(t: Tree, w: seq<nat>)
    requires |w| >= 2 && Proper(t) && Symbols(t) == Below(|w|) && Fits(t, w)
    ensures Cost(t, w) >= Sum(w)
  {
    assert t.Leaf? ==> |Symbols(t)| == 1;
    DepthsAtLeast(t, 0);
    DotAtLeastSum(Select(w, Leaves(t)), Depths(t, 0));
    ProperLeaves(t);
    RangeMultiset(|w|);
    TreeOverFits(t, w);
    MultisetSum(Select(w, Leaves(t)), w);
  }

  /** The adjusted table charges the data and, once each, the missing symbols. */
  lemma AdjustedCost(t: Tree, w: seq<nat>)
    requires Fits(t, w)
    ensures Cost(t, AdjustedAll(w)) == Cost(t, w) + Cost(t, Missing(w))
  {
    DotSum(Select(w, Leaves(t)), Select(Missing(w), Leaves(t)), Select(AdjustedAll(w), Leaves(t)), Depths(t, 0));
  }

  /** The true counts cost at most k bits per unit of adjusted weight, less one bit per missing symbol. */
  lemma TableCost(w: seq<nat>, k: nat)
    requires k >= 1 && |w| == Pow2(k) && Sum(AdjustedAll(w)) < 2 * TWO32
    ensures Fits(Build(w), w) && Cost(Build(w), w) + Sum(Missing(w)) <= k * Sum(AdjustedAll(w))
  {
    hide Build, Fits, Cost, Missing, AdjustedAll;
    var t := Build(w);
    assert |w| == 2 * Pow2(k - 1);
    BuildProper(w);
    SymbolsFit(t, w);
    SymbolsFit(t, Missing(w));
    BalancedCost(k, AdjustedAll(w));
    Optimal(w, Balanced(k, 0));
    AdjustedCost(t, w);
    MissingCost(t, Missing(w));
  }

  /** Over an alphabet of 2^k symbols, z of them absent, n symbols encode to at most k*n + (k-1)*z bits. */
  lemma EncodedSizeFor(s: seq<nat>, k: nat)
    requires k >= 1 && Over(s, Pow2(k))
    requires |s| + Sum(Missing(Counts(s, Pow2(k)))) < 2 * TWO32
    ensures forall i :: 0 <= i < |s| ==> s[i] in Symbols(Build(Counts(s, Pow2(k))))
    ensures |Encode(Build(Counts(s, Pow2(k))), s)| <= k * |s| + (k - 1) * Sum(Missing(Counts(s, Pow2(k))))
  {
    hide Build, Counts, Fits, Cost, Missing, AdjustedAll, Encode;
    var n := Pow2(k);
    var w := Counts(s, n);
    var z := Sum(Missing(w));
    BuildProper(w);
    TableSum(s, n);
    TableCost(w, k);
    EncodeLength(Build(w), s, n);
    Discount(k, |s|, z, |Encode(Build(w), s)|);
  }

  lemma Discount(k: nat, n: nat, z: nat, cost: nat)
    requires k >= 1 && cost + z <= k * (n + z)
    ensures cost <= k * n + (k - 1) * z
  {
    assert k * (n + z) == k * n + (k - 1) * z + z;
  }

  /** Encoding n bytes, z of the 256 byte values being absent, takes at most 8n + 7z bits. */
  lemma EncodedSize(s: seq<nat>)
    requires Over(s, 256)
    requires |s| + Sum(Missing(Counts(s, 256))) < 2 * TWO32
    ensures forall i :: 0 <= i < |s| ==> s[i] in Symbols(Build(Counts(s, 256)))
    ensures |Encode(Build(Counts(s, 256)), s)| <= 8 * |s| + 7 * Sum(Missing(Counts(s, 256)))
  {
    PowerEight();
    EncodedSizeFor(s, 8);
  }

  /** The symbols of the first n that do not occur. */
  function Absent(w: seq<nat>, n: nat): (s: set<nat>)
    requires n <= |w|
  {
    set c: nat | c < n && w[c] == 0
  }

  lemma AbsentMore(w: seq<nat>, n: nat)
    requires n < |w|
    ensures |Absent(w, n + 1)| == |Absent(w, n)| + if w[n] == 0 then 1 else 0
  {
    assert Absent(w, n + 1) == Absent(w, n) + if w[n] == 0 then {n} else {};
  }

  /** The z of the bounds is the number of symbols that do not occur. */
  lemma {:induction false} SumMissingIs(w: seq<nat>, n: nat)
    requires n <= |w|
    ensures Sum(Missing(w)[..n]) == |Absent(w, n)|
  {
    hide Absent, Sum, Missing;
    var m := Missing(w);
    if n == 0 {
      NothingAbsent(w);
      assert m[..0] == [];
    } else {
      SumMissingIs(w, n - 1);
      AbsentMore(w, n - 1);
      assert m[..n] == m[..n - 1] + [m[n - 1]];
      SumConcat(m[..n - 1], [m[n - 1]]);
      SumOne(m[n - 1]);
    }
  }

  lemma NothingAbsent(w: seq<nat>)
    ensures |Absent(w, 0)| == 0 == Sum([])
  {
    assert Absent(w, 0) == {};
  }

  lemma SumOne(x: nat)
    ensures Sum([x]) == x
  {
    assert [x][1..] == [];
  }

  lemma {:induction false} SumMissing(w: seq<nat>)
    ensures Sum(Missing(w)) <= |w|
  {
    if w != [] {
      SumMissing(w[1..]);
      assert Missing(w)[1..] == Missing(w[1..]);
    }
  }
}
