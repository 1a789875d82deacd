/** The tree that Common/RakNet/DS_HuffmanEncodingTree.cpp builds, as a value, and the code it defines. */
module Huffman {
  import opened Words

  datatype Tree = Leaf(symbol: nat) | Fork(left: Tree, right: Tree)

  function Symbols(t: Tree): set<nat> {
    match t
    case Leaf(c) => {c}
    case Fork(l, r) => Symbols(l) + Symbols(r)
  }

  /** No symbol occurs twice. */
  ghost predicate Proper(t: Tree) {
    t.Fork? ==> Symbols(t.left) !! Symbols(t.right) && Proper(t.left) && Proper(t.right)
  }

  /** The path from the root to a symbol's leaf: false is left, true is right. */
  function Code(t: Tree, c: nat): seq<bool>
    requires c in Symbols(t)
  {
    match t
    case Leaf(_) => []
    case Fork(l, r) => if c in Symbols(l) then [false] + Code(l, c) else [true] + Code(r, c)
  }

  function Encode(t: Tree, s: seq<nat>): seq<bool>
    requires forall i :: 0 <= i < |s| ==> s[i] in Symbols(t)
  {
    if s == [] then [] else Code(t, s[0]) + Encode(t, s[1..])
  }

  /** The symbols completed by walking the bits from node cur, restarting at the root after each leaf. */
  function Walk(root: Tree, cur: Tree, bits: seq<bool>): seq<nat>
    requires root.Fork? && cur.Fork?
    decreases |bits|
  {
    if bits == [] then []
    else
      var next := if bits[0] then cur.right else cur.left;
      if next.Leaf? then [next.symbol] + Walk(root, root, bits[1..]) else Walk(root, next, bits[1..])
  }

  function Height(t: Tree): nat {
    match t
    case Leaf(_) => 0
    case Fork(l, r) => 1 + if Height(l) < Height(r) then Height(r) else Height(l)
  }

  // ----- The code is a complete prefix code -----

  lemma {:induction false} PrefixFree(t: Tree, a: nat, b: nat)
    requires a in Symbols(t) && b in Symbols(t) && Code(t, a) <= Code(t, b)
    ensures a == b
  {
    if t.Fork? {
      var ca, cb := Code(t, a), Code(t, b);
      assert ca[0] == cb[0];
      assert ca[1..] <= cb[1..];
      if a in Symbols(t.left) {
        assert ca[1..] == Code(t.left, a);
        PrefixFree(t.left, a, b);
      } else {
        assert ca[1..] == Code(t.right, a);
        PrefixFree(t.right, a, b);
      }
    }
  }

  /** Every bit string that is long enough begins with a code word. */
  lemma {:induction false} Complete(t: Tree, bits: seq<bool>) returns (c: nat)
    requires Proper(t) && Height(t) <= |bits|
    ensures c in Symbols(t) && Code(t, c) <= bits
  {
    match t
    case Leaf(s) => c := s;
    case Fork(l, r) =>
      c := Complete(if bits[0] then r else l, bits[1..]);
      assert bits == [bits[0]] + bits[1..];
  }

  lemma {:induction false} SymbolsNonEmpty(t: Tree)
    ensures |Symbols(t)| > 0
  {
    match t
    case Leaf(_) =>
    case Fork(l, r) =>
      SymbolsNonEmpty(l);
      assert Symbols(l) <= Symbols(t);
      SubsetSize(Symbols(l), Symbols(t));
  }

  lemma {:induction false} SubsetSize<T>(a: set<T>, b: set<T>)
    requires a <= b
    ensures |a| <= |b|
  {
    assert b == a + (b - a);
  }

  /** Lengths lie between 1 and the number of symbols less one, when there is a branch at all. */
  lemma {:induction false} CodeLength(t: Tree, c: nat)
    requires Proper(t) && c in Symbols(t)
    ensures t.Fork? ==> 1 <= |Code(t, c)|
    ensures |Code(t, c)| <= |Symbols(t)| - 1
  {
    if t.Fork? {
      SymbolsNonEmpty(t.left);
      SymbolsNonEmpty(t.right);
      assert |Symbols(t)| == |Symbols(t.left)| + |Symbols(t.right)|;
      if c in Symbols(t.left) {
        CodeLength(t.left, c);
      } else {
        CodeLength(t.right, c);
      }
    }
  }

  function Pow2(n: nat): (p: nat)
    ensures p > 0
  {
    if n == 0 then 1 else 2 * Pow2(n - 1)
  }

  lemma {:induction false} Pow2Monotone(a: nat, b: nat)
    requires a <= b
    ensures Pow2(a) <= Pow2(b)
  {
    if a < b { Pow2Monotone(a, b - 1); }
  }

  lemma {:induction false} SymbolsBound(t: Tree)
    ensures |Symbols(t)| <= Pow2(Height(t))
  {
    if t.Fork? {
      SymbolsBound(t.left);
      SymbolsBound(t.right);
      Pow2Monotone(Height(t.left), Height(t) - 1);
      Pow2Monotone(Height(t.right), Height(t) - 1);
      assert |Symbols(t.left) + Symbols(t.right)| <= |Symbols(t.left)| + |Symbols(t.right)|;
    }
  }

  lemma {:induction false} DeepestSymbol(t: Tree) returns (c: nat)
    requires Proper(t)
    ensures c in Symbols(t) && |Code(t, c)| == Height(t)
  {
    match t
    case Leaf(s) => c := s;
    case Fork(l, r) => c := DeepestSymbol(if Height(l) < Height(r) then r else l);
  }

  /** With more than 2^k symbols, some code word is longer than k bits. */
  lemma LongCodeExists(t: Tree, k: nat) returns (c: nat)
    requires Proper(t) && |Symbols(t)| > Pow2(k)
    ensures c in Symbols(t) && |Code(t, c)| > k
  {
    c := DeepestSymbol(t);
    SymbolsBound(t);
    if Height(t) <= k {
      Pow2Monotone(Height(t), k);
    }
  }

  // ----- Decoding inverts encoding -----

  /** Walking a code word from an inner node delivers its symbol and restarts at the root. */
  lemma {:induction false} WalkCode(root: Tree, cur: Tree, c: nat, rest: seq<bool>)
    requires root.Fork? && cur.Fork? && c in Symbols(cur)
    ensures Walk(root, cur, Code(cur, c) + rest) == [c] + Walk(root, root, rest)
  {
    var bits := Code(cur, c) + rest;
    var next := if c in Symbols(cur.left) then cur.left else cur.right;
    assert bits[1..] == Code(next, c) + rest;
    if next.Fork? {
      WalkCode(root, next, c, rest);
    } else {
      assert Code(next, c) + rest == rest;
    }
  }

  lemma {:induction false} WalkEncode(t: Tree, s: seq<nat>, rest: seq<bool>)
    requires t.Fork?
    requires forall i :: 0 <= i < |s| ==> s[i] in Symbols(t)
    ensures Walk(t, t, Encode(t, s) + rest) == s + Walk(t, t, rest)
  {
    if s == [] {
      assert Encode(t, s) + rest == rest;
    } else {
      assert Encode(t, s) + rest == Code(t, s[0]) + (Encode(t, s[1..]) + rest);
      WalkCode(t, t, s[0], Encode(t, s[1..]) + rest);
      WalkEncode(t, s[1..], rest);
    }
  }

  /** A proper prefix of a code word completes no symbol. */
  lemma {:induction false} WalkPad(root: Tree, cur: Tree, c: nat, pad: seq<bool>)
    requires root.Fork? && cur.Fork? && c in Symbols(cur) && pad < Code(cur, c)
    ensures Walk(root, cur, pad) == []
  {
    if pad != [] {
      var next := if c in Symbols(cur.left) then cur.left else cur.right;
      assert pad[0] == Code(cur, c)[0];
      assert pad[1..] < Code(cur, c)[1..] == Code(next, c);
      WalkPad(root, next, c, pad[1..]);
    }
  }

  /** Decoding an encoded string with such padding gives the string back. */
  lemma DecodeEncode(t: Tree, s: seq<nat>, c: nat, pad: seq<bool>)
    requires t.Fork? && c in Symbols(t) && pad < Code(t, c)
    requires forall i :: 0 <= i < |s| ==> s[i] in Symbols(t)
    ensures Walk(t, t, Encode(t, s) + pad) == s
  {
    WalkEncode(t, s, pad);
    WalkPad(t, t, c, pad);
  }

  // ----- Building the tree -----

  /** An entry of the sorted list: a tree and its 32-bit weight. */
  datatype Entry = Entry(weight: nat, tree: Tree)

  /** Insertion before the first entry that is not lighter. */
  function InsertSorted(e: Entry, list: seq<Entry>): seq<Entry> {
    if list == [] || list[0].weight >= e.weight then [e] + list
    else [list[0]] + InsertSorted(e, list[1..])
  }

  function Adjusted(freq: nat): nat { if freq == 0 then 1 else freq }

  /** The list after inserting the first k leaves. */
  function LeafList(freq: seq<nat>, k: nat): seq<Entry>
    requires k <= |freq|
  {
    if k == 0 then [] else InsertSorted(Entry(Adjusted(freq[k - 1]), Leaf(k - 1)), LeafList(freq, k - 1))
  }

  function Joined(a: Entry, b: Entry): Entry {
    Entry(U32(a.weight + b.weight), Fork(a.tree, b.tree))
  }

  lemma {:induction false} InsertLength(e: Entry, list: seq<Entry>)
    ensures |InsertSorted(e, list)| == |list| + 1
  {
    if list != [] && list[0].weight < e.weight { InsertLength(e, list[1..]); }
  }

  /** Merges the two lightest trees until one is left. */
  function MergeAll(list: seq<Entry>): Tree
    requires |list| >= 1
    decreases |list|
  {
    if |list| == 1 then list[0].tree
    else
      InsertLength(Joined(list[0], list[1]), list[2..]);
      MergeAll(InsertSorted(Joined(list[0], list[1]), list[2..]))
  }

  lemma {:induction false} LeafListLength(freq: seq<nat>, k: nat)
    requires k <= |freq|
    ensures |LeafList(freq, k)| == k
  {
    if k > 0 {
      LeafListLength(freq, k - 1);
      InsertLength(Entry(Adjusted(freq[k - 1]), Leaf(k - 1)), LeafList(freq, k - 1));
    }
  }

  /** The tree of a frequency table. */
  function Build(freq: seq<nat>): Tree
    requires |freq| >= 1
  {
    LeafListLength(freq, |freq|);
    MergeAll(LeafList(freq, |freq|))
  }

  function Below(n: nat): (s: set<nat>)
    ensures |s| == n
    ensures forall c: nat :: c in s <==> c < n
  {
    if n == 0 then {} else Below(n - 1) + {n - 1}
  }

  // ----- The tree has each symbol of the table exactly once -----

  function Union(list: seq<Entry>): set<nat> {
    if list == [] then {} else Symbols(list[0].tree) + Union(list[1..])
  }

  ghost predicate Separate(list: seq<Entry>) {
    list != [] ==> Proper(list[0].tree) && Symbols(list[0].tree) !! Union(list[1..]) && Separate(list[1..])
  }

  lemma {:induction false} InsertSeparate(e: Entry, list: seq<Entry>)
    requires Separate(list) && Proper(e.tree) && Symbols(e.tree) !! Union(list)
    ensures Separate(InsertSorted(e, list)) && Union(InsertSorted(e, list)) == Union(list) + Symbols(e.tree)
  {
    if list == [] || list[0].weight >= e.weight {
      assert ([e] + list)[1..] == list;
    } else {
      InsertSeparate(e, list[1..]);
      assert InsertSorted(e, list)[1..] == InsertSorted(e, list[1..]);
    }
  }

  lemma NothingSeparate()
    ensures Separate([]) && Union([]) == Below(0)
  {}

  lemma {:induction false} LeafListSeparate(freq: seq<nat>, k: nat)
    requires k <= |freq|
    ensures Separate(LeafList(freq, k)) && Union(LeafList(freq, k)) == Below(k)
  {
    hide InsertSorted, Separate, Union;
    if k == 0 {
      NothingSeparate();
    } else {
      LeafListSeparate(freq, k - 1);
      InsertSeparate(Entry(Adjusted(freq[k - 1]), Leaf(k - 1)), LeafList(freq, k - 1));
    }
  }

  lemma {:induction false} MergeAllProper(list: seq<Entry>)
    requires |list| >= 1 && Separate(list)
    ensures Proper(MergeAll(list)) && Symbols(MergeAll(list)) == Union(list)
    decreases |list|
  {
    if |list| > 1 {
      var e := Joined(list[0], list[1]);
      assert list[1..][1..] == list[2..];
      InsertSeparate(e, list[2..]);
      InsertLength(e, list[2..]);
      MergeAllProper(InsertSorted(e, list[2..]));
    }
  }

  /** Every symbol of the table has exactly one leaf. */
  lemma BuildProper(freq: seq<nat>)
    requires |freq| >= 1
    ensures Proper(Build(freq)) && Symbols(Build(freq)) == Below(|freq|)
  {
    LeafListLength(freq, |freq|);
    LeafListSeparate(freq, |freq|);
    MergeAllProper(LeafList(freq, |freq|));
  }

  /** For a table of 256 entries every code word has between 1 and 255 bits, so that a path array of 256 and an
      8-bit length hold it, and some code word has at least 8, so that up to 7 bits of padding can be found. */
  lemma ByteCodes(freq: seq<nat>)
    requires |freq| == 256
    ensures forall c: nat :: c < 256 ==> c in Symbols(Build(freq)) && 1 <= |Code(Build(freq), c)| <= 255
    ensures exists c: nat :: c < 256 && c in Symbols(Build(freq)) && |Code(Build(freq), c)| >= 8
  {
    hide Build, Code;
    var t := Build(freq);
    BuildProper(freq);
    forall c: nat | c < 256
      ensures c in Symbols(t) && 1 <= |Code(t, c)| <= 255
    {
      CodeLength(t, c);
    }
    assert Pow2(7) == 128 by {
      assert Pow2(3) == 8;
    }
    var long := LongCodeExists(t, 7);
  }
}
