/** The class of Common/RakNet/DS_HuffmanEncodingTree.cpp, on nodes linked by pointers. */
module Encoding {
  import opened Bits
  import opened Huffman
  import opened PositionedList
  import opened Words
  import Streams

  const SYMBOLS: nat := 256

  /** A tree node. All fields but parent are set once, right after allocation. */
  class Node {
    const value: nat
    const weight: nat
    const left: Node?
    const right: Node?
    var parent: Node?
    ghost const tree: Tree

    constructor AsLeaf(value: nat, weight: nat)
      ensures this.value == value && this.weight == weight && left == null && right == null
      ensures tree == Leaf(value)
    {
      this.value, this.weight, left, right, parent := value, weight, null, null, null;
      tree := Leaf(value);
    }

    constructor AsFork(left: Node, right: Node, weight: nat)
      ensures this.weight == weight && this.left == left && this.right == right
      ensures tree == Fork(left.tree, right.tree)
    {
      this.value, this.weight, this.left, this.right, parent := 0, weight, left, right, null;
      tree := Fork(left.tree, right.tree);
    }
  }

  /** The node's pointers agree with the tree it stands for. */
  ghost predicate NodeOk(n: Node) {
    match n.tree
    case Leaf(c) => n.left == null && n.right == null && n.value == c
    case Fork(l, r) => n.left != null && n.right != null && n.left.tree == l && n.right.tree == r
  }

  ghost predicate Closed(nodes: set<Node>) {
    forall n :: n in nodes ==>
      && NodeOk(n) && Proper(n.tree) && Symbols(n.tree) <= Below(SYMBOLS)
      && (n.tree.Fork? ==> n.left in nodes && n.right in nodes)
  }

  /** Every node that is not waiting in the list has a parent that points back to it. */
  ghost predicate Parented(nodes: set<Node>, items: set<Node>)
    reads nodes
  {
    forall n :: n in nodes && n !in items ==>
      n.parent != null && n.parent in nodes && n.parent.tree.Fork? && (n.parent.left == n || n.parent.right == n)
  }

  ghost function Entries(items: seq<Node>): (list: seq<Entry>)
    ensures |list| == |items|
    ensures forall i :: 0 <= i < |items| ==> list[i] == Entry(items[i].weight, items[i].tree)
  {
    seq(|items|, i requires 0 <= i < |items| => Entry(items[i].weight, items[i].tree))
  }

  ghost function ItemSet(items: seq<Node>): set<Node> { set n | n in items }

  lemma {:induction false} InsertAt(e: Entry, list: seq<Entry>, k: nat)
    requires k <= |list| && (forall i :: 0 <= i < k ==> list[i].weight < e.weight)
    requires k < |list| ==> list[k].weight >= e.weight
    ensures InsertSorted(e, list) == list[..k] + [e] + list[k..]
  {
    if k > 0 {
      InsertAt(e, list[1..], k - 1);
      assert list[..k] == [list[0]] + list[1..][..k - 1] && list[1..][k - 1..] == list[k..];
    }
  }

  lemma InsertedAt(before: seq<Node>, items: seq<Node>, node: Node, k: nat)
    requires k <= |before| && items == before[..k] + [node] + before[k..]
    requires forall i :: 0 <= i < k ==> before[i].weight < node.weight
    requires k < |before| ==> before[k].weight >= node.weight
    ensures Entries(items) == InsertSorted(Entry(node.weight, node.tree), Entries(before))
    ensures ItemSet(items) == ItemSet(before) + {node}
  {
    var e := Entry(node.weight, node.tree);
    InsertAt(e, Entries(before), k);
    assert Entries(items) == Entries(before)[..k] + [e] + Entries(before)[k..];
    assert before == before[..k] + before[k..];
    assert forall n :: n in items <==> n in before[..k] || n == node || n in before[k..];
  }

  datatype CharacterEncoding = CharacterEncoding(encoding: seq<byte>, bitLength: nat)

  /** A table entry that holds a code word, left aligned and zero filled. */
  ghost predicate Holds(e: CharacterEncoding, code: seq<bool>) {
    && e.bitLength == |code| && |e.encoding| == BytesFor(e.bitLength)
    && BitsOf(e.encoding, e.bitLength) == code && CleanAfter(e.encoding, e.bitLength)
  }

  method InsertNodeIntoSortedList(node: Node, list: LinkedList<Node>)
    requires list.Valid()
    modifies list
    ensures list.Valid()
    ensures Entries(list.items) == InsertSorted(Entry(node.weight, node.tree), Entries(old(list.items)))
    ensures ItemSet(list.items) == ItemSet(old(list.items)) + {node}
    ensures exists k :: 0 <= k <= |old(list.items)|
              && list.items == old(list.items)[..k] + [node] + old(list.items)[k..]
              && (forall i :: 0 <= i < k ==> old(list.items)[i].weight < node.weight)
              && (k < |old(list.items)| ==> old(list.items)[k].weight >= node.weight)
  {
    ghost var before := list.items;
    if |list.items| == 0 {
      list.Insert(node);
      InsertedAt(before, list.items, node, 0);
      return;
    }
    list.Beginning();
    var counter := 0;
    while true
      invariant list.Valid() && list.items == before
      invariant counter < |before| && list.position == counter
      invariant forall i :: 0 <= i < counter ==> before[i].weight < node.weight
      decreases |before| - counter
    {
      if list.items[list.position].weight < node.weight {
        list.Advance();
      } else {
        list.Insert(node);
        InsertedAt(before, list.items, node, counter);
        return;
      }
      counter := counter + 1;
      if counter == |list.items| {
        list.End();
        list.Add(node);
        InsertedAt(before, list.items, node, counter);
        return;
      }
    }
  }

  // ----- The merge loop -----

  lemma SeparateFirstTwo(list: seq<Entry>)
    requires |list| >= 2 && Separate(list)
    ensures Proper(Fork(list[0].tree, list[1].tree)) && Separate(list[2..])
    ensures Symbols(Fork(list[0].tree, list[1].tree)) !! Union(list[2..])
  {
    assert list[1..][1..] == list[2..];
  }

  /** Takes the two lightest trees off the list and makes them the children of a new node. */
  method JoinTwo(list: LinkedList<Node>, ghost nodes: set<Node>) returns (node: Node)
    requires list.Valid() && |list.items| >= 2
    requires Closed(nodes) && ItemSet(list.items) <= nodes && Parented(nodes, ItemSet(list.items))
    requires Separate(Entries(list.items))
    modifies list, nodes`parent
    ensures list.Valid() && list.items == old(list.items)[2..]
    ensures fresh(node) && Closed(nodes + {node}) && Parented(nodes + {node}, ItemSet(list.items) + {node})
    ensures Entry(node.weight, node.tree) == Joined(Entries(old(list.items))[0], Entries(old(list.items))[1])
    ensures node.left == old(list.items)[0] && node.right == old(list.items)[1]
    ensures node.weight == (old(list.items)[0].weight + old(list.items)[1].weight) % 0x1_0000_0000
  {
    hide Closed, Separate, Proper, Symbols, ItemSet, U32, Joined, Entries, NodeOk, Parented;
    ghost var before := list.items;
    FirstTwoItems(before);
    list.Beginning();
    var lesser := list.Pop();
    var greater := list.Pop();
    assert lesser == before[0] && greater == before[1] && list.items == before[2..];
    node := new Node.AsFork(lesser, greater, U32(lesser.weight + greater.weight));
    Adopt(lesser, greater, node, nodes, ItemSet(before[2..]));
    JoinedIs(Entries(before)[0], Entries(before)[1]);
    SeparateFirstTwo(Entries(before));
    ClosedFork(nodes, node);
  }

  /** Makes node the parent of its children; afterwards it waits in their place. */
  method Adopt(lesser: Node, greater: Node, node: Node, ghost nodes: set<Node>, ghost items: set<Node>)
    requires node !in nodes && node.tree.Fork? && node.left == lesser && node.right == greater
    requires Parented(nodes, items + {lesser, greater})
    modifies lesser`parent, greater`parent
    ensures Parented(nodes + {node}, items + {node})
  {
    lesser.parent := node;
    greater.parent := node;
  }

  lemma JoinedIs(a: Entry, b: Entry)
    ensures Joined(a, b) == Entry(U32(a.weight + b.weight), Fork(a.tree, b.tree))
    ensures U32(a.weight + b.weight) == (a.weight + b.weight) % 0x1_0000_0000
  {}

  lemma FirstTwoItems(items: seq<Node>)
    requires |items| >= 2
    ensures ItemSet(items) == ItemSet(items[2..]) + {items[0], items[1]}
  {
    assert items == items[..2] + items[2..];
    assert forall n :: n in items <==> n in items[..2] || n in items[2..];
  }

  lemma ClosedFork(nodes: set<Node>, node: Node)
    requires Closed(nodes) && NodeOk(node) && Proper(node.tree)
    requires node.tree.Fork? && node.left in nodes && node.right in nodes
    ensures Closed(nodes + {node})
  {}

  /** Merges until one tree is left, which becomes the root. */
  method MergeTrees(list: LinkedList<Node>, ghost start: set<Node>) returns (root: Node, ghost nodes: set<Node>)
    requires list.Valid() && |list.items| >= 2
    requires Closed(start) && ItemSet(list.items) <= start && Parented(start, ItemSet(list.items))
    requires Separate(Entries(list.items))
    modifies list, start`parent
    ensures root.tree == MergeAll(Entries(old(list.items))) && root.tree.Fork?
    ensures start <= nodes && fresh(nodes - start) && root in nodes
    ensures Closed(nodes) && Parented(nodes, {root})
  {
    hide Closed, Parented, InsertSorted, Separate, Proper, ItemSet, NodeOk;
    ghost var goal := MergeAll(Entries(list.items));
    nodes := start;
    while true
      invariant list.Valid() && |list.items| >= 2
      invariant start <= nodes && fresh(nodes - start)
      invariant Closed(nodes) && ItemSet(list.items) <= nodes && Parented(nodes, ItemSet(list.items))
      invariant Separate(Entries(list.items)) && MergeAll(Entries(list.items)) == goal
      decreases |list.items|
    {
      ghost var entries := Entries(list.items);
      FirstTwoItems(list.items);
      var node := JoinTwo(list, nodes);
      nodes := nodes + {node};
      SeparateFirstTwo(entries);
      assert Entries(list.items) == entries[2..];
      if |list.items| == 0 {
        root := node;
        NoItems(list.items);
        assert ItemSet(list.items) + {node} == {root};
        ClearParent(root, nodes);
        LastMerge(entries);
        return;
      }
      InsertNodeIntoSortedList(node, list);
      InsertSeparate(Joined(entries[0], entries[1]), entries[2..]);
      InsertLength(Joined(entries[0], entries[1]), entries[2..]);
    }
  }

  method ClearParent(root: Node, ghost nodes: set<Node>)
    requires Parented(nodes, {root})
    modifies root`parent
    ensures Parented(nodes, {root})
  {
    root.parent := null;
  }

  lemma NoItems(items: seq<Node>)
    requires items == []
    ensures ItemSet(items) == {}
  {}

  lemma LastMerge(list: seq<Entry>)
    requires |list| == 2
    ensures MergeAll(list) == Fork(list[0].tree, list[1].tree)
  {
    var e := Joined(list[0], list[1]);
    assert InsertSorted(e, list[2..]) == [e];
  }

  // ----- The leaves -----

  /** One leaf per byte value, inserted in order; a count of zero is raised to one. */
  method MakeLeaves(frequencyTable: seq<nat>, list: LinkedList<Node>) returns (leafList: seq<Node>,
      ghost nodes: set<Node>)
    requires list.Valid() && list.items == [] && |frequencyTable| == SYMBOLS
    modifies list
    ensures list.Valid() && Entries(list.items) == LeafList(frequencyTable, SYMBOLS)
    ensures |leafList| == SYMBOLS
    ensures forall c :: 0 <= c < SYMBOLS ==> leafList[c].tree == Leaf(c) && leafList[c] in nodes
    ensures fresh(nodes) && Closed(nodes) && ItemSet(list.items) == nodes
  {
    hide InsertSorted, Closed, ItemSet;
    leafList, nodes := [], {};
    NoItems(list.items);
    NoNodes();
    for counter := 0 to SYMBOLS
      invariant list.Valid() && Entries(list.items) == LeafList(frequencyTable, counter)
      invariant |leafList| == counter
      invariant forall c :: 0 <= c < counter ==> leafList[c].tree == Leaf(c) && leafList[c] in nodes
      invariant fresh(nodes) && Closed(nodes) && ItemSet(list.items) == nodes
    {
      var weight := frequencyTable[counter];
      if weight == 0 {
        weight := 1;
      }
      var node := new Node.AsLeaf(counter, weight);
      leafList := leafList + [node];
      InsertNodeIntoSortedList(node, list);
      ClosedLeaf(nodes, node);
      nodes := nodes + {node};
    }
  }

  lemma NoNodes()
    ensures Closed({})
  {}

  lemma ClosedLeaf(nodes: set<Node>, node: Node)
    requires Closed(nodes) && NodeOk(node) && node.tree.Leaf? && node.tree.symbol < SYMBOLS
    ensures Closed(nodes + {node})
  {}

  // ----- The code table -----

  function Reversed(s: seq<bool>): (r: seq<bool>)
    ensures |r| == |s|
  {
    if s == [] then [] else Reversed(s[1..]) + [s[0]]
  }

  lemma {:induction false} ReversedSnoc(s: seq<bool>, b: bool)
    ensures Reversed(s + [b]) == [b] + Reversed(s)
  {
    if s == [] {
      assert [b][1..] == [];
    } else {
      assert (s + [b])[1..] == s[1..] + [b];
      ReversedSnoc(s[1..], b);
    }
  }

  /** Climbing from a node to its parent puts the branch taken in front of the code. */
  lemma ParentCode(p: Node, cur: Node, c: nat)
    requires NodeOk(p) && Proper(p.tree) && p.tree.Fork? && (p.left == cur || p.right == cur) && c in Symbols(cur.tree)
    ensures c in Symbols(p.tree) && Code(p.tree, c) == [p.left != cur] + Code(cur.tree, c)
  {}

  lemma CodeFits(t: Tree, c: nat)
    requires Proper(t) && c in Symbols(t) && Symbols(t) <= Below(SYMBOLS)
    ensures |Code(t, c)| < SYMBOLS
  {
    CodeLength(t, c);
    SubsetSize(Symbols(t), Below(SYMBOLS));
  }

  /** Walks from a leaf to the root and records the branches; a path never fills the 256 cells. */
  method PathToRoot(leaf: Node, root: Node, c: nat, tempPath: array<bool>, ghost nodes: set<Node>)
    returns (tempPathLength: nat)
    requires tempPath.Length == SYMBOLS && leaf in nodes && root in nodes && leaf != root
    requires leaf.tree == Leaf(c) && Closed(nodes) && Parented(nodes, {root})
    modifies tempPath
    ensures c in Symbols(root.tree) && tempPathLength < SYMBOLS
    ensures Reversed(tempPath[..tempPathLength]) == Code(root.tree, c)
  {
    hide Proper, Code, Closed;
    var currentNode := leaf;
    tempPathLength := 0;
    ClosedNode(nodes, leaf, c);
    assert tempPath[..0] == [];
    while true
      invariant currentNode in nodes && currentNode != root && c in Symbols(currentNode.tree)
      invariant tempPathLength == |Code(currentNode.tree, c)| < SYMBOLS
      invariant Reversed(tempPath[..tempPathLength]) == Code(currentNode.tree, c)
      decreases SYMBOLS - tempPathLength
    {
      var parent := currentNode.parent;
      ghost var before := tempPath[..tempPathLength];
      var branch := if parent.left == currentNode then false else true;
      tempPath[tempPathLength] := branch;
      assert tempPath[..tempPathLength + 1] == before + [branch];
      ReversedSnoc(before, branch);
      StepUp(nodes, parent, currentNode, c);
      tempPathLength := tempPathLength + 1;
      currentNode := parent;
      if currentNode == root {
        return;
      }
    }
  }

  lemma ClosedNode(nodes: set<Node>, n: Node, c: nat)
    requires Closed(nodes) && n in nodes && n.tree == Leaf(c)
    ensures c in Symbols(n.tree) && Code(n.tree, c) == []
  {}

  /** One step of the climb, with the bound on the length it reaches. */
  lemma StepUp(nodes: set<Node>, p: Node, cur: Node, c: nat)
    requires Closed(nodes) && p in nodes && p.tree.Fork? && (p.left == cur || p.right == cur) && c in Symbols(cur.tree)
    ensures c in Symbols(p.tree) && Code(p.tree, c) == [p.left != cur] + Code(cur.tree, c)
            && |Code(p.tree, c)| < SYMBOLS
  {
    ParentCode(p, cur, c);
    CodeFits(p.tree, c);
  }

  /** Writes the recorded path from the root down. */
  method WriteReversed(tempPath: array<bool>, tempPathLength: nat, bitStream: Streams.BitStream)
    requires tempPathLength < SYMBOLS == tempPath.Length
    requires bitStream.Valid() && bitStream.Clean() && SYMBOLS <= bitStream.MostBits() && bitStream.Bits() == []
    requires tempPath as object != bitStream.data
    modifies bitStream, bitStream.data
    ensures bitStream.Valid() && bitStream.Clean() && SYMBOLS <= bitStream.MostBits()
    ensures bitStream.data == old(bitStream.data) || fresh(bitStream.data)
    ensures bitStream.Bits() == Reversed(tempPath[..tempPathLength])
  {
    hide *;
    SymbolCount();
    Streams.Limit();
    var i := tempPathLength;
    ghost var cells := tempPath[..];
    while i > 0
      invariant 0 <= i <= tempPathLength && tempPath[..] == cells
      invariant bitStream.Valid() && bitStream.Clean() && SYMBOLS <= bitStream.MostBits()
      invariant bitStream.data == old(bitStream.data) || fresh(bitStream.data)
      invariant bitStream.Bits() + Reversed(cells[..i]) == Reversed(cells[..tempPathLength])
    {
      i := i - 1;
      ghost var bits := bitStream.Bits();
      assert cells[..i + 1] == cells[..i] + [cells[i]];
      ReversedSnoc(cells[..i], cells[i]);
      if tempPath[i] {
        bitStream.Write1();
      } else {
        bitStream.Write0();
      }
      assert bits + ([cells[i]] + Reversed(cells[..i])) == bits + [cells[i]] + Reversed(cells[..i]);
    }
    assert cells[..0] == [] && bitStream.Bits() + [] == bitStream.Bits();
  }

  /** The table entry of one path; the stream is empty again afterwards. */
  method WritePath(tempPath: array<bool>, tempPathLength: nat,
      bitStream: Streams.BitStream) returns (e: CharacterEncoding)
    requires tempPathLength < SYMBOLS == tempPath.Length
    requires bitStream.Valid() && bitStream.Clean() && SYMBOLS <= bitStream.MostBits() && bitStream.Bits() == []
    requires tempPath as object != bitStream.data
    modifies bitStream, bitStream.data
    ensures bitStream.Valid() && bitStream.Clean() && SYMBOLS <= bitStream.MostBits() && bitStream.Bits() == []
    ensures bitStream.data == old(bitStream.data) || fresh(bitStream.data)
    ensures Holds(e, Reversed(tempPath[..tempPathLength]))
  {
    WriteReversed(tempPath, tempPathLength, bitStream);
    var encoding, bitLength := bitStream.CopyData();
    e := CharacterEncoding(encoding, bitLength % 256);
    bitStream.Reset();
  }

  // ----- The class -----

  function Syms(input: seq<byte>): (s: seq<nat>)
    ensures |s| == |input| && forall i :: 0 <= i < |s| ==> s[i] == Value(input[i]) < SYMBOLS
  {
    seq(|input|, i requires 0 <= i < |input| => Value(input[i]))
  }

  lemma {:induction false} EncodeConcat(t: Tree, a: seq<nat>, b: seq<nat>)
    requires forall i :: 0 <= i < |a| ==> a[i] in Symbols(t)
    requires forall i :: 0 <= i < |b| ==> b[i] in Symbols(t)
    ensures Encode(t, a + b) == Encode(t, a) + Encode(t, b)
  {
    hide Code, Symbols;
    if a == [] {
      assert a + b == b;
    } else {
      assert (a + b)[0] == a[0];
      assert (a + b)[1..] == a[1..] + b;
      EncodeConcat(t, a[1..], b);
      assert Code(t, a[0]) + (Encode(t, a[1..]) + Encode(t, b)) == Code(t, a[0]) + Encode(t, a[1..]) + Encode(t, b);
    }
  }

  lemma EncodeSnoc(t: Tree, s: seq<nat>, c: nat)
    requires forall i :: 0 <= i < |s| ==> s[i] in Symbols(t)
    requires c in Symbols(t)
    ensures Encode(t, s + [c]) == Encode(t, s) + Code(t, c)
  {
    hide Code, Symbols, Encode;
    EncodeConcat(t, s, [c]);
    EncodeOne(t, c);
  }

  lemma EncodeOne(t: Tree, c: nat)
    requires c in Symbols(t)
    ensures Encode(t, [c]) == Code(t, c)
  {
    hide Code, Symbols;
    assert [c][1..] == [] && Code(t, c) + [] == Code(t, c);
  }

  lemma LeftPayload(e: CharacterEncoding, code: seq<bool>, n: nat)
    requires Holds(e, code) && n <= |code|
    ensures n <= 8 * |e.encoding| && Payload(e.encoding, n, false) == code[..n]
  {
    hide BitOf;
    assert forall i :: 0 <= i < n ==> BitsOf(e.encoding, e.bitLength)[i] == BitAt(e.encoding, i);
  }

  lemma PowerSeven()
    ensures Pow2(7) == 128
  {
    assert Pow2(4) == 16;
  }

  /** A pad that completes no symbol: a proper prefix of a code word. */
  ghost predicate Harmless(t: Tree, pad: seq<bool>) {
    exists c :: c in Symbols(t) && pad < Code(t, c)
  }

  lemma EncodeGrows(t: Tree, s: seq<nat>, k: nat)
    requires k < |s| && forall i :: 0 <= i < |s| ==> s[i] in Symbols(t)
    ensures Encode(t, s[..k + 1]) == Encode(t, s[..k]) + Code(t, s[k])
    ensures |Encode(t, s[..k + 1])| <= |Encode(t, s)|
  {
    assert s[..k + 1] == s[..k] + [s[k]] && s == s[..k + 1] + s[k + 1..];
    EncodeSnoc(t, s[..k], s[k]);
    EncodeConcat(t, s[..k + 1], s[k + 1..]);
  }

  /** Some code word of the full tree is longer than seven bits. */
  lemma LongCode(nodes: set<Node>, root: Node) returns (c: nat)
    requires Closed(nodes) && root in nodes && Symbols(root.tree) == Below(SYMBOLS)
    ensures c < SYMBOLS && c in Symbols(root.tree) && |Code(root.tree, c)| > 7
  {
    PowerSeven();
    c := LongCodeExists(root.tree, 7);
  }

  lemma BuildIsMergeAll(freq: seq<nat>)
    requires |freq| >= 1 && |LeafList(freq, |freq|)| == |freq|
    ensures Build(freq) == MergeAll(LeafList(freq, |freq|))
  {}

  lemma AllWaiting(nodes: set<Node>, items: set<Node>)
    requires nodes <= items
    ensures Parented(nodes, items)
  {}

  lemma LeavesBelowRoot(leaf: Node, root: Node, c: nat)
    requires leaf.tree == Leaf(c) && root.tree.Fork?
    ensures leaf != root
  {}

  /** The code table, leaf by leaf. */
  method MakeTable(leafList: seq<Node>, root: Node, ghost nodes: set<Node>) returns (table: seq<CharacterEncoding>)
    requires |leafList| == SYMBOLS
    requires forall c :: 0 <= c < SYMBOLS ==> leafList[c].tree == Leaf(c) && leafList[c] in nodes
    requires root in nodes && root.tree.Fork? && Closed(nodes) && Parented(nodes, {root})
    ensures |table| == SYMBOLS
    ensures forall c :: 0 <= c < SYMBOLS ==> c in Symbols(root.tree) && Holds(table[c], Code(root.tree, c))
  {
    hide Closed, Parented, Holds, BitsOf;
    var tempPath := new bool[SYMBOLS];
    var bitStream := new Streams.BitStream();
    table := [];
    for counter := 0 to SYMBOLS
      invariant |table| == counter
      invariant bitStream.Valid() && bitStream.Clean() && SYMBOLS <= bitStream.MostBits() && bitStream.Bits() == []
      invariant fresh(bitStream.data) && tempPath as object != bitStream.data
      invariant forall c :: 0 <= c < counter ==> c in Symbols(root.tree) && Holds(table[c], Code(root.tree, c))
    {
      LeavesBelowRoot(leafList[counter], root, counter);
      var tempPathLength := PathToRoot(leafList[counter], root, counter, tempPath, nodes);
      var e := WritePath(tempPath, tempPathLength, bitStream);
      table := table + [e];
    }
  }

  /** The code words of a byte string, one after the other. */
  ghost function EncodedBits(t: Tree, input: seq<byte>): seq<bool>
    requires Symbols(t) == Below(SYMBOLS)
  {
    Encode(t, Syms(input))
  }

  lemma EncodedIs(t: Tree, input: seq<byte>)
    requires Symbols(t) == Below(SYMBOLS)
    ensures |Syms(input)| == |input| && forall i :: 0 <= i < |input| ==> Syms(input)[i] in Symbols(t)
    ensures EncodedBits(t, input) == Encode(t, Syms(input)) && Encode(t, []) == []
  {}

  lemma SymbolCount()
    ensures SYMBOLS == 256
  {}

  /** The symbols that the bits complete, read from the root. */
  ghost function Decoded(t: Tree, bits: seq<bool>): seq<nat>
    requires t.Fork?
  {
    Walk(t, t, bits)
  }

  lemma DecodedIs(t: Tree, bits: seq<bool>)
    requires t.Fork?
    ensures Decoded(t, bits) == Walk(t, t, bits)
  {}

  /** For every tree and every input: decoding what EncodeArray appends, pad included, gives exactly the input. */
  lemma DecodedEncoded(t: Tree, input: seq<byte>, pad: seq<bool>)
    requires t.Fork? && Symbols(t) == Below(SYMBOLS) && Harmless(t, pad)
    ensures Decoded(t, EncodedBits(t, input) + pad) == Syms(input)
  {
    var c :| c in Symbols(t) && pad < Code(t, c);
    EncodedIs(t, input);
    DecodeEncode(t, Syms(input), c, pad);
  }

  lemma WalkNothing(root: Tree, cur: Tree)
    requires root.Fork? && cur.Fork?
    ensures Walk(root, cur, []) == []
  {}

  /** One step of a decoding loop from an inner node. */
  lemma WalkStep(nodes: set<Node>, cur: Node, root: Tree, bits: seq<bool>, k: nat, bit: bool)
    requires Closed(nodes) && cur in nodes && cur.tree.Fork? && root.Fork?
    requires k < |bits| && bit == bits[k]
    ensures cur.left != null && cur.right != null
    ensures var next := if bit then cur.right else cur.left;
            && next in nodes && (next.left == null && next.right == null <==> next.tree.Leaf?)
            && (next.tree.Leaf? ==> next.value < SYMBOLS)
            && (next.tree.Leaf? ==> Walk(root, cur.tree, bits[k..]) == [next.value] + Walk(root, root, bits[k + 1..]))
            && (next.tree.Fork? ==> Walk(root, cur.tree, bits[k..]) == Walk(root, next.tree, bits[k + 1..]))
  {
    assert bits[k..][1..] == bits[k + 1..];
  }

  /** Byte values written out as eight bits each. */
  ghost function SymbolBits(s: seq<nat>): (bits: seq<bool>)
    ensures |bits| == 8 * |s|
  {
    if s == [] then [] else SymbolBits(s[..|s| - 1]) + Payload([AsByte(s[|s| - 1])], 8, true)
  }

  lemma SymbolBitsNothing()
    ensures SymbolBits([]) == []
  {}

  lemma SymbolBitsSnoc(s: seq<nat>, c: nat)
    ensures SymbolBits(s + [c]) == SymbolBits(s) + Payload([AsByte(c)], 8, true)
  {
    assert (s + [c])[..|s|] == s;
  }

  /** The symbols of a byte string come out as the string itself. */
  lemma {:induction false} SymbolBitsOfBytes(data: seq<byte>)
    ensures SymbolBits(Syms(data)) == Payload(data, 8 * |data|, true)
  {
    hide BitOf, Value, AsByte;
    if data == [] {
      assert Syms(data) == [];
    } else {
      var init, last := data[..|data| - 1], data[|data| - 1];
      SymbolBitsOfBytes(init);
      assert Syms(data) == Syms(init) + [Value(last)];
      SymbolBitsSnoc(Syms(init), Value(last));
      AsByteValue(last);
      LastByte(data, true);
      LastByte([last], true);
      assert [last][..0] == [];
    }
  }

  lemma BytesForBounds(bits: nat, length: nat)
    requires bits <= 8 * length
    ensures BytesFor(bits) <= length && bits <= 8 * BytesFor(bits) <= bits + 7
  {}

  lemma RoundUp(n: nat)
    ensures 8 * BytesFor(n) == if n % 8 == 0 then n else n + 8 - n % 8
  {
    Eighths(n / 8, n % 8);
  }

  lemma PadHarmless(t: Tree, c: nat, n: nat)
    requires c in Symbols(t) && n < |Code(t, c)|
    ensures Harmless(t, Code(t, c)[..n])
  {
    assert Code(t, c)[..n] < Code(t, c);
  }

  class HuffmanEncodingTree {
    var root: Node?
    var encodingTable: seq<CharacterEncoding>
    ghost var nodes: set<Node>

    ghost predicate Valid()
      reads this
    {
      root != null ==>
        && root in nodes && Closed(nodes) && root.tree.Fork? && Symbols(root.tree) == Below(SYMBOLS)
        && |encodingTable| == SYMBOLS
        && forall c :: 0 <= c < SYMBOLS ==> Holds(encodingTable[c], Code(root.tree, c))
    }

    constructor ()
      ensures Valid() && root == null
    {
      root, encodingTable, nodes := null, [], {};
    }

    lemma Facts()
      requires Valid() && root != null
      ensures root in nodes && Closed(nodes) && root.tree.Fork? && Symbols(root.tree) == Below(SYMBOLS)
      ensures |encodingTable| == SYMBOLS
      ensures forall c :: 0 <= c < SYMBOLS ==> c in Symbols(root.tree) && Holds(encodingTable[c], Code(root.tree, c))
    {
      hide Closed, Holds, Symbols, Below, Code;
    }

    lemma EntryFacts(c: nat, n: nat)
      requires Valid() && root != null && c < SYMBOLS
      ensures |encodingTable| == SYMBOLS && c in Symbols(root.tree)
      ensures encodingTable[c].bitLength == |Code(root.tree, c)|
              && |Code(root.tree, c)| <= 8 * |encodingTable[c].encoding|
      ensures CleanAfter(encodingTable[c].encoding, encodingTable[c].bitLength)
      ensures n <= |Code(root.tree, c)| ==> Payload(encodingTable[c].encoding, n, false) == Code(root.tree, c)[..n]
    {
      Facts();
      if n <= |Code(root.tree, c)| {
        LeftPayload(encodingTable[c], Code(root.tree, c), n);
      }
    }

    lemma Complete()
      requires root != null && root in nodes && Closed(nodes) && root.tree.Fork? && Symbols(root.tree) == Below(SYMBOLS)
      requires |encodingTable| == SYMBOLS
      requires forall c :: 0 <= c < SYMBOLS ==> Holds(encodingTable[c], Code(root.tree, c))
      ensures Valid()
    {}

    lemma EmptyPad()
      requires Valid() && root != null
      ensures Harmless(root.tree, [])
    {
      CodeLength(root.tree, 0);
      assert [] < Code(root.tree, 0);
    }

    /** Builds the tree and the code table of 256 frequencies. */
    method GenerateFromFrequencyTable(frequencyTable: seq<nat>)
      requires |frequencyTable| == SYMBOLS
      modifies this
      ensures Valid() && root != null && root.tree == Build(frequencyTable)
    {
      hide *;
      SymbolCount();
      root := null;
      var list := new LinkedList<Node>();
      var leafList, leaves := MakeLeaves(frequencyTable, list);
      LeafListLength(frequencyTable, SYMBOLS);
      LeafListSeparate(frequencyTable, SYMBOLS);
      AllWaiting(leaves, ItemSet(list.items));
      var top, all := MergeTrees(list, leaves);
      BuildIsMergeAll(frequencyTable);
      BuildProper(frequencyTable);
      var table := MakeTable(leafList, top, all);
      root, encodingTable, nodes := top, table, all;
      Complete();
    }

    /** Appends the code words of input and pads to a byte boundary with part of a longer code word. */
    method EncodeArray(input: seq<byte>, output: Streams.BitStream) returns (ghost pad: seq<bool>)
      requires Valid() && root != null
      requires output.Valid() && output.Clean()
      requires 8 * BytesFor(output.numberOfBitsUsed + |EncodedBits(root.tree, input)|) <= output.MostBits()
      modifies output, output.data
      ensures output.Valid() && output.Clean() && output.readOffset == old(output.readOffset)
      ensures (output.data == old(output.data) || fresh(output.data)) && output.MostBits() >= old(output.MostBits())
      ensures output.Bits() == old(output.Bits()) + EncodedBits(root.tree, input) + pad
      ensures output.numberOfBitsUsed % 8 == 0 && |pad| < 8 && Harmless(root.tree, pad)
      ensures output.numberOfBitsUsed == 8 * BytesFor(old(output.numberOfBitsUsed) + |EncodedBits(root.tree, input)|)
    {
      hide *;
      Facts();
      ghost var start := output.Bits();
      RoundUp(output.numberOfBitsUsed + |EncodedBits(root.tree, input)|);
      WriteCodes(input, output);
      pad := [];
      if output.numberOfBitsUsed % 8 != 0 {
        pad := WritePad(output);
      } else {
        EmptyPad();
        assert output.Bits() == output.Bits() + [];
      }
    }

    method WriteCodes(input: seq<byte>, output: Streams.BitStream)
      requires Valid() && root != null
      requires output.Valid() && output.Clean()
      requires output.numberOfBitsUsed + |EncodedBits(root.tree, input)| <= output.MostBits()
      modifies output, output.data
      ensures output.Valid() && output.Clean() && output.readOffset == old(output.readOffset)
      ensures (output.data == old(output.data) || fresh(output.data)) && output.MostBits() >= old(output.MostBits())
      ensures output.Bits() == old(output.Bits()) + EncodedBits(root.tree, input)
    {
      hide *;
      Facts();
      ghost var t, start, syms := root.tree, output.Bits(), Syms(input);
      EncodedIs(t, input);
      assert syms[..0] == [] && start + [] == start;
      for counter := 0 to |input|
        invariant output.Valid() && output.Clean() && output.readOffset == old(output.readOffset)
        invariant (output.data == old(output.data) || fresh(output.data)) && output.MostBits() >= old(output.MostBits())
        invariant output.Bits() == start + Encode(t, syms[..counter])
      {
        var c := Value(input[counter]);
        EncodeGrows(t, syms, counter);
        EntryFacts(c, encodingTable[c].bitLength);
        output.WriteBits(encodingTable[c].encoding, encodingTable[c].bitLength, false);
        assert Code(t, c)[..|Code(t, c)|] == Code(t, c);
        assert start + Encode(t, syms[..counter]) + Code(t, c) == start + (Encode(t, syms[..counter]) + Code(t, c));
      }
      assert syms[..|input|] == syms;
    }

    /** Pads with the first bits of the first code word that is too long to fit. */
    method WritePad(output: Streams.BitStream) returns (ghost pad: seq<bool>)
      requires Valid() && root != null
      requires output.Valid() && output.Clean() && output.numberOfBitsUsed % 8 != 0
      requires output.numberOfBitsUsed + 8 - output.numberOfBitsUsed % 8 <= output.MostBits()
      modifies output, output.data
      ensures output.Valid() && output.Clean() && output.readOffset == old(output.readOffset)
      ensures (output.data == old(output.data) || fresh(output.data)) && output.MostBits() >= old(output.MostBits())
      ensures output.Bits() == old(output.Bits()) + pad
      ensures output.numberOfBitsUsed % 8 == 0 && |pad| < 8 && Harmless(root.tree, pad)
    {
      hide *;
      Facts();
      var remainingBits := 8 - output.numberOfBitsUsed % 8;
      ghost var t := root.tree;
      ghost var long := LongCode(nodes, root);
      for counter := 0 to SYMBOLS
        invariant output.Valid() && output.Clean() && output.readOffset == old(output.readOffset)
        invariant output.data == old(output.data) && output.Bits() == old(output.Bits())
        invariant output.MostBits() == old(output.MostBits())
        invariant counter <= long
      {
        EntryFacts(counter, remainingBits);
        if encodingTable[counter].bitLength > remainingBits {
          output.WriteBits(encodingTable[counter].encoding, remainingBits, false);
          output.AlignedIsClean();
          pad := Code(t, counter)[..remainingBits];
          PadHarmless(t, counter, remainingBits);
          return;
        }
      }
    }

    /** Reads sizeInBits bits and stores the completed symbols, as many as fit. */
    method DecodeArray(input: Streams.BitStream, sizeInBits: nat, maxCharsToWrite: nat, output: array<byte>)
      returns (outputWriteIndex: nat)
      requires Valid() && root != null && input.Valid() && output != input.data
      requires input.readOffset + sizeInBits <= 8 * input.data.Length && maxCharsToWrite <= output.Length
      modifies input`readOffset, output
      ensures input.readOffset == old(input.readOffset) + sizeInBits
      ensures var decoded := Decoded(root.tree, BitsOf(input.data[..], input.readOffset)[old(input.readOffset)..]);
              && outputWriteIndex == |decoded|
              && forall i :: 0 <= i < output.Length ==>
                   output[i] == if i < outputWriteIndex && i < maxCharsToWrite then AsByte(decoded[i])
                       else old(output[i])
    {
      hide *;
      Facts();
      ghost var t, start := root.tree, input.readOffset;
      ghost var bits := BitsOf(input.data[..], start + sizeInBits)[start..];
      ghost var done: seq<nat> := [];
      outputWriteIndex := 0;
      var currentNode := root;
      DecodedIs(t, bits);
      assert bits[0..] == bits && [] + Walk(t, t, bits) == Walk(t, t, bits);
      BitsOfIndex(input.data[..], start + sizeInBits);
      for counter := 0 to sizeInBits
        invariant input.Valid() && input.readOffset == start + counter
        invariant currentNode in nodes && currentNode.tree.Fork?
        invariant outputWriteIndex == |done| && done + Walk(t, currentNode.tree, bits[counter..]) == Walk(t, t, bits)
        invariant forall i :: 0 <= i < output.Length ==>
          output[i] == if i < |done| && i < maxCharsToWrite then AsByte(done[i]) else old(output[i])
      {
        var bit := input.ReadBit();
        WalkStep(nodes, currentNode, t, bits, counter, bit);
        if bit == false {
          currentNode := currentNode.left;
        } else {
          currentNode := currentNode.right;
        }
        if currentNode.left == null && currentNode.right == null {
          if outputWriteIndex < maxCharsToWrite {
            output[outputWriteIndex] := AsByte(currentNode.value);
          }
          outputWriteIndex := outputWriteIndex + 1;
          done := done + [currentNode.value];
          currentNode := root;
        }
      }
      assert bits[sizeInBits..] == [] && done + [] == done;
      WalkNothing(t, currentNode.tree);
    }

    /** The form that decodes from a byte array and writes each completed symbol as eight bits. */
    method DecodeArrayToStream(input: array<byte>, sizeInBits: nat, output: Streams.BitStream)
      requires Valid() && root != null && sizeInBits <= 8 * input.Length && sizeInBits <= TWO32 - 8
      requires output.Valid() && output.Clean() && output.data != input
      requires output.numberOfBitsUsed + 8 * |Decoded(root.tree, BitsOf(input[..], sizeInBits))| <= output.MostBits()
      modifies output, output.data
      ensures output.Valid() && output.Clean() && output.readOffset == old(output.readOffset)
      ensures output.Bits() == old(output.Bits()) + SymbolBits(Decoded(root.tree, BitsOf(input[..], sizeInBits)))
    {
      hide *;
      Facts();
      ghost var t, bits, start := root.tree, BitsOf(input[..], sizeInBits), output.Bits();
      ghost var done: seq<nat> := [];
      DecodedIs(t, bits);
      SymbolBitsNothing();
      assert start + [] == start && [] + Walk(t, t, bits) == Walk(t, t, bits);
      if sizeInBits <= 0 {
        WalkNothing(t, t);
        assert bits == [];
        return;
      }
      BytesForBounds(sizeInBits, input.Length);
      var bitStream := new Streams.BitStream.Over(input, BytesFor(sizeInBits));
      BitsOfIndex(input[..], sizeInBits);
      var currentNode := root;
      assert bits[0..] == bits;
      for counter := 0 to sizeInBits
        invariant bitStream.Valid() && bitStream.data == input && bitStream.readOffset == counter
        invariant output.Valid() && output.Clean() && output.readOffset == old(output.readOffset)
        invariant (output.data == old(output.data) || fresh(output.data)) && output.MostBits() >= old(output.MostBits())
        invariant input[..] == old(input[..])
        invariant currentNode in nodes && currentNode.tree.Fork?
        invariant done + Walk(t, currentNode.tree, bits[counter..]) == Walk(t, t, bits)
        invariant output.Bits() == start + SymbolBits(done)
      {
        var bit := bitStream.ReadBit();
        WalkStep(nodes, currentNode, t, bits, counter, bit);
        if bit == false {
          currentNode := currentNode.left;
        } else {
          currentNode := currentNode.right;
        }
        if currentNode.left == null && currentNode.right == null {
          SymbolBitsSnoc(done, currentNode.value);
          output.WriteBits([AsByte(currentNode.value)], 8, true);
          done := done + [currentNode.value];
          currentNode := root;
        }
      }
      assert bits[sizeInBits..] == [] && done + [] == done;
      WalkNothing(t, currentNode.tree);
    }
  }
}
