/** The list with a current position that DS_HuffmanEncodingTree.cpp sorts its trees in
    (Include/RakNet/DS_LinkedList.h). */
module PositionedList {

  class LinkedList<T> {
    var items: seq<T>
    var position: nat

    ghost predicate Valid()
      reads this
    {
      items == [] || position < |items|
    }

    constructor ()
      ensures Valid() && items == []
    {
      items, position := [], 0;
    }

    method Beginning()
      requires Valid()
      modifies this`position
      ensures Valid() && (items != [] ==> position == 0)
    {
      if items != [] {
        position := 0;
      }
    }

    method End()
      requires Valid()
      modifies this`position
      ensures Valid() && (items != [] ==> position == |items| - 1)
    {
      if items != [] {
        position := |items| - 1;
      }
    }

    /** ++: does not go past the last element. */
    method Advance()
      requires Valid()
      modifies this`position
      ensures Valid() && position == if old(position) + 1 < |items| then old(position) + 1 else old(position)
    {
      if items != [] && position + 1 < |items| {
        position := position + 1;
      }
    }

    /** Inserts before the current element; the new element is current only when it becomes the first. */
    method Insert(x: T)
      requires Valid()
      modifies this
      ensures Valid()
      ensures old(items) == [] ==> items == [x]
      ensures |old(items)| == 1 ==> items == [x] + old(items)
      ensures |old(items)| >= 2 ==> items == old(items)[..old(position)] + [x] + old(items)[old(position)..]
      ensures position == if |old(items)| < 2 || old(position) == 0 then 0 else old(position) + 1
    {
      if items == [] {
        items, position := [x], 0;
      } else if |items| == 1 {
        items, position := [x] + items, 0;
      } else {
        items := items[..position] + [x] + items[position..];
        position := if position == 0 then 0 else position + 1;
      }
    }

    /** Inserts after the current element, which stays current. */
    method Add(x: T)
      requires Valid()
      modifies this`items, this`position
      ensures Valid()
      ensures items == if old(items) == [] then [x]
                       else old(items)[..old(position) + 1] + [x] + old(items)[old(position) + 1..]
      ensures position == if old(items) == [] then 0 else old(position)
    {
      if items == [] {
        items, position := [x], 0;
      } else {
        items := items[..position + 1] + [x] + items[position + 1..];
      }
    }

    /** Removes the current element; the next one, around the circle, becomes current. */
    method Pop() returns (x: T)
      requires Valid() && items != []
      modifies this
      ensures Valid() && x == old(items)[old(position)]
      ensures items == old(items)[..old(position)] + old(items)[old(position) + 1..]
      ensures position == if old(position) < |items| then old(position) else 0
    {
      x := items[position];
      items := items[..position] + items[position + 1..];
      if position >= |items| {
        position := 0;
      }
    }
  }
}
