/** The recursive median of Common/RakNet/CCRakNetUDT.cpp, with its doubles as real numbers. */
module Median {

  const HISTORY_LENGTH: nat := 64

  /** Element i goes below the pivot; elements equal to the pivot are spread by the parity of their index. */
  predicate GoesBelow(list: seq<real>, i: nat)
    requires 0 < i < |list|
  {
    list[i] < list[0] || (i % 2 == 0 && list[i] == list[0])
  }

  /** The elements of list[1..k] that go below, or not below, the pivot list[0]. */
  function Lower(list: seq<real>, k: nat): (s: seq<real>)
    requires 1 <= k <= |list|
    ensures |s| < k
  {
    if k == 1 then [] else if GoesBelow(list, k - 1) then Lower(list, k - 1) + [list[k - 1]] else Lower(list, k - 1)
  }

  function Upper(list: seq<real>, k: nat): (s: seq<real>)
    requires 1 <= k <= |list|
    ensures |s| < k
  {
    if k == 1 then [] else if GoesBelow(list, k - 1) then Upper(list, k - 1) else Upper(list, k - 1) + [list[k - 1]]
  }

  ghost predicate AtMost(m: multiset<real>, x: real) { forall y :: y in m ==> y <= x }

  ghost predicate AtLeast(m: multiset<real>, x: real) { forall y :: y in m ==> x <= y }

  /** Nothing is lost, and the pivot separates the two parts. */
  lemma Partition(list: seq<real>, k: nat)
    requires 1 <= k <= |list|
    ensures |Lower(list, k)| + |Upper(list, k)| + 1 == k
    ensures multiset(Lower(list, k)) + multiset(Upper(list, k)) + multiset{list[0]} == multiset(list[..k])
    ensures AtMost(multiset(Lower(list, k)), list[0]) && AtLeast(multiset(Upper(list, k)), list[0])
  {
    hide AtMost, AtLeast;
    NothingLost(list, k);
    PivotSeparates(list, k);
  }

  lemma {:induction false} NothingLost(list: seq<real>, k: nat)
    requires 1 <= k <= |list|
    ensures |Lower(list, k)| + |Upper(list, k)| + 1 == k
    ensures multiset(Lower(list, k)) + multiset(Upper(list, k)) + multiset{list[0]} == multiset(list[..k])
  {
    hide GoesBelow;
    if k == 1 {
      assert list[..1] == [list[0]];
    } else {
      NothingLost(list, k - 1);
      assert list[..k] == list[..k - 1] + [list[k - 1]];
    }
  }

  lemma {:induction false} PivotSeparates(list: seq<real>, k: nat)
    requires 1 <= k <= |list|
    ensures AtMost(multiset(Lower(list, k)), list[0]) && AtLeast(multiset(Upper(list, k)), list[0])
  {
    if k > 1 {
      PivotSeparates(list, k - 1);
    }
  }

  /** Elements equal to the pivot are shared out evenly, so that a list of equal elements is halved. */
  lemma {:induction false} EqualsHalved(list: seq<real>, k: nat)
    requires 1 <= k <= |list| && forall i :: 0 <= i < |list| ==> list[i] == list[0]
    ensures |Lower(list, k)| == (k - 1) / 2 && |Upper(list, k)| == k / 2
  {
    if k > 1 { EqualsHalved(list, k - 1); }
  }

  /** x stands in one of the two middle places of m: it has lo below it and hi above it. */
  ghost predicate Middle(m: multiset<real>, x: real, lo: multiset<real>, hi: multiset<real>) {
    && m == lo + multiset{x} + hi && AtMost(lo, x) && AtLeast(hi, x)
    && (|lo| == |hi| + 1 || |hi| == |lo| + 1)
  }

  ghost predicate InMiddle(m: multiset<real>, x: real) {
    exists lo, hi :: Middle(m, x, lo, hi)
  }

  /** The part of the call that is known around the list: below holds the discarded smaller elements, above the
      larger. */
  ghost predicate Around(list: seq<real>, below: multiset<real>, above: multiset<real>) {
    forall i :: 0 <= i < |list| ==> AtMost(below, list[i]) && AtLeast(above, list[i])
  }

  lemma AroundElement(list: seq<real>, below: multiset<real>, above: multiset<real>, i: nat)
    requires Around(list, below, above) && i < |list|
    ensures AtMost(below, list[i]) && AtLeast(above, list[i])
  {}

  lemma PartElement(list: seq<real>, part: seq<real>, i: nat, rest: multiset<real>)
    requires multiset(part) + rest == multiset(list) && i < |part|
    ensures part[i] in list
  {
    assert part[i] in multiset(part);
    assert part[i] in multiset(list);
  }

  /** Going on with the upper part. */
  lemma KeepUpper(list: seq<real>, below: multiset<real>, above: multiset<real>)
    requires list != [] && Around(list, below, above)
    ensures var more := below + multiset(Lower(list, |list|)) + multiset{list[0]};
            && Around(Upper(list, |list|), more, above) && |more| == |below| + |Lower(list, |list|)| + 1
            && more + multiset(Upper(list, |list|)) + above == below + multiset(list) + above
  {
    hide AtMost, AtLeast, Around, Lower, Upper;
    Partition(list, |list|);
    assert list[..|list|] == list;
    KeepUpperAround(list, below, above);
  }

  lemma KeepUpperAround(list: seq<real>, below: multiset<real>, above: multiset<real>)
    requires list != [] && Around(list, below, above)
    ensures Around(Upper(list, |list|), below + multiset(Lower(list, |list|)) + multiset{list[0]}, above)
  {
    var lower, upper := Lower(list, |list|), Upper(list, |list|);
    Partition(list, |list|);
    assert list[..|list|] == list;
    forall i | 0 <= i < |upper|
      ensures AtMost(below + multiset(lower) + multiset{list[0]}, upper[i]) && AtLeast(above, upper[i])
    {
      PartElement(list, upper, i, multiset(lower) + multiset{list[0]});
      assert upper[i] in multiset(upper);
      var j :| 0 <= j < |list| && list[j] == upper[i];
      AroundElement(list, below, above, j);
    }
  }

  /** Going on with the lower part. */
  lemma KeepLower(list: seq<real>, below: multiset<real>, above: multiset<real>)
    requires list != [] && Around(list, below, above)
    ensures var more := above + multiset(Upper(list, |list|)) + multiset{list[0]};
            && Around(Lower(list, |list|), below, more) && |more| == |above| + |Upper(list, |list|)| + 1
            && below + multiset(Lower(list, |list|)) + more == below + multiset(list) + above
  {
    hide AtMost, AtLeast, Around, Lower, Upper;
    Partition(list, |list|);
    assert list[..|list|] == list;
    KeepLowerAround(list, below, above);
  }

  lemma KeepLowerAround(list: seq<real>, below: multiset<real>, above: multiset<real>)
    requires list != [] && Around(list, below, above)
    ensures Around(Lower(list, |list|), below, above + multiset(Upper(list, |list|)) + multiset{list[0]})
  {
    var lower, upper := Lower(list, |list|), Upper(list, |list|);
    Partition(list, |list|);
    assert list[..|list|] == list;
    forall i | 0 <= i < |lower|
      ensures AtMost(below, lower[i]) && AtLeast(above + multiset(upper) + multiset{list[0]}, lower[i])
    {
      PartElement(list, lower, i, multiset(upper) + multiset{list[0]});
      assert lower[i] in multiset(lower);
      var j :| 0 <= j < |list| && list[j] == lower[i];
      AroundElement(list, below, above, j);
    }
  }

  lemma PartLengths(list: seq<real>)
    requires list != []
    ensures |Lower(list, |list|)| + |Upper(list, |list|)| + 1 == |list|
  {
    NothingLost(list, |list|);
  }

  /** The pivot is in the middle when the counts on its sides differ by one. */
  lemma PivotMiddle(list: seq<real>, below: multiset<real>, above: multiset<real>)
    requires list != [] && Around(list, below, above)
    requires var l, u := |below| + |Lower(list, |list|)|, |above| + |Upper(list, |list|)|; l == u + 1 || u == l + 1
    ensures InMiddle(below + multiset(list) + above, list[0])
  {
    Partition(list, |list|);
    assert list[..|list|] == list;
    AroundElement(list, below, above, 0);
    var lo, hi := below + multiset(Lower(list, |list|)), above + multiset(Upper(list, |list|));
    assert Middle(below + multiset(list) + above, list[0], lo, hi);
  }

  /** Quickselect on running counts. With an even total the list never becomes empty and shrinks on every call. */
  method CalculateListMedianRecursive(inputList: array<real>, inputListLength: nat, lessThanSum: nat,
      greaterThanSum: nat,
                                      ghost below: multiset<real>, ghost above: multiset<real>)
    returns (median: real)
    requires 0 < inputListLength <= inputList.Length == HISTORY_LENGTH
    requires lessThanSum == |below| && greaterThanSum == |above| && Around(inputList[..inputListLength], below, above)
    requires (inputListLength + lessThanSum + greaterThanSum) % 2 == 0
    requires 2 * lessThanSum < inputListLength + lessThanSum + greaterThanSum
    requires 2 * greaterThanSum < inputListLength + lessThanSum + greaterThanSum
    ensures InMiddle(below + multiset(inputList[..inputListLength]) + above, median)
    decreases inputListLength
  {
    hide Around, InMiddle, AtMost, AtLeast, Lower, Upper;
    ghost var list := inputList[..inputListLength];
    var lessThanMedian, greaterThanMedian, lessThanMedianListLength, greaterThanMedianListLength :=
      Split(inputList, inputListLength);
    median := inputList[0];
    ghost var lower, upper := Lower(list, |list|), Upper(list, |list|);
    PartLengths(list);
    if lessThanMedianListLength + lessThanSum == greaterThanMedianListLength + greaterThanSum + 1
       || lessThanMedianListLength + lessThanSum == greaterThanMedianListLength + greaterThanSum - 1 {
      PivotMiddle(list, below, above);
      return;
    }
    if lessThanMedianListLength + lessThanSum < greaterThanMedianListLength + greaterThanSum {
      lessThanMedian[lessThanMedianListLength] := median;
      lessThanMedianListLength := lessThanMedianListLength + 1;
      KeepUpper(list, below, above);
      ghost var more := below + multiset(lower) + multiset{list[0]};
      median := CalculateListMedianRecursive(greaterThanMedian, greaterThanMedianListLength,
        lessThanMedianListLength + lessThanSum, greaterThanSum, more, above);
    } else {
      greaterThanMedian[greaterThanMedianListLength] := median;
      greaterThanMedianListLength := greaterThanMedianListLength + 1;
      KeepLower(list, below, above);
      ghost var more := above + multiset(upper) + multiset{list[0]};
      median := CalculateListMedianRecursive(lessThanMedian, lessThanMedianListLength,
        lessThanSum, greaterThanMedianListLength + greaterThanSum, below, more);
    }
  }

  /** The partition loop, into two local arrays. */
  method Split(inputList: array<real>, inputListLength: nat)
    returns (lessThanMedian: array<real>, greaterThanMedian: array<real>, lessLength: nat, greaterLength: nat)
    requires 0 < inputListLength <= inputList.Length == HISTORY_LENGTH
    ensures fresh(lessThanMedian) && fresh(greaterThanMedian) && lessThanMedian != greaterThanMedian
    ensures lessThanMedian.Length == greaterThanMedian.Length == HISTORY_LENGTH
    ensures lessLength < inputListLength && greaterLength < inputListLength
    ensures lessThanMedian[..lessLength] == Lower(inputList[..inputListLength], inputListLength)
    ensures greaterThanMedian[..greaterLength] == Upper(inputList[..inputListLength], inputListLength)
  {
    lessThanMedian, greaterThanMedian := new real[HISTORY_LENGTH](_ => 0.0), new real[HISTORY_LENGTH](_ => 0.0);
    lessLength, greaterLength := 0, 0;
    ghost var list := inputList[..inputListLength];
    var median := inputList[0];
    var i := 1;
    while i < inputListLength
      invariant 1 <= i <= inputListLength && lessLength < i && greaterLength < i
      invariant lessThanMedian[..lessLength] == Lower(list, i) && greaterThanMedian[..greaterLength] == Upper(list, i)
      invariant inputList[..inputListLength] == list
    {
      if inputList[i] < median || (i % 2 == 0 && inputList[i] == median) {
        lessThanMedian[lessLength] := inputList[i];
        lessLength := lessLength + 1;
      } else {
        greaterThanMedian[greaterLength] := inputList[i];
        greaterLength := greaterLength + 1;
      }
      i := i + 1;
    }
  }

  ghost predicate Ascending(s: seq<real>) { forall i, j :: 0 <= i < j < |s| ==> s[i] <= s[j] }

  /** In any sorted arrangement, an element with lo below and hi above it stands at position |lo|. */
  lemma RankInSorted(s: seq<real>, x: real, lo: multiset<real>, hi: multiset<real>)
    requires Ascending(s) && multiset(s) == lo + multiset{x} + hi && AtMost(lo, x) && AtLeast(hi, x)
    ensures |lo| < |s| && s[|lo|] == x
  {
    assert |multiset(s)| == |s| == |lo| + 1 + |hi|;
    var k := |lo|;
    if s[k] < x {
      SmallPrefix(s, k, x, lo, hi);
    } else if s[k] > x {
      LargeSuffix(s, k, x, lo, hi);
    }
  }

  /** Elements up to a position below x all lie in lo. */
  lemma SmallPrefix(s: seq<real>, k: nat, x: real, lo: multiset<real>, hi: multiset<real>)
    requires Ascending(s) && multiset(s) == lo + multiset{x} + hi && AtLeast(hi, x) && k < |s| && s[k] < x
    ensures k + 1 <= |lo|
  {
    var part := s[..k + 1];
    assert s == part + s[k + 1..];
    PrefixBelow(s, k, part, x);
    SmallOnes(multiset(part), multiset(s), x, lo, hi);
    assert |multiset(part)| == |part|;
  }

  lemma PrefixBelow(s: seq<real>, k: nat, part: seq<real>, x: real)
    requires Ascending(s) && k < |s| && s[k] < x && part == s[..k + 1]
    ensures forall y :: y in multiset(part) ==> y < x
  {
    forall y | y in multiset(part)
      ensures y < x
    {
      assert y in part;
    }
  }

  lemma LargeSuffix(s: seq<real>, k: nat, x: real, lo: multiset<real>, hi: multiset<real>)
    requires Ascending(s) && multiset(s) == lo + multiset{x} + hi && AtMost(lo, x) && k < |s| && s[k] > x
    ensures |s| - k <= |hi|
  {
    var part := s[k..];
    assert s == s[..k] + part;
    assert forall y :: y in multiset(part) ==> y in part;
    LargeOnes(multiset(part), multiset(s), x, lo, hi);
    assert |multiset(part)| == |part|;
  }

  lemma SmallOnes(part: multiset<real>, all: multiset<real>, x: real, lo: multiset<real>, hi: multiset<real>)
    requires part <= all == lo + multiset{x} + hi && AtLeast(hi, x) && forall y :: y in part ==> y < x
    ensures part <= lo && |part| <= |lo|
  {
    forall y
      ensures part[y] <= lo[y]
    {
      assert part[y] <= all[y];
    }
    SubSize(part, lo);
  }

  lemma LargeOnes(part: multiset<real>, all: multiset<real>, x: real, lo: multiset<real>, hi: multiset<real>)
    requires part <= all == lo + multiset{x} + hi && AtMost(lo, x) && forall y :: y in part ==> y > x
    ensures part <= hi && |part| <= |hi|
  {
    forall y
      ensures part[y] <= hi[y]
    {
      assert part[y] <= all[y];
    }
    SubSize(part, hi);
  }

  lemma SubSize(a: multiset<real>, b: multiset<real>)
    requires a <= b
    ensures |b| == |a| + |b - a|
  {
    assert b == a + (b - a);
  }

  /** The median of the whole history is one of the two middle values of the sorted history. */
  method ReceiverCalculateDataArrivalRateMedian(packetArrivalHistory: array<real>) returns (median: real)
    requires packetArrivalHistory.Length == HISTORY_LENGTH
    ensures forall s :: Ascending(s) && multiset(s) == multiset(packetArrivalHistory[..]) ==>
              |s| == HISTORY_LENGTH && (median == s[HISTORY_LENGTH / 2 - 1] || median == s[HISTORY_LENGTH / 2])
  {
    ghost var all := packetArrivalHistory[..HISTORY_LENGTH];
    assert all == packetArrivalHistory[..];
    median := CalculateListMedianRecursive(packetArrivalHistory, HISTORY_LENGTH, 0, 0, multiset{}, multiset{});
    assert multiset{} + multiset(all) + multiset{} == multiset(all);
    ghost var lo, hi :| Middle(multiset(all), median, lo, hi);
    forall s | Ascending(s) && multiset(s) == multiset(packetArrivalHistory[..])
      ensures |s| == HISTORY_LENGTH && (median == s[HISTORY_LENGTH / 2 - 1] || median == s[HISTORY_LENGTH / 2])
    {
      assert |multiset(s)| == |multiset(all)|;
      assert |multiset(s)| == |lo| + 1 + |hi|;
      RankInSorted(s, median, lo, hi);
    }
  }
}
