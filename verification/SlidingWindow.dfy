/** Common/RakNet/CCRakNetSlidingWindow.cpp: congestion control, with its doubles as real numbers. */
module SlidingWindow {

  // ----- 24-bit sequence numbers -----

  const SPAN: int := 0x100_0000
  const HALF_SPAN: int := 0x7F_FFFF

  /** uint24_t arithmetic. */
  function U24(x: int): (r: nat)
    ensures r < SPAN
  {
    x % SPAN
  }

  predicate GreaterThan(a: nat, b: nat) { b != a && U24(b - a) > HALF_SPAN }

  predicate LessThan(a: nat, b: nat) { b != a && U24(b - a) < HALF_SPAN }

  lemma U24Difference(a: int, b: int, d: int)
    requires b - a == d && -SPAN < d < SPAN
    ensures U24(U24(b) - U24(a)) == if d >= 0 then d else d + SPAN
    ensures U24(a) == U24(b) <==> d == 0
  {
    var qa, qb := a / SPAN, b / SPAN;
    assert a == SPAN * qa + U24(a) && b == SPAN * qb + U24(b);
    var e := U24(b) - U24(a);
    assert e == d - SPAN * (qb - qa);
    assert -1 <= qb - qa <= 1 || qb - qa == 2 || qb - qa == -2;
  }

  /** Numbers less than a full span apart: the wrapped comparison is right exactly in these windows. */
  lemma GreaterThanWindow(a: int, b: int)
    requires -0x100_0000 < a - b < 0x100_0000
    ensures (GreaterThan(U24(a), U24(b)) <==> a > b) <==> -0x7F_FFFF <= a - b <= 0x80_0000
  {
    U24Difference(a, b, b - a);
  }

  lemma LessThanWindow(a: int, b: int)
    requires -0x100_0000 < a - b < 0x100_0000
    ensures (LessThan(U24(a), U24(b)) <==> a < b) <==> -0x7F_FFFF < a - b <= 0x80_0001
  {
    U24Difference(a, b, b - a);
  }

  // ----- The state and its steps -----

  datatype State = State(
    mtu: nat, cwnd: real, ssThresh: real,
    lastRtt: real, estimatedRTT: real, deviationRtt: real,
    oldestUnsentAck: nat,
    nextDatagram: nat, nextBlock: nat, backoff: bool, speedUp: bool, expected: nat, continuous: bool)

  datatype Event =
    | Ack(rtt: nat, continuous: bool, sequenceNumber: nat)
    | Nak
    | Resend
    | Send
    | Bandwidth(continuous: bool)
    | Got(sequenceNumber: nat, time: nat)

  const UNSET: real := -1.0

  function Fresh(mtu: nat): State {
    State(mtu, mtu as real, 0.0, UNSET, UNSET, UNSET, 0, 0, 0, false, false, 0, false)
  }

  predicate InSlowStart(s: State) { s.cwnd <= s.ssThresh || s.ssThresh == 0.0 }

  function Abs(x: real): real { if x < 0.0 then -x else x }

  function Timed(s: State, rtt: nat): (t: State)
    ensures t == s.(lastRtt := t.lastRtt, estimatedRTT := t.estimatedRTT, deviationRtt := t.deviationRtt)
  {
    var r := rtt as real;
    if s.estimatedRTT == UNSET then s.(lastRtt := r, estimatedRTT := r, deviationRtt := r)
    else
      var difference := r - s.estimatedRTT;
      s.(lastRtt := r, estimatedRTT := s.estimatedRTT + 0.05 * difference,
         deviationRtt := s.deviationRtt + 0.05 * (Abs(difference) - s.deviationRtt))
  }

  /** mtu * mtu / window, the growth outside slow start. */
  function Share(s: State, window: real): real
    requires window > 0.0
  {
    Portion(s.mtu, window)
  }

  function Portion(mtu: nat, window: real): real
    requires window > 0.0
  {
    mtu as real * mtu as real / window
  }

  /** The window after a continuous acknowledgement. */
  function Grown(s: State, newPeriod: bool): real
    requires s.ssThresh >= 0.0 && s.cwnd >= 0.0
  {
    if InSlowStart(s) then
      var c := s.cwnd + s.mtu as real;
      if c > s.ssThresh && s.ssThresh != 0.0 then s.ssThresh + Share(s, c) else c
    else if newPeriod then s.cwnd + Share(s, s.cwnd)
    else s.cwnd
  }

  lemma GrownDepends(s: State, t: State, newPeriod: bool)
    requires s.ssThresh >= 0.0 && s.cwnd >= 0.0 && s.mtu == t.mtu && s.cwnd == t.cwnd && s.ssThresh == t.ssThresh
    ensures Grown(s, newPeriod) == Grown(t, newPeriod)
  {}

  function Acked(s: State, rtt: nat, continuous: bool, sequenceNumber: nat): State
    requires s.ssThresh >= 0.0 && s.cwnd >= 0.0
  {
    var t := Timed(s, rtt).(continuous := continuous);
    if !continuous then t
    else
      var newPeriod := GreaterThan(sequenceNumber, s.nextBlock);
      var u := if newPeriod then t.(backoff := false, speedUp := false, nextBlock := s.nextDatagram) else t;
      u.(cwnd := Grown(s, newPeriod))
  }

  /** The conditions under which a resend cuts the window, and a negative acknowledgement takes effect. */
  predicate Cuts(s: State) { s.continuous && !s.backoff && s.cwnd > s.mtu as real * 2.0 }

  predicate NakTakesEffect(s: State) { s.continuous && !s.backoff }

  function Larger(x: real, y: real): real { if x < y then y else x }

  function Resent(s: State): State {
    if Cuts(s) then
      s.(ssThresh := Larger(s.cwnd / 2.0, s.mtu as real), cwnd := s.mtu as real, nextBlock := s.nextDatagram,
          backoff := true)
    else s
  }

  /** What OnGotPacket does with an arrival: acceptance, the reported gap and the next expected number. */
  function Arrive(expected: nat, sequenceNumber: nat): (bool, nat, nat) {
    if sequenceNumber == expected then (true, 0, U24(sequenceNumber + 1))
    else if GreaterThan(sequenceNumber, expected) then
      var gap := U24(sequenceNumber - expected);
      if gap > 50000 then (false, gap, expected)
      else (true, if gap > 1000 then 1000 else gap, U24(sequenceNumber + 1))
    else (true, 0, expected)
  }

  function Step(s: State, e: Event): State
    requires s.ssThresh >= 0.0 && s.cwnd >= 0.0
  {
    match e
    case Ack(rtt, continuous, n) => Acked(s, rtt, continuous, n)
    case Nak => if NakTakesEffect(s) then s.(ssThresh := s.cwnd / 2.0) else s
    case Resend => Resent(s)
    case Send => s.(nextDatagram := U24(s.nextDatagram + 1))
    case Bandwidth(continuous) => s.(continuous := continuous)
    case Got(n, time) =>
      s.(oldestUnsentAck := if s.oldestUnsentAck == 0 then time
          else s.oldestUnsentAck, expected := Arrive(s.expected, n).2)
  }

  // ----- The class -----

  class CCRakNetSlidingWindow {
    var mtu: nat
    var cwnd: real
    var ssThresh: real
    var lastRtt: real
    var estimatedRTT: real
    var deviationRtt: real
    var oldestUnsentAck: nat
    var nextDatagramSequenceNumber: nat
    var nextCongestionControlBlock: nat
    var backoffThisBlock: bool
    var speedUpThisBlock: bool
    var expectedNextSequenceNumber: nat
    var isContinuousSend: bool

    ghost function View(): State
      reads this
    {
      State(mtu, cwnd, ssThresh, lastRtt, estimatedRTT, deviationRtt, oldestUnsentAck, nextDatagramSequenceNumber,
            nextCongestionControlBlock, backoffThisBlock, speedUpThisBlock, expectedNextSequenceNumber,
                isContinuousSend)
    }

    constructor Init(maxDatagramPayload: nat)
      ensures View() == Fresh(maxDatagramPayload)
      ensures mtu == maxDatagramPayload && cwnd == maxDatagramPayload as real && ssThresh == 0.0
      ensures lastRtt == estimatedRTT == deviationRtt == -1.0 && oldestUnsentAck == 0
      ensures nextDatagramSequenceNumber == nextCongestionControlBlock == expectedNextSequenceNumber == 0
      ensures !backoffThisBlock && !speedUpThisBlock && !isContinuousSend
    {
      lastRtt, estimatedRTT, deviationRtt := UNSET, UNSET, UNSET;
      mtu := maxDatagramPayload;
      cwnd := maxDatagramPayload as real;
      ssThresh := 0.0;
      oldestUnsentAck := 0;
      nextDatagramSequenceNumber := 0;
      nextCongestionControlBlock := 0;
      backoffThisBlock, speedUpThisBlock := false, false;
      expectedNextSequenceNumber := 0;
      isContinuousSend := false;
    }

    predicate IsInSlowStart()
      reads this
      ensures IsInSlowStart() == InSlowStart(View())
    {
      cwnd <= ssThresh || ssThresh == 0.0
    }

    method GetTransmissionBandwidth(unacknowledgedBytes: nat, continuous: bool) returns (bytes: nat)
      modifies this
      ensures View() == old(View()).(continuous := continuous)
      ensures bytes as real <= (if unacknowledgedBytes as real < cwnd then cwnd - unacknowledgedBytes as real else 0.0)
                            < bytes as real + 1.0
    {
      isContinuousSend := continuous;
      if unacknowledgedBytes as real <= cwnd {
        bytes := (cwnd - unacknowledgedBytes as real).Floor;
      } else {
        bytes := 0;
      }
    }

    method GetAndIncrementNextDatagramSequenceNumber() returns (dsnt: nat)
      requires Sound(View())
      modifies this
      ensures View() == Step(old(View()), Send) && dsnt == old(nextDatagramSequenceNumber)
      ensures nextDatagramSequenceNumber == (dsnt + 1) % 0x100_0000
    {
      dsnt := nextDatagramSequenceNumber;
      nextDatagramSequenceNumber := U24(nextDatagramSequenceNumber + 1);
    }

    method OnGotPacket(datagramSequenceNumber: nat, curTime: nat) returns (ok: bool, skippedMessageCount: nat)
      requires Sound(View())
      modifies this
      ensures View() == Step(old(View()), Got(datagramSequenceNumber, curTime))
      ensures (ok, skippedMessageCount, expectedNextSequenceNumber)
           == Arrive(old(expectedNextSequenceNumber), datagramSequenceNumber)
      ensures oldestUnsentAck == if old(oldestUnsentAck) == 0 then curTime else old(oldestUnsentAck)
    {
      if oldestUnsentAck == 0 {
        oldestUnsentAck := curTime;
      }
      if datagramSequenceNumber == expectedNextSequenceNumber {
        skippedMessageCount := 0;
        expectedNextSequenceNumber := U24(datagramSequenceNumber + 1);
      } else if GreaterThan(datagramSequenceNumber, expectedNextSequenceNumber) {
        skippedMessageCount := U24(datagramSequenceNumber - expectedNextSequenceNumber);
        if skippedMessageCount > 1000 {
          if skippedMessageCount > 50000 {
            return false, skippedMessageCount;
          }
          skippedMessageCount := 1000;
        }
        expectedNextSequenceNumber := U24(datagramSequenceNumber + 1);
      } else {
        skippedMessageCount := 0;
      }
      ok := true;
    }

    method OnResend()
      requires Sound(View())
      modifies this
      ensures View() == Step(old(View()), Resend)
      ensures if isContinuousSend && !old(backoffThisBlock) && old(cwnd) > 2.0 * mtu as real
              then && cwnd == mtu as real && ssThresh == old(cwnd) / 2.0 && backoffThisBlock
                   && nextCongestionControlBlock == nextDatagramSequenceNumber
              else View() == old(View())
    {
      if isContinuousSend && backoffThisBlock == false && cwnd > mtu as real * 2.0 {
        ssThresh := cwnd / 2.0;
        if ssThresh < mtu as real {
          // the floor of the threshold: cannot happen, as only a window above two datagrams is halved
          assert false;
        }
        cwnd := mtu as real;
        nextCongestionControlBlock := nextDatagramSequenceNumber;
        backoffThisBlock := true;
      }
    }

    method OnNAK()
      requires Sound(View())
      modifies this
      ensures View() == Step(old(View()), Nak)
      ensures ssThresh == (if isContinuousSend && !backoffThisBlock then cwnd / 2.0 else old(ssThresh))
      ensures cwnd == old(cwnd) && backoffThisBlock == old(backoffThisBlock)
    {
      if isContinuousSend && backoffThisBlock == false {
        ssThresh := cwnd / 2.0;
      }
    }

    method OnAck(rtt: nat, continuous: bool, sequenceNumber: nat)
      requires Sound(View())
      modifies this
      ensures View() == Step(old(View()), Ack(rtt, continuous, sequenceNumber))
      ensures lastRtt == rtt as real && isContinuousSend == continuous
      ensures !continuous ==> cwnd == old(cwnd) && ssThresh == old(ssThresh)
    {
      hide Timed, Grown;
      ghost var before := View();
      UpdateRtt(rtt);
      isContinuousSend := continuous;
      if continuous == false {
        return;
      }
      var isNewCongestionControlPeriod := GreaterThan(sequenceNumber, nextCongestionControlBlock);
      if isNewCongestionControlPeriod {
        backoffThisBlock := false;
        speedUpThisBlock := false;
        nextCongestionControlBlock := nextDatagramSequenceNumber;
      }
      GrownDepends(before, View(), isNewCongestionControlPeriod);
      GrowWindow(isNewCongestionControlPeriod);
    }

    method UpdateRtt(rtt: nat)
      modifies this`lastRtt, this`estimatedRTT, this`deviationRtt
      ensures View() == Timed(old(View()), rtt)
      ensures lastRtt == rtt as real
    {
      lastRtt := rtt as real;
      if estimatedRTT == UNSET {
        estimatedRTT := rtt as real;
        deviationRtt := rtt as real;
      } else {
        var d := 0.05;
        var difference := rtt as real - estimatedRTT;
        estimatedRTT := estimatedRTT + d * difference;
        deviationRtt := deviationRtt + d * (Abs(difference) - deviationRtt);
      }
    }

    method GetRTOForRetransmission() returns (rto: nat)
      requires estimatedRTT == UNSET || (estimatedRTT >= 0.0 && deviationRtt >= 0.0)
      ensures rto == Timeout(View())
    {
      if estimatedRTT == UNSET {
        return MAX_THRESHOLD;
      }
      var u, q := 2.0, 4.0;
      var threshold := (u * estimatedRTT + q * deviationRtt).Floor + ADDITIONAL_VARIANCE;
      if threshold > MAX_THRESHOLD {
        return MAX_THRESHOLD;
      }
      return threshold;
    }

    /** The end of OnAck: slow start, or congestion avoidance once a period. */
    method GrowWindow(isNewCongestionControlPeriod: bool)
      requires Sound(View())
      modifies this`cwnd
      ensures View() == old(View()).(cwnd := Grown(old(View()), isNewCongestionControlPeriod))
    {
      hide Portion;
      if IsInSlowStart() {
        cwnd := cwnd + mtu as real;
        if cwnd > ssThresh && ssThresh != 0.0 {
          cwnd := ssThresh + Portion(mtu, cwnd);
        }
      } else if isNewCongestionControlPeriod {
        cwnd := cwnd + Portion(mtu, cwnd);
      }
    }
  }

  // ----- What every step keeps -----

  /** The window never falls below one datagram. */
  ghost predicate Sound(s: State) { s.ssThresh >= 0.0 && s.cwnd >= s.mtu as real }

  lemma ShareBounds(s: State, window: real)
    requires window > 0.0 && window >= s.mtu as real
    ensures 0.0 <= Share(s, window) <= s.mtu as real
    ensures window >= 2.0 * s.mtu as real ==> Share(s, window) <= s.mtu as real / 2.0
  {
    hide Portion;
    var m := s.mtu as real;
    ProductGrows(m, m, window);
    PortionAtMost(s.mtu, window, m);
    if window >= 2.0 * m {
      ProductGrows(m / 2.0, 2.0 * m, window);
      Halved(m);
      PortionAtMost(s.mtu, window, m / 2.0);
    }
  }

  lemma Halved(m: real)
    ensures m / 2.0 * (2.0 * m) == m * m
  {}

  lemma PortionAtMost(mtu: nat, window: real, b: real)
    requires window > 0.0 && mtu as real * mtu as real <= b * window
    ensures 0.0 <= Portion(mtu, window) <= b
  {
    QuotientBounds(mtu as real * mtu as real, window, b);
  }

  lemma ProductGrows(a: real, b: real, c: real)
    requires a >= 0.0 && b <= c
    ensures a * b <= a * c
  {}

  lemma QuotientBounds(a: real, w: real, b: real)
    requires w > 0.0 && 0.0 <= a <= b * w
    ensures 0.0 <= a / w <= b
  {
    var q := a / w;
    assert q * w == a;
  }

  /** An acknowledgement never lowers the window and raises it by at most one and a half datagrams. */
  lemma AckGrowth(s: State, newPeriod: bool)
    requires Sound(s)
    ensures s.cwnd <= Grown(s, newPeriod) <= s.cwnd + 1.5 * s.mtu as real
    ensures s.mtu > 0 ==> Grown(s, newPeriod) < s.cwnd + 1.5 * s.mtu as real
  {
    var m := s.mtu as real;
    if InSlowStart(s) {
      var c := s.cwnd + m;
      if c > s.ssThresh && s.ssThresh != 0.0 {
        ShareBounds(s, c);
      }
    } else if newPeriod {
      ShareBounds(s, s.cwnd);
    }
  }

  lemma StepSound(s: State, e: Event)
    requires Sound(s)
    ensures Sound(Step(s, e)) && Step(s, e).mtu == s.mtu
  {
    if e.Ack? && e.continuous {
      AckGrowth(s, GreaterThan(e.sequenceNumber, s.nextBlock));
    }
  }

  /** The state after the first k events. */
  function After(s: State, events: seq<Event>, k: nat): (t: State)
    requires k <= |events| && Sound(s)
    ensures Sound(t) && t.mtu == s.mtu
  {
    if k == 0 then s
    else
      StepSound(After(s, events, k - 1), events[k - 1]);
      Step(After(s, events, k - 1), events[k - 1])
  }

  /** Every round trip among the first k events lies between lo and hi. */
  ghost predicate RttsBetween(events: seq<Event>, k: nat, lo: nat, hi: nat)
    requires k <= |events|
  {
    forall i :: 0 <= i < k && events[i].Ack? ==> lo <= events[i].rtt <= hi
  }

  /** The smoothed round trip is a weighted mean of those seen, and the deviation never leaves their range. */
  ghost predicate Smoothed(s: State, lo: nat, hi: nat) {
    s.estimatedRTT == UNSET || (lo as real <= s.estimatedRTT <= hi as real && 0.0 <= s.deviationRtt <= hi as real)
  }

  lemma TimedSmoothed(s: State, rtt: nat, lo: nat, hi: nat)
    requires Smoothed(s, lo, hi) && lo <= rtt <= hi
    ensures Smoothed(Timed(s, rtt), lo, hi) && Timed(s, rtt).estimatedRTT != UNSET
  {
    var r, l, h := rtt as real, lo as real, hi as real;
    assert 0.0 <= l <= r <= h;
    if s.estimatedRTT != UNSET {
      assert 0.0 <= Abs(r - s.estimatedRTT) <= h;
    }
  }

  /** Over every run from Init the estimate stays between the smallest and the largest round trip acknowledged. */
  lemma {:induction false} RttBounded(mtu: nat, events: seq<Event>, k: nat, lo: nat, hi: nat)
    requires k <= |events| && RttsBetween(events, k, lo, hi)
    ensures Smoothed(After(Fresh(mtu), events, k), lo, hi)
    ensures (exists i :: 0 <= i < k && events[i].Ack?) ==> After(Fresh(mtu), events, k).estimatedRTT != UNSET
  {
    hide Smoothed, Timed;
    if k == 0 {
      NothingTimed(mtu, lo, hi);
    } else {
      RttBounded(mtu, events, k - 1, lo, hi);
      var s, e := After(Fresh(mtu), events, k - 1), events[k - 1];
      if e.Ack? {
        TimedSmoothed(s, e.rtt, lo, hi);
      }
      StepTimes(s, e);
      SmoothedDepends(if e.Ack? then Timed(s, e.rtt) else s, Step(s, e), lo, hi);
    }
  }

  const MAX_THRESHOLD: nat := 2000000
  const ADDITIONAL_VARIANCE: nat := 30000

  /** The retransmission timeout in microseconds. */
  function Timeout(s: State): (rto: nat)
    requires s.estimatedRTT == UNSET || (s.estimatedRTT >= 0.0 && s.deviationRtt >= 0.0)
  {
    if s.estimatedRTT == UNSET then MAX_THRESHOLD
    else
      var threshold := (2.0 * s.estimatedRTT + 4.0 * s.deviationRtt).Floor + ADDITIONAL_VARIANCE;
      if threshold > MAX_THRESHOLD then MAX_THRESHOLD else threshold
  }

  /** Once an acknowledgement has come, the timeout lies between twice the smallest and six times the largest round
      trip,
      plus a fixed allowance and capped at two seconds. */
  lemma TimeoutBounded(mtu: nat, events: seq<Event>, k: nat, lo: nat, hi: nat)
    requires k <= |events| && RttsBetween(events, k, lo, hi) && exists i :: 0 <= i < k && events[i].Ack?
    ensures var s := After(Fresh(mtu), events, k);
            && s.estimatedRTT >= 0.0 && s.deviationRtt >= 0.0
            && Timeout(s) <= MAX_THRESHOLD && Timeout(s) <= 6 * hi + ADDITIONAL_VARIANCE
            && (Timeout(s) == MAX_THRESHOLD || Timeout(s) >= 2 * lo + ADDITIONAL_VARIANCE)
  {
    hide Timed;
    RttBounded(mtu, events, k, lo, hi);
    var s := After(Fresh(mtu), events, k);
    FloorBetween(2.0 * s.estimatedRTT + 4.0 * s.deviationRtt, 2 * lo, 6 * hi);
  }

  lemma FloorBetween(x: real, lo: nat, hi: nat)
    requires lo as real <= x <= hi as real
    ensures lo <= x.Floor <= hi
  {}

  lemma NothingTimed(mtu: nat, lo: nat, hi: nat)
    ensures Smoothed(Fresh(mtu), lo, hi)
  {}

  lemma StepTimes(s: State, e: Event)
    requires Sound(s)
    ensures var t := if e.Ack? then Timed(s, e.rtt) else s;
            Step(s, e).estimatedRTT == t.estimatedRTT && Step(s, e).deviationRtt == t.deviationRtt
  {
    hide Timed, Grown;
  }

  lemma SmoothedDepends(s: State, t: State, lo: nat, hi: nat)
    requires s.estimatedRTT == t.estimatedRTT && s.deviationRtt == t.deviationRtt
    ensures Smoothed(s, lo, hi) == Smoothed(t, lo, hi)
  {}

  /** In every run from Init the window stays at least one datagram. */
  lemma WindowFloor(mtu: nat, events: seq<Event>, k: nat)
    requires k <= |events|
    ensures Sound(Fresh(mtu)) && After(Fresh(mtu), events, k).cwnd >= mtu as real
  {}

  ghost predicate CutAt(s: State, events: seq<Event>, i: nat)
    requires i < |events| && Sound(s)
  {
    events[i].Resend? && Cuts(After(s, events, i))
  }

  /** Event k is a continuous acknowledgement above the number n. */
  ghost predicate Releases(e: Event, n: nat) {
    e.Ack? && e.continuous && GreaterThan(e.sequenceNumber, n)
  }

  /** Until such an acknowledgement the block recorded by a cut stands. */
  lemma {:induction false} BlockStands(s: State, events: seq<Event>, i: nat, k: nat)
    requires Sound(s) && i < k <= |events| && CutAt(s, events, i)
    requires forall m :: i < m < k ==> !Releases(events[m], After(s, events, i).nextDatagram)
    ensures After(s, events, k).backoff && After(s, events, k).nextBlock == After(s, events, i).nextDatagram
  {
    hide Grown, Timed, GreaterThan;
    if k > i + 1 { BlockStands(s, events, i, k - 1); }
  }

  /** Between two cuts of the window lies an acknowledgement above the number recorded at the first. */
  lemma CutsSeparated(s: State, events: seq<Event>, i: nat, j: nat)
    requires Sound(s) && i < j < |events| && CutAt(s, events, i) && CutAt(s, events, j)
    ensures exists k :: i < k < j && Releases(events[k], After(s, events, i).nextDatagram)
  {
    if forall m :: i < m < j ==> !Releases(events[m], After(s, events, i).nextDatagram) {
      BlockStands(s, events, i, j);
      assert false;
    }
  }

  /** After an effective negative acknowledgement slow start is not entered again before the next cut. */
  lemma NoSlowStart(s: State, events: seq<Event>, i: nat, k: nat)
    requires Sound(s) && s.mtu > 0 && i < k <= |events|
    requires events[i].Nak? && NakTakesEffect(After(s, events, i))
    requires forall m :: i < m < k ==> !CutAt(s, events, m)
    ensures !InSlowStart(After(s, events, k))
  {
    AvoidanceKept(s, events, i, k);
  }

  /** The window is above a threshold that is set. */
  ghost predicate Avoiding(s: State) { 0.0 < s.ssThresh < s.cwnd }

  lemma AvoidingStep(s: State, e: Event)
    requires Sound(s) && s.mtu > 0 && Avoiding(s) && !(e.Resend? && Cuts(s))
    ensures Avoiding(Step(s, e))
  {
    hide Grown;
    if e.Ack? && e.continuous {
      AckGrowth(s, GreaterThan(e.sequenceNumber, s.nextBlock));
    }
  }

  lemma NakAvoids(s: State, e: Event)
    requires Sound(s) && s.mtu > 0 && e.Nak? && NakTakesEffect(s)
    ensures Avoiding(Step(s, e))
  {}

  lemma {:induction false} AvoidanceKept(s: State, events: seq<Event>, i: nat, k: nat)
    requires Sound(s) && s.mtu > 0 && i < k <= |events|
    requires events[i].Nak? && NakTakesEffect(After(s, events, i))
    requires forall m :: i < m < k ==> !CutAt(s, events, m)
    ensures Avoiding(After(s, events, k))
  {
    hide Step, NakTakesEffect, Avoiding, InSlowStart;
    if k == i + 1 {
      NakAvoids(After(s, events, i), events[i]);
    } else {
      AvoidanceKept(s, events, i, k - 1);
      assert !CutAt(s, events, k - 1);
      AvoidingStep(After(s, events, k - 1), events[k - 1]);
    }
  }

  /** A cut puts the window into slow start, below the threshold it recorded. */
  lemma CutEntersSlowStart(s: State)
    requires Sound(s) && Cuts(s)
    ensures InSlowStart(Step(s, Resend)) && Step(s, Resend).cwnd == s.mtu as real
            && Step(s, Resend).ssThresh == s.cwnd / 2.0
  {}

  // ----- Arrivals, with sequence numbers unwrapped -----

  /** Unwrapped arrivals stay within the window in which the comparison is right. */
  ghost predicate Near(expected: nat, n: nat) { -HALF_SPAN <= n - expected <= HALF_SPAN + 1 }

  function Unwrapped(expected: nat, n: nat): nat {
    if n < expected || n - expected > 50000 then expected else n + 1
  }

  /** One arrival: the wrapped code follows the unwrapped numbers. */
  lemma ArriveUnwrapped(expected: nat, n: nat)
    requires Near(expected, n)
    ensures var (ok, skipped, next) := Arrive(U24(expected), U24(n));
            && ok == (n - expected <= 50000)
            && next == U24(Unwrapped(expected, n))
            && (ok ==> skipped == Gap(expected, n))
            && (ok ==> Unwrapped(expected, n) == if expected < n + 1 then n + 1 else expected)
  {
    GreaterThanWindow(n, expected);
    U24Difference(n, expected, expected - n);
    U24Difference(expected, n, n - expected);
    U24Plus(n);
  }

  lemma U24Plus(n: nat)
    ensures U24(U24(n) + 1) == U24(n + 1)
  {
    assert n == SPAN * (n / SPAN) + U24(n);
  }

  /** The unwrapped number expected before arrival k. */
  function ExpectedAt(first: nat, arrivals: seq<nat>, k: nat): nat
    requires k <= |arrivals|
  {
    if k == 0 then first else Unwrapped(ExpectedAt(first, arrivals, k - 1), arrivals[k - 1])
  }

  /** What arrival k reports: acceptance and the size of the gap just below it. */
  function Report(first: nat, arrivals: seq<nat>, k: nat): (bool, nat)
    requires k < |arrivals|
  {
    var (ok, skipped, _) := Arrive(U24(ExpectedAt(first, arrivals, k)), U24(arrivals[k]));
    (ok, skipped)
  }

  lemma {:induction false} ExpectedGrows(first: nat, arrivals: seq<nat>, i: nat, j: nat)
    requires i <= j <= |arrivals|
    ensures ExpectedAt(first, arrivals, i) <= ExpectedAt(first, arrivals, j)
  {
    if i < j { ExpectedGrows(first, arrivals, i, j - 1); }
  }

  ghost predicate AllNear(first: nat, arrivals: seq<nat>) {
    forall k :: 0 <= k < |arrivals| ==> Near(ExpectedAt(first, arrivals, k), arrivals[k])
  }

  /** What an arrival reports, in unwrapped numbers: gaps of at most 1000 are reported in full. */
  lemma ReportUnwrapped(first: nat, arrivals: seq<nat>, k: nat)
    requires k < |arrivals| && AllNear(first, arrivals)
    ensures Report(first, arrivals, k).0 <==> arrivals[k] - ExpectedAt(first, arrivals, k) <= 50000
    ensures Report(first, arrivals, k).0 ==>
              Report(first, arrivals, k).1 == Gap(ExpectedAt(first, arrivals, k), arrivals[k])
    ensures var gap := arrivals[k] - ExpectedAt(first, arrivals, k);
            Report(first, arrivals, k).0 ==>
              Report(first, arrivals, k).1 == if gap <= 0 then 0 else if gap > 1000 then 1000 else gap
    ensures Report(first, arrivals, k).0 ==> ExpectedAt(first, arrivals, k + 1) >= arrivals[k] + 1
    ensures ExpectedAt(first, arrivals, k + 1) ==
              if Report(first, arrivals, k).0 && arrivals[k] >= ExpectedAt(first, arrivals, k) then arrivals[k] + 1
              else ExpectedAt(first, arrivals, k)
  {
    hide Arrive, U24;
    ArriveUnwrapped(ExpectedAt(first, arrivals, k), arrivals[k]);
  }

  /** The gap reported for an accepted arrival. */
  function Gap(expected: nat, n: nat): nat {
    if n <= expected then 0 else if n - expected > 1000 then 1000 else n - expected
  }

  /** No number is reported missing twice: the reported ranges of any two accepted arrivals are disjoint. */
  lemma SkippedDisjoint(first: nat, arrivals: seq<nat>, i: nat, j: nat)
    requires i < j < |arrivals| && AllNear(first, arrivals)
    requires Report(first, arrivals, i).0 && Report(first, arrivals, j).0
    ensures Report(first, arrivals, i).1 == 0 || Report(first, arrivals, j).1 == 0
              || arrivals[i] < arrivals[j] - Report(first, arrivals, j).1
  {
    hide Report, ExpectedAt, Near;
    ReportUnwrapped(first, arrivals, i);
    ReportUnwrapped(first, arrivals, j);
    ExpectedGrows(first, arrivals, i + 1, j);
  }

  /** The class follows the unwrapped numbers over any run of arrivals. */
  method ReceiveAll(window: CCRakNetSlidingWindow, first: nat, arrivals: seq<nat>) returns (reports: seq<(bool, nat)>)
    requires Sound(window.View()) && window.expectedNextSequenceNumber == U24(first) && AllNear(first, arrivals)
    modifies window
    ensures window.expectedNextSequenceNumber == U24(ExpectedAt(first, arrivals, |arrivals|))
    ensures |reports| == |arrivals| && forall k :: 0 <= k < |reports| ==> reports[k] == Report(first, arrivals, k)
  {
    hide Arrive, U24, Near, Unwrapped;
    reports := [];
    for k := 0 to |arrivals|
      invariant Sound(window.View()) && window.expectedNextSequenceNumber == U24(ExpectedAt(first, arrivals, k))
      invariant |reports| == k && forall i :: 0 <= i < k ==> reports[i] == Report(first, arrivals, i)
    {
      ArriveUnwrapped(ExpectedAt(first, arrivals, k), arrivals[k]);
      var ok, skipped := window.OnGotPacket(U24(arrivals[k]), k);
      reports := reports + [(ok, skipped)];
    }
  }
}
