/** How far the sliding window of CCRakNetSlidingWindow.cpp opens, and how its round-trip estimate settles, over
    runs. */
module WindowRuns {
  import opened SlidingWindow

  /** How many of the first k events acknowledge while sending continuously. */
  function Acks(events: seq<Event>, k: nat): (n: nat)
    requires k <= |events|
    ensures n <= k
  {
    if k == 0 then 0 else Acks(events, k - 1) + if events[k - 1].Ack? && events[k - 1].continuous then 1 else 0
  }

  /** No loss is noticed among the events from i on up to k. */
  ghost predicate Lossless(events: seq<Event>, i: nat, k: nat)
    requires k <= |events|
  {
    forall m :: i <= m < k ==> !events[m].Nak? && !events[m].Resend?
  }

  function Times(n: nat, x: real): real { if n == 0 then 0.0 else Times(n - 1, x) + x }

  lemma {:induction false} TimesMonotone(a: nat, b: nat, x: real)
    requires a <= b && x >= 0.0
    ensures Times(a, x) <= Times(b, x)
  {
    if a < b { TimesMonotone(a, b - 1, x); }
  }

  // ----- Slow start -----

  /** What one continuous acknowledgement does in slow start: a full datagram, or just over the threshold. */
  lemma SlowStartStep(s: State, e: Event)
    requires Sound(s) && e.Ack? && e.continuous && (s.ssThresh == 0.0 || s.cwnd <= s.ssThresh)
    ensures var t, m := Step(s, e), s.mtu as real;
            && t.ssThresh == s.ssThresh
            && (s.ssThresh == 0.0 || s.cwnd + m <= s.ssThresh ==> t.cwnd == s.cwnd + m)
            && (s.ssThresh != 0.0 && s.cwnd + m > s.ssThresh ==>
                  && (t.cwnd - s.ssThresh) * (s.cwnd + m) == m * m
                  && s.ssThresh < t.cwnd <= s.ssThresh + m / 2.0 && (m > 0.0 ==> t.cwnd < s.ssThresh + m))
  {
    hide Timed, Portion;
    var m := s.mtu as real;
    if s.ssThresh != 0.0 && s.cwnd + m > s.ssThresh {
      PortionTimes(s.mtu, s.cwnd + m);
      ShareBounds(s, s.cwnd + m);
      PositivePortion(s.mtu, s.cwnd + m);
    }
  }

  lemma PortionTimes(mtu: nat, window: real)
    requires window > 0.0
    ensures Portion(mtu, window) * window == mtu as real * mtu as real
  {}

  lemma PositivePortion(mtu: nat, window: real)
    requires window > 0.0 && mtu > 0
    ensures Portion(mtu, window) > 0.0
  {}

  /** Until a loss is noticed or the threshold reached, every continuous acknowledgement opens the window by a full
      datagram, whatever is sent and received in between. */
  lemma {:induction false} SlowStartRun(s: State, events: seq<Event>, k: nat)
    requires Sound(s) && k <= |events| && Lossless(events, 0, k)
    requires s.ssThresh == 0.0 || s.cwnd + Times(Acks(events, k), s.mtu as real) <= s.ssThresh
    ensures After(s, events, k).cwnd == s.cwnd + Times(Acks(events, k), s.mtu as real)
    ensures After(s, events, k).ssThresh == s.ssThresh
  {
    hide Timed, Grown;
    if k > 0 {
      TimesMonotone(Acks(events, k - 1), Acks(events, k), s.mtu as real);
      SlowStartRun(s, events, k - 1);
      var t, e := After(s, events, k - 1), events[k - 1];
      if e.Ack? && e.continuous {
        SlowStartStep(t, e);
      }
    }
  }

  lemma {:induction false} TimesIs(n: nat, x: nat)
    ensures Times(n, x as real) == (n * x) as real
  {
    if n > 0 {
      TimesIs(n - 1, x);
      assert n * x == (n - 1) * x + x;
    }
  }

  /** From Init: one datagram, and one more for every continuous acknowledgement, with the threshold unset. */
  lemma OpensFromInit(mtu: nat, events: seq<Event>, k: nat)
    requires k <= |events| && Lossless(events, 0, k)
    ensures After(Fresh(mtu), events, k).cwnd == ((Acks(events, k) + 1) * mtu) as real
    ensures After(Fresh(mtu), events, k).ssThresh == 0.0
  {
    hide After, Step, Times, Acks, Lossless;
    SlowStartRun(Fresh(mtu), events, k);
    TimesIs(Acks(events, k), mtu);
    OneMore(Acks(events, k), mtu);
  }

  lemma OneMore(n: nat, x: nat)
    ensures x as real + (n * x) as real == ((n + 1) * x) as real
  {}

  // ----- Congestion avoidance -----

  /** The acknowledgement is above the number at which the last period began. */
  ghost predicate NewPeriod(s: State, e: Event) { Releases(e, s.nextBlock) }

  /** Outside slow start the window rises on a new period and only then, by the square of the datagram size over the
      window. */
  lemma AvoidanceStep(s: State, e: Event)
    requires Sound(s) && s.mtu > 0 && 0.0 < s.ssThresh < s.cwnd && e.Ack?
    ensures var t, m := Step(s, e), s.mtu as real;
            && (t.cwnd > s.cwnd <==> NewPeriod(s, e)) && (t.cwnd == s.cwnd <==> !NewPeriod(s, e))
            && (NewPeriod(s, e) ==> (t.cwnd - s.cwnd) * s.cwnd == m * m && t.cwnd <= s.cwnd + m)
  {
    hide Timed, Portion, GreaterThan;
    PortionTimes(s.mtu, s.cwnd);
    PositivePortion(s.mtu, s.cwnd);
    ShareBounds(s, s.cwnd);
  }

  /** A new period opens the way for the next cut, and is measured from the number sent next. */
  lemma NewPeriodReopens(s: State, e: Event)
    requires Sound(s) && NewPeriod(s, e)
    ensures !Step(s, e).backoff && Step(s, e).nextBlock == s.nextDatagram
    ensures e.Ack? && Step(s, e).continuous
    ensures Step(s, e).cwnd > 2.0 * s.mtu as real ==> Step(Step(s, e), Resend).cwnd == s.mtu as real
  {
    hide Timed, Grown;
  }

  /** A period that began at event i stands until a number sent after that is acknowledged, or the window cut. */
  lemma {:induction false} PeriodStands(s: State, events: seq<Event>, i: nat, k: nat)
    requires Sound(s) && i < k <= |events| && NewPeriod(After(s, events, i), events[i])
    requires forall m :: i < m < k ==> !Releases(events[m], After(s, events, i).nextDatagram) && !CutAt(s, events, m)
    ensures After(s, events, k).nextBlock == After(s, events, i).nextDatagram
  {
    hide Step, GreaterThan, Cuts;
    if k > i + 1 {
      PeriodStands(s, events, i, k - 1);
      assert !CutAt(s, events, k - 1);
      BlockKept(After(s, events, k - 1), events[k - 1]);
    } else {
      NewPeriodReopens(After(s, events, i), events[i]);
    }
  }

  lemma BlockKept(s: State, e: Event)
    requires Sound(s) && !NewPeriod(s, e) && !(e.Resend? && Cuts(s))
    ensures Step(s, e).nextBlock == s.nextBlock
  {
    hide Grown, Timed, GreaterThan;
  }

  /** So outside slow start the window grows at most once for all that was sent before a period began. */
  lemma {:induction false} GrowsOncePerPeriod(s: State, events: seq<Event>, i: nat, k: nat)
    requires Sound(s) && s.mtu > 0 && i < k <= |events| && NewPeriod(After(s, events, i), events[i])
    requires forall m :: i < m < k ==> !Releases(events[m], After(s, events, i).nextDatagram) && !CutAt(s, events, m)
    requires Avoiding(After(s, events, i + 1))
    ensures After(s, events, k).cwnd == After(s, events, i + 1).cwnd && Avoiding(After(s, events, k))
  {
    hide Step, Avoiding, Cuts, GreaterThan;
    if k > i + 1 {
      GrowsOncePerPeriod(s, events, i, k - 1);
      PeriodStands(s, events, i, k - 1);
      assert !CutAt(s, events, k - 1);
      var t, e := After(s, events, k - 1), events[k - 1];
      AvoidingStep(t, e);
      UnchangedStep(t, e);
    }
  }

  lemma UnchangedStep(s: State, e: Event)
    requires Sound(s) && s.mtu > 0 && Avoiding(s) && !NewPeriod(s, e) && !(e.Resend? && Cuts(s))
    ensures Step(s, e).cwnd == s.cwnd
  {
    hide GreaterThan, Portion;
  }

  // ----- The round-trip estimate -----

  /** How many of the first k events acknowledge. */
  function Measured(events: seq<Event>, k: nat): (n: nat)
    requires k <= |events|
    ensures n <= k
  {
    if k == 0 then 0 else Measured(events, k - 1) + if events[k - 1].Ack? then 1 else 0
  }

  /** 0.95 to the power of n. */
  function Decay(n: nat): (x: real)
    ensures 0.0 < x <= 1.0
  {
    if n == 0 then 1.0 else 0.95 * Decay(n - 1)
  }

  ghost predicate AllRtts(events: seq<Event>, i: nat, k: nat, rtt: nat)
    requires k <= |events|
  {
    forall m :: i <= m < k && events[m].Ack? ==> events[m].rtt == rtt
  }

  /** Every measurement closes a twentieth of the gap between the estimate and the round trip. */
  lemma {:induction false} EstimateSettles(s: State, events: seq<Event>, k: nat, rtt: nat)
    requires Sound(s) && s.estimatedRTT >= 0.0 && k <= |events| && AllRtts(events, 0, k, rtt)
    ensures After(s, events, k).estimatedRTT - rtt as real
         == Decay(Measured(events, k)) * (s.estimatedRTT - rtt as real)
    ensures After(s, events, k).estimatedRTT >= 0.0
  {
    hide Step, Timed, Decay;
    if k == 0 {
      assert Decay(0) == 1.0 by {
        NoDecay();
      }
    } else {
      EstimateSettles(s, events, k - 1, rtt);
      var t, e := After(s, events, k - 1), events[k - 1];
      StepTimes(t, e);
      if e.Ack? {
        TimedMean(t, rtt);
        DecayMore(Measured(events, k - 1), s.estimatedRTT - rtt as real);
      }
    }
  }

  /** The smoothing weight is 0.05, for the estimate and for its deviation. */
  lemma TimedMean(s: State, rtt: nat)
    requires s.estimatedRTT >= 0.0
    ensures var t, r := Timed(s, rtt), rtt as real;
            && t.estimatedRTT - r == 0.95 * (s.estimatedRTT - r) && t.estimatedRTT >= 0.0 && t.lastRtt == r
            && t.deviationRtt == 0.95 * s.deviationRtt
                                 + 0.05 * (if r >= s.estimatedRTT then r - s.estimatedRTT else s.estimatedRTT - r)
  {}

  lemma NoDecay()
    ensures Decay(0) == 1.0
  {}

  lemma DecayMore(n: nat, d: real)
    ensures Decay(n + 1) * d == 0.95 * (Decay(n) * d)
  {}

  /** On a line with one round trip the estimate is exact from the first measurement on, and the deviation, which starts
      as high, dies away. */
  lemma {:induction false} SteadyLine(mtu: nat, events: seq<Event>, k: nat, rtt: nat)
    requires k <= |events| && AllRtts(events, 0, k, rtt)
    ensures var s, n := After(Fresh(mtu), events, k), Measured(events, k);
            && (n == 0 ==> s.estimatedRTT == -1.0)
            && (n > 0 ==> s.estimatedRTT == rtt as real && s.deviationRtt == Decay(n - 1) * rtt as real)
  {
    hide Step, Timed, Decay;
    if k > 0 {
      SteadyLine(mtu, events, k - 1, rtt);
      var t, e := After(Fresh(mtu), events, k - 1), events[k - 1];
      StepTimes(t, e);
      if e.Ack? {
        if Measured(events, k - 1) == 0 {
          FirstTimed(t, rtt);
          NoDecay();
        } else {
          TimedMean(t, rtt);
          DecayMore(Measured(events, k - 1) - 1, rtt as real);
        }
      }
    }
  }

  lemma FirstTimed(s: State, rtt: nat)
    requires s.estimatedRTT == -1.0
    ensures Timed(s, rtt).estimatedRTT == rtt as real && Timed(s, rtt).deviationRtt == rtt as real
  {}

  /** The timeout there: twice the round trip and four times what is left of the deviation, 30 ms more, two seconds at
      most; and two seconds before the first measurement. */
  lemma SteadyTimeout(mtu: nat, events: seq<Event>, k: nat, rtt: nat)
    requires k <= |events| && AllRtts(events, 0, k, rtt)
    ensures var s, n := After(Fresh(mtu), events, k), Measured(events, k);
            && (s.estimatedRTT == UNSET || (s.estimatedRTT >= 0.0 && s.deviationRtt >= 0.0))
            && (n == 0 ==> Timeout(s) == 2000000)
            && (n > 0 ==> var x := 2.0 * rtt as real + 4.0 * (Decay(n - 1) * rtt as real);
                          Timeout(s) == if x.Floor + 30000 > 2000000 then 2000000 else x.Floor + 30000)
  {
    hide After, Decay, Measured, AllRtts;
    SteadyLine(mtu, events, k, rtt);
    var n := Measured(events, k);
    if n > 0 {
      NotNegative(Decay(n - 1), rtt as real);
    }
  }

  lemma NotNegative(x: real, y: real)
    requires x >= 0.0 && y >= 0.0
    ensures x * y >= 0.0
  {}
}
