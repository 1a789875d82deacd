/** The capture leases of Client/CKeyBinds.cpp: priority leases on keys under a 32-bit millisecond clock. */
module KeyBinds {
  import opened Words

  const MAX_KEY_ACTION_LENGTH: nat := 31
  const DEFAULT_CAPTURE_TTL_MS: nat := 350
  const MAX_CAPTURE_TTL_MS: nat := 5000
  const HALF: nat := 0x8000_0000

  /** sKeyCaptureLease: times and sequence numbers are 32-bit. */
  datatype Lease = Lease(key: nat, eventMask: nat, flags: bv8, priority: int, expiresAt: nat, sequence: nat,
      action: string)

  function MakeCaptureId(key: nat, action: string): string { Decimal(key) + ":" + action }

  /** The clock difference is read as a signed 32-bit number. */
  predicate CaptureExpired(capture: Lease, now: nat) { U32(now - capture.expiresAt) < HALF }

  function Shortened(action: string): string {
    if |action| > MAX_KEY_ACTION_LENGTH then action[..MAX_KEY_ACTION_LENGTH] else action
  }

  // ----- What the leases stand for: one grant per key and action, in unbounded time -----

  datatype Slot = Slot(key: nat, action: string)

  datatype Grant = Grant(eventMask: nat, flags: bv8, priority: int, expires: nat, sequence: nat)

  type Grants = map<Slot, Grant>

  function Id(s: Slot): string { MakeCaptureId(s.key, s.action) }

  function Wrapped(s: Slot, g: Grant): Lease {
    Lease(s.key, g.eventMask, g.flags, g.priority, U32(g.expires), U32(g.sequence), s.action)
  }

  function SlotOf(l: Lease): Slot { Slot(l.key, l.action) }

  /** The string-keyed map holds exactly the grants. */
  ghost predicate Refines(captures: map<string, Lease>, grants: Grants) {
    && (forall s :: s in grants ==> Id(s) in captures && captures[Id(s)] == Wrapped(s, grants[s]))
    && (forall id :: id in captures ==> SlotOf(captures[id]) in grants && id == Id(SlotOf(captures[id])))
  }

  lemma {:induction false} DigitsThenColon(a: string, b: string, x: string, y: string)
    requires a + ":" + x == b + ":" + y
    requires forall i :: 0 <= i < |a| ==> '0' <= a[i] <= '9'
    requires forall i :: 0 <= i < |b| ==> '0' <= b[i] <= '9'
    ensures a == b && x == y
  {
    var s, t := a + ":" + x, b + ":" + y;
    assert s[|a|] == ':' && t[|b|] == ':';
    assert |a| == |b|;
    assert a == s[..|a|] && b == t[..|b|] && x == s[|a| + 1..] && y == t[|b| + 1..];
  }

  /** Different keys or actions never share an identifier. */
  lemma CaptureIdUnique(k: nat, a: string, l: nat, b: string)
    ensures MakeCaptureId(k, a) == MakeCaptureId(l, b) <==> k == l && a == b
  {
    hide Decimal;
    if MakeCaptureId(k, a) == MakeCaptureId(l, b) {
      DigitsThenColon(Decimal(k), Decimal(l), a, b);
      DecimalUnique(k, l);
    }
  }

  lemma IdUnique(s: Slot, t: Slot)
    ensures Id(s) == Id(t) ==> s == t
  {
    CaptureIdUnique(s.key, s.action, t.key, t.action);
  }

  lemma RefinesStore(captures: map<string, Lease>, grants: Grants, s: Slot, g: Grant)
    requires Refines(captures, grants)
    ensures Refines(captures[Id(s) := Wrapped(s, g)], grants[s := g])
  {
    hide MakeCaptureId;
    var after := captures[Id(s) := Wrapped(s, g)];
    forall t | t in grants[s := g]
      ensures Id(t) in after && after[Id(t)] == Wrapped(t, grants[s := g][t])
    {
      IdUnique(s, t);
    }
  }

  lemma RefinesErase(captures: map<string, Lease>, grants: Grants, s: Slot)
    requires Refines(captures, grants)
    ensures Refines(captures - {Id(s)}, grants - {s})
  {
    hide MakeCaptureId;
    forall t | t in grants - {s}
      ensures Id(t) != Id(s)
    {
      IdUnique(s, t);
    }
  }

  /** The signed clock test is right exactly when the lease is still running, or ran out within the last 2^31 ms,
      or within such a stretch some multiple of 2^32 ms earlier. */
  lemma ClockAgreesExactlyWhen(l: Lease, expires: nat, now: nat)
    requires l.expiresAt == U32(expires) && expires <= now + MAX_CAPTURE_TTL_MS
    ensures (CaptureExpired(l, U32(now)) <==> now >= expires) <==> (now < expires || (now - expires) / HALF % 2 == 0)
  {
    ClockDifference(now, expires);
    var d := now - expires;
    if d >= 0 {
      HalfTurns(d);
    }
  }

  lemma ClockDifference(now: nat, expires: nat)
    ensures U32(U32(now) - U32(expires)) == U32(now - expires)
  {
    var q, r := now / TWO32, expires / TWO32;
    assert U32(now) - U32(expires) == now - expires + TWO32 * (r - q);
    WholeTurns(now - expires, r - q);
  }

  lemma HalfTurns(d: nat)
    ensures U32(d) < HALF <==> d / HALF % 2 == 0
  {
    var h := d / HALF;
    assert d == HALF * h + d % HALF;
    assert h == 2 * (h / 2) + h % 2;
    assert d == TWO32 * (h / 2) + (HALF * (h % 2) + d % HALF);
    WholeTurns(HALF * (h % 2) + d % HALF, h / 2);
  }

  /** Within the first 2^31 ms it is right. */
  lemma ClockAgrees(l: Lease, expires: nat, now: nat)
    requires l.expiresAt == U32(expires) && expires <= now + MAX_CAPTURE_TTL_MS && now < expires + HALF
    ensures CaptureExpired(l, U32(now)) <==> now >= expires
  {
    ClockAgreesExactlyWhen(l, expires, now);
  }

  /** A live grant on key. */
  predicate Live(grants: Grants, key: nat, now: nat, s: Slot) {
    s in grants && s.key == key && grants[s].expires > now
  }

  /** g beats h: a higher priority, or the same one granted later. */
  predicate Beats(g: Grant, h: Grant) {
    g.priority > h.priority || (g.priority == h.priority && g.sequence > h.sequence)
  }

  /** s is the live grant on key that beats all others. */
  ghost predicate Best(grants: Grants, key: nat, now: nat, s: Slot) {
    Live(grants, key, now, s) && forall t :: Live(grants, key, now, t) && t != s ==> Beats(grants[s], grants[t])
  }

  lemma BestUnique(grants: Grants, key: nat, now: nat, s: Slot, t: Slot)
    requires Best(grants, key, now, s) && Best(grants, key, now, t)
    ensures s == t
  {}

  /** The grant on key and action is running and, among all that are, has the highest priority, or the same and was
      granted last. */
  ghost predicate Outdoes(grants: Grants, key: nat, now: nat, action: string)
    requires Slot(key, action) in grants
  {
    var g := grants[Slot(key, action)];
    && g.expires > now
    && forall s :: s in grants && s.key == key && s.action != action && grants[s].expires > now ==>
         grants[s].priority < g.priority || (grants[s].priority == g.priority && grants[s].sequence < g.sequence)
  }

  lemma BestOutdoes(grants: Grants, key: nat, now: nat, s: Slot)
    requires Best(grants, key, now, s)
    ensures s == Slot(key, s.action) && Outdoes(grants, key, now, s.action)
  {}

  function Unexpired(grants: Grants, now: nat): Grants {
    map s | s in grants && grants[s].expires > now :: grants[s]
  }

  /** Grants are on real keys, for a short time from now, not run out at the last cleaning, and numbered apart. */
  ghost predicate Sound(grants: Grants, begun: nat, clock: nat, cleaned: nat) {
    && (forall s :: s in grants ==> SoundGrant(s, grants[s], begun, clock, cleaned))
    && (forall s, t :: s in grants && t in grants && grants[s].sequence == grants[t].sequence ==> s == t)
  }

  predicate SoundGrant(s: Slot, g: Grant, begun: nat, clock: nat, cleaned: nat) {
    && 1 <= s.key <= 255 && |s.action| <= MAX_KEY_ACTION_LENGTH && 1 <= g.eventMask <= 3
    && cleaned < g.expires <= clock + MAX_CAPTURE_TTL_MS && 1 <= g.sequence <= begun
  }

  lemma SoundLater(grants: Grants, begun: nat, clock: nat, cleaned: nat, now: nat)
    requires Sound(grants, begun, clock, cleaned) && clock <= now
    ensures Sound(grants, begun, now, cleaned)
  {}

  lemma SoundStore(grants: Grants, begun: nat, clock: nat, cleaned: nat, s: Slot, g: Grant)
    requires Sound(grants, begun, clock, cleaned) && g.sequence == begun + 1
    requires SoundGrant(s, g, begun + 1, clock, cleaned)
    ensures Sound(grants[s := g], begun + 1, clock, cleaned)
  {}

  lemma SoundPart(grants: Grants, part: Grants, begun: nat, clock: nat, cleaned: nat)
    requires Sound(grants, begun, clock, cleaned) && forall s :: s in part ==> s in grants && part[s] == grants[s]
    ensures Sound(part, begun, clock, cleaned)
  {}

  lemma SoundUnexpired(grants: Grants, begun: nat, clock: nat, cleaned: nat, now: nat)
    requires Sound(grants, begun, clock, cleaned) && clock <= now
    ensures Sound(Unexpired(grants, now), begun, now, now)
  {}

  lemma SoundOne(grants: Grants, begun: nat, clock: nat, cleaned: nat, s: Slot)
    requires Sound(grants, begun, clock, cleaned) && s in grants
    ensures SoundGrant(s, grants[s], begun, clock, cleaned)
  {}

  lemma SoundDistinct(grants: Grants, begun: nat, clock: nat, cleaned: nat, s: Slot, t: Slot)
    requires Sound(grants, begun, clock, cleaned) && s in grants && t in grants
    ensures grants[s].sequence == grants[t].sequence ==> s == t
  {}

  predicate Flagged(flags: bv8, flag: bv8) { flags & flag != 0 }

  class CKeyBinds {
    var captures: map<string, Lease>
    var keyStates: map<nat, bool>
    var captureSequence: nat
    // The grants, how many there have been, the last time seen and the last time expired ones were removed
    ghost var grants: Grants
    ghost var begun: nat
    ghost var clock: nat
    ghost var cleaned: nat

    ghost predicate Valid()
      reads this
    {
      && Refines(captures, grants) && captureSequence == U32(begun) && cleaned <= clock
          && Sound(grants, begun, clock, cleaned)
    }

    /** Time goes on, and no lease still in the map ran out 2^31 ms ago or more. */
    ghost predicate Timely(now: nat)
      reads this`clock, this`grants
    {
      clock <= now && forall s :: s in grants ==> now < grants[s].expires + HALF
    }

    /** It is enough to clean every 2^31 ms, and not even that is needed while there are no leases. */
    lemma TimelyWhenCleaned(now: nat)
      requires Valid() && clock <= now && (grants == map[] || now <= cleaned + HALF)
      ensures Timely(now)
    {
      forall s | s in grants
        ensures now < grants[s].expires + HALF
      {
        SoundOne(grants, begun, clock, cleaned, s);
      }
    }

    constructor (ghost now: nat)
      ensures Valid() && grants == map[] && begun == 0 && clock == now && cleaned == now
    {
      captures, keyStates, captureSequence := map[], map[], 0;
      grants, begun, clock, cleaned := map[], 0, now, now;
    }

    /** Grants or renews a lease for the time asked for, at most five seconds, or 350 ms when none is asked for; keys
        that do not exist and empty event masks are ignored. */
    method BeginCapture(tick: nat, key: nat, eventMask: nat, flags: bv8, priority: int, ttlMs: nat, action: string,
                        isDown: bool, ghost now: nat)
      requires Valid() && clock <= now && tick == U32(now)
      modifies this
      ensures Valid() && clock == now && cleaned == old(cleaned)
      ensures if key == 0 || key > 255 || eventMask % 4 == 0
              then grants == old(grants) && begun == old(begun) && keyStates == old(keyStates)
              else && begun == old(begun) + 1
                   && (var expires := now + if ttlMs == 0 then 350 else if ttlMs > 5000 then 5000 else ttlMs;
                       grants == old(grants)[Slot(key, if |action| > 31 then action[..31] else action) :=
                                               Grant(eventMask % 4, flags, priority, expires, begun)])
                   && keyStates == if key in old(keyStates) then old(keyStates) else old(keyStates)[key := isDown]
    {
      hide MakeCaptureId, Refines, Shortened, Sound, Wrapped;
      SoundLater(grants, begun, clock, cleaned, now);
      clock := now;
      if key == 0 || key > 255 {
        return;
      }
      var mask := eventMask % 4;
      if mask == 0 {
        return;
      }
      var ttl := ttlMs;
      if ttl == 0 {
        ttl := DEFAULT_CAPTURE_TTL_MS;
      }
      if ttl > MAX_CAPTURE_TTL_MS {
        ttl := MAX_CAPTURE_TTL_MS;
      }
      ghost var s, g := Slot(key, Shortened(action)), Grant(mask, flags, priority, now + ttl, begun + 1);
      captureSequence := U32(captureSequence + 1);
      var capture := Lease(key, mask, flags, priority, U32(tick + ttl), captureSequence, Shortened(action));
      Wraps(now, ttl);
      Wraps(begun, 1);
      ShortIsShort(action);
      RefinesStore(captures, grants, s, g);
      SoundStore(grants, begun, clock, cleaned, s, g);
      WrappedIs(s, g);
      captures := captures[MakeCaptureId(key, Shortened(action)) := capture];
      if key !in keyStates {
        keyStates := keyStates[key := isDown];
      }
      grants := grants[s := g];
      begun := begun + 1;
    }

    /** Ends the lease of a key and action, if there is one. */
    method EndCapture(key: nat, action: string)
      requires Valid()
      modifies this`captures, this`grants
      ensures Valid() && grants == old(grants) - {Slot(key, if |action| > 31 then action[..31] else action)}
    {
      hide MakeCaptureId, Refines, Sound;
      ghost var s := Slot(key, Shortened(action));
      RefinesErase(captures, grants, s);
      SoundPart(grants, grants - {s}, begun, clock, cleaned);
      captures := captures - {MakeCaptureId(key, Shortened(action))};
      grants := grants - {s};
    }

    /** Removes exactly the leases that have run out in true time. */
    method CleanExpiredCaptures(tick: nat, ghost now: nat)
      requires Valid() && Timely(now) && tick == U32(now)
      modifies this`captures, this`grants, this`clock, this`cleaned
      ensures Valid() && grants == Unexpired(old(grants), now) && clock == now && cleaned == now
      ensures forall s :: s in grants <==> s in old(grants) && old(grants)[s].expires > now
      ensures forall s :: s in grants ==> grants[s] == old(grants)[s]
    {
      hide MakeCaptureId, Refines, CaptureExpired, Sound;
      SoundUnexpired(grants, begun, clock, cleaned, now);
      var left := captures.Keys;
      ghost var all := captures;
      AllHaveIds(captures, grants);
      while left != {}
        invariant left <= all.Keys && Refines(captures, grants) && Refines(all, old(grants))
        invariant clock == old(clock) && cleaned == old(cleaned)
        invariant forall id :: id in captures ==> id in all && captures[id] == all[id]
        invariant forall id :: id in left ==> id in captures
        invariant forall s :: s in grants ==> s in old(grants) && grants[s] == old(grants)[s]
        invariant forall s :: s in old(grants) ==> (s in grants <==> Id(s) in left || old(grants)[s].expires > now)
        decreases |left|
      {
        var id :| id in left;
        left := left - {id};
        ghost var s := LeaseSlot(all, old(grants), id);
        SoundOne(old(grants), begun, clock, cleaned, s);
        ClockAgrees(captures[id], old(grants)[s].expires, now);
        if CaptureExpired(captures[id], tick) {
          RefinesErase(captures, grants, s);
          captures := captures - {id};
          grants := grants - {s};
        }
        OthersKept(old(grants), s);
      }
      assert grants == Unexpired(old(grants), now);
      clock, cleaned := now, now;
    }

    /** The live lease on the key with the highest priority, and among those the latest. */
    method FindBestCapture(key: nat, tick: nat, ghost now: nat) returns (found: bool, capture: Lease)
      requires Valid() && Timely(now) && tick == U32(now) && begun < TWO32
      ensures found == exists s :: s in grants && s.key == key && grants[s].expires > now
      ensures found ==>
                Best(grants, key, now, SlotOf(capture)) && capture == Wrapped(SlotOf(capture), grants[SlotOf(capture)])
      ensures found ==> forall s :: Best(grants, key, now, s) ==> s == SlotOf(capture)
      ensures found ==> Slot(key, capture.action) in grants && Outdoes(grants, key, now, capture.action)
    {
      hide MakeCaptureId, Refines, CaptureExpired, Sound;
      found := false;
      capture := Lease(0, 0, 0, 0, 0, 0, "");
      var left := captures.Keys;
      AllHaveIds(captures, grants);
      while left != {}
        invariant left <= captures.Keys
        invariant found ==> Live(grants, key, now, SlotOf(capture)) && Id(SlotOf(capture)) !in left
        invariant found ==> capture == Wrapped(SlotOf(capture), grants[SlotOf(capture)])
        invariant forall s :: Live(grants, key, now, s) && Id(s) !in left ==>
                    found && (s == SlotOf(capture) || Beats(grants[SlotOf(capture)], grants[s]))
        decreases |left|
      {
        var id :| id in left;
        left := left - {id};
        var candidate := captures[id];
        ghost var s := LeaseSlot(captures, grants, id);
        SoundOne(grants, begun, clock, cleaned, s);
        ClockAgrees(candidate, grants[s].expires, now);
        OthersKept(grants, s);
        NoWrap(grants[s].sequence, begun);
        if found {
          SoundOne(grants, begun, clock, cleaned, SlotOf(capture));
          SoundDistinct(grants, begun, clock, cleaned, s, SlotOf(capture));
          NoWrap(grants[SlotOf(capture)].sequence, begun);
        }
        if candidate.key == key && !CaptureExpired(candidate, tick) {
          if !found || candidate.priority > capture.priority
             || (candidate.priority == capture.priority && candidate.sequence > capture.sequence) {
            capture := candidate;
            found := true;
          }
        }
      }
      if found {
        forall s | Best(grants, key, now, s)
          ensures s == SlotOf(capture)
        {
          BestUnique(grants, key, now, s, SlotOf(capture));
        }
        BestOutdoes(grants, key, now, SlotOf(capture));
      }
    }

    /** Whether a live lease carries the flag; runs only with the game in front and no text input. */
    method HasActiveCaptureFlag(flag: bv8, foreground: bool, tick: nat, ghost now: nat) returns (active: bool)
      requires Valid() && Timely(now) && tick == U32(now)
      modifies this`captures, this`grants, this`clock, this`cleaned
      ensures Valid()
      ensures foreground ==> grants == Unexpired(old(grants), now) && clock == now && cleaned == now
      ensures !foreground ==> grants == old(grants) && clock == old(clock) && cleaned == old(cleaned)
      ensures active == (foreground && exists s :: s in old(grants) && old(grants)[s].expires > now
                                                   && old(grants)[s].flags & flag != 0)
    {
      hide MakeCaptureId, Refines;
      if !foreground {
        return false;
      }
      CleanExpiredCaptures(tick, now);
      active := AnyFlag(flag);
      assert forall s :: s in grants <==> s in old(grants) && old(grants)[s].expires > now;
    }

    method AnyFlag(flag: bv8) returns (active: bool)
      requires Valid()
      ensures active == exists s :: s in grants && Flagged(grants[s].flags, flag)
    {
      hide MakeCaptureId, Refines, Flagged, Id, Sound;
      var left := captures.Keys;
      AllHaveIds(captures, grants);
      while left != {}
        invariant left <= captures.Keys
        invariant forall s :: s in grants && Id(s) !in left ==> !Flagged(grants[s].flags, flag)
        decreases |left|
      {
        var id :| id in left;
        left := left - {id};
        ghost var s := LeaseSlot(captures, grants, id);
        OthersKept(grants, s);
        if Flagged(captures[id].flags, flag) {
          return true;
        }
      }
      return false;
    }
  }

  /** A lease on a key that has no other is found until the time asked for is over, and not a millisecond longer. */
  method CaptureLasts(binds: CKeyBinds, tick: nat, key: nat, eventMask: nat, flags: bv8, priority: int, ttlMs: nat,
                      action: string, isDown: bool, ghost now: nat, laterTick: nat, ghost later: nat)
    returns (found: bool, capture: Lease)
    requires binds.Valid() && binds.clock <= now <= later < now + HALF && tick == U32(now) && laterTick == U32(later)
    requires 1 <= key <= 255 && eventMask % 4 != 0 && binds.begun + 1 < TWO32
    requires forall s :: s in binds.grants ==> s.key != key && later < binds.grants[s].expires + HALF
    modifies binds
    ensures found <==> later < now + if ttlMs == 0 then 350 else if ttlMs > 5000 then 5000 else ttlMs
    ensures found ==> capture.key == key && capture.action == (if |action| > 31 then action[..31] else action)
                      && capture.eventMask == eventMask % 4 && capture.flags == flags && capture.priority == priority
  {
    hide MakeCaptureId, Refines, Sound;
    binds.BeginCapture(tick, key, eventMask, flags, priority, ttlMs, action, isDown, now);
    ghost var mine := Slot(key, if |action| > 31 then action[..31] else action);
    assert forall s :: s in binds.grants && s.key == key <==> s == mine;
    found, capture := binds.FindBestCapture(key, laterTick, later);
  }

  lemma WrappedIs(s: Slot, g: Grant)
    ensures Wrapped(s, g) == Lease(s.key, g.eventMask, g.flags, g.priority, U32(g.expires), U32(g.sequence), s.action)
  {}

  lemma NoWrap(n: nat, bound: nat)
    requires n <= bound < TWO32
    ensures U32(n) == n
  {}

  lemma ShortIsShort(action: string)
    ensures |Shortened(action)| <= MAX_KEY_ACTION_LENGTH
    ensures Shortened(action) == if |action| > 31 then action[..31] else action
  {}

  /** The slot behind an identifier. */
  lemma LeaseSlot(captures: map<string, Lease>, grants: Grants, id: string) returns (s: Slot)
    requires Refines(captures, grants) && id in captures
    ensures s == SlotOf(captures[id]) && s in grants && Id(s) == id && captures[id] == Wrapped(s, grants[s])
  {
    s := SlotOf(captures[id]);
  }

  lemma OthersKept(grants: Grants, s: Slot)
    ensures forall t :: t in grants && Id(t) == Id(s) ==> t == s
  {
    forall t | t in grants && Id(t) == Id(s)
      ensures t == s
    {
      IdUnique(s, t);
    }
  }

  lemma AllHaveIds(captures: map<string, Lease>, grants: Grants)
    requires Refines(captures, grants)
    ensures forall s :: s in grants ==> Id(s) in captures
  {}
}
