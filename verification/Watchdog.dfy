/** The heartbeat monitor of the power-management firmware: a callback polls a counter that the secure firmware
    advances, and resets the system when the counter stands still. */
module Watchdog {

  const U32: nat := 0x1_0000_0000
  const MISS_THRESHOLD: nat := 8

  datatype Monitor = Monitor(armed: bool, prev: nat, missed: nat)

  const CLEAR: Monitor := Monitor(false, 0, 0)

  /** One callback on a reading: the new state, and whether it resets the system. */
  function Poll(m: Monitor, hb: nat): (r: (Monitor, bool)) {
    if !m.armed then (if hb != 0 then Monitor(true, hb, m.missed) else m, false)
    else if hb != m.prev then (Monitor(true, hb, 0), false)
    else if m.missed + 1 >= MISS_THRESHOLD then (CLEAR, true)
    else (Monitor(true, hb, m.missed + 1), false)
  }

  /** The state after some readings, and how many of them came up to and including the last reset. */
  function After(rs: seq<nat>): (r: (Monitor, nat))
    ensures r.1 <= |rs|
    decreases |rs|
  {
    if |rs| == 0 then (CLEAR, 0)
    else
      var n := |rs| - 1;
      var before := After(rs[..n]);
      var r := Poll(before.0, rs[n]);
      (r.0, if r.1 then |rs| else before.1)
  }

  /** The callback on the last reading resets the system. */
  predicate Resets(rs: seq<nat>) { |rs| > 0 && Poll(After(rs[..|rs| - 1]).0, rs[|rs| - 1]).1 }

  // ----- what the state says about the readings

  predicate SomeNonzero(h: seq<nat>)
    decreases |h|
  {
    |h| > 0 && (h[|h| - 1] != 0 || SomeNonzero(h[..|h| - 1]))
  }

  /** How many of the latest readings are equal, not counting any before the first that is not zero. */
  function Still(h: seq<nat>): (n: nat)
    ensures n <= |h|
    decreases |h|
  {
    if !SomeNonzero(h) then 0
    else if |h| > 1 && SomeNonzero(h[..|h| - 1]) && h[|h| - 1] == h[|h| - 2] then Still(h[..|h| - 1]) + 1
    else 1
  }

  /** `m` is the state after readings `h` without a reset. */
  ghost predicate Describes(h: seq<nat>, m: Monitor) {
    && m.armed == SomeNonzero(h)
    && (if m.armed then m.prev == h[|h| - 1] && m.missed + 1 == Still(h) else m == CLEAR)
    && m.missed < MISS_THRESHOLD
  }

  /** One more reading. */
  lemma {:induction false} PollDescribes(h: seq<nat>, m: Monitor, hb: nat)
    requires Describes(h, m)
    ensures Poll(m, hb).1 <==> Still(h + [hb]) > MISS_THRESHOLD
    ensures !Poll(m, hb).1 ==> Describes(h + [hb], Poll(m, hb).0)
  {
    assert (h + [hb])[..|h|] == h;
  }

  lemma {:induction false} AfterDescribes(rs: seq<nat>)
    ensures Describes(rs[After(rs).1..], After(rs).0)
    decreases |rs|
  {
    if |rs| > 0 {
      var n := |rs| - 1;
      AfterDescribes(rs[..n]);
      var before := After(rs[..n]);
      PollDescribes(rs[..n][before.1..], before.0, rs[n]);
      assert rs[..n][before.1..] + [rs[n]] == rs[before.1..];
    }
  }

  // ----- in terms of the readings alone

  /** At least nine readings, the latest nine equal, one of those up to the first of the nine not zero. */
  ghost predicate NineEqual(h: seq<nat>) {
    && |h| >= 9
    && (exists k :: 0 <= k <= |h| - 9 && h[k] != 0)
    && (forall k :: |h| - 9 <= k < |h| ==> h[k] == h[|h| - 1])
  }

  lemma {:induction false} SomeNonzeroIff(h: seq<nat>)
    ensures SomeNonzero(h) <==> exists k :: 0 <= k < |h| && h[k] != 0
    decreases |h|
  {
    if |h| > 0 {
      var p := h[..|h| - 1];
      SomeNonzeroIff(p);
      if k :| 0 <= k < |p| && p[k] != 0 {
        assert h[k] != 0;
      }
      if k :| 0 <= k < |h| && h[k] != 0 {
        assert k < |p| ==> p[k] != 0;
      }
    }
  }

  /** `n` equal readings at the end, with one up to the first of them that is not zero. */
  lemma {:induction false} StillIff(h: seq<nat>, n: nat)
    requires 0 < n <= |h|
    ensures Still(h) >= n <==> (SomeNonzero(h[..|h| - n + 1]) && forall k :: |h| - n <= k < |h| ==> h[k] == h[|h| - 1])
    decreases n
  {
    var p := h[..|h| - 1];
    if n == 1 {
      assert h[..|h|] == h;
    } else {
      StillIff(p, n - 1);
      assert p[..|p| - (n - 1) + 1] == h[..|h| - n + 1];
      if SomeNonzero(h[..|h| - n + 1]) {
        PrefixNonzero(h, |h| - n + 1);
        PrefixNonzero(p, |h| - n + 1);
      }
    }
  }

  lemma {:induction false} PrefixNonzero(h: seq<nat>, n: nat)
    requires n <= |h| && SomeNonzero(h[..n])
    ensures SomeNonzero(h)
    decreases |h|
  {
    if n == |h| {
      assert h[..n] == h;
    } else {
      assert h[..|h| - 1][..n] == h[..n];
      PrefixNonzero(h[..|h| - 1], n);
    }
  }

  lemma {:induction false} NineEqualIff(h: seq<nat>)
    ensures Still(h) > MISS_THRESHOLD <==> NineEqual(h)
  {
    if |h| > MISS_THRESHOLD {
      var n := MISS_THRESHOLD + 1;
      var head := h[..|h| - n + 1];
      StillIff(h, n);
      SomeNonzeroIff(head);
      if k :| 0 <= k < |head| && head[k] != 0 {
        assert h[k] != 0;
      }
      if k :| 0 <= k < |h| - MISS_THRESHOLD && h[k] != 0 {
        assert head[k] != 0;
      }
    }
  }

  /** For every sequence of readings, a callback resets the system exactly when the nine latest readings since the
      last reset are equal and the monitor was armed by a reading no later than the first of them. */
  lemma {:induction false} ResetsIff(rs: seq<nat>)
    requires |rs| > 0
    ensures Resets(rs) <==> NineEqual(rs[After(rs[..|rs| - 1]).1..])
  {
    var n := |rs| - 1;
    var before := After(rs[..n]);
    AfterDescribes(rs[..n]);
    PollDescribes(rs[..n][before.1..], before.0, rs[n]);
    assert rs[..n][before.1..] + [rs[n]] == rs[before.1..];
    NineEqualIff(rs[before.1..]);
  }

  /** While the eight callbacks after any reading advance the counter by at least one and less than a full turn, the
      system is never reset. */
  lemma {:induction false} LiveHeartbeatNeverResets(beats: seq<nat>, rs: seq<nat>, n: nat)
    requires |rs| == |beats| && 0 < n <= |rs|
    requires forall k :: 0 <= k < |rs| ==> rs[k] == beats[k] % U32
    requires forall k :: 0 <= k < |rs| - 8 ==> 0 < beats[k + 8] - beats[k] < U32
    ensures !Resets(rs[..n])
  {
    var seen := rs[..n];
    ResetsIff(seen);
    var s := After(seen[..n - 1]).1;
    var h := seen[s..];
    if |h| > MISS_THRESHOLD {
      var k := n - 1 - MISS_THRESHOLD;
      SameTurn(beats[k], beats[k + MISS_THRESHOLD]);
      assert h[k - s] == rs[k] != rs[n - 1] == h[|h| - 1];
    }
  }

  lemma {:induction false} SameTurn(a: nat, b: nat)
    requires 0 < b - a < U32
    ensures a % U32 != b % U32
  {
    assert b % U32 - a % U32 == b - a - U32 * (b / U32 - a / U32);
  }

  /** Nine equal readings that are not zero bring a reset at one of them, whatever came before. */
  lemma {:induction false} FrozenHeartbeatResets(rs: seq<nat>, f: nat)
    requires f + 8 < |rs| && rs[f] != 0
    requires forall k :: f <= k <= f + 8 ==> rs[k] == rs[f]
    ensures exists k :: f < k <= f + 9 && Resets(rs[..k])
  {
    var end := f + MISS_THRESHOLD + 1;
    if forall k :: f < k < end ==> !Resets(rs[..k]) {
      NoResetSince(rs, f, end - 1);
      var seen := rs[..end];
      assert seen[..end - 1] == rs[..end - 1];
      var h := seen[After(rs[..end - 1]).1..];
      assert h[|h| - 1 - MISS_THRESHOLD] == rs[f];
      ResetsIff(seen);
      assert Resets(rs[..end]);
    }
  }

  lemma {:induction false} NoResetSince(rs: seq<nat>, f: nat, n: nat)
    requires f <= n <= |rs| && forall k :: f < k <= n ==> !Resets(rs[..k])
    ensures After(rs[..n]).1 <= f
    decreases n
  {
    if n > f {
      NoResetSince(rs, f, n - 1);
      assert !Resets(rs[..n]);
      assert rs[..n][..n - 1] == rs[..n - 1];
    }
  }

  /** After a reset the next one needs nine equal readings, and one that is not zero no later than the first of them. */
  lemma {:induction false} QuietAfterReset(rs: seq<nat>, more: seq<nat>)
    requires Resets(rs) && |more| > 0 && Resets(rs + more) && After((rs + more)[..|rs + more| - 1]).1 == |rs|
    ensures NineEqual(more)
  {
    ResetsIff(rs + more);
    assert (rs + more)[|rs|..] == more;
  }

  lemma {:induction false} MissedBelow(rs: seq<nat>)
    ensures After(rs).0.missed < MISS_THRESHOLD
  {
    AfterDescribes(rs);
  }

  // ----- the module

  /** What TriggerReset does to the hardware, in order. */
  datatype Action = EnablePcapClock | AssertPlProg | ReleasePlProg | ForceApuDown | ClearHeartbeat | ResetSystem

  const RECOVERY: seq<Action> :=
    [EnablePcapClock, AssertPlProg, ReleasePlProg, ForceApuDown, ClearHeartbeat, ResetSystem]

  class SwdtMonitor {
    var armed: bool
    var prev: nat
    var missed: nat
    var callbacks: nat
    /** The register that the secure firmware writes, and the beacons. */
    var heartbeat: nat
    var countBeacon: nat
    var seenBeacon: nat
    var missBeacon: nat
    var actions: seq<Action>
    /** The readings so far. */
    ghost var readings: seq<nat>

    ghost predicate Valid()
      reads this
    {
      Monitor(armed, prev, missed) == After(readings).0
    }

    constructor ()
      ensures Valid() && readings == [] && actions == [] && callbacks == 0
    {
      armed, prev, missed := false, 0, 0;
      callbacks, actions, readings := 0, [], [];
    }

    method TriggerReset()
      modifies this`armed, this`prev, this`missed, this`heartbeat, this`actions
      ensures Monitor(armed, prev, missed) == CLEAR && heartbeat == 0 && actions == old(actions) + RECOVERY
    {
      actions := actions + [EnablePcapClock, AssertPlProg];
      actions := actions + [ReleasePlProg];
      actions := actions + [ForceApuDown];
      heartbeat := 0;
      actions := actions + [ClearHeartbeat];
      prev, missed, armed := 0, 0, false;
      actions := actions + [ResetSystem];
    }

    /** Resets the system exactly when the readings say so. */
    method Callback()
      requires Valid()
      modifies this
      ensures Valid() && readings == old(readings) + [old(heartbeat)]
      ensures if Resets(readings) then actions == old(actions) + RECOVERY && heartbeat == 0
              else actions == old(actions) && heartbeat == old(heartbeat)
      ensures callbacks == (old(callbacks) + 1) % U32 && countBeacon == callbacks && seenBeacon == old(heartbeat)
      ensures missBeacon == if old(armed) && old(heartbeat) == old(prev) then old(missed) + 1 else old(missBeacon)
    {
      var current := heartbeat;
      callbacks := (callbacks + 1) % U32;
      countBeacon := callbacks;
      seenBeacon := current;
      ghost var was := readings;
      readings := readings + [current];
      assert readings[..|was|] == was;
      MissedBelow(was);
      if !armed {
        if current != 0 {
          armed, prev := true, current;
        }
        return;
      }
      if current != prev {
        prev, missed := current, 0;
      } else {
        missed := (missed + 1) % U32;
        missBeacon := missed;
        if missed >= MISS_THRESHOLD {
          TriggerReset();
        }
      }
    }
  }
}
