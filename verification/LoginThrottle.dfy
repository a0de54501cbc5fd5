/** Login pacing: one number per slot decides which attempts are admitted. The guarantee is about
    every time window of every run, so it is stated on the list of admission times. */
module LoginThrottle {
  const BURST := 10
  const INTERVAL := 6.0
  const SLOTS := 4096

  function Max(x: real, y: real): real { if x > y then x else y }

  function Ceil(x: real): int { -((-x).Floor) }

  /** The earliest admissible time for a stored value. */
  function Earliest(next: real): real { next - (BURST - 1) as real * INTERVAL }

  /** The stored value after the admissions a. */
  ghost function NextAfter(a: seq<real>): real
  {
    if a == [] then 0.0 else Max(a[|a| - 1], NextAfter(a[..|a| - 1])) + INTERVAL
  }

  /** What one request at `now` does to the admissions of its slot. */
  ghost function Serve(a: seq<real>, now: real): seq<real>
  {
    if Earliest(NextAfter(a)) <= now then a + [now] else a
  }

  // ----- the promise, independently of how it is kept -----

  /** How many admissions fall in the closed window from lo to hi. */
  ghost function Count(a: seq<real>, lo: real, hi: real): nat
  {
    if a == [] then 0
    else Count(a[..|a| - 1], lo, hi) + if lo <= a[|a| - 1] <= hi then 1 else 0
  }

  ghost function Quota(length: real): int { BURST + (length / INTERVAL).Floor }

  ghost predicate WithinRate(a: seq<real>)
  {
    forall lo, hi :: lo <= hi ==> Count(a, lo, hi) <= Quota(hi - lo)
  }

  /** Times read from a clock that never goes back, wherever it started. */
  ghost predicate Clocked(a: seq<real>)
  {
    forall i, j :: 0 <= i <= j < |a| ==> a[i] <= a[j]
  }

  /** The same promise between any two admissions. */
  ghost predicate Paced(a: seq<real>)
  {
    forall i, j :: 0 <= i <= j < |a| ==> Spaced(a[i], a[j], j - i)
  }

  ghost predicate Spaced(first: real, last: real, steps: int)
  {
    last - first >= (steps - (BURST - 1)) as real * INTERVAL
  }

  lemma {:induction false} CountSpan(a: seq<real>, lo: real, hi: real) returns (i: nat, j: nat)
    requires Count(a, lo, hi) > 0
    ensures i <= j < |a| && lo <= a[i] <= hi && lo <= a[j] <= hi && Count(a, lo, hi) <= j - i + 1
  {
    var n := |a| - 1;
    if Count(a[..n], lo, hi) == 0 {
      i, j := n, n;
    } else {
      i, j := CountSpan(a[..n], lo, hi);
      if lo <= a[n] <= hi { j := n; }
    }
  }

  lemma {:induction false} CountAtLeast(a: seq<real>, i: nat, j: nat)
    requires Clocked(a) && i <= j < |a|
    ensures Count(a, a[i], a[j]) >= j - i + 1
  {
    var n := |a| - 1;
    if j == n {
      if i < j {
        CountAtLeast(a[..n], i, j - 1);
        CountWider(a[..n], a[i], a[j - 1], a[j]);
      }
    } else {
      CountAtLeast(a[..n], i, j);
    }
  }

  lemma {:induction false} CountWider(a: seq<real>, lo: real, hi: real, hi': real)
    requires hi <= hi'
    ensures Count(a, lo, hi) <= Count(a, lo, hi')
  {
    if a != [] { CountWider(a[..|a| - 1], lo, hi, hi'); }
  }

  lemma SpacedMeansQuota(first: real, last: real, steps: int)
    requires first <= last
    ensures Spaced(first, last, steps) <==> steps + 1 <= Quota(last - first)
  {
    var w := last - first;
    assert w / INTERVAL * INTERVAL == w;
  }

  lemma QuotaMonotone(w: real, w': real)
    requires w <= w'
    ensures Quota(w) <= Quota(w')
  {
    assert w / INTERVAL <= w' / INTERVAL;
  }

  /** No window is over its quota exactly when admissions are pairwise spaced. */
  lemma WindowsAreSpacing(a: seq<real>)
    requires Clocked(a)
    ensures WithinRate(a) <==> Paced(a)
  {
    if Paced(a) {
      forall lo, hi | lo <= hi
        ensures Count(a, lo, hi) <= Quota(hi - lo)
      {
        if Count(a, lo, hi) > 0 {
          var i, j := CountSpan(a, lo, hi);
          assert Spaced(a[i], a[j], j - i);
          SpacedMeansQuota(a[i], a[j], j - i);
          QuotaMonotone(a[j] - a[i], hi - lo);
        }
      }
    }
    if WithinRate(a) {
      forall i, j | 0 <= i <= j < |a|
        ensures Spaced(a[i], a[j], j - i)
      {
        CountAtLeast(a, i, j);
        SpacedMeansQuota(a[i], a[j], j - i);
      }
    }
  }

  // ----- what the stored number remembers -----

  /** The stored value is the latest obligation left by any admission or by the initial zero, which
      counts as one interval per admission from clock zero on. */
  lemma {:induction false} NextIsLatest(a: seq<real>) returns (latest: int)
    ensures NextAfter(a) >= |a| as real * INTERVAL
    ensures forall i :: 0 <= i < |a| ==> NextAfter(a) >= a[i] + (|a| - i) as real * INTERVAL
    ensures -1 <= latest < |a|
    ensures NextAfter(a) == if latest == -1 then |a| as real * INTERVAL
                            else a[latest] + (|a| - latest) as real * INTERVAL
  {
    latest := -1;
    if a != [] {
      var n := |a| - 1;
      var front := a[..n];
      var l := NextIsLatest(front);
      latest := if NextAfter(front) > a[n] then l else n;
      forall i | 0 <= i < n
        ensures NextAfter(a) >= a[i] + (|a| - i) as real * INTERVAL
      {
        assert NextAfter(front) >= front[i] + (n - i) as real * INTERVAL;
      }
    }
  }

  /** Before this time a slot with n admissions refuses, however long ago they were: its stored value
      started at clock zero. */
  ghost function WarmUp(n: nat): real { Earliest(n as real * INTERVAL) }

  /** The test of one request, exactly: admitting it keeps every window in quota, and the clock has
      passed the slot's warm-up. */
  lemma AdmittedExactly(a: seq<real>, now: real)
    requires Clocked(a + [now]) && WithinRate(a)
    ensures Earliest(NextAfter(a)) <= now <==> WithinRate(a + [now]) && now >= WarmUp(|a|)
  {
    var b := a + [now];
    DropLast(a, now);
    WindowsAreSpacing(a);
    WindowsAreSpacing(b);
    assert b[|a|] == now;
    var latest := NextIsLatest(a);
    hide WithinRate, NextAfter;
    if Earliest(NextAfter(a)) <= now {
      forall i, j | 0 <= i <= j < |b|
        ensures Spaced(b[i], b[j], j - i)
      {
        if j < |a| { assert Spaced(a[i], a[j], j - i); }
      }
    } else if latest >= 0 {
      assert !Spaced(b[latest], b[|a|], |a| - latest);
    }
  }

  /** On a clock that started at or above zero the warm-up never decides: a request it would refuse
      is over some window's quota already. */
  lemma WarmUpIsOver(a: seq<real>, now: real)
    requires Clocked(a + [now]) && WithinRate(a + [now]) && 0.0 <= (a + [now])[0]
    ensures now >= WarmUp(|a|)
  {
    var b := a + [now];
    WindowsAreSpacing(b);
    assert Spaced(b[0], b[|a|], |a|);
  }

  /** The test of one request on such a clock is exactly whether admitting it keeps every window in
      quota. */
  lemma AdmittedIffWithinRate(a: seq<real>, now: real)
    requires Clocked(a + [now]) && WithinRate(a) && 0.0 <= (a + [now])[0]
    ensures Earliest(NextAfter(a)) <= now <==> WithinRate(a + [now])
  {
    AdmittedExactly(a, now);
    if WithinRate(a + [now]) { WarmUpIsOver(a, now); }
  }

  // ----- runs -----

  /** The admissions of a slot that receives requests at the given times. */
  ghost function Admissions(times: seq<real>): seq<real>
  {
    if times == [] then [] else Serve(Admissions(times[..|times| - 1]), times[|times| - 1])
  }

  /** In every run no window of length W holds more than 10 + floor(W / 6) admissions, whatever
      requests came before time `now`... */
  lemma {:induction false} EveryRunWithinRate(times: seq<real>, now: real)
    requires Clocked(times + [now])
    ensures Clocked(Admissions(times) + [now]) && WithinRate(Admissions(times))
  {
    if times == [] {
      WindowsAreSpacing([]);
    } else {
      var n := |times| - 1;
      var before, last := Admissions(times[..n]), times[n];
      assert times + [now] == times[..n] + [last] + [now];
      DropLast(times[..n] + [last], now);
      EveryRunWithinRate(times[..n], last);
      AdmittedExactly(before, last);
      ClockRepeats(before, last);
      ClockAdvances(before, last, now);
      ClockAdvances(before + [last], last, now);
    }
  }

  /** ... and a request at `now` is admitted exactly when that keeps the bound and the warm-up is
      over; on a clock that started at or above zero, exactly when it keeps the bound. */
  lemma RefusedOnlyOverRate(times: seq<real>, now: real)
    requires Clocked(times + [now])
    ensures Admissions(times + [now]) == if WithinRate(Admissions(times) + [now]) && now >= WarmUp(|Admissions(times)|)
                                         then Admissions(times) + [now] else Admissions(times)
    ensures 0.0 <= (times + [now])[0] ==>
              Admissions(times + [now]) == if WithinRate(Admissions(times) + [now])
                                           then Admissions(times) + [now] else Admissions(times)
  {
    assert (times + [now])[..|times|] == times;
    EveryRunWithinRate(times, now);
    AdmittedExactly(Admissions(times), now);
    if 0.0 <= (times + [now])[0] && WithinRate(Admissions(times) + [now]) {
      FirstAdmission(times, now);
      WarmUpIsOver(Admissions(times), now);
    }
  }

  /** No admission is earlier than the first request. */
  lemma {:induction false} FirstAdmission(times: seq<real>, now: real)
    requires Clocked(times + [now])
    ensures (Admissions(times) + [now])[0] >= (times + [now])[0]
  {
    if times != [] {
      var n := |times| - 1;
      assert times + [now] == times[..n] + [times[n]] + [now];
      DropLast(times[..n] + [times[n]], now);
      FirstAdmission(times[..n], times[n]);
      assert (times + [now])[n] == times[n] && (times + [now])[|times|] == now;
    }
  }

  lemma DropLast(a: seq<real>, now: real)
    requires Clocked(a + [now])
    ensures Clocked(a) && (a != [] ==> a[|a| - 1] <= now)
  {
    assert forall i :: 0 <= i < |a| ==> (a + [now])[i] == a[i];
    assert (a + [now])[|a|] == now;
  }

  /** Waiting the advertised whole seconds is enough, and one second less is not. */
  lemma AdvertisedWait(a: seq<real>, now: real, later: real)
    requires Earliest(NextAfter(a)) > now
    ensures var wait := Ceil(Earliest(NextAfter(a)) - now);
            && wait >= 1
            && (later >= now + wait as real ==> Serve(a, later) == a + [later])
            && Serve(a, now + (wait - 1) as real) == a
  {
  }

  /** The first attempt of a slot is admitted from 54 s below clock zero on. */
  lemma FirstAttempt(now: real)
    ensures Serve([], now) == [now] <==> now >= -54.0
  {
    var one := [] + [now];
    WindowsAreSpacing([]);
    WindowsAreSpacing(one);
    AdmittedExactly([], now);
  }

  /** One second below clock zero a burst is nine attempts, not ten: the tenth is refused although no
      window would be over quota. */
  lemma NegativeClockShortensBurst()
    ensures var nine := seq(9, _ => -1.0);
            Clocked(nine + [-1.0]) && WithinRate(nine + [-1.0]) && Serve(nine, -1.0) == nine
  {
    var nine := seq(9, _ => -1.0);
    WindowsAreSpacing(nine);
    WindowsAreSpacing(nine + [-1.0]);
    AdmittedExactly(nine, -1.0);
  }

  class LoginThrottle {
    const next: array<real>
    /** Per slot, the times of its admissions so far. */
    ghost var admitted: seq<seq<real>>
    /** The latest time any request saw, or the time of creation. */
    ghost var clock: real

    ghost predicate Valid()
      reads this, next
    {
      && next.Length == SLOTS == 4096 == |admitted|
      && forall s :: 0 <= s < SLOTS ==> SlotValid(next[s], admitted[s], clock)
    }

    static ghost predicate SlotValid(stored: real, a: seq<real>, clock: real)
    {
      Clocked(a + [clock]) && WithinRate(a) && stored == NextAfter(a)
    }

    constructor (ghost created: real)
      ensures Valid() && fresh(next) && clock == created
      ensures forall s :: 0 <= s < SLOTS ==> admitted[s] == []
    {
      next := new real[SLOTS](_ => 0.0);
      admitted := seq(SLOTS, _ => []);
      clock := created;
      WindowsAreSpacing([]);
    }

    /** Zero admits the request; otherwise the answer is the number of seconds to wait. */
    method RetryAfter(slot: nat, now: real) returns (wait: int)
      requires Valid() && slot < SLOTS && now >= clock
      modifies this, next
      ensures Valid() && clock == now
      ensures wait == 0 <==> WithinRate(old(admitted[slot]) + [now]) && now >= WarmUp(|old(admitted[slot])|)
      ensures 0.0 <= (old(admitted[slot]) + [now])[0] ==> (wait == 0 <==> WithinRate(old(admitted[slot]) + [now]))
      ensures admitted == old(admitted)[slot := if wait == 0 then old(admitted[slot]) + [now] else old(admitted[slot])]
      ensures wait >= 0
      ensures wait > 0 ==>
                && Serve(admitted[slot], now + wait as real) == admitted[slot] + [now + wait as real]
                && Serve(admitted[slot], now + (wait - 1) as real) == admitted[slot]
    {
      ghost var a := admitted[slot];
      assert SlotValid(next[slot], a, clock);
      ClockAdvances(a, clock, now);
      AdmittedExactly(a, now);
      if 0.0 <= (a + [now])[0] { AdmittedIffWithinRate(a, now); }
      forall s | 0 <= s < SLOTS
        ensures SlotValid(next[s], admitted[s], now)
      {
        assert SlotValid(next[s], admitted[s], clock);
        ClockAdvances(admitted[s], clock, now);
      }
      clock := now;
      var earliest := Earliest(next[slot]);
      if earliest > now {
        AdvertisedWait(a, now, now + Ceil(earliest - now) as real);
        wait := Ceil(earliest - now);
        return;
      }
      next[slot] := Max(now, next[slot]) + INTERVAL;
      admitted := admitted[slot := a + [now]];
      ClockRepeats(a, now);
      wait := 0;
    }
  }

  lemma ClockAdvances(a: seq<real>, clock: real, now: real)
    requires Clocked(a + [clock]) && clock <= now
    ensures Clocked(a + [now])
  {
    assert (a + [clock])[|a|] == clock;
    assert forall i :: 0 <= i < |a| ==> (a + [clock])[i] == a[i] == (a + [now])[i];
  }

  lemma ClockRepeats(a: seq<real>, now: real)
    requires Clocked(a + [now])
    ensures Clocked(a + [now] + [now])
    ensures NextAfter(a + [now]) == Max(now, NextAfter(a)) + INTERVAL
  {
    assert (a + [now])[..|a|] == a;
    var b := a + [now];
    assert forall i :: 0 <= i < |b| ==> (b + [now])[i] == b[i] && b[i] <= b[|a|];
  }
}
