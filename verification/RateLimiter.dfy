/**
 Throttling of calls to the lookup service: a minimum distance between calls, and a
 24-hour block once the daily quota is known to be used up.
 */
module RateLimiter {
  import opened Numbers
  import opened Arithmetic

  // ---------- minimum distance ----------

  /** Difference of two unsigned longs. */
  function Elapsed(now: nat, last: nat): nat
    requires now < ULONG_RANGE && last < ULONG_RANGE
  {
    if now >= last then now - last else now + ULONG_RANGE - last
  }

  /** How long the limiter sleeps when the first clock reading is `now`. */
  function Pause(now: nat, last: nat, limit: nat): nat
    requires now < ULONG_RANGE && last < ULONG_RANGE
  {
    if Elapsed(now, last) < limit then limit - Elapsed(now, last) else 0
  }

  class Limiter {
    var last: nat
    const limit: nat

    ghost predicate Valid()
      reads this
    {
      last < ULONG_RANGE
    }

    /** geocode_rate_limit_init, staticmap_rate_limit_init */
    constructor (limit: nat, now: nat)
      requires now < ULONG_RANGE
      ensures Valid() && this.limit == limit && last == now
    {
      this.limit := limit;
      last := now;
    }

    /** The limiter up to its sleep: how long to sleep. */
    method Before(now: nat) returns (sleep: nat)
      requires Valid() && now < ULONG_RANGE
      ensures sleep == Pause(now, last, limit)
      ensures last <= now ==> now + sleep >= last + limit && (sleep > 0 ==> now + sleep == last + limit)
      ensures now < last ==>
                var passed := now + 0x1_0000_0000_0000_0000 - last;
                sleep == if passed < limit then limit - passed else 0
    {
      var diff := Elapsed(now, last);
      sleep := 0;
      if diff < limit {
        sleep := limit - diff;
      }
    }

    /** The limiter after its sleep: the call is recorded. */
    method After(now: nat)
      requires now < ULONG_RANGE
      modifies this`last
      ensures Valid() && last == now
    {
      last := now;
    }
  }

  /** The two clock readings of one throttled call. */
  datatype Call = Call(read: nat, recorded: nat)

  /**
   A run of serialised calls on a clock that never goes back, where sleeping takes at least
   the requested time.
   */
  ghost predicate IsRun(start: nat, limit: nat, calls: seq<Call>) {
    && start < ULONG_RANGE
    && forall i | 0 <= i < |calls| :: StepAt(start, limit, calls, i)
  }

  ghost predicate StepAt(start: nat, limit: nat, calls: seq<Call>, i: int) {
    0 <= i < |calls| && CallOk(LastBefore(start, calls, i), limit, calls[i])
  }

  ghost predicate CallOk(last: nat, limit: nat, c: Call) {
    && last < ULONG_RANGE && c.read < ULONG_RANGE && c.recorded < ULONG_RANGE
    && last <= c.read && c.read + Pause(c.read, last, limit) <= c.recorded
  }

  ghost function LastBefore(start: nat, calls: seq<Call>, i: nat): nat
    requires i <= |calls|
  {
    if i == 0 then start else calls[i - 1].recorded
  }

  /** Calls recorded in the closed window from `lo` to `hi`. */
  function CountIn(calls: seq<Call>, lo: nat, hi: nat): nat {
    if calls == [] then 0
    else CountIn(calls[..|calls| - 1], lo, hi) + (if lo <= calls[|calls| - 1].recorded <= hi then 1 else 0)
  }

  lemma SuccessiveCallsApart(start: nat, limit: nat, calls: seq<Call>, i: nat)
    requires IsRun(start, limit, calls) && i < |calls|
    ensures LastBefore(start, calls, i) + limit <= calls[i].recorded
  {
    assert StepAt(start, limit, calls, i);
  }

  lemma PrefixIsRun(start: nat, limit: nat, calls: seq<Call>, n: nat)
    requires IsRun(start, limit, calls) && n <= |calls|
    ensures IsRun(start, limit, calls[..n])
  {
    forall i | 0 <= i < n ensures StepAt(start, limit, calls[..n], i) {
      assert StepAt(start, limit, calls, i);
      assert LastBefore(start, calls[..n], i) == LastBefore(start, calls, i);
    }
  }

  /** The calls counted so far span at least their number less one times the limit. */
  lemma {:induction false} CountedCallsSpan(start: nat, limit: nat, calls: seq<Call>, lo: nat, hi: nat)
    requires IsRun(start, limit, calls) && calls != [] && CountIn(calls, lo, hi) > 0
    ensures lo + Times(limit, CountIn(calls, lo, hi) - 1) <= calls[|calls| - 1].recorded
    ensures lo + Times(limit, CountIn(calls, lo, hi) - 1) <= hi
  {
    var n := |calls| - 1;
    var earlier := calls[..n];
    var c := CountIn(earlier, lo, hi);
    SuccessiveCallsApart(start, limit, calls, n);
    if c > 0 {
      PrefixIsRun(start, limit, calls, n);
      CountedCallsSpan(start, limit, earlier, lo, hi);
      assert LastBefore(start, calls, n) == earlier[n - 1].recorded;
    }
  }

  /** In every run, every window of `width` ms contains at most width / limit + 1 calls. */
  lemma WindowBound(start: nat, limit: nat, calls: seq<Call>, lo: nat, width: nat)
    requires IsRun(start, limit, calls) && limit > 0
    ensures CountIn(calls, lo, lo + width) <= width / limit + 1
  {
    var c := CountIn(calls, lo, lo + width);
    if c > 0 {
      CountedCallsSpan(start, limit, calls, lo, lo + width);
      TimesBound(limit, c - 1, width);
    }
  }

  /** A busy caller: every call asks at once and is recorded as soon as it may. */
  function BusyCalls(start: nat, limit: nat, n: nat): (cs: seq<Call>)
    ensures |cs| == n
    ensures n > 0 ==> cs[n - 1].recorded == start + Times(limit, n)
  {
    if n == 0 then []
    else BusyCalls(start, limit, n - 1) + [Call(start + Times(limit, n - 1), start + Times(limit, n))]
  }

  lemma {:induction false} BusyIsRun(start: nat, limit: nat, n: nat)
    requires start + Times(limit, n) < ULONG_RANGE
    ensures IsRun(start, limit, BusyCalls(start, limit, n))
  {
    if n > 0 {
      BusyIsRun(start, limit, n - 1);
      var cs, ds := BusyCalls(start, limit, n), BusyCalls(start, limit, n - 1);
      assert cs[..n - 1] == ds;
      forall i | 0 <= i < n ensures StepAt(start, limit, cs, i) {
        assert LastBefore(start, cs, i) == LastBefore(start, ds, i);
        if i < n - 1 {
          assert StepAt(start, limit, ds, i);
        }
      }
    }
  }

  /** The bound is attained: a busy caller puts k + 1 calls into a window of k limits. */
  lemma BoundAttained(start: nat, limit: nat, k: nat)
    requires start + Times(limit, k + 1) < ULONG_RANGE
    ensures IsRun(start, limit, BusyCalls(start, limit, k + 1))
    ensures CountIn(BusyCalls(start, limit, k + 1), start + limit, start + limit + Times(limit, k)) == k + 1
  {
    BusyIsRun(start, limit, k + 1);
    BusyCount(start, limit, k + 1, start + limit + Times(limit, k));
  }

  lemma {:induction false} BusyCount(start: nat, limit: nat, n: nat, hi: nat)
    requires start + Times(limit, n) <= hi
    ensures CountIn(BusyCalls(start, limit, n), start + limit, hi) == n
  {
    if n > 0 {
      var cs := BusyCalls(start, limit, n);
      BusyCount(start, limit, n - 1, hi);
      assert cs[..n - 1] == BusyCalls(start, limit, n - 1);
    }
  }

  // ---------- the 24-hour block ----------

  const DAY: nat := 86400
  const TRIES_BEFORE_BLOCK: nat := 2
  const OVERQUOTA: int := -11

  /** The block flag, the time it ends, and the failures counted so far. */
  datatype Gate = Gate(blocked: bool, until: nat, tries: nat)

  const OPEN: Gate := Gate(false, 0, 0)

  /**
   One request: the time it is made, the outcome of the service call, that of its repetition
   (made only if the first was over quota), and the time after them.
   */
  datatype Request = Request(now: nat, first: int, second: int, later: nat)

  predicate Refused(g: Gate, r: Request) {
    g.blocked && r.now < g.until
  }

  /** The outcome that counts for a request that is let through. */
  function Outcome(r: Request): int {
    if r.first == OVERQUOTA then r.second else r.first
  }

  class QuotaGate {
    var blocked: bool
    var until: nat
    var tries: nat

    ghost function State(): Gate
      reads this
    {
      Gate(blocked, until, tries)
    }

    constructor ()
      ensures State() == OPEN
    {
      blocked, until, tries := false, 0, 0;
    }

    /** get_address_from_latlon, with the service's answers given */
    method Ask(r: Request) returns (rc: int, called: bool)
      modifies this
      ensures State() == Asked(old(State()), r)
      ensures called <==> !(old(blocked) && r.now < old(until))
      ensures rc == if !called then -11 else if r.first == -11 then r.second else r.first
    {
      if blocked {
        if r.now < until {
          return OVERQUOTA, false;
        }
        blocked := false;
        tries := 0;
      }
      rc, called := r.first, true;
      if rc == OVERQUOTA {
        rc := r.second;
        if rc == 0 {
          return;
        }
      }
      if rc == OVERQUOTA {
        if TRIES_BEFORE_BLOCK <= tries {
          blocked := true;
          until := r.later + DAY;
        } else {
          tries := tries + 1;
        }
      }
    }
  }

  function Asked(g: Gate, r: Request): Gate {
    if Refused(g, r) then g
    else
      var h := if g.blocked then g.(blocked := false, tries := 0) else g;
      if Outcome(r) != OVERQUOTA then h
      else if TRIES_BEFORE_BLOCK <= h.tries then h.(blocked := true, until := r.later + DAY)
      else h.(tries := h.tries + 1)
  }

  function GateAfter(rs: seq<Request>): Gate {
    if rs == [] then OPEN else Asked(GateAfter(rs[..|rs| - 1]), rs[|rs| - 1])
  }

  /** Did request `i` of the run start a block? */
  ghost predicate StartsBlock(rs: seq<Request>, i: nat)
    requires i < |rs|
  {
    && !Refused(GateAfter(rs[..i]), rs[i]) && GateAfter(rs[..i + 1]).blocked
  }

  /** Once a request has started a block, it stays until a request at or after its end comes. */
  lemma {:induction false} BlockHolds(rs: seq<Request>, i: nat, j: nat)
    requires i < j <= |rs| && StartsBlock(rs, i)
    requires forall k | i < k < j :: rs[k].now < rs[i].later + DAY
    ensures GateAfter(rs[..j]).blocked && GateAfter(rs[..j]).until == rs[i].later + DAY
    decreases j
  {
    if j == i + 1 {
      assert rs[..i + 1][..i] == rs[..i];
    } else {
      BlockHolds(rs, i, j - 1);
      assert rs[..j][..j - 1] == rs[..j - 1];
    }
  }

  /** In every run, no service call is made while all requests since a block came within 24 hours of it. */
  lemma NoCallsWhileBlocked(rs: seq<Request>, i: nat, j: nat)
    requires i < j < |rs| && StartsBlock(rs, i)
    requires forall k | i < k <= j :: rs[k].now < rs[i].later + 24 * 60 * 60
    ensures Refused(GateAfter(rs[..j]), rs[j])
  {
    BlockHolds(rs, i, j);
  }

  /** Over-quota answers since the last time the gate was opened. */
  ghost function Failures(rs: seq<Request>): nat {
    if rs == [] then 0
    else
      var n := |rs| - 1;
      var g := GateAfter(rs[..n]);
      var before := if g.blocked then 0 else Failures(rs[..n]);
      if Refused(g, rs[n]) then Failures(rs[..n])
      else before + if rs[n].first == -11 && rs[n].second == -11 then 1 else 0
  }

  /** In every run the gate is blocked exactly when the third over-quota answer since its opening has come. */
  lemma {:induction false} BlockedAfterThree(rs: seq<Request>)
    ensures GateAfter(rs).blocked <==> Failures(rs) == 3
    ensures !GateAfter(rs).blocked ==> GateAfter(rs).tries == Failures(rs) <= 2
    ensures GateAfter(rs).blocked ==> GateAfter(rs).tries == 2
  {
    if rs != [] {
      BlockedAfterThree(rs[..|rs| - 1]);
    }
  }
}
