/** The hourly request quota: a counter and the instant at which the current
    window expires. The window is reset lazily, by the first call that
    observes a time strictly after the expiry instant. */
module RateGate {

  /** The number of requests admitted per window. */
  const MaxReqHour: int := 50

  /** One hour in the clock's unit (nanoseconds, as Go's `time.Duration`). */
  const Hour: int := 3_600_000_000_000

  /** The shared gate state: requests admitted in the current window and the
      instant after which the window is over. */
  datatype Gate = Gate(reqCount: int, resetTime: int)

  /** The state after one admission check and whether the request may proceed. */
  datatype Admission = Admission(gate: Gate, allowed: bool)

  /** The state of a successive run of admission checks and the verdict of each. */
  datatype Trace = Trace(gate: Gate, admitted: seq<bool>)

  /** The gate's invariant: the counter never exceeds the quota. */
  predicate Valid(g: Gate) {
    0 <= g.reqCount <= MaxReqHour
  }

  function Min(a: int, b: int): int {
    if a <= b then a else b
  }

  /** The state set up at process start, at clock reading `t0`. */
  function Init(t0: int): (g: Gate)
    ensures Valid(g) && g.reqCount == 0
    ensures g.resetTime == t0 + Hour
  {
    Gate(0, t0 + Hour)
  }

  /** One atomic admission check at clock reading `now`. */
  function Allow(g: Gate, now: int): (a: Admission)
    // a request is admitted exactly when the window has expired or the quota is not used up
    ensures a.allowed <==> now > g.resetTime || g.reqCount < MaxReqHour
    // a rejection changes nothing
    ensures !a.allowed ==> a.gate == g
    // strictly after the expiry instant, a new window starts with this request in it
    ensures now > g.resetTime ==> a.gate == Gate(1, now + Hour)
    // at or before the expiry instant, the window is kept and an admission is counted
    ensures now <= g.resetTime ==> a.gate.resetTime == g.resetTime
    ensures now <= g.resetTime && a.allowed ==> a.gate.reqCount == g.reqCount + 1
    // the quota invariant is preserved and the expiry instant never moves back
    ensures Valid(g) ==> Valid(a.gate)
    ensures a.gate.resetTime >= g.resetTime
  {
    var current := if now > g.resetTime then Gate(0, now + Hour) else g;
    if current.reqCount >= MaxReqHour then
      Admission(current, false)
    else
      Admission(current.(reqCount := current.reqCount + 1), true)
  }

  /** The admission checks of `times`, one after the other, from state `g`. */
  function Run(g: Gate, times: seq<int>): (t: Trace)
    ensures |t.admitted| == |times|
    decreases |times|
  {
    if |times| == 0 then
      Trace(g, [])
    else
      var a := Allow(g, times[0]);
      var rest := Run(a.gate, times[1..]);
      Trace(rest.gate, [a.allowed] + rest.admitted)
  }

  /** The number of admitted requests in a list of verdicts. */
  function CountTrue(bs: seq<bool>): nat {
    if |bs| == 0 then 0 else (if bs[0] then 1 else 0) + CountTrue(bs[1..])
  }

  /** Every run of admission checks keeps the counter within the quota and
      never moves the expiry instant back. */
  lemma {:induction false} RunPreservesValid(g: Gate, times: seq<int>)
    requires Valid(g)
    ensures Valid(Run(g, times).gate)
    ensures Run(g, times).gate.resetTime >= g.resetTime
    decreases |times|
  {
    if |times| > 0 {
      var a := Allow(g, times[0]);
      RunPreservesValid(a.gate, times[1..]);
    }
  }

  /** Within one window (every clock reading at or before the expiry instant),
      the i-th further call is admitted exactly when fewer than the quota have
      been admitted before it; the window is kept, and the number admitted is
      the remaining quota or the number of calls, whichever is smaller. */
  lemma {:induction false} QuotaWithinWindow(g: Gate, times: seq<int>)
    requires Valid(g)
    requires forall i :: 0 <= i < |times| ==> times[i] <= g.resetTime
    ensures forall i :: 0 <= i < |times| ==>
      (Run(g, times).admitted[i] <==> g.reqCount + i < MaxReqHour)
    ensures Run(g, times).gate == Gate(Min(MaxReqHour, g.reqCount + |times|), g.resetTime)
    ensures CountTrue(Run(g, times).admitted) == Min(|times|, MaxReqHour - g.reqCount)
    decreases |times|
  {
    if |times| > 0 {
      var a := Allow(g, times[0]);
      var rest := Run(a.gate, times[1..]);
      QuotaWithinWindow(a.gate, times[1..]);
      var t := Run(g, times);
      assert t.admitted == [a.allowed] + rest.admitted;
      assert t.admitted[1..] == rest.admitted;
      forall i | 0 <= i < |times|
        ensures t.admitted[i] <==> g.reqCount + i < MaxReqHour
      {
        if i > 0 {
          assert t.admitted[i] == rest.admitted[i - 1];
        }
      }
    }
  }

  /** From the state set up at start, every call within the first hour is
      admitted while fewer than 50 were, so exactly min(n, 50) of n calls
      are admitted, whatever their order. */
  lemma FreshWindowAdmitsQuota(t0: int, times: seq<int>)
    requires forall i :: 0 <= i < |times| ==> times[i] <= t0 + Hour
    ensures forall i :: 0 <= i < |times| ==> (Run(Init(t0), times).admitted[i] <==> i < MaxReqHour)
    ensures CountTrue(Run(Init(t0), times).admitted) == Min(|times|, MaxReqHour)
  {
    QuotaWithinWindow(Init(t0), times);
  }

  /** A call strictly after the expiry instant opens a new window that ends
      one hour after it; within that window this call and the next 49 are
      admitted and every later one is rejected. */
  lemma ExpiryRestartsWindow(g: Gate, now: int, times: seq<int>)
    requires now > g.resetTime
    requires forall i :: 0 <= i < |times| ==> times[i] <= now + Hour
    ensures Allow(g, now).gate == Gate(1, now + Hour)
    ensures forall i :: 0 <= i < |times| + 1 ==> (Run(g, [now] + times).admitted[i] <==> i < MaxReqHour)
    ensures Run(g, [now] + times).gate.resetTime == now + Hour
  {
    var a := Allow(g, now);
    assert ([now] + times)[1..] == times;
    QuotaWithinWindow(a.gate, times);
    var t := Run(g, [now] + times);
    var rest := Run(a.gate, times);
    assert t.admitted == [true] + rest.admitted;
    forall i | 0 <= i < |times| + 1
      ensures t.admitted[i] <==> i < MaxReqHour
    {
      if i > 0 {
        assert t.admitted[i] == rest.admitted[i - 1];
      }
    }
  }
}
