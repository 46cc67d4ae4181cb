/**
  The auto-delay of `PersonSensor.get_faces`: before each read, when
  `auto_delay` is on, the driver compares the current tick with
  `last_read`, sleeps out the rest of `Delay` milliseconds if needed, and
  stores `now + delay` as the new `last_read`.

  Because `now + delay` is `last_read + Delay`, the stored value advances
  by exactly `Delay` on every call, and is the time of the read only when
  the call slept. After an idle gap it lags behind the clock, and the
  calls that follow read without sleeping until it catches up. `Pace` is
  one step; `Run` is a sequence of calls; the lemmas give the closed form
  of a run and the burst it allows.
 */
module RateLimit {

  /** Minimum time, in milliseconds, between fresh inferences. */
  const Delay: nat := 200

  /** What one call decides: how long it sleeps, and the new `last_read`. */
  datatype Pacing = Pacing(sleepMs: nat, lastRead: int)

  function Max(a: int, b: int): int
  {
    if a < b then b else a
  }

  /**
    One call at tick `now`. With auto-delay on, the call sleeps exactly when
    less than `Delay` ms have passed since `lastRead`, for the rest of the
    interval, and the new `lastRead` is the old one plus `Delay`, slept or
    not; the read then starts no earlier than that. With auto-delay off,
    nothing sleeps and nothing moves.
   */
  function Pace(autoDelay: bool, lastRead: int, now: int): (p: Pacing)
    ensures p.sleepMs > 0 <==> autoDelay && now - lastRead < Delay
    ensures p.sleepMs > 0 ==> p.sleepMs == Delay - (now - lastRead)
    ensures autoDelay ==> p.lastRead == lastRead + Delay
    ensures !autoDelay ==> p.lastRead == lastRead
    ensures autoDelay ==> now + p.sleepMs == Max(now, p.lastRead)
    ensures lastRead <= now ==> p.sleepMs <= Delay
  {
    if autoDelay then
      var delta := now - lastRead;
      var delay := Delay - delta;
      Pacing(if delta < Delay then delay else 0, now + delay)
    else
      Pacing(0, lastRead)
  }

  /** The decisions of successive calls at ticks `nows`, starting from `lastRead`. */
  function Run(autoDelay: bool, lastRead: int, nows: seq<int>): (steps: seq<Pacing>)
    ensures |steps| == |nows|
    decreases nows
  {
    if nows == [] then []
    else
      var p := Pace(autoDelay, lastRead, nows[0]);
      [p] + Run(autoDelay, p.lastRead, nows[1..])
  }

  /** The tick at which call `k` of a run starts its bus read. */
  function ReadStart(autoDelay: bool, lastRead: int, nows: seq<int>, k: nat): int
    requires k < |nows|
  {
    nows[k] + Run(autoDelay, lastRead, nows)[k].sleepMs
  }

  /**
    Closed form of a run with auto-delay on: after call `k`, `last_read` is
    the starting value plus `(k + 1) * Delay`; call `k` sleeps exactly when
    its tick is before that value, and its read starts at the later of the
    two. So the `k`-th read never starts before `lastRead + (k + 1) * Delay`.
   */
  lemma {:induction false} RunClosedForm(lastRead: int, nows: seq<int>, k: nat)
    requires k < |nows|
    ensures var due := lastRead + Delay * (k + 1);
      && Run(true, lastRead, nows)[k].lastRead == due
      && (Run(true, lastRead, nows)[k].sleepMs > 0 <==> nows[k] < due)
      && ReadStart(true, lastRead, nows, k) == Max(nows[k], due)
    decreases k
  {
    if k > 0 {
      var next := Pace(true, lastRead, nows[0]).lastRead;
      RunClosedForm(next, nows[1..], k - 1);
      assert Run(true, lastRead, nows)[k] == Run(true, next, nows[1..])[k - 1];
    }
  }

  /** With auto-delay off, no call of a run sleeps and `last_read` never moves. */
  lemma {:induction false} RunWithoutAutoDelay(lastRead: int, nows: seq<int>, k: nat)
    requires k < |nows|
    ensures Run(false, lastRead, nows)[k] == Pacing(0, lastRead)
  {
    if k > 0 {
      RunWithoutAutoDelay(lastRead, nows[1..], k - 1);
    }
  }

  /**
    The burst after an idle gap: every call whose tick is already past its
    due time reads at once, however close it comes to the previous call.
   */
  lemma {:induction false} IdleBurst(lastRead: int, nows: seq<int>)
    requires forall k :: 0 <= k < |nows| ==> nows[k] >= lastRead + Delay * (k + 1)
    ensures forall k :: 0 <= k < |nows| ==> Run(true, lastRead, nows)[k].sleepMs == 0
  {
    forall k | 0 <= k < |nows|
      ensures Run(true, lastRead, nows)[k].sleepMs == 0
    {
      RunClosedForm(lastRead, nows, k);
    }
  }

  /**
    An instance of the burst: `last_read` at 0 and calls at ticks 1000 and
    1001 both read immediately, one millisecond apart. So the promise that
    at least `Delay` milliseconds pass since the last reading before a new
    one does not hold after an idle gap.
   */
  lemma BurstExample()
    ensures var run := Run(true, 0, [1000, 1001]);
      && run[0].sleepMs == 0 && run[1].sleepMs == 0
      && ReadStart(true, 0, [1000, 1001], 1) - ReadStart(true, 0, [1000, 1001], 0) == 1
  {
  }
}
