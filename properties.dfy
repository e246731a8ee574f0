/**
  Properties of the watchdog's sampling loop: the cost-effectiveness predicate,
  what states the loop can reach from construction, and what the idle time means
  over a whole run.
 */
module WatchdogProperties {
  import opened DockerWatchdog

  // ---------------------------------------------------------------------------
  // Cost-effectiveness

  /** With the threshold given as a ratio `num / den`, the predicate is an exact
      integer comparison. */
  lemma CostEffectiveAsRatio(uptime: nat, billing: nat, num: int, den: nat)
    requires den > 0
    ensures CostEffective(uptime, billing, num as real / den as real) <==>
            billing == 0 || (uptime % billing) * den > billing * num
  {
    if billing > 0 {
      var m := uptime % billing;
      var p := num as real / den as real;
      assert p * den as real == num as real;
      calc <==> {
        m as real > billing as real * p;
        m as real * den as real > billing as real * p * den as real;
        { assert billing as real * p * den as real == billing as real * num as real; }
        m as real * den as real > billing as real * num as real;
        (m * den) as real > (billing * num) as real;
      }
    }
  }

  /** The only multiple of a positive number strictly between its negation and
      itself is 0. */
  lemma {:induction false} OnlyZeroMultipleBelow(d: int, b: int)
    requires b > 0 && -b < d * b < b
    ensures d == 0
  {
    if d > 0 {
      PositiveMultipleAtLeast(d, b);
    } else if d < 0 {
      PositiveMultipleAtLeast(-d, b);
    }
  }

  lemma {:induction false} PositiveMultipleAtLeast(d: int, b: int)
    requires d > 0 && b > 0
    ensures d * b >= b
    decreases d
  {
    if d > 1 {
      PositiveMultipleAtLeast(d - 1, b);
      assert d * b == (d - 1) * b + b;
    }
  }

  /** Adding one whole billing unit does not move the position within the unit. */
  lemma PositionAfterOneUnit(uptime: nat, billing: nat)
    requires billing > 0
    ensures (uptime + billing) % billing == uptime % billing
  {
    var q, m := uptime / billing, uptime % billing;
    var q', m' := (uptime + billing) / billing, (uptime + billing) % billing;
    var d := q' - q - 1;
    assert d * billing == q' * billing - q * billing - billing;
    OnlyZeroMultipleBelow(d, billing);
  }

  /** Only the position within the current billing unit matters. */
  lemma {:induction false} CostEffectivePeriodic(uptime: nat, billing: nat, percentage: real, units: nat)
    ensures CostEffective(uptime + units * billing, billing, percentage) ==
            CostEffective(uptime, billing, percentage)
  {
    if units > 0 && billing > 0 {
      CostEffectivePeriodic(uptime, billing, percentage, units - 1);
      var u := uptime + (units - 1) * billing;
      assert uptime + units * billing == u + billing;
      PositionAfterOneUnit(u, billing);
    }
  }

  /** On a billed host: at or beyond a threshold of 1.0 it is never cost-effective,
      below 0.0 always, and landing exactly on the threshold does not count. */
  lemma CostEffectiveThresholds(uptime: nat, billing: nat, percentage: real)
    requires billing > 0
    ensures percentage >= 1.0 ==> !CostEffective(uptime, billing, percentage)
    ensures percentage < 0.0 ==> CostEffective(uptime, billing, percentage)
    ensures (uptime % billing) as real == billing as real * percentage ==>
            !CostEffective(uptime, billing, percentage)
  {
    var b := billing as real;
    if percentage >= 1.0 {
      assert b * percentage - b == b * (percentage - 1.0);
      assert b * (percentage - 1.0) >= 0.0;
    }
    if percentage < 0.0 {
      assert b * percentage == -(b * -percentage);
      assert b * -percentage > 0.0;
    }
  }

  // ---------------------------------------------------------------------------
  // States reachable from construction

  /** A connection is attempted only when none is held: once a handle is held,
      the outcome of a cycle does not depend on what connecting would do. */
  lemma ConnectOnlyWhenAbsent(cfg: Config, st: State, s: Sample, clientOk: bool, pingOk: bool)
    requires st.connected
    ensures Cycle(cfg, st, s) == Cycle(cfg, st, s.(clientOk := clientOk, pingOk := pingOk))
  {
  }

  /** Until the first successful connection, nothing has changed since construction. */
  lemma {:induction false} DisconnectedMeansInitial(cfg: Config, inputs: seq<Sample>, k: nat)
    requires k <= |inputs|
    ensures !After(cfg, Init(), inputs, k).connected ==> After(cfg, Init(), inputs, k) == Init()
  {
    if k > 0 {
      DisconnectedMeansInitial(cfg, inputs, k - 1);
    }
  }

  /** Failed connection cycles leave the idle time untouched, and the first sampling
      cycle of a run credits no elapsed time, so it starts the idle time at 0. */
  lemma FirstSampleCreditsNothing(cfg: Config, inputs: seq<Sample>, k: nat)
    requires k < |inputs|
    requires !After(cfg, Init(), inputs, k).connected
    ensures After(cfg, Init(), inputs, k).idleCount == 0
    ensures Elapsed(After(cfg, Init(), inputs, k).uptime, inputs[k].uptime) == 0
    ensures After(cfg, Init(), inputs, k + 1).idleCount == 0
  {
    DisconnectedMeansInitial(cfg, inputs, k);
  }

  // ---------------------------------------------------------------------------
  // The idle time over a run

  /** The index of the cycle from which `inputs` are sampled: 0 if a connection is
      already held, else the first cycle whose connection attempt succeeds (or `n`
      when none of the first `n` does). */
  function FirstConnect(connected: bool, inputs: seq<Sample>, n: nat): (r: nat)
    requires n <= |inputs|
    ensures r <= n
    ensures connected ==> r == 0
    ensures !connected ==> forall i :: 0 <= i < r ==> !Connects(inputs[i])
    ensures !connected && r < n ==> Connects(inputs[r])
    decreases n
  {
    if connected || n == 0 then 0
    else
      var f := FirstConnect(false, inputs, n - 1);
      if f < n - 1 then f
      else if Connects(inputs[n - 1]) then n - 1
      else n
  }

  /** The last cycle in [lo, n) that saw a running container, if any. */
  function LastActive(inputs: seq<Sample>, lo: nat, n: nat): (r: Option<nat>)
    requires lo <= n <= |inputs|
    ensures r.Some? ==> lo <= r.value < n && inputs[r.value].running > 0
    ensures r.Some? ==> forall j :: r.value < j < n ==> inputs[j].running == 0
    ensures r.None? ==> forall j :: lo <= j < n ==> inputs[j].running == 0
    decreases n
  {
    if n == lo then None
    else if inputs[n - 1].running > 0 then Some(n - 1)
    else LastActive(inputs, lo, n - 1)
  }

  /** The elapsed time cycle `i` derives, when sampling started at cycle `lo` with
      `last` as the stored uptime. */
  function ElapsedAt(last: nat, inputs: seq<Sample>, lo: nat, i: nat): int
    requires lo <= i < |inputs|
  {
    Elapsed(if i == lo then last else inputs[i - 1].uptime, inputs[i].uptime)
  }

  /** The sum of the elapsed times of cycles [i, n). */
  function SumElapsed(last: nat, inputs: seq<Sample>, lo: nat, i: nat, n: nat): int
    requires lo <= i <= n <= |inputs|
    decreases n
  {
    if n == i then 0
    else SumElapsed(last, inputs, lo, i, n - 1) + ElapsedAt(last, inputs, lo, n - 1)
  }

  /** The idle time as the sum of elapsed times since the last cycle that saw a
      running container, or since the start of sampling on top of `idle`. */
  function IdleSinceActive(idle: int, last: nat, inputs: seq<Sample>, lo: nat, n: nat): int
    requires lo <= n <= |inputs|
  {
    match LastActive(inputs, lo, n)
    case None => idle + SumElapsed(last, inputs, lo, lo, n)
    case Some(j) => SumElapsed(last, inputs, lo, j + 1, n)
  }

  /** After any number of cycles, the idle time equals the sum of the elapsed times
      of the sampling cycles since the last one that saw activity; cycles before the
      first connection sample nothing. */
  lemma {:induction false} IdleIsSumSinceActive(cfg: Config, st: State, inputs: seq<Sample>, k: nat)
    requires k <= |inputs|
    ensures var f := FirstConnect(st.connected, inputs, k);
            var r := After(cfg, st, inputs, k);
            && (r.connected <==> st.connected || f < k)
            && r.uptime == (if f == k then st.uptime else inputs[k - 1].uptime)
            && r.idleCount == IdleSinceActive(st.idleCount, st.uptime, inputs, f, k)
  {
    if k > 0 {
      IdleIsSumSinceActive(cfg, st, inputs, k - 1);
      var f := FirstConnect(st.connected, inputs, k - 1);
      var f' := FirstConnect(st.connected, inputs, k);
      var prev := After(cfg, st, inputs, k - 1);
      if f == k - 1 && f' == k {
        assert !prev.connected && !Connects(inputs[k - 1]);
      } else {
        assert f' == f;
        assert prev.connected || Connects(inputs[k - 1]);
        assert prev.uptime == (if k - 1 == f then st.uptime else inputs[k - 2].uptime);
        assert ElapsedAt(st.uptime, inputs, f, k - 1) == Elapsed(prev.uptime, inputs[k - 1].uptime);
      }
    }
  }

  /** From construction, once a connection is held and every reading is positive,
      each sampling cycle finds the previous reading stored and credits exactly the
      difference between the two readings. */
  lemma LaterSamplesCreditDifference(cfg: Config, inputs: seq<Sample>, k: nat)
    requires k < |inputs|
    requires After(cfg, Init(), inputs, k).connected
    requires forall i :: 0 <= i < |inputs| ==> inputs[i].uptime > 0
    ensures 0 < k && After(cfg, Init(), inputs, k).uptime == inputs[k - 1].uptime
    ensures Elapsed(After(cfg, Init(), inputs, k).uptime, inputs[k].uptime) ==
            inputs[k].uptime - inputs[k - 1].uptime
  {
    IdleIsSumSinceActive(cfg, Init(), inputs, k);
  }

  /** On a connected host the idle time is the plain sum of elapsed times since the
      last active cycle. */
  lemma ConnectedIdleIsSumSinceActive(cfg: Config, st: State, inputs: seq<Sample>, k: nat)
    requires k <= |inputs| && st.connected
    ensures After(cfg, st, inputs, k).idleCount == IdleSinceActive(st.idleCount, st.uptime, inputs, 0, k)
  {
    IdleIsSumSinceActive(cfg, st, inputs, k);
  }

  /** Uptime readings that never go backwards keep every elapsed time and the idle
      time non-negative. */
  lemma {:induction false} IdleStaysNonNegative(cfg: Config, st: State, inputs: seq<Sample>, k: nat)
    requires k <= |inputs|
    requires st.idleCount >= 0
    requires forall i :: 0 <= i < |inputs| ==> st.uptime <= inputs[i].uptime
    requires forall i, j :: 0 <= i < j < |inputs| ==> inputs[i].uptime <= inputs[j].uptime
    ensures After(cfg, st, inputs, k).idleCount >= 0
    ensures forall j :: k <= j < |inputs| ==> After(cfg, st, inputs, k).uptime <= inputs[j].uptime
    ensures k < |inputs| ==> Elapsed(After(cfg, st, inputs, k).uptime, inputs[k].uptime) >= 0
  {
    if k > 0 {
      IdleStaysNonNegative(cfg, st, inputs, k - 1);
    }
  }

  // ---------------------------------------------------------------------------
  // Worked examples with the settings of the entry script: sleep 10 s, timeout
  // 60 s, no billing, threshold 0.5.

  function ExampleConfig(): Config
  {
    Config(10, 60, 0, 0.5)
  }

  function Idle(uptime: nat): Sample
  {
    Sample(true, true, uptime, 0)
  }

  /** Seven idle samples 10 s apart: the first credits nothing, so the idle time
      reaches 60 s at the seventh cycle, which shuts down; earlier cycles sleep. */
  lemma ExampleIdleHostShutsDown()
    ensures var inputs := [Idle(100), Idle(110), Idle(120), Idle(130), Idle(140), Idle(150), Idle(160)];
            && After(ExampleConfig(), Init(), inputs, 6).idleCount == 50
            && ActionAt(ExampleConfig(), Init(), inputs, 5) == Sleep(10)
            && ActionAt(ExampleConfig(), Init(), inputs, 6) == Shutdown
  {
  }

  /** With the idle threshold met, a billed host at uptime 1000 s out of a 3600 s
      unit with threshold 0.5 is not yet in a cost-effective position. */
  lemma ExampleTooEarlyInBillingUnit()
    ensures !CostEffective(1000, 3600, 0.5)
    ensures Cycle(Config(10, 60, 3600, 0.5), State(true, 990, 60), Idle(1000)).action == Sleep(10)
  {
  }
}
