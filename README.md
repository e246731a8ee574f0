# Docker watchdog: a verified model of the idle-shutdown loop

The watchdog watches a Docker host and shuts the host down once it has been idle,
that is with no running container, for a configured time. On a host billed by the
unit (a cloud VM), it shuts down only when the position within the current billing
unit is past a configured fraction. The object holds four settings fixed at
construction: the sleep interval, the idle timeout, the billing granularity and the
percentage threshold. It also holds three pieces of state that the sampling loop
updates in place: the Docker connection handle, the last sampled uptime and the idle
seconds accumulated so far.

The model has two modules:

- `DockerWatchdog` (`watchdog.dfy`) holds the value types, the pure transition
  `Cycle` of one loop iteration, and `After`, the state after the first `k` cycles.
  It also holds the class `Watchdog`. The class's configuration is a set of `const`
  fields, so nothing can write them after construction. Its state is a set of mutable
  fields. `Step` is one pass through the loop body, proved equal to `Cycle`. `Start`
  is the loop over a finite sequence of observations, proved against `After` and
  `ActionAt`.
- `WatchdogProperties` (`properties.dfy`) holds lemmas about the cost-effectiveness
  predicate, about the states reachable from construction, and about the idle time
  over a whole run. It also holds two worked examples with the entry script's
  settings.

What each cycle obtains from outside is an input `Sample`:

- whether `docker.client.from_env()` succeeded;
- whether `ping()` returned without raising (its return value is ignored);
- the `uptime.uptime()` reading;
- the number of containers that `containers.list()` returned.

The host shutdown and the `time.sleep` are the `Action` a cycle returns.

## Notable behaviour of the code

- Once connected, the code never drops the handle. The only reset to "no handle" sits
  in the connect `except`. A Docker daemon that goes away later is not noticed as a
  disconnection: the next `containers.list()` raises and the loop ends. So `After`
  keeps `connected` once it is set, and no cycle reconnects.
- The elapsed time is forced to 0 only when the stored previous uptime is 0. The
  stored uptime is never cleared. From construction, `DisconnectedMeansInitial` and
  `FirstSampleCreditsNothing` show that the first sampling cycle finds a stored uptime
  of 0. `LaterSamplesCreditDifference` shows that, when every reading is positive,
  every later sampling cycle credits exactly the difference between its reading and
  the previous one. A reading of 0 makes the next cycle credit 0 again.
- A failing `containers.list()` is not caught by the code. It is not a graceful
  "treat as disconnected" case.

## Model

| member | source | states |
|---|---|---|
| `DockerWatchdog.Watchdog.constructor` | docker_watchdog/Watchdog.py:33-45 | The four settings equal the constructor's arguments (they are `const`, so no later write exists). The state starts with no connection, uptime 0 and idle time 0. |
| `DockerWatchdog.Elapsed` | docker_watchdog/Watchdog.py:68-70 | With no previous sample (stored uptime 0) nothing is credited. Otherwise previous + elapsed = new reading. The result is non-negative when readings do not go backwards. |
| `DockerWatchdog.CostEffective` | docker_watchdog/Watchdog.py:79 | Always true without billing. With billing it is true iff the position within the billing unit, as a fraction of the unit, is strictly greater than the threshold. |
| `DockerWatchdog.Cycle` | docker_watchdog/Watchdog.py:56-87 | The handle is present afterwards iff it was held or client creation succeeds and `ping()` returns without raising. Without a handle the state is unchanged and the cycle sleeps. A sampling cycle stores the reading; the idle time becomes 0 when a container runs and otherwise grows by exactly the elapsed time. It is Shutdown iff the cycle sampled, the idle time is at least the timeout and cost-effectiveness holds. Otherwise it sleeps for the configured interval. |
| `DockerWatchdog.After` | docker_watchdog/Watchdog.py:56-62 | Once a handle is held, no number of later cycles drops it. |
| `DockerWatchdog.Watchdog.Step` | docker_watchdog/Watchdog.py:52-87 | One loop iteration, run on the object's fields, leaves exactly the state and returns exactly the action of `Cycle` on the old state. |
| `DockerWatchdog.Watchdog.Start` | docker_watchdog/Watchdog.py:47-87 | The loop runs one cycle per observation. Its object ends in the state `After` this many cycles. Every action returned is the one `ActionAt` gives for that cycle. Every cycle but the last slept. It stops early only right after a Shutdown. |
| `WatchdogProperties.CostEffectiveAsRatio` | docker_watchdog/Watchdog.py:79 | With the threshold given as `num / den`, cost-effectiveness is the exact integer comparison `(uptime % billing) * den > billing * num`. |
| `WatchdogProperties.CostEffectivePeriodic` | docker_watchdog/Watchdog.py:79 | Adding whole billing units to the uptime does not change the verdict. |
| `WatchdogProperties.CostEffectiveThresholds` | docker_watchdog/Watchdog.py:79 | On a billed host, a threshold of 1.0 or more is never met and a negative one always is. Hitting the threshold exactly is not cost-effective. |
| `WatchdogProperties.ConnectOnlyWhenAbsent` | docker_watchdog/Watchdog.py:56-62 | While a handle is held, whether connecting would succeed has no effect on the cycle: no attempt is made. |
| `WatchdogProperties.DisconnectedMeansInitial` | docker_watchdog/Watchdog.py:39-65 | From construction, every cycle before the first successful connection leaves the state exactly as constructed. |
| `WatchdogProperties.FirstSampleCreditsNothing` | docker_watchdog/Watchdog.py:68-74 | Failed connection cycles leave the idle time at 0. The first sampling cycle has elapsed time 0, so it ends with idle time 0. |
| `WatchdogProperties.FirstConnect` | docker_watchdog/Watchdog.py:56-65 | The first cycle whose connection attempt succeeds: no earlier attempt succeeds. It is 0 when a handle is already held. |
| `WatchdogProperties.LastActive` | docker_watchdog/Watchdog.py:73-74 | The last cycle in a range that saw a running container, with none after it. It is absent only when no cycle in the range saw one. |
| `WatchdogProperties.LaterSamplesCreditDifference` | docker_watchdog/Watchdog.py:68-70 | From construction, with every reading positive, a sampling cycle that finds a connection already held finds the previous reading stored and credits exactly the difference between its reading and that one. |
| `WatchdogProperties.IdleIsSumSinceActive` | docker_watchdog/Watchdog.py:68-74 | After any number of cycles, the handle is held iff a connection was held or has succeeded. The stored uptime is the last sampled reading. The idle time equals the sum of the elapsed times of the sampling cycles since the last one that saw a running container, or, when none did, the starting idle time plus the sum since sampling began. |
| `WatchdogProperties.ConnectedIdleIsSumSinceActive` | docker_watchdog/Watchdog.py:73-74 | On a connected host, the idle time is the sum of the elapsed times since the last active cycle. |
| `WatchdogProperties.IdleStaysNonNegative` | docker_watchdog/Watchdog.py:70-74 | If uptime readings never go backwards, every cycle's elapsed time and the idle time stay non-negative. |
| `WatchdogProperties.ExampleIdleHostShutsDown` | docker_watchdog/run_watchdog.py:4-9 | With the entry script's settings, seven idle samples 10 s apart reach 50 s of idle time after six cycles; the sixth cycle sleeps and the seventh shuts down. |
| `WatchdogProperties.ExampleTooEarlyInBillingUnit` | docker_watchdog/Watchdog.py:79-84 | At uptime 1000 s in a 3600 s unit with threshold 0.5 it is not cost-effective. A cycle that meets the idle timeout there still only sleeps. |

## Left out

- The Docker SDK calls `docker.client.from_env`, `ping` and `containers.list` are network calls. Their outcomes are the `clientOk`, `pingOk` and `running` fields of a `Sample`.
- The exception that escapes the loop when `containers.list()` fails is not modelled. The code does not catch it, so the daemon would stop.
- `uptime.uptime()` is a read from a foreign library. Its value is the `uptime` field of a `Sample`.
- `time.sleep` blocks in real time. A cycle that does not shut down returns `Sleep(seconds)` with the configured interval.
- `Shutdown.shutdown()` is an operating-system action whose module is not part of this model. It is the `Shutdown` action, after which `Start` returns.
- Logging setup and log lines are I/O only.
- The sleep interval is a `nat` and the timeout an `int`. Fractional values, and the `ValueError` that a negative sleep raises in `time.sleep`, are not modelled.
- Uptime and billing granularity are natural numbers and the threshold is an exact `real`. Floating-point rounding of `%` and `*` is not modelled. A negative billing granularity, for which Python's `%` takes the divisor's sign, is also not modelled.
- The loop is infinite in the code. `Start` runs it over a finite sequence of observations, one per cycle.
