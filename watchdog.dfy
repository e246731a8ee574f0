/**
  An idle-detection daemon for a Docker host. One object holds four configuration
  settings fixed at construction and three pieces of state that every sampling
  cycle updates in place: whether a connection to the Docker daemon is held, the
  last sampled system uptime, and the accumulated idle time. A cycle connects if
  needed, samples, updates the idle time, and either shuts the host down (ending
  the loop) or sleeps.

  Everything the cycle learns from the outside world (whether the client could be
  created, whether `ping()` raised, the uptime reading, the number of running
  containers) is an input of the cycle; the shutdown and the sleep are the actions
  it returns.
 */
module DockerWatchdog {

  datatype Option<T> = None | Some(value: T)

  /** The four settings given to the constructor. */
  datatype Config = Config(sleep: nat, timeout: int, billing: nat, percentage: real)

  /** The mutable part of the watchdog: the connection handle (present or absent),
      the last sampled uptime in seconds, and the idle time in seconds. */
  datatype State = State(connected: bool, uptime: nat, idleCount: int)

  /** What one cycle observes: whether creating the client succeeded, whether
      `ping()` returned without raising (its return value is not looked at), the
      uptime reading, and how many containers are running.
      The first two are consulted only when no connection is held, the last two
      only when the cycle samples. */
  datatype Sample = Sample(clientOk: bool, pingOk: bool, uptime: nat, running: nat)

  /** A cycle ends either by sleeping for the configured interval or by shutting
      the host down, after which the loop returns. */
  datatype Action = Sleep(seconds: nat) | Shutdown

  datatype Transition = Transition(next: State, action: Action)

  /** The state right after construction: no connection, uptime 0, idle time 0. */
  function Init(): State
  {
    State(false, 0, 0)
  }

  /** A connection attempt succeeds when the client is created and `ping()` returns
      without raising; an exception from either leaves the handle absent. */
  predicate Connects(s: Sample)
  {
    s.clientOk && s.pingOk
  }

  /** Seconds since the previous sample; a previous uptime of 0 means there is no
      previous sample, and then nothing is credited. */
  function Elapsed(last: nat, now: nat): (e: int)
    ensures last == 0 ==> e == 0
    ensures last > 0 ==> last + e == now
    ensures last <= now ==> e >= 0
  {
    if last > 0 then now - last else 0
  }

  /** Whether shutting down now is cost-effective: always on a host that is not
      billed (billing granularity 0); otherwise only once more than the fraction
      `percentage` of the current billing unit has elapsed. */
  function CostEffective(uptime: nat, billing: nat, percentage: real): (r: bool)
    ensures billing == 0 ==> r
    ensures billing > 0 ==> (r <==> (uptime % billing) as real / billing as real > percentage)
  {
    if billing == 0 then true
    else
      var position := (uptime % billing) as real;
      var unit := billing as real;
      assert position / unit * unit == position;
      position > unit * percentage
  }

  /** One iteration of the sampling loop. */
  function Cycle(cfg: Config, st: State, s: Sample): (r: Transition)
    // a connection is attempted only when none is held, and a held one is kept
    ensures r.next.connected <==> st.connected || Connects(s)
    // without a connection nothing is sampled and the cycle only sleeps
    ensures !r.next.connected ==> r == Transition(st, Sleep(cfg.sleep))
    // a sampling cycle stores the reading and resets or extends the idle time
    ensures r.next.connected ==> r.next.uptime == s.uptime
    ensures r.next.connected && s.running > 0 ==> r.next.idleCount == 0
    ensures r.next.connected && s.running == 0 ==>
              r.next.idleCount == st.idleCount + Elapsed(st.uptime, s.uptime)
    // shutdown exactly when a sampling cycle finds both conditions, otherwise sleep
    ensures r.action == Shutdown <==>
              r.next.connected && r.next.idleCount >= cfg.timeout &&
              CostEffective(s.uptime, cfg.billing, cfg.percentage)
    ensures r.action != Shutdown ==> r.action == Sleep(cfg.sleep)
  {
    if !(st.connected || Connects(s)) then
      Transition(st, Sleep(cfg.sleep))
    else
      var idle := if s.running > 0 then 0 else st.idleCount + Elapsed(st.uptime, s.uptime);
      var next := State(true, s.uptime, idle);
      if idle >= cfg.timeout && CostEffective(s.uptime, cfg.billing, cfg.percentage) then
        Transition(next, Shutdown)
      else
        Transition(next, Sleep(cfg.sleep))
  }

  /** The state after the first `k` cycles fed with `inputs`, starting from `st`. */
  function After(cfg: Config, st: State, inputs: seq<Sample>, k: nat): (r: State)
    requires k <= |inputs|
    // once a connection is held it is never dropped
    ensures st.connected ==> r.connected
    decreases k
  {
    if k == 0 then st else Cycle(cfg, After(cfg, st, inputs, k - 1), inputs[k - 1]).next
  }

  /** What cycle `k` does when the first `k` cycles did not end the loop. */
  function ActionAt(cfg: Config, st: State, inputs: seq<Sample>, k: nat): Action
    requires k < |inputs|
  {
    Cycle(cfg, After(cfg, st, inputs, k), inputs[k]).action
  }

  class Watchdog {
    const sleep: nat
    const timeout: int
    const billing: nat
    const percentage: real

    var connected: bool
    var uptime: nat
    var idleCount: int

    function Cfg(): Config
    {
      Config(sleep, timeout, billing, percentage)
    }

    function Current(): State
      reads this
    {
      State(connected, uptime, idleCount)
    }

    constructor (sleep: nat, timeout: int, billing: nat, percentage: real)
      ensures Cfg() == Config(sleep, timeout, billing, percentage)
      ensures Current() == Init()
    {
      this.sleep := sleep;
      this.timeout := timeout;
      this.billing := billing;
      this.percentage := percentage;
      connected := false;
      uptime := 0;
      idleCount := 0;
    }

    /** One pass through the body of the sampling loop. */
    method Step(s: Sample) returns (action: Action)
      modifies this
      ensures Transition(Current(), action) == Cycle(Cfg(), old(Current()), s)
    {
      if !connected {
        connected := s.clientOk;
        if connected && !s.pingOk {
          connected := false;
        }
      }
      if connected {
        var lastUptime := uptime;
        uptime := s.uptime;
        var lastSleep := Elapsed(lastUptime, uptime);
        var active := s.running > 0;
        idleCount := if active then 0 else idleCount + lastSleep;
        var costEffective := CostEffective(uptime, billing, percentage);
        if idleCount >= timeout && costEffective {
          return Shutdown;
        }
      }
      return Sleep(sleep);
    }

    /** Runs the sampling loop over a finite sequence of observations. It returns
        the action of every cycle it ran: it stops right after a shutdown, and every
        earlier cycle slept. */
    method Start(inputs: seq<Sample>) returns (actions: seq<Action>)
      modifies this
      ensures |actions| <= |inputs|
      ensures Current() == After(Cfg(), old(Current()), inputs, |actions|)
      ensures forall k :: 0 <= k < |actions| ==> actions[k] == ActionAt(Cfg(), old(Current()), inputs, k)
      ensures forall k :: 0 <= k < |actions| - 1 ==> actions[k] == Sleep(sleep)
      ensures |actions| < |inputs| ==> 0 < |actions| && actions[|actions| - 1] == Shutdown
    {
      ghost var start := Current();
      actions := [];
      var i := 0;
      while i < |inputs|
        invariant i <= |inputs| && |actions| == i
        invariant Current() == After(Cfg(), start, inputs, i)
        invariant forall k :: 0 <= k < i ==> actions[k] == ActionAt(Cfg(), start, inputs, k)
        invariant forall k :: 0 <= k < i ==> actions[k] == Sleep(sleep)
      {
        var action := Step(inputs[i]);
        actions := actions + [action];
        i := i + 1;
        if action == Shutdown {
          return;
        }
      }
    }
  }
}
