/** The fixed-window request throttle of CrptApi, as values: the window state
    the client keeps, the reset rule, the polling loop and one whole call of
    `updateRequestCount`, with the properties they keep.

    The clock is an input: a call gets the reading taken on entry (`now`) and
    one `Sleep` per `Thread.sleep(100)` the polling loop performs, which either
    ends with a fresh clock reading or is interrupted. */
module FixedWindow {

  const MinInt32: int := -0x8000_0000
  const MaxInt32: int := 0x7fff_ffff

  /** A Java `int`. */
  type Int32 = x: int | MinInt32 <= x <= MaxInt32

  /** Java's `x++` on an `int`: two's-complement arithmetic modulo 2^32. */
  function Inc32(x: Int32): (r: Int32)
    ensures x < MaxInt32 ==> r == x + 1
    ensures (r - x - 1) % 0x1_0000_0000 == 0
  {
    if x == MaxInt32 then MinInt32 else x + 1
  }

  /** The two final fields: at most `requestLimit` requests per window of
      `requestInterval` milliseconds. */
  datatype Config = Config(requestLimit: Int32, requestInterval: nat)

  /** What the constructor lets through: a positive limit. */
  predicate ValidConfig(cfg: Config)
  {
    cfg.requestLimit > 0
  }

  /** The two mutable fields: when the current window started and how many
      requests it has admitted. */
  datatype Window = Window(lastRequestTimestamp: int, requestCount: Int32)

  /** How one `Thread.sleep(100)` of the polling loop ends. */
  datatype Sleep = Slept(clock: int) | Interrupt

  /** How the polling loop ends: capacity was freed by a reset, the sleep was
      interrupted, or the supplied clock readings ran out while still waiting
      (the call has not returned yet). `sleeps` counts the sleeps performed. */
  datatype WaitEnd =
    | Freed(window: Window, sleeps: nat)
    | Interrupted(window: Window, sleeps: nat)
    | Exhausted(window: Window)

  /** How a call of `updateRequestCount` ends. */
  datatype Outcome = Granted | GrantedDespiteInterrupt | Blocked

  datatype CallEnd = CallEnd(outcome: Outcome, window: Window)

  /** One caller's view of the clock during one call. */
  datatype Request = Request(now: int, sleeps: seq<Sleep>)

  datatype RunEnd = RunEnd(outcomes: seq<Outcome>, window: Window)

  /** The reset test: strictly more than one interval has elapsed. */
  predicate Expired(cfg: Config, w: Window, now: int)
  {
    now - w.lastRequestTimestamp > cfg.requestInterval
  }

  /** Reading the clock: an expired window is replaced by an empty one that
      starts now; otherwise nothing changes. */
  function Observe(cfg: Config, w: Window, now: int): (r: Window)
    ensures r.lastRequestTimestamp >= w.lastRequestTimestamp
    ensures r.lastRequestTimestamp > w.lastRequestTimestamp <==> Expired(cfg, w, now)
    ensures Expired(cfg, w, now) ==> r.requestCount == 0 && r.lastRequestTimestamp == now
    ensures !Expired(cfg, w, now) ==> r == w
  {
    if Expired(cfg, w, now) then Window(now, 0) else w
  }

  /** Counts `k` more sleeps into a loop outcome. */
  function Shift(r: WaitEnd, k: nat): WaitEnd
  {
    match r
    case Freed(w, n) => Freed(w, n + k)
    case Interrupted(w, n) => Interrupted(w, n + k)
    case Exhausted(_) => r
  }

  /** The polling loop: while the quota is used up, sleep, read the clock and
      reset the window if it expired. */
  function Wait(cfg: Config, w: Window, sleeps: seq<Sleep>): (r: WaitEnd)
    ensures r.Freed? ==> r.window.requestCount < cfg.requestLimit && r.sleeps <= |sleeps|
    ensures !r.Freed? ==> r.window.requestCount >= cfg.requestLimit
    ensures r.Interrupted? ==> 1 <= r.sleeps <= |sleeps| && sleeps[r.sleeps - 1] == Interrupt
    ensures r.window.lastRequestTimestamp >= w.lastRequestTimestamp
    decreases |sleeps|
  {
    if w.requestCount < cfg.requestLimit then Freed(w, 0)
    else if sleeps == [] then Exhausted(w)
    else match sleeps[0]
      case Interrupt => Interrupted(w, 1)
      case Slept(t) => Shift(Wait(cfg, Observe(cfg, w, t), sleeps[1..]), 1)
  }

  /** Counts one admitted request. */
  function Admit(w: Window): Window
  {
    Window(w.lastRequestTimestamp, Inc32(w.requestCount))
  }

  /** One whole call of `updateRequestCount`, which holds the lock from start
      to end: reset if expired, wait while the quota is used up, then count
      the request. An interrupted wait falls through to the count as well. */
  function Call(cfg: Config, w: Window, now: int, sleeps: seq<Sleep>): (r: CallEnd)
    ensures r.window.lastRequestTimestamp >= w.lastRequestTimestamp
  {
    var w1 := Observe(cfg, w, now);
    if w1.requestCount >= cfg.requestLimit then
      match Wait(cfg, w1, sleeps)
      case Freed(w2, _) => CallEnd(Granted, Admit(w2))
      case Interrupted(w2, _) => CallEnd(GrantedDespiteInterrupt, Admit(w2))
      case Exhausted(w2) => CallEnd(Blocked, w2)
    else
      CallEnd(Granted, Admit(w1))
  }

  /** Calls served one after another, as the lock serialises them. A call that
      is still blocked keeps the lock, so no later call gets in. */
  function Run(cfg: Config, w: Window, reqs: seq<Request>): (r: RunEnd)
    ensures |r.outcomes| <= |reqs|
    ensures r.window.lastRequestTimestamp >= w.lastRequestTimestamp
    ensures forall i :: 0 <= i < |r.outcomes| - 1 ==> r.outcomes[i] != Blocked
    decreases |reqs|
  {
    if reqs == [] then RunEnd([], w)
    else
      var c := Call(cfg, w, reqs[0].now, reqs[0].sleeps);
      if c.outcome == Blocked then RunEnd([Blocked], c.window)
      else
        var rest := Run(cfg, c.window, reqs[1..]);
        RunEnd([c.outcome] + rest.outcomes, rest.window)
  }

  // ---------------------------------------------------------------------
  // The polling loop

  /** A wait that ends with capacity freed ends at the first clock reading
      that expires the window: every earlier sleep was uninterrupted and saw
      an unexpired window, and the window restarted empty at that reading. */
  lemma {:induction false} WaitFreedAtReset(cfg: Config, w: Window, sleeps: seq<Sleep>)
    requires ValidConfig(cfg) && w.requestCount >= cfg.requestLimit
    requires Wait(cfg, w, sleeps).Freed?
    ensures var r := Wait(cfg, w, sleeps);
      && 1 <= r.sleeps <= |sleeps|
      && sleeps[r.sleeps - 1] == Slept(r.window.lastRequestTimestamp)
      && r.window.requestCount == 0
      && Expired(cfg, w, r.window.lastRequestTimestamp)
      && (forall j :: 0 <= j < r.sleeps - 1 ==> sleeps[j].Slept? && !Expired(cfg, w, sleeps[j].clock))
    decreases |sleeps|
  {
    var t := sleeps[0].clock;
    if !Expired(cfg, w, t) {
      WaitFreedAtReset(cfg, w, sleeps[1..]);
      var r := Wait(cfg, w, sleeps);
      forall j | 0 <= j < r.sleeps - 1
        ensures sleeps[j].Slept? && !Expired(cfg, w, sleeps[j].clock)
      {
        if j > 0 { assert sleeps[j] == sleeps[1..][j - 1]; }
      }
    }
  }

  /** Conversely, the first expiring reading, reached without interruption,
      frees capacity. */
  lemma {:induction false} WaitFreedAtFirstExpiry(cfg: Config, w: Window, sleeps: seq<Sleep>, k: nat)
    requires ValidConfig(cfg) && w.requestCount >= cfg.requestLimit
    requires k < |sleeps| && sleeps[k].Slept? && Expired(cfg, w, sleeps[k].clock)
    requires forall j :: 0 <= j < k ==> sleeps[j].Slept? && !Expired(cfg, w, sleeps[j].clock)
    ensures Wait(cfg, w, sleeps) == Freed(Window(sleeps[k].clock, 0), k + 1)
    decreases k
  {
    if k > 0 {
      forall j | 0 <= j < k - 1
        ensures sleeps[1..][j].Slept? && !Expired(cfg, w, sleeps[1..][j].clock)
      {
        assert sleeps[1..][j] == sleeps[j + 1];
      }
      WaitFreedAtFirstExpiry(cfg, w, sleeps[1..], k - 1);
    }
  }

  /** A wait that does not free capacity leaves the window untouched: every
      sleep it performed before an interruption saw an unexpired window. */
  lemma {:induction false} WaitHeldWithoutReset(cfg: Config, w: Window, sleeps: seq<Sleep>)
    requires ValidConfig(cfg) && w.requestCount >= cfg.requestLimit
    requires !Wait(cfg, w, sleeps).Freed?
    ensures var r := Wait(cfg, w, sleeps);
      && r.window == w
      && (forall j :: 0 <= j < (if r.Interrupted? then r.sleeps - 1 else |sleeps|) ==>
            sleeps[j].Slept? && !Expired(cfg, w, sleeps[j].clock))
    decreases |sleeps|
  {
    if sleeps != [] && sleeps[0].Slept? {
      var t := sleeps[0].clock;
      if Expired(cfg, w, t) {
        assert false;
      } else {
        WaitHeldWithoutReset(cfg, w, sleeps[1..]);
        var r := Wait(cfg, w, sleeps);
        forall j | 0 <= j < (if r.Interrupted? then r.sleeps - 1 else |sleeps|)
          ensures sleeps[j].Slept? && !Expired(cfg, w, sleeps[j].clock)
        {
          if j > 0 { assert sleeps[j] == sleeps[1..][j - 1]; }
        }
      }
    }
  }

  // ---------------------------------------------------------------------
  // One call

  /** When the quota is not used up after the reset test, the call does not
      wait: it counts exactly one request and moves the window start only if
      the window had expired. */
  lemma CallWithoutWaiting(cfg: Config, w: Window, now: int, sleeps: seq<Sleep>)
    requires Observe(cfg, w, now).requestCount < cfg.requestLimit
    ensures var w1 := Observe(cfg, w, now);
      Call(cfg, w, now, sleeps) == CallEnd(Granted, Window(w1.lastRequestTimestamp, w1.requestCount + 1))
    ensures Call(cfg, w, now, sleeps).window.lastRequestTimestamp
      == if Expired(cfg, w, now) then now else w.lastRequestTimestamp
  {
  }

  /** A call that returns without having been interrupted leaves the count
      within the limit. */
  lemma CallGrantedWithinLimit(cfg: Config, w: Window, now: int, sleeps: seq<Sleep>)
    requires Call(cfg, w, now, sleeps).outcome == Granted
    ensures Call(cfg, w, now, sleeps).window.requestCount <= cfg.requestLimit
    ensures ValidConfig(cfg) && w.requestCount >= 0 ==> Call(cfg, w, now, sleeps).window.requestCount >= 1
  {
    var w1 := Observe(cfg, w, now);
    if ValidConfig(cfg) && w1.requestCount >= cfg.requestLimit {
      WaitFreedAtReset(cfg, w1, sleeps);
    }
  }

  /** A call that had to wait and was not interrupted returns in a fresh
      window: count 1, started at the first reading that expired the old
      window. */
  lemma CallAfterWaiting(cfg: Config, w: Window, now: int, sleeps: seq<Sleep>)
    requires ValidConfig(cfg)
    requires Observe(cfg, w, now).requestCount >= cfg.requestLimit
    requires Call(cfg, w, now, sleeps).outcome == Granted
    ensures var r := Call(cfg, w, now, sleeps);
      && r.window.requestCount == 1
      && Expired(cfg, Observe(cfg, w, now), r.window.lastRequestTimestamp)
      && exists k :: 0 <= k < |sleeps| && sleeps[k] == Slept(r.window.lastRequestTimestamp)
           && forall j :: 0 <= j < k ==> sleeps[j].Slept? && !Expired(cfg, Observe(cfg, w, now), sleeps[j].clock)
  {
    var w1 := Observe(cfg, w, now);
    WaitFreedAtReset(cfg, w1, sleeps);
    var n := Wait(cfg, w1, sleeps).sleeps;
    assert sleeps[n - 1] == Slept(Call(cfg, w, now, sleeps).window.lastRequestTimestamp);
  }

  /** An interrupted wait still counts the request, on top of a quota that is
      already used up, and leaves the window start where it was. */
  lemma CallInterruptedOverrun(cfg: Config, w: Window, now: int, sleeps: seq<Sleep>)
    requires ValidConfig(cfg)
    requires Call(cfg, w, now, sleeps).outcome == GrantedDespiteInterrupt
    ensures var w1 := Observe(cfg, w, now);
      && w1.requestCount >= cfg.requestLimit
      && Call(cfg, w, now, sleeps).window == Window(w1.lastRequestTimestamp, Inc32(w1.requestCount))
  {
    WaitHeldWithoutReset(cfg, Observe(cfg, w, now), sleeps);
  }

  /** Such a call exists in every full, unexpired window: the limit is then
      exceeded by one (unless the count wraps around at the top of `int`). */
  lemma InterruptExceedsLimit(cfg: Config, w: Window, now: int)
    requires ValidConfig(cfg) && w.requestCount >= cfg.requestLimit && !Expired(cfg, w, now)
    ensures Call(cfg, w, now, [Interrupt]) == CallEnd(GrantedDespiteInterrupt, Admit(w))
    ensures w.requestCount < MaxInt32 ==> Call(cfg, w, now, [Interrupt]).window.requestCount > cfg.requestLimit
  {
  }

  /** A call that finds the window expired starts a fresh one and is admitted
      at once, whatever the count was. */
  lemma CallAfterExpiry(cfg: Config, w: Window, now: int, sleeps: seq<Sleep>)
    requires ValidConfig(cfg) && Expired(cfg, w, now)
    ensures Call(cfg, w, now, sleeps) == CallEnd(Granted, Window(now, 1))
  {
  }

  /** The count invariant `0 <= requestCount <= requestLimit` is kept by every
      call that is not interrupted. */
  lemma CallKeepsQuota(cfg: Config, w: Window, now: int, sleeps: seq<Sleep>)
    requires ValidConfig(cfg) && 0 <= w.requestCount <= cfg.requestLimit
    requires Call(cfg, w, now, sleeps).outcome != GrantedDespiteInterrupt
    ensures 0 <= Call(cfg, w, now, sleeps).window.requestCount <= cfg.requestLimit
  {
    var w1 := Observe(cfg, w, now);
    if w1.requestCount >= cfg.requestLimit {
      if Wait(cfg, w1, sleeps).Freed? {
        WaitFreedAtReset(cfg, w1, sleeps);
      } else {
        WaitHeldWithoutReset(cfg, w1, sleeps);
      }
    }
  }

  /** A call that leaves the window start where it was did not reset: it
      either counted one request below the limit, or is still blocked with
      the state unchanged, or was interrupted on a full window and counted
      one request on top of it. */
  lemma CallInSameWindow(cfg: Config, w: Window, now: int, sleeps: seq<Sleep>)
    requires ValidConfig(cfg)
    requires Call(cfg, w, now, sleeps).window.lastRequestTimestamp == w.lastRequestTimestamp
    ensures var r := Call(cfg, w, now, sleeps);
      && (r.outcome == Granted ==> w.requestCount < cfg.requestLimit && r.window == Admit(w))
      && (r.outcome == Blocked ==> r.window == w)
      && (r.outcome == GrantedDespiteInterrupt ==> w.requestCount >= cfg.requestLimit && r.window == Admit(w))
  {
    var w1 := Observe(cfg, w, now);
    if w1.requestCount >= cfg.requestLimit {
      if Wait(cfg, w1, sleeps).Freed? {
        WaitFreedAtReset(cfg, w1, sleeps);
      } else {
        WaitHeldWithoutReset(cfg, w1, sleeps);
      }
    }
  }

  // ---------------------------------------------------------------------
  // Serialised calls

  /** Number of requests admitted without interruption. */
  function Grants(outcomes: seq<Outcome>): nat
  {
    multiset(outcomes)[Granted]
  }

  /** Number of requests admitted after an interrupted wait. */
  function Interrupts(outcomes: seq<Outcome>): nat
  {
    multiset(outcomes)[GrantedDespiteInterrupt]
  }

  /** Within one window (the start never moves), the calls that are not
      interrupted are exactly the increments of the count, so no more than
      `requestLimit` of them are admitted. */
  lemma {:induction false} RunWithinOneWindow(cfg: Config, w: Window, reqs: seq<Request>)
    requires ValidConfig(cfg) && 0 <= w.requestCount <= cfg.requestLimit
    requires GrantedDespiteInterrupt !in Run(cfg, w, reqs).outcomes
    requires Run(cfg, w, reqs).window.lastRequestTimestamp == w.lastRequestTimestamp
    ensures var r := Run(cfg, w, reqs);
      && r.window.requestCount == w.requestCount + Grants(r.outcomes)
      && Grants(r.outcomes) <= cfg.requestLimit - w.requestCount
    decreases |reqs|
  {
    if reqs != [] {
      var c := Call(cfg, w, reqs[0].now, reqs[0].sleeps);
      assert c.outcome in Run(cfg, w, reqs).outcomes;
      CallInSameWindow(cfg, w, reqs[0].now, reqs[0].sleeps);
      if c.outcome != Blocked {
        var rest := Run(cfg, c.window, reqs[1..]);
        assert Run(cfg, w, reqs).outcomes == [c.outcome] + rest.outcomes;
        assert GrantedDespiteInterrupt !in rest.outcomes;
        RunWithinOneWindow(cfg, c.window, reqs[1..]);
      }
    }
  }

  /** Within one window, interrupted calls included: every call that returns
      counts exactly one request, the uninterrupted ones never take the count
      past the limit, and each interrupted one can exceed it by one more.
      (The count stays clear of the top of `int` here.) */
  lemma {:induction false} RunOverrunWithinOneWindow(cfg: Config, w: Window, reqs: seq<Request>)
    requires ValidConfig(cfg) && 0 <= w.requestCount && w.requestCount + |reqs| <= MaxInt32
    requires Run(cfg, w, reqs).window.lastRequestTimestamp == w.lastRequestTimestamp
    ensures var r := Run(cfg, w, reqs);
      && r.window.requestCount == w.requestCount + Grants(r.outcomes) + Interrupts(r.outcomes)
      && Grants(r.outcomes) <= (if w.requestCount <= cfg.requestLimit then cfg.requestLimit - w.requestCount else 0)
      && (w.requestCount <= cfg.requestLimit ==> r.window.requestCount <= cfg.requestLimit + Interrupts(r.outcomes))
    decreases |reqs|
  {
    if reqs != [] {
      var c := Call(cfg, w, reqs[0].now, reqs[0].sleeps);
      CallInSameWindow(cfg, w, reqs[0].now, reqs[0].sleeps);
      if c.outcome != Blocked {
        var rest := Run(cfg, c.window, reqs[1..]);
        assert Run(cfg, w, reqs).outcomes == [c.outcome] + rest.outcomes;
        RunOverrunWithinOneWindow(cfg, c.window, reqs[1..]);
      }
    }
  }

  /** Across any number of windows, calls that are not interrupted keep
      `0 <= requestCount <= requestLimit`. */
  lemma {:induction false} RunKeepsQuota(cfg: Config, w: Window, reqs: seq<Request>)
    requires ValidConfig(cfg) && 0 <= w.requestCount <= cfg.requestLimit
    requires GrantedDespiteInterrupt !in Run(cfg, w, reqs).outcomes
    ensures 0 <= Run(cfg, w, reqs).window.requestCount <= cfg.requestLimit
    decreases |reqs|
  {
    if reqs != [] {
      var c := Call(cfg, w, reqs[0].now, reqs[0].sleeps);
      assert c.outcome in Run(cfg, w, reqs).outcomes;
      CallKeepsQuota(cfg, w, reqs[0].now, reqs[0].sleeps);
      if c.outcome != Blocked {
        var rest := Run(cfg, c.window, reqs[1..]);
        assert Run(cfg, w, reqs).outcomes == [c.outcome] + rest.outcomes;
        assert GrantedDespiteInterrupt !in rest.outcomes;
        RunKeepsQuota(cfg, c.window, reqs[1..]);
      }
    }
  }

  /** As many calls as the quota has room for, all inside the window, are
      admitted without waiting, and each is counted exactly once. */
  lemma {:induction false} RunAdmitsUpToQuota(cfg: Config, w: Window, reqs: seq<Request>)
    requires 0 <= w.requestCount && w.requestCount + |reqs| <= cfg.requestLimit
    requires forall i :: 0 <= i < |reqs| ==> !Expired(cfg, w, reqs[i].now)
    ensures Run(cfg, w, reqs)
      == RunEnd(seq(|reqs|, _ => Granted), Window(w.lastRequestTimestamp, w.requestCount + |reqs|))
    decreases |reqs|
  {
    if reqs != [] {
      var w' := Window(w.lastRequestTimestamp, w.requestCount + 1);
      assert Call(cfg, w, reqs[0].now, reqs[0].sleeps) == CallEnd(Granted, w');
      forall i | 0 <= i < |reqs[1..]|
        ensures !Expired(cfg, w', reqs[1..][i].now)
      {
        assert reqs[1..][i] == reqs[i + 1];
      }
      RunAdmitsUpToQuota(cfg, w', reqs[1..]);
      assert [Granted] + seq(|reqs| - 1, _ => Granted) == seq(|reqs|, _ => Granted);
    }
  }

  /** Fixed windows allow a burst of twice the limit across a boundary: a
      full quota admitted when exactly one interval has elapsed (which does
      not reset) and a second full quota one millisecond later. */
  lemma BoundaryBurst(cfg: Config, t0: int)
    requires ValidConfig(cfg)
    ensures var n := cfg.requestLimit as nat;
      var edge := t0 + cfg.requestInterval;
      && Run(cfg, Window(t0, 0), seq(n, _ => Request(edge, [])))
         == RunEnd(seq(n, _ => Granted), Window(t0, cfg.requestLimit))
      && Run(cfg, Window(t0, cfg.requestLimit), seq(n, _ => Request(edge + 1, [])))
         == RunEnd(seq(n, _ => Granted), Window(edge + 1, cfg.requestLimit))
  {
    var n := cfg.requestLimit as nat;
    var edge := t0 + cfg.requestInterval;
    RunAdmitsUpToQuota(cfg, Window(t0, 0), seq(n, _ => Request(edge, [])));
    var later := seq(n, _ => Request(edge + 1, []));
    CallAfterExpiry(cfg, Window(t0, cfg.requestLimit), edge + 1, []);
    RunAdmitsUpToQuota(cfg, Window(edge + 1, 1), later[1..]);
    assert [Granted] + seq(n - 1, _ => Granted) == seq(n, _ => Granted);
  }
}
