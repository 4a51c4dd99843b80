/** The throttle state of the CrptApi client: two final fields fixed at
    construction and two fields that `updateRequestCount` updates in place
    while it holds the client's lock. */
module Api {
  import opened TimeUnits
  import opened FixedWindow

  datatype ConfigError = IllegalArgument(message: string)

  datatype Result<T> = Ok(value: T) | Err(error: ConfigError)

  const NonPositiveLimitMessage: string := "requestLimit must be positive"

  class CrptApi {
    const requestLimit: Int32
    const requestInterval: nat
    var lastRequestTimestamp: int
    var requestCount: Int32

    /** The final fields. */
    function Cfg(): Config
    {
      Config(requestLimit, requestInterval)
    }

    /** The fields the throttle updates. */
    function State(): Window
      reads this
    {
      Window(lastRequestTimestamp, requestCount)
    }

    /** The success path of the constructor; `clock` is the construction-time
        reading of the clock. */
    constructor (timeUnit: TimeUnit, requestLimit: Int32, clock: int)
      requires requestLimit > 0
      ensures this.requestLimit == requestLimit && requestInterval == ToMillis(timeUnit)
      ensures ValidConfig(Cfg())
      ensures State() == Window(clock, 0)
    {
      this.requestLimit := requestLimit;
      requestInterval := ToMillis(timeUnit);
      lastRequestTimestamp := clock;
      requestCount := 0;
    }

    /** `new CrptApi(timeUnit, requestLimit)`: a non-positive limit is
        rejected with an argument error and no client exists. */
    static method Create(timeUnit: TimeUnit, requestLimit: Int32, clock: int) returns (r: Result<CrptApi>)
      ensures r.Err? <==> requestLimit <= 0
      ensures r.Err? ==> r.error == IllegalArgument(NonPositiveLimitMessage)
      ensures r.Ok? ==>
                fresh(r.value)
                && r.value.Cfg() == Config(requestLimit, ToMillis(timeUnit))
                && r.value.State() == Window(clock, 0)
    {
      if requestLimit <= 0 {
        return Err(IllegalArgument(NonPositiveLimitMessage));
      }
      var api := new CrptApi(timeUnit, requestLimit, clock);
      r := Ok(api);
    }

    /** `updateRequestCount()`: `now` is the clock reading on entry and
        `sleeps` says how each `Thread.sleep(100)` of the polling loop ends.
        Only the two window fields change, exactly as `Call` describes. */
    method UpdateRequestCount(now: int, sleeps: seq<Sleep>) returns (outcome: Outcome)
      modifies this
      ensures CallEnd(outcome, State()) == Call(Cfg(), old(State()), now, sleeps)
      ensures outcome == Granted ==> requestCount <= requestLimit
      ensures lastRequestTimestamp >= old(lastRequestTimestamp)
    {
      var currentTime := now;
      if currentTime - lastRequestTimestamp > requestInterval {
        requestCount := 0;
        lastRequestTimestamp := currentTime;
      }
      outcome := Granted;
      if requestCount >= requestLimit {
        ghost var entry := State();
        var i := 0;
        while requestCount >= requestLimit && outcome == Granted
          invariant 0 <= i <= |sleeps|
          invariant outcome == Granted ==> Shift(Wait(Cfg(), State(), sleeps[i..]), i) == Wait(Cfg(), entry, sleeps)
          invariant outcome == GrantedDespiteInterrupt ==> Wait(Cfg(), entry, sleeps) == Interrupted(State(), i)
          invariant outcome == Blocked ==> Wait(Cfg(), entry, sleeps) == Exhausted(State())
          decreases |sleeps| - i + (if outcome == Granted then 1 else 0)
        {
          if i == |sleeps| {
            // the supplied readings end here: the call is still waiting
            outcome := Blocked;
          } else {
            match sleeps[i] {
              case Interrupt =>
                outcome := GrantedDespiteInterrupt;
              case Slept(t) =>
                currentTime := t;
                if currentTime - lastRequestTimestamp > requestInterval {
                  requestCount := 0;
                  lastRequestTimestamp := currentTime;
                }
            }
            i := i + 1;
          }
        }
        if outcome == Blocked {
          return;
        }
      }
      requestCount := Inc32(requestCount);
      if outcome == Granted {
        CallGrantedWithinLimit(Cfg(), old(State()), now, sleeps);
      }
    }
  }
}
