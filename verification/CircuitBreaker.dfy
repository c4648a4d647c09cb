/** The circuit breaker: its critical sections, their interleavings, and its whole runs. */
module CircuitBreaker {
  import opened Sums

  // ----- The critical sections -----

  datatype State = Closed | Open | HalfOpen

  datatype Config = Config(failureThreshold: int, successThreshold: int, timeout: int, maxHalfOpen: int) {
    predicate Valid() {
      failureThreshold > 0 && successThreshold > 0 && timeout > 0 && maxHalfOpen > 0
    }

    /** `NewCircuit` replaces every setting that is not positive by its default (times in nanoseconds). */
    function WithDefaults(): (c: Config)
      ensures c.Valid()
    {
      Config(if failureThreshold <= 0 then 5 else failureThreshold,
             if successThreshold <= 0 then 2 else successThreshold,
             if timeout <= 0 then 30_000_000_000 else timeout,
             if maxHalfOpen <= 0 then 1 else maxHalfOpen)
    }
  }

  /** The fields guarded by the mutex. `halfOpen` can fall below zero. */
  datatype Breaker = Breaker(state: State, failures: int, successes: int, lastFailure: int, halfOpen: int)

  function TransitionTo(b: Breaker, state: State): Breaker {
    if b.state == state then b
    else match state
      case Closed => b.(state := Closed, failures := 0, successes := 0, halfOpen := 0)
      case Open => b.(state := Open, successes := 0, halfOpen := 0)
      case HalfOpen => b.(state := HalfOpen, successes := 0)
  }

  /** Open and the timeout has passed since the last failure. */
  predicate Due(cfg: Config, b: Breaker, now: int) {
    b.state.Open? && now - b.lastFailure >= cfg.timeout
  }

  function AfterAllow(cfg: Config, b: Breaker, now: int): Breaker {
    if Due(cfg, b, now) then TransitionTo(b, HalfOpen) else b
  }

  predicate Allowed(cfg: Config, b: Breaker, now: int) {
    b.state.Closed? || Due(cfg, b, now) || (b.state.HalfOpen? && b.halfOpen < cfg.maxHalfOpen)
  }

  function AfterTag(b: Breaker): Breaker {
    if b.state.HalfOpen? then b.(halfOpen := b.halfOpen + 1) else b
  }

  function AfterRecord(cfg: Config, b: Breaker, now: int, failed: bool, wasHalfOpen: bool): Breaker {
    var b := if wasHalfOpen then b.(halfOpen := b.halfOpen - 1) else b;
    match b.state
    case Closed =>
      if failed then
        var b := b.(failures := b.failures + 1, lastFailure := now);
        if b.failures >= cfg.failureThreshold then TransitionTo(b, Open) else b
      else b.(failures := 0)
    case HalfOpen =>
      if failed then TransitionTo(b.(lastFailure := now), Open)
      else
        var b := b.(successes := b.successes + 1);
        if b.successes >= cfg.successThreshold then TransitionTo(b, Closed) else b
    case Open => b
  }

  /** The object: each method body is one critical section. */
  class Circuit {
    const cfg: Config
    var state: State
    var failures: int
    var successes: int
    var lastFailure: int
    var halfOpen: int

    function Value(): Breaker
      reads this
    {
      Breaker(state, failures, successes, lastFailure, halfOpen)
    }

    constructor (cfg: Config, zeroTime: int)
      ensures Value() == Breaker(Closed, 0, 0, zeroTime, 0)
      ensures this.cfg == Config(if cfg.failureThreshold <= 0 then 5 else cfg.failureThreshold,
                                 if cfg.successThreshold <= 0 then 2 else cfg.successThreshold,
                                 if cfg.timeout <= 0 then 30_000_000_000 else cfg.timeout,
                                 if cfg.maxHalfOpen <= 0 then 1 else cfg.maxHalfOpen)
    {
      this.cfg := cfg.WithDefaults();
      state, failures, successes, lastFailure, halfOpen := Closed, 0, 0, zeroTime, 0;
    }

    method Transition(to: State)
      modifies this
      ensures Value() == TransitionTo(old(Value()), to)
    {
      if state == to {
        return;
      }
      state := to;
      match to {
        case Closed => failures, successes, halfOpen := 0, 0, 0;
        case Open => successes, halfOpen := 0, 0;
        case HalfOpen => successes := 0;
      }
    }

    method AllowRequest(now: int) returns (ok: bool)
      modifies this
      ensures Value() == AfterAllow(cfg, old(Value()), now) && ok == Allowed(cfg, old(Value()), now)
      ensures ok <==> || old(state).Closed?
                      || (old(state).Open? && now - old(lastFailure) >= cfg.timeout)
                      || (old(state).HalfOpen? && old(halfOpen) < cfg.maxHalfOpen)
      ensures state == if old(state).Open? && ok then HalfOpen else old(state)
    {
      match state {
        case Closed => ok := true;
        case Open =>
          ok := now - lastFailure >= cfg.timeout;
          if ok {
            Transition(HalfOpen);
          }
        case HalfOpen => ok := halfOpen < cfg.maxHalfOpen;
      }
    }

    method Tag() returns (isHalfOpen: bool)
      modifies this
      ensures Value() == AfterTag(old(Value())) && isHalfOpen == old(state.HalfOpen?)
    {
      isHalfOpen := state == HalfOpen;
      if isHalfOpen {
        halfOpen := halfOpen + 1;
      }
    }

    method RecordResult(now: int, failed: bool, wasHalfOpen: bool)
      modifies this
      ensures Value() == AfterRecord(cfg, old(Value()), now, failed, wasHalfOpen)
    {
      if wasHalfOpen {
        halfOpen := halfOpen - 1;
      }
      match state {
        case Closed =>
          if failed {
            failures := failures + 1;
            lastFailure := now;
            if failures >= cfg.failureThreshold {
              Transition(Open);
            }
          } else {
            failures := 0;
          }
        case HalfOpen =>
          if failed {
            lastFailure := now;
            Transition(Open);
          } else {
            successes := successes + 1;
            if successes >= cfg.successThreshold {
              Transition(Closed);
            }
          }
        case Open =>
      }
    }

    method CurrentState(now: int) returns (s: State)
      modifies this
      ensures Value() == AfterAllow(cfg, old(Value()), now) && s == state
    {
      if state == Open && now - lastFailure >= cfg.timeout {
        Transition(HalfOpen);
      }
      s := state;
    }

    method Reset()
      modifies this
      ensures Value() == TransitionTo(old(Value()), Closed)
    {
      Transition(Closed);
    }

    method Trip(now: int)
      modifies this
      ensures Value() == TransitionTo(old(Value()).(lastFailure := now), Open)
    {
      lastFailure := now;
      Transition(Open);
    }
  }

  // ----- Interleavings -----

  /** A caller between calls, admitted, or running its function with the tag it was given. */
  datatype Phase = Idle | Admitted | Running(tagged: bool)

  datatype System = System(cfg: Config, now: int, b: Breaker, callers: seq<Phase>)

  /** `Do` has no deferred section: a function that panics leaves without `Record`. */
  datatype Event =
    | Tick(d: nat) | Allow(i: nat) | Tag(i: nat) | Record(i: nat, failed: bool) | Panic(i: nat) | Read | Reset | Trip

  predicate Enabled(s: System, e: Event) {
    match e
    case Allow(i) => i < |s.callers| && s.callers[i].Idle?
    case Tag(i) => i < |s.callers| && s.callers[i].Admitted?
    case Record(i, _) => i < |s.callers| && s.callers[i].Running?
    case Panic(i) => i < |s.callers| && s.callers[i].Running?
    case _ => true
  }

  function Apply(s: System, e: Event): System
    requires Enabled(s, e)
  {
    match e
    case Tick(d) => s.(now := s.now + d)
    case Allow(i) =>
      s.(b := AfterAllow(s.cfg, s.b, s.now),
         callers := s.callers[i := if Allowed(s.cfg, s.b, s.now) then Admitted else Idle])
    case Tag(i) => s.(b := AfterTag(s.b), callers := s.callers[i := Running(s.b.state.HalfOpen?)])
    case Record(i, failed) =>
      s.(b := AfterRecord(s.cfg, s.b, s.now, failed, s.callers[i].tagged), callers := s.callers[i := Idle])
    case Panic(i) => s.(callers := s.callers[i := Idle])
    case Read => s.(b := AfterAllow(s.cfg, s.b, s.now))
    case Reset => s.(b := TransitionTo(s.b, Closed))
    case Trip => s.(b := TransitionTo(s.b.(lastFailure := s.now), Open))
  }

  ghost predicate Initial(s: System) {
    && s.cfg.Valid() && s.b.state.Closed? && s.b.failures == 0 && s.b.successes == 0 && s.b.halfOpen == 0
    && forall i :: 0 <= i < |s.callers| ==> s.callers[i].Idle?
  }

  ghost predicate IsRun(ss: seq<System>, es: seq<Event>) {
    && |ss| == |es| + 1 && Initial(ss[0])
    && forall i :: 0 <= i < |es| ==> Enabled(ss[i], es[i]) && ss[i + 1] == Apply(ss[i], es[i])
  }

  lemma RunStep(ss: seq<System>, es: seq<Event>, i: nat)
    requires IsRun(ss, es) && i < |es|
    ensures Enabled(ss[i], es[i]) && ss[i + 1] == Apply(ss[i], es[i])
  {
  }

  // ----- What every interleaving keeps -----

  function IsTagged(p: Phase): nat {
    if p == Running(true) then 1 else 0
  }

  function TaggedCalls(s: System): nat {
    Sum(s.callers, IsTagged)
  }

  ghost predicate CountersRight(cfg: Config, b: Breaker) {
    && 0 <= b.failures
    && (b.state.Closed? ==> b.failures < cfg.failureThreshold)
    && (if b.state.HalfOpen? then 0 <= b.successes < cfg.successThreshold else b.successes == 0)
  }

  ghost predicate Inv(s: System) {
    s.cfg.Valid() && CountersRight(s.cfg, s.b)
  }

  /** In every interleaving: a closed breaker has fewer failures than its threshold, a half-open one fewer
      successes than its threshold and any other none. */
  lemma {:induction false} RunsKeepCounters(ss: seq<System>, es: seq<Event>, n: nat)
    requires IsRun(ss, es) && n < |ss|
    ensures Inv(ss[n]) && ss[n].cfg == ss[0].cfg
  {
    if n > 0 {
      RunsKeepCounters(ss, es, n - 1);
      RunStep(ss, es, n - 1);
    }
  }

  // ----- What the half-open counter counts -----

  predicate AllEnabled(ss: seq<System>, es: seq<Event>) {
    |es| <= |ss| && forall i :: 0 <= i < |es| ==> Enabled(ss[i], es[i])
  }

  /** The step enters the closed or the open state, which clears the half-open counter. */
  predicate Clears(s: System, e: Event)
    requires Enabled(s, e)
  {
    Apply(s, e).b.state != s.b.state && !Apply(s, e).b.state.HalfOpen?
  }

  /** The moment at which the half-open counter was last cleared, or the start. */
  function LastCleared(ss: seq<System>, es: seq<Event>, n: nat): (j: nat)
    requires AllEnabled(ss, es) && n <= |es|
    ensures j <= n && (j == 0 || Clears(ss[j - 1], es[j - 1]))
    ensures forall i :: j <= i < n ==> !Clears(ss[i], es[i])
  {
    if n == 0 || Clears(ss[n - 1], es[n - 1]) then n else LastCleared(ss, es, n - 1)
  }

  /** A call that was tagged half-open panics. */
  predicate TaggedPanic(s: System, e: Event)
    requires Enabled(s, e)
  {
    e.Panic? && s.callers[e.i].tagged
  }

  function TaggedPanics(ss: seq<System>, es: seq<Event>, from: nat, end: nat): nat
    requires AllEnabled(ss, es) && from <= end <= |es|
    decreases end
  {
    if from == end then 0
    else TaggedPanics(ss, es, from, end - 1) + (if TaggedPanic(ss[end - 1], es[end - 1]) then 1 else 0)
  }

  /** Without clearing, the counter follows the number of tagged calls, except that it keeps those that panic. */
  lemma CounterStep(s: System, e: Event)
    requires Enabled(s, e)
    ensures Clears(s, e) ==> Apply(s, e).b.halfOpen == 0
    ensures !Clears(s, e) ==>
              Apply(s, e).b.halfOpen - s.b.halfOpen
              == TaggedCalls(Apply(s, e)) - TaggedCalls(s) + if TaggedPanic(s, e) then 1 else 0
  {
    match e
    case Allow(i) => SumUpdate(s.callers, i, Apply(s, e).callers[i], IsTagged);
    case Tag(i) => SumUpdate(s.callers, i, Apply(s, e).callers[i], IsTagged);
    case Record(i, _) => SumUpdate(s.callers, i, Idle, IsTagged);
    case Panic(i) => SumUpdate(s.callers, i, Idle, IsTagged);
    case _ =>
  }

  lemma {:induction false} NoneTagged(callers: seq<Phase>)
    requires forall i :: 0 <= i < |callers| ==> callers[i].Idle?
    ensures Sum(callers, IsTagged) == 0
  {
    if callers != [] {
      NoneTagged(callers[1..]);
    }
  }

  /** In every run the half-open counter is the change in the number of tagged calls since it was last cleared,
      and one for each tagged call that has panicked since. */
  lemma {:induction false} HalfOpenCounterMeans(ss: seq<System>, es: seq<Event>, n: nat)
    requires IsRun(ss, es) && n < |ss|
    ensures var j := LastCleared(ss, es, n);
            ss[n].b.halfOpen == TaggedCalls(ss[n]) - TaggedCalls(ss[j]) + TaggedPanics(ss, es, j, n)
  {
    if n > 0 {
      HalfOpenCounterMeans(ss, es, n - 1);
      RunStep(ss, es, n - 1);
      hide Apply, TaggedCalls, Clears, TaggedPanic;
      CounterStep(ss[n - 1], es[n - 1]);
    }
  }

  /** The counter exceeds the number of running tagged calls if and only if, since it was last cleared, more
      tagged calls have panicked than were running then. */
  lemma CounterExceedsExactly(ss: seq<System>, es: seq<Event>, n: nat)
    requires IsRun(ss, es) && n < |ss|
    ensures var j := LastCleared(ss, es, n);
            ss[n].b.halfOpen > TaggedCalls(ss[n]) <==> TaggedPanics(ss, es, j, n) > TaggedCalls(ss[j])
  {
    HalfOpenCounterMeans(ss, es, n);
  }

  lemma {:induction false} PanicsSince(ss: seq<System>, es: seq<Event>, from: nat, end: nat)
    requires AllEnabled(ss, es) && from <= end <= |es|
    ensures TaggedPanics(ss, es, from, end) <= TaggedPanics(ss, es, 0, end)
    decreases end
  {
    if from < end {
      PanicsSince(ss, es, from, end - 1);
    }
  }

  /** A run with `n` callers in which at most `p` tagged calls panic. */
  ghost predicate IsRunOf(cfg: Config, n: nat, p: nat, ss: seq<System>, es: seq<Event>) {
    && IsRun(ss, es) && ss[0].cfg == cfg && |ss[0].callers| == n
    && TaggedPanics(ss, es, 0, |es|) <= p
  }

  /** In all those runs the counter stays within the number of running tagged calls. */
  ghost predicate CounterKept(cfg: Config, n: nat, p: nat) {
    forall ss: seq<System>, es: seq<Event> ::
      IsRunOf(cfg, n, p, ss, es) ==> ss[|es|].b.halfOpen <= TaggedCalls(ss[|es|])
  }

  // ----- A breaker that admits no call any more -----

  /** Half-open, the counter at its limit, and nobody there to lower it. */
  ghost predicate Wedged(s: System) {
    && s.b.state.HalfOpen? && s.b.halfOpen >= s.cfg.maxHalfOpen
    && forall i :: 0 <= i < |s.callers| ==> s.callers[i].Idle?
  }

  /** Then every call is refused, for ever, unless somebody trips or resets the breaker. */
  lemma {:induction false} WedgedForGood(ss: seq<System>, es: seq<Event>, a: nat, n: nat)
    requires IsRun(ss, es) && a <= n < |ss| && Wedged(ss[a])
    requires forall i :: a <= i < n ==> !es[i].Trip? && !es[i].Reset?
    ensures Wedged(ss[n]) && !Allowed(ss[n].cfg, ss[n].b, ss[n].now)
    decreases n
  {
    if a < n {
      WedgedForGood(ss, es, a, n - 1);
      RunStep(ss, es, n - 1);
    }
  }

  ghost predicate NeverWedged(cfg: Config, n: nat, p: nat) {
    forall ss: seq<System>, es: seq<Event> :: IsRunOf(cfg, n, p, ss, es) ==> !Wedged(ss[|es|])
  }

  lemma {:induction false} PanicsNext(ss: seq<System>, es: seq<Event>, s: System, e: Event, end: nat)
    requires AllEnabled(ss, es) && |es| < |ss| && Enabled(ss[|es|], e) && end <= |es|
    ensures TaggedPanics(ss + [s], es + [e], 0, end) == TaggedPanics(ss, es, 0, end)
    decreases end
  {
    if end > 0 {
      PanicsNext(ss, es, s, e, end - 1);
    }
  }

  lemma OneMore(cfg: Config, n: nat, p: nat, ss: seq<System>, es: seq<Event>, e: Event)
    returns (ss': seq<System>, es': seq<Event>)
    requires IsRunOf(cfg, n, p, ss, es) && Enabled(ss[|es|], e)
    ensures |es'| + 1 == |ss'| && ss'[|es'|] == Apply(ss[|es|], e)
    ensures IsRunOf(cfg, n, if TaggedPanic(ss[|es|], e) then p + 1 else p, ss', es')
  {
    var s := Apply(ss[|es|], e);
    ss', es' := ss + [s], es + [e];
    PanicsNext(ss, es, s, e, |es|);
  }

  /** One caller panics in call after call, each admitted because the counter is still below its limit. */
  lemma {:induction false} PanicsOn(cfg: Config, n: nat, k: nat) returns (ss: seq<System>, es: seq<Event>)
    requires cfg.Valid() && n > 0 && k <= cfg.maxHalfOpen
    ensures IsRunOf(cfg, n, k, ss, es)
    ensures var s := ss[|es|];
            && s.cfg == cfg && |s.callers| == n && (forall i :: 0 <= i < n ==> s.callers[i].Idle?)
            && s.b.halfOpen == k && (if k == 0 then Due(cfg, s.b, s.now) else s.b.state.HalfOpen?)
  {
    if k == 0 {
      var start := System(cfg, 0, Breaker(Closed, 0, 0, 0, 0), seq(n, _ => Idle));
      ss, es := [start], [];
      ss, es := OneMore(cfg, n, 0, ss, es, Trip);
      ss, es := OneMore(cfg, n, 0, ss, es, Tick(cfg.timeout));
    } else {
      ss, es := PanicsOn(cfg, n, k - 1);
      ss, es := OneMore(cfg, n, k - 1, ss, es, Allow(0));
      ss, es := OneMore(cfg, n, k - 1, ss, es, Tag(0));
      ss, es := OneMore(cfg, n, k - 1, ss, es, Panic(0));
    }
  }

  /** The counter stays within the number of tagged calls in all runs if and only if no tagged call panics. */
  lemma CounterKeptExactly(cfg: Config, n: nat, p: nat)
    requires cfg.Valid()
    ensures CounterKept(cfg, n, p) <==> n == 0 || p == 0
  {
    if n == 0 || p == 0 {
      forall ss: seq<System>, es: seq<Event> | IsRunOf(cfg, n, p, ss, es)
        ensures ss[|es|].b.halfOpen <= TaggedCalls(ss[|es|])
      {
        FewPanics(cfg, n, p, ss, es);
        CounterExceedsExactly(ss, es, |es|);
      }
    } else {
      var ss, es := PanicsOn(cfg, n, 1);
      NoneTagged(ss[|es|].callers);
      assert IsRunOf(cfg, n, p, ss, es);
    }
  }

  lemma FewPanics(cfg: Config, n: nat, p: nat, ss: seq<System>, es: seq<Event>)
    requires IsRunOf(cfg, n, p, ss, es)
    ensures TaggedPanics(ss, es, LastCleared(ss, es, |es|), |es|) <= if n == 0 then 0 else p
  {
    PanicsSince(ss, es, LastCleared(ss, es, |es|), |es|);
    if n == 0 {
      NobodyPanics(ss, es, |es|);
    }
  }

  lemma {:induction false} NobodyPanics(ss: seq<System>, es: seq<Event>, k: nat)
    requires IsRun(ss, es) && |ss[0].callers| == 0 && k <= |es|
    ensures TaggedPanics(ss, es, 0, k) == 0
  {
    if k > 0 {
      NobodyPanics(ss, es, k - 1);
      CallersStay(ss, es, k - 1);
    }
  }

  /** A breaker never wedges if and only if fewer tagged calls panic than its limit on half-open calls. */
  lemma NeverWedgedExactly(cfg: Config, n: nat, p: nat)
    requires cfg.Valid()
    ensures NeverWedged(cfg, n, p) <==> n == 0 || p < cfg.maxHalfOpen
  {
    if n == 0 || p < cfg.maxHalfOpen {
      forall ss: seq<System>, es: seq<Event> | IsRunOf(cfg, n, p, ss, es)
        ensures !Wedged(ss[|es|])
      {
        FewPanics(cfg, n, p, ss, es);
        HalfOpenCounterMeans(ss, es, |es|);
        RunsKeepCounters(ss, es, |es|);
        if Wedged(ss[|es|]) {
          NoneTagged(ss[|es|].callers);
        }
      }
    } else {
      var ss, es := PanicsOn(cfg, n, cfg.maxHalfOpen);
      assert IsRunOf(cfg, n, p, ss, es);
    }
  }

  // ----- Why a breaker changes state -----

  /** Results recorded among the events, and whether they are all of one kind. */
  function Recorded(es: seq<Event>): nat {
    Sum(es, IsRecord)
  }

  function IsRecord(e: Event): nat {
    if e.Record? then 1 else 0
  }

  ghost predicate OnlyRecords(es: seq<Event>, failed: bool) {
    forall i :: 0 <= i < |es| && es[i].Record? ==> es[i].failed == failed
  }

  ghost predicate Stays(ss: seq<System>, from: nat, to: nat, state: State) {
    from <= to < |ss| && forall k :: from <= k <= to ==> ss[k].b.state == state
  }

  lemma {:induction false} RecordedNext(es: seq<Event>, e: Event)
    ensures Recorded(es + [e]) == Recorded(es) + (if e.Record? then 1 else 0)
  {
    if es == [] {
      assert es + [e] == [e];
    } else {
      RecordedNext(es[1..], e);
      assert (es + [e])[1..] == es[1..] + [e];
    }
  }

  lemma RecordedFrom(es: seq<Event>, j: nat, n: nat)
    requires j < n <= |es|
    ensures es[j..n] == es[j..n - 1] + [es[n - 1]]
    ensures Recorded(es[j..n]) == Recorded(es[j..n - 1]) + (if es[n - 1].Record? then 1 else 0)
  {
    assert es[j..n] == es[j..n - 1] + [es[n - 1]];
    RecordedNext(es[j..n - 1], es[n - 1]);
  }

  /** A step that leaves a breaker closed counts a failure, forgets them on a success, or changes no count. */
  lemma ClosedStep(s: System, e: Event)
    requires Enabled(s, e) && Apply(s, e).b.state.Closed?
    ensures var failures := Apply(s, e).b.failures;
            if !s.b.state.Closed? || (e.Record? && !e.failed) then failures == 0
            else failures == s.b.failures + if e.Record? then 1 else 0
  {
  }

  lemma HalfOpenStep(s: System, e: Event)
    requires Enabled(s, e) && Apply(s, e).b.state.HalfOpen?
    ensures var successes := Apply(s, e).b.successes;
            if !s.b.state.HalfOpen? then successes == 0
            else !(e.Record? && e.failed) && successes == s.b.successes + if e.Record? then 1 else 0
  {
  }

  /** While closed, the failure count is the number of results recorded, all of them failures, since the breaker
      closed, or since the last success if that is later. */
  lemma {:induction false} FailureStreak(ss: seq<System>, es: seq<Event>, n: nat) returns (j: nat)
    requires IsRun(ss, es) && n < |ss| && ss[n].b.state.Closed?
    ensures j <= n && Stays(ss, j, n, Closed)
    ensures j == 0 || !ss[j - 1].b.state.Closed? || (es[j - 1].Record? && !es[j - 1].failed)
    ensures OnlyRecords(es[j..n], true) && Recorded(es[j..n]) == ss[n].b.failures
  {
    j := n;
    assert es[n..n] == [];
    if n > 0 {
      RunStep(ss, es, n - 1);
      hide Apply, Recorded;
      var e := es[n - 1];
      ClosedStep(ss[n - 1], e);
      if ss[n - 1].b.state.Closed? && !(e.Record? && !e.failed) {
        j := FailureStreak(ss, es, n - 1);
        RecordedFrom(es, j, n);
      } else {
        NothingRecorded();
      }
    }
  }

  lemma NothingRecorded()
    ensures Recorded([]) == 0
  {
  }

  /** While half-open, the success count is the number of results recorded since this visit began, none of
      them a failure. */
  lemma {:induction false} SuccessStreak(ss: seq<System>, es: seq<Event>, n: nat) returns (j: nat)
    requires IsRun(ss, es) && n < |ss| && ss[n].b.state.HalfOpen?
    ensures 0 < j <= n && Stays(ss, j, n, HalfOpen) && !ss[j - 1].b.state.HalfOpen?
    ensures OnlyRecords(es[j..n], false) && Recorded(es[j..n]) == ss[n].b.successes
  {
    RunStep(ss, es, n - 1);
    hide Apply, Recorded;
    HalfOpenStep(ss[n - 1], es[n - 1]);
    if ss[n - 1].b.state.HalfOpen? {
      j := SuccessStreak(ss, es, n - 1);
      RecordedFrom(es, j, n);
    } else {
      j := n;
      assert es[n..n] == [];
      NothingRecorded();
    }
  }

  /** Closed to open: a trip, or a full threshold of consecutive failures recorded while closed. */
  lemma WhyItOpens(ss: seq<System>, es: seq<Event>, n: nat) returns (j: nat)
    requires IsRun(ss, es) && n < |es| && ss[n].b.state.Closed? && ss[n + 1].b.state.Open?
    ensures es[n].Trip? || (&& j <= n && Stays(ss, j, n, Closed) && OnlyRecords(es[j..n + 1], true)
                            && Recorded(es[j..n + 1]) == ss[0].cfg.failureThreshold)
    ensures j == 0 || j > n || !ss[j - 1].b.state.Closed? || (es[j - 1].Record? && !es[j - 1].failed)
  {
    RunStep(ss, es, n);
    RunsKeepCounters(ss, es, n);
    j := FailureStreak(ss, es, n);
    RecordedFrom(es, j, n + 1);
  }

  /** Half-open to closed: a reset, or the success threshold reached in this visit with no failure in it. */
  lemma WhyItCloses(ss: seq<System>, es: seq<Event>, n: nat) returns (j: nat)
    requires IsRun(ss, es) && n < |es| && ss[n].b.state.HalfOpen? && ss[n + 1].b.state.Closed?
    ensures es[n].Reset? || (&& 0 < j <= n && Stays(ss, j, n, HalfOpen) && !ss[j - 1].b.state.HalfOpen?
                             && OnlyRecords(es[j..n + 1], false)
                             && Recorded(es[j..n + 1]) == ss[0].cfg.successThreshold)
  {
    RunStep(ss, es, n);
    RunsKeepCounters(ss, es, n);
    j := SuccessStreak(ss, es, n);
    RecordedFrom(es, j, n + 1);
  }

  /** A trip, or a failure recorded while the breaker was not open. */
  predicate Strikes(s: System, e: Event) {
    e.Trip? || (e.Record? && e.failed && !s.b.state.Open?)
  }

  lemma {:induction false} StrikesAreRemembered(ss: seq<System>, es: seq<Event>, n: nat, k: nat)
    requires IsRun(ss, es) && k < n < |ss|
    ensures ss[k].now <= ss[n].now
    ensures Strikes(ss[k], es[k]) ==> ss[k].now <= ss[n].b.lastFailure
    decreases n
  {
    RunStep(ss, es, n - 1);
    if k < n - 1 {
      StrikesAreRemembered(ss, es, n - 1, k);
    }
  }

  /** Open to half-open: the timeout has passed since every trip and every failure that counted. */
  lemma WhyItHalfOpens(ss: seq<System>, es: seq<Event>, n: nat)
    requires IsRun(ss, es) && n < |es| && !ss[n].b.state.HalfOpen? && ss[n + 1].b.state.HalfOpen?
    ensures ss[n].b.state.Open?
    ensures forall k :: 0 <= k < n && Strikes(ss[k], es[k]) ==> ss[n].now - ss[k].now >= ss[0].cfg.timeout
  {
    RunStep(ss, es, n);
    RunsKeepCounters(ss, es, n);
    forall k | 0 <= k < n && Strikes(ss[k], es[k])
      ensures ss[n].now - ss[k].now >= ss[0].cfg.timeout
    {
      StrikesAreRemembered(ss, es, n, k);
    }
  }

  // ----- Exactly when it changes state, and when it refuses -----

  /** While open, the last failure is the latest trip or failure that counted, and it opened the breaker or
      tripped the open one. */
  lemma {:induction false} LastFailureIs(ss: seq<System>, es: seq<Event>, n: nat) returns (k: nat)
    requires IsRun(ss, es) && n < |ss| && ss[n].b.state.Open?
    ensures k < n && Strikes(ss[k], es[k]) && Stays(ss, k + 1, n, Open) && ss[n].b.lastFailure == ss[k].now
  {
    RunStep(ss, es, n - 1);
    if ss[n - 1].b.state.Open? && !es[n - 1].Trip? {
      k := LastFailureIs(ss, es, n - 1);
    } else {
      k := n - 1;
    }
  }

  /** Since the breaker opened, a trip or a failure that counted is less than the timeout ago. */
  ghost predicate StruckLately(ss: seq<System>, es: seq<Event>, n: nat) {
    exists k :: 0 <= k < n && k < |es| && n < |ss| && Strikes(ss[k], es[k]) && Stays(ss, k + 1, n, Open)
                && ss[n].now - ss[k].now < ss[0].cfg.timeout
  }

  lemma NotDueExactly(ss: seq<System>, es: seq<Event>, n: nat)
    requires IsRun(ss, es) && n < |ss| && ss[n].b.state.Open?
    ensures !Due(ss[n].cfg, ss[n].b, ss[n].now) <==> StruckLately(ss, es, n)
  {
    RunsKeepCounters(ss, es, n);
    var last := LastFailureIs(ss, es, n);
    forall k | 0 <= k < n && Strikes(ss[k], es[k])
      ensures ss[k].now <= ss[n].b.lastFailure
    {
      StrikesAreRemembered(ss, es, n, k);
    }
  }

  /** A call is refused if and only if the breaker is open and was struck lately, or it is half-open and the
      counter has reached its limit. A closed breaker admits every call. */
  lemma RefusesExactly(ss: seq<System>, es: seq<Event>, n: nat, i: nat)
    requires IsRun(ss, es) && n < |es| && es[n] == Allow(i)
    ensures i < |ss[n + 1].callers|
    ensures ss[n + 1].callers[i].Idle?
       <==> || (ss[n].b.state.Open? && StruckLately(ss, es, n))
            || (ss[n].b.state.HalfOpen? && ss[n].b.halfOpen >= ss[0].cfg.maxHalfOpen)
    ensures ss[n + 1].callers[i].Idle? || ss[n + 1].callers[i].Admitted?
  {
    RunStep(ss, es, n);
    RunsKeepCounters(ss, es, n);
    if ss[n].b.state.Open? {
      NotDueExactly(ss, es, n);
    }
  }

  predicate Looks(e: Event) {
    e.Allow? || e.Read?
  }

  /** An open breaker: it becomes half-open if and only if somebody looks and it was not struck lately, closed if
      and only if it is reset, and nothing else makes it leave. */
  lemma LeavesOpenExactly(ss: seq<System>, es: seq<Event>, n: nat)
    requires IsRun(ss, es) && n < |es| && ss[n].b.state.Open?
    ensures ss[n + 1].b.state.HalfOpen? <==> Looks(es[n]) && !StruckLately(ss, es, n)
    ensures ss[n + 1].b.state.Closed? <==> es[n].Reset?
  {
    RunStep(ss, es, n);
    NotDueExactly(ss, es, n);
  }

  /** A half-open one: it opens if and only if it is tripped or a failure is recorded, and closes if and only if
      it is reset or a success is recorded that completes the threshold of this visit. */
  lemma LeavesHalfOpenExactly(ss: seq<System>, es: seq<Event>, n: nat) returns (j: nat)
    requires IsRun(ss, es) && n < |es| && ss[n].b.state.HalfOpen?
    ensures 0 < j <= n && Stays(ss, j, n, HalfOpen) && !ss[j - 1].b.state.HalfOpen?
    ensures ss[n + 1].b.state.Open? <==> es[n].Trip? || (es[n].Record? && es[n].failed)
    ensures ss[n + 1].b.state.Closed? <==> || es[n].Reset?
                                           || (es[n].Record? && !es[n].failed
                                               && Recorded(es[j..n]) + 1 >= ss[0].cfg.successThreshold)
  {
    RunStep(ss, es, n);
    RunsKeepCounters(ss, es, n);
    j := SuccessStreak(ss, es, n);
  }

  /** A closed one: it opens if and only if it is tripped or a failure is recorded that completes the threshold
      of failures since it closed or since the last success, and it never becomes half-open. */
  lemma LeavesClosedExactly(ss: seq<System>, es: seq<Event>, n: nat) returns (j: nat)
    requires IsRun(ss, es) && n < |es| && ss[n].b.state.Closed?
    ensures j <= n && Stays(ss, j, n, Closed) && OnlyRecords(es[j..n], true)
    ensures j == 0 || !ss[j - 1].b.state.Closed? || (es[j - 1].Record? && !es[j - 1].failed)
    ensures ss[n + 1].b.state.Open? <==> || es[n].Trip?
                                         || (es[n].Record? && es[n].failed
                                             && Recorded(es[j..n]) + 1 >= ss[0].cfg.failureThreshold)
    ensures !ss[n + 1].b.state.HalfOpen?
  {
    RunStep(ss, es, n);
    RunsKeepCounters(ss, es, n);
    j := FailureStreak(ss, es, n);
  }

  // ----- The limit on half-open calls -----

  /** In every run with `n` callers, at most `maxHalfOpen` calls that were tagged half-open run at a time. */
  ghost predicate LimitKept(cfg: Config, n: nat) {
    forall ss: seq<System>, es: seq<Event>, k: nat ::
      IsRun(ss, es) && ss[0].cfg == cfg && |ss[0].callers| == n && k < |ss| ==>
        TaggedCalls(ss[k]) <= cfg.maxHalfOpen
  }

  lemma {:induction false} CallersStay(ss: seq<System>, es: seq<Event>, n: nat)
    requires IsRun(ss, es) && n < |ss|
    ensures |ss[n].callers| == |ss[0].callers|
  {
    if n > 0 {
      CallersStay(ss, es, n - 1);
      RunStep(ss, es, n - 1);
    }
  }

  lemma Extend(ss: seq<System>, es: seq<Event>, e: Event) returns (ss': seq<System>, es': seq<Event>)
    requires IsRun(ss, es) && Enabled(ss[|es|], e)
    ensures IsRun(ss', es') && |es'| == |es| + 1 && ss'[0] == ss[0] && ss'[|es'|] == Apply(ss[|es|], e)
  {
    ss', es' := ss + [Apply(ss[|es|], e)], es + [e];
  }

  ghost predicate FirstAre(callers: seq<Phase>, k: nat, p: Phase, rest: Phase) {
    k <= |callers| && forall i :: 0 <= i < |callers| ==> callers[i] == if i < k then p else rest
  }

  /** Admission and tagging are separate critical sections: any number of callers can be admitted before
      the first one is tagged. */
  lemma {:induction false} AdmitAll(start: System, k: nat) returns (ss: seq<System>, es: seq<Event>)
    requires Initial(start) && k <= |start.callers|
    ensures IsRun(ss, es) && ss[0] == start
    ensures var s := ss[|es|];
            && s.cfg == start.cfg && FirstAre(s.callers, k, Admitted, Idle) && |s.callers| == |start.callers|
            && s.b.halfOpen == 0 && (if k == 0 then Due(s.cfg, s.b, s.now) else s.b.state.HalfOpen?)
    decreases k
  {
    if k == 0 {
      ss, es := [start], [];
      ss, es := Extend(ss, es, Trip);
      ss, es := Extend(ss, es, Tick(start.cfg.timeout));
    } else {
      ss, es := AdmitAll(start, k - 1);
      ss, es := Extend(ss, es, Allow(k - 1));
    }
  }

  lemma {:induction false} TagAll(start: System, k: nat) returns (ss: seq<System>, es: seq<Event>)
    requires Initial(start) && 0 < |start.callers| && k <= |start.callers|
    ensures IsRun(ss, es) && ss[0] == start
    ensures var s := ss[|es|];
            && FirstAre(s.callers, k, Running(true), Admitted) && |s.callers| == |start.callers|
            && s.b.state.HalfOpen?
    decreases k
  {
    if k == 0 {
      ss, es := AdmitAll(start, |start.callers|);
    } else {
      ss, es := TagAll(start, k - 1);
      ss, es := Extend(ss, es, Tag(k - 1));
    }
  }

  /** The promised limit holds for `n` concurrent callers if and only if there are no more callers than the
      limit allows: the breaker itself does not enforce it. */
  lemma LimitKeptExactly(cfg: Config, n: nat)
    requires cfg.Valid()
    ensures LimitKept(cfg, n) <==> n <= cfg.maxHalfOpen
  {
    if n <= cfg.maxHalfOpen {
      forall ss: seq<System>, es: seq<Event>, k: nat
        | IsRun(ss, es) && ss[0].cfg == cfg && |ss[0].callers| == n && k < |ss|
        ensures TaggedCalls(ss[k]) <= cfg.maxHalfOpen
      {
        CallersStay(ss, es, k);
        SumBound(ss[k].callers, IsTagged, 1);
      }
    } else {
      var start := System(cfg, 0, Breaker(Closed, 0, 0, 0, 0), seq(n, _ => Idle));
      var ss, es := TagAll(start, n);
      SumOfOnes(ss[|es|].callers, IsTagged);
      assert TaggedCalls(ss[|es|]) == n;
    }
  }
}
