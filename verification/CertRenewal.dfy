/** The renewal protocol of `GetCertificate`: any number of concurrent calls, one mutex, one
    condition variable and one flag. Every statement that touches shared state is a step of
    its own, so the calls interleave as freely as goroutines do. */
module CertRenewal {
  import opened Wrappers
  import opened Sums

  /** A certificate is due for renewal 30 days before it expires (times in nanoseconds). */
  const RENEWAL_BUFFER := 30 * 24 * 3_600_000_000_000

  datatype Cert = Cert(serial: nat, expiry: int)

  datatype Outcome = Got(cert: Cert) | Failed

  /** Where a call stands. The phases of the second group hold `renewMu`. */
  datatype Phase =
    | Start | AtLock | Parked | Woken | Checking | Obtaining | Exiting(outcome: Outcome) | Returned(outcome: Outcome)
    | Testing | Rechecking | Leaving(cert: Cert) | Claiming | Claimed
    | Clearing(outcome: Outcome) | Signalling(outcome: Outcome) | Unlocking(outcome: Outcome)

  predicate Locks(p: Phase) {
    p.Testing? || p.Rechecking? || p.Leaving? || p.Claiming? || p.Claimed?
    || p.Clearing? || p.Signalling? || p.Unlocking?
  }

  /** From setting the flag to clearing it. */
  predicate Renews(p: Phase) {
    p.Claimed? || p.Checking? || p.Obtaining? || p.Exiting? || p.Clearing?
  }

  /** `issued` records every certificate that was ever the current one. */
  datatype Manager = Manager(
    now: int, cert: Option<Cert>, issued: set<Cert>, renewing: bool, mutex: Option<nat>, calls: seq<Phase>)

  predicate Fresh(m: Manager) {
    m.cert.Some? && m.now + RENEWAL_BUFFER < m.cert.value.expiry
  }

  datatype Step =
    | Tick(d: nat)                       // time passes
    | Advance(g: nat)                    // a call executes its next statement
    | StoreCert(g: nat, cert: Cert)      // the obtaining call publishes a certificate
    | Cancel(g: nat)                     // the context of the connection is already cancelled
    | Finish(g: nat, outcome: Outcome)   // obtaining returns, fails or panics

  predicate Enabled(m: Manager, s: Step) {
    match s
    case Tick(_) => true
    case StoreCert(g, _) => g < |m.calls| && m.calls[g].Obtaining?
    case Cancel(g) => g < |m.calls| && m.calls[g].Checking?
    case Finish(g, outcome) => g < |m.calls| && m.calls[g].Obtaining? && (outcome.Got? ==> m.cert == Some(outcome.cert))
    case Advance(g) =>
      g < |m.calls| &&
      match m.calls[g]
      case AtLock => m.mutex.None?
      case Woken => m.mutex.None?
      case Exiting(_) => m.mutex.None?
      case Parked => false
      case Obtaining => false
      case Returned(_) => false
      case _ => true
  }

  /** `Broadcast`: every parked call may go on. */
  function Wake(p: Phase): Phase {
    if p.Parked? then Woken else p
  }

  function WakeAll(calls: seq<Phase>): (r: seq<Phase>)
    ensures |r| == |calls| && forall i :: 0 <= i < |calls| ==> r[i] == Wake(calls[i])
  {
    seq(|calls|, i requires 0 <= i < |calls| => Wake(calls[i]))
  }

  function Go(m: Manager, g: nat, p: Phase): Manager
    requires g < |m.calls|
  {
    m.(calls := m.calls[g := p])
  }

  function Apply(m: Manager, s: Step): Manager
    requires Enabled(m, s)
  {
    match s
    case Tick(d) => m.(now := m.now + d)
    case StoreCert(g, cert) => m.(cert := Some(cert), issued := m.issued + {cert})
    case Cancel(g) => Go(m, g, Exiting(Failed))
    case Finish(g, outcome) => Go(m, g, Exiting(outcome))
    case Advance(g) =>
      match m.calls[g]
      case Start => Go(m, g, if Fresh(m) then Returned(Got(m.cert.value)) else AtLock)
      case AtLock => Go(m, g, Testing).(mutex := Some(g))
      case Woken => Go(m, g, Testing).(mutex := Some(g))
      case Testing => if m.renewing then Go(m, g, Parked).(mutex := None) else Go(m, g, Rechecking)
      case Rechecking => Go(m, g, if Fresh(m) then Leaving(m.cert.value) else Claiming)
      case Leaving(cert) => Go(m, g, Returned(Got(cert))).(mutex := None)
      case Claiming => Go(m, g, Claimed).(renewing := true)
      case Claimed => Go(m, g, Checking).(mutex := None)
      case Checking => Go(m, g, Obtaining)
      case Exiting(outcome) => Go(m, g, Clearing(outcome)).(mutex := Some(g))
      case Clearing(outcome) => Go(m, g, Signalling(outcome)).(renewing := false)
      case Signalling(outcome) => m.(calls := WakeAll(m.calls[g := Unlocking(outcome)]))
      case Unlocking(outcome) => Go(m, g, Returned(outcome)).(mutex := None)
  }

  ghost predicate Initial(m: Manager) {
    && !m.renewing && m.mutex.None? && (m.cert.Some? ==> m.cert.value in m.issued)
    && forall i :: 0 <= i < |m.calls| ==> m.calls[i] == Start
  }

  ghost predicate IsRun(ms: seq<Manager>, steps: seq<Step>) {
    && |ms| == |steps| + 1 && Initial(ms[0])
    && forall i :: 0 <= i < |steps| ==> Enabled(ms[i], steps[i]) && ms[i + 1] == Apply(ms[i], steps[i])
  }

  // ----- Safety -----

  /** The mutex belongs to the one call that is in a locking phase. */
  ghost predicate MutexRight(m: Manager) {
    forall i :: 0 <= i < |m.calls| ==> (Locks(m.calls[i]) <==> m.mutex == Some(i))
  }

  /** The flag is set exactly while one call renews, and never are there two. */
  ghost predicate FlagRight(m: Manager) {
    && (m.renewing <==> exists i :: 0 <= i < |m.calls| && Renews(m.calls[i]))
    && forall i, j :: 0 <= i < |m.calls| && 0 <= j < |m.calls| && Renews(m.calls[i]) && Renews(m.calls[j]) ==> i == j
  }

  /** Between finding the flag clear and setting it, the flag stays clear. */
  ghost predicate DecidersSeeClear(m: Manager) {
    forall i :: 0 <= i < |m.calls| && (m.calls[i].Rechecking? || m.calls[i].Claiming? || m.calls[i].Signalling?)
                ==> !m.renewing
  }

  /** A parked call is owed a wake-up: by the renewing call, or by one about to broadcast. */
  ghost predicate NoLostWakeup(m: Manager) {
    forall i :: 0 <= i < |m.calls| && m.calls[i].Parked? ==>
      m.renewing || exists j :: 0 <= j < |m.calls| && m.calls[j].Signalling?
  }

  function CertOf(p: Phase): Option<Cert> {
    match p
    case Leaving(c) => Some(c)
    case Exiting(Got(c)) => Some(c)
    case Clearing(Got(c)) => Some(c)
    case Signalling(Got(c)) => Some(c)
    case Unlocking(Got(c)) => Some(c)
    case Returned(Got(c)) => Some(c)
    case _ => None
  }

  /** Whatever a call is about to hand out was once the current certificate. */
  ghost predicate OnlyIssued(m: Manager) {
    && (m.cert.Some? ==> m.cert.value in m.issued)
    && forall i :: 0 <= i < |m.calls| && CertOf(m.calls[i]).Some? ==> CertOf(m.calls[i]).value in m.issued
  }

  ghost predicate Inv(m: Manager) {
    (m.mutex.Some? ==> m.mutex.value < |m.calls|) &&
    MutexRight(m) && FlagRight(m) && DecidersSeeClear(m) && NoLostWakeup(m) && OnlyIssued(m)
  }

  lemma InitialIsSafe(m: Manager)
    requires Initial(m)
    ensures Inv(m)
  {
  }

  lemma MutexStep(m: Manager, s: Step)
    requires Inv(m) && Enabled(m, s)
    ensures MutexRight(Apply(m, s))
    ensures Apply(m, s).mutex.Some? ==> Apply(m, s).mutex.value < |Apply(m, s).calls|
  {
    hide FlagRight, DecidersSeeClear, NoLostWakeup, OnlyIssued;
  }

  lemma DeciderStep(m: Manager, s: Step)
    requires Inv(m) && Enabled(m, s)
    ensures DecidersSeeClear(Apply(m, s))
  {
    hide NoLostWakeup, OnlyIssued;
  }

  lemma IssuedStep(m: Manager, s: Step)
    requires Inv(m) && Enabled(m, s)
    ensures OnlyIssued(Apply(m, s))
  {
    hide MutexRight, FlagRight, DecidersSeeClear, NoLostWakeup;
    var n := Apply(m, s);
    forall i | 0 <= i < |n.calls| && CertOf(n.calls[i]).Some?
      ensures CertOf(n.calls[i]).value in n.issued
    {
      IssuedTo(m, s, i);
    }
  }

  lemma IssuedTo(m: Manager, s: Step, i: nat)
    requires OnlyIssued(m) && Enabled(m, s) && i < |m.calls|
    ensures CertOf(Apply(m, s).calls[i]).Some? ==> CertOf(Apply(m, s).calls[i]).value in Apply(m, s).issued
  {
    if !Working(s) || i != s.g {
      assert CertOf(Apply(m, s).calls[i]) == CertOf(m.calls[i]);
    }
  }

  /** One statement sets the flag and one clears it. */
  lemma RenewsStep(m: Manager, s: Step, i: nat)
    requires Enabled(m, s) && i < |m.calls|
    ensures var sets := s == Advance(i) && m.calls[i].Claiming?;
            var clears := s == Advance(i) && m.calls[i].Clearing?;
            && (sets ==> Apply(m, s).renewing)
            && (clears ==> !Apply(m, s).renewing)
            && (Renews(Apply(m, s).calls[i]) <==> !clears && (sets || Renews(m.calls[i])))
  {
  }

  lemma FlagChange(m: Manager, s: Step)
    requires Enabled(m, s)
    ensures |Apply(m, s).calls| == |m.calls|
    ensures Apply(m, s).renewing != m.renewing ==>
              s.Advance? && (m.calls[s.g].Claiming? || m.calls[s.g].Clearing?)
  {
  }

  lemma FlagStep(m: Manager, s: Step)
    requires Inv(m) && Enabled(m, s)
    ensures FlagRight(Apply(m, s))
  {
    hide NoLostWakeup, OnlyIssued, Apply;
    var n := Apply(m, s);
    FlagChange(m, s);
    forall i: nat | i < |m.calls|
      ensures Renews(n.calls[i]) <==>
                !(s == Advance(i) && m.calls[i].Clearing?)
                && ((s == Advance(i) && m.calls[i].Claiming?) || Renews(m.calls[i]))
    {
      RenewsStep(m, s, i);
    }
    if s.Advance? && (m.calls[s.g].Claiming? || m.calls[s.g].Clearing?) {
      RenewsStep(m, s, s.g);
    } else if m.renewing {
      var i :| 0 <= i < |m.calls| && Renews(m.calls[i]);
      assert Renews(n.calls[i]);
    }
  }

  lemma WakeupStep(m: Manager, s: Step)
    requires Inv(m) && Enabled(m, s)
    ensures NoLostWakeup(Apply(m, s))
  {
    var n := Apply(m, s);
    forall i | 0 <= i < |n.calls| && n.calls[i].Parked?
      ensures n.renewing || exists j :: 0 <= j < |n.calls| && n.calls[j].Signalling?
    {
      if s.Advance? && m.calls[s.g].Clearing? {
        assert n.calls[s.g].Signalling?;
      } else if m.calls[i].Parked? && !m.renewing {
        var j :| 0 <= j < |m.calls| && m.calls[j].Signalling?;
        assert n.calls[j].Signalling?;
      }
    }
  }

  /** In every interleaving: at most one call obtains a certificate, the flag is set exactly while one
      renews, and no parked call is left without a wake-up. */
  lemma {:induction false} RunsAreSafe(ms: seq<Manager>, steps: seq<Step>, n: nat)
    requires IsRun(ms, steps) && n < |ms|
    ensures Inv(ms[n])
  {
    if n == 0 {
      InitialIsSafe(ms[0]);
    } else {
      RunsAreSafe(ms, steps, n - 1);
      assert Enabled(ms[n - 1], steps[n - 1]) && ms[n - 1 + 1] == Apply(ms[n - 1], steps[n - 1]);
      MutexStep(ms[n - 1], steps[n - 1]);
      DeciderStep(ms[n - 1], steps[n - 1]);
      IssuedStep(ms[n - 1], steps[n - 1]);
      FlagStep(ms[n - 1], steps[n - 1]);
      WakeupStep(ms[n - 1], steps[n - 1]);
    }
  }

  lemma AtMostOneObtains(ms: seq<Manager>, steps: seq<Step>, n: nat, g: nat, h: nat)
    requires IsRun(ms, steps) && n < |ms| && g < |ms[n].calls| && h < |ms[n].calls|
    requires ms[n].calls[g].Obtaining? && ms[n].calls[h].Obtaining?
    ensures g == h && ms[n].renewing
  {
    RunsAreSafe(ms, steps, n);
    assert Renews(ms[n].calls[g]) && Renews(ms[n].calls[h]);
  }

  // ----- Waiting calls share the result -----

  /** A call that has not decided to renew. */
  predicate Undecided(p: Phase) {
    p.Start? || p.AtLock? || p.Testing? || p.Parked? || p.Woken? || p.Rechecking?
  }

  /** A call that hands out this certificate without having renewed. */
  predicate Shares(p: Phase, c: Cert) {
    p == Leaving(c) || p == Returned(Got(c))
  }

  lemma SharingStep(m: Manager, s: Step, g: nat)
    requires Enabled(m, s) && g < |m.calls| && Fresh(m)
    ensures Undecided(m.calls[g]) ==> Undecided(Apply(m, s).calls[g]) || Shares(Apply(m, s).calls[g], m.cert.value)
    ensures forall c :: Shares(m.calls[g], c) ==> Shares(Apply(m, s).calls[g], c)
  {
  }

  /** While the certificate stays fresh, a call that has not yet decided does not renew: it is still waiting,
      or hands out a certificate that was current, and fresh, in the meantime. */
  lemma {:induction false} WaitersShare(ms: seq<Manager>, steps: seq<Step>, a: nat, b: nat, g: nat)
    requires IsRun(ms, steps) && a <= b < |ms| && g < |ms[a].calls| && Undecided(ms[a].calls[g])
    requires forall k :: a <= k <= b ==> Fresh(ms[k])
    ensures g < |ms[b].calls|
    ensures Undecided(ms[b].calls[g])
            || exists k :: a <= k < b && ms[k].cert.Some? && Shares(ms[b].calls[g], ms[k].cert.value)
    decreases b
  {
    if a < b {
      WaitersShare(ms, steps, a, b - 1, g);
      assert Enabled(ms[b - 1], steps[b - 1]) && ms[b - 1 + 1] == Apply(ms[b - 1], steps[b - 1]);
      FlagChange(ms[b - 1], steps[b - 1]);
      SharingStep(ms[b - 1], steps[b - 1], g);
      if !Undecided(ms[b - 1].calls[g]) {
        var k :| a <= k < b - 1 && ms[k].cert.Some? && Shares(ms[b - 1].calls[g], ms[k].cert.value);
        assert Shares(ms[b].calls[g], ms[k].cert.value);
      } else if !Undecided(ms[b].calls[g]) {
        assert Shares(ms[b].calls[g], ms[b - 1].cert.value);
      }
    }
  }

  // ----- Who obtains -----

  /** How often the call entered `doObtainCertificate` within the first `n` steps. */
  function Obtainings(ms: seq<Manager>, steps: seq<Step>, n: nat, g: nat): nat
    requires n <= |steps| <= |ms|
  {
    if n == 0 then 0
    else Obtainings(ms, steps, n - 1, g) + (if Enters(ms[n - 1], steps[n - 1], g) then 1 else 0)
  }

  predicate Enters(m: Manager, s: Step, g: nat) {
    g < |m.calls| && s == Advance(g) && m.calls[g].Checking?
  }

  /** How often the call gave up because its context was cancelled. */
  function Cancellations(steps: seq<Step>, n: nat, g: nat): nat
    requires n <= |steps|
  {
    if n == 0 then 0 else Cancellations(steps, n - 1, g) + (if steps[n - 1] == Cancel(g) then 1 else 0)
  }

  /** The call has decided to renew, but does not obtain yet. */
  predicate Decided(p: Phase) {
    p.Claiming? || p.Claimed? || p.Checking?
  }

  function OutcomeOf(p: Phase): Option<Outcome> {
    match p
    case Exiting(o) => Some(o)
    case Clearing(o) => Some(o)
    case Signalling(o) => Some(o)
    case Unlocking(o) => Some(o)
    case Returned(o) => Some(o)
    case _ => None
  }

  /** The call executes its second test of the certificate. */
  predicate Rechecks(m: Manager, s: Step, g: nat) {
    g < |m.calls| && s == Advance(g) && m.calls[g].Rechecking?
  }

  /** What becomes of a call after its second test: it shares the certificate it found, or it obtains once,
      unless its context is cancelled before, which is an error. */
  ghost predicate After(p: Phase, wasFresh: bool, cert: Option<Cert>, obtainings: nat, cancellations: nat) {
    if wasFresh then cert.Some? && Shares(p, cert.value) && obtainings == 0 && cancellations == 0
    else
      && !Undecided(p) && !p.Leaving? && obtainings + cancellations == (if Decided(p) then 0 else 1)
      && (cancellations == 1 ==> OutcomeOf(p) == Some(Failed))
  }

  lemma AfterStep(m: Manager, s: Step, g: nat, wasFresh: bool, cert: Option<Cert>, obtainings: nat, cancellations: nat)
    requires Enabled(m, s) && g < |m.calls| && After(m.calls[g], wasFresh, cert, obtainings, cancellations)
    ensures After(Apply(m, s).calls[g], wasFresh, cert, obtainings + (if Enters(m, s, g) then 1 else 0),
                  cancellations + if s == Cancel(g) then 1 else 0)
  {
    if !Working(s) || s.g != g {
      assert Apply(m, s).calls[g] == Wake(m.calls[g]) || Apply(m, s).calls[g] == m.calls[g];
    }
  }

  lemma {:induction false} CallsStay(ms: seq<Manager>, steps: seq<Step>, n: nat)
    requires IsRun(ms, steps) && n < |ms|
    ensures |ms[n].calls| == |ms[0].calls|
  {
    if n > 0 {
      CallsStay(ms, steps, n - 1);
      assert Enabled(ms[n - 1], steps[n - 1]) && ms[n - 1 + 1] == Apply(ms[n - 1], steps[n - 1]);
      FlagChange(ms[n - 1], steps[n - 1]);
    }
  }

  /** Until its second test a call does not obtain, and it may have returned on the first. */
  lemma {:induction false} BeforeRecheck(ms: seq<Manager>, steps: seq<Step>, n: nat, g: nat)
    requires IsRun(ms, steps) && n < |ms| && g < |ms[0].calls|
    requires forall i :: 0 <= i < n ==> !Rechecks(ms[i], steps[i], g)
    ensures Obtainings(ms, steps, n, g) == 0 && Cancellations(steps, n, g) == 0 && g < |ms[n].calls|
    ensures Undecided(ms[n].calls[g]) || (ms[n].calls[g].Returned? && ms[n].calls[g].outcome.Got?)
  {
    CallsStay(ms, steps, n);
    if n > 0 {
      BeforeRecheck(ms, steps, n - 1, g);
      assert Enabled(ms[n - 1], steps[n - 1]) && ms[n - 1 + 1] == Apply(ms[n - 1], steps[n - 1]);
      assert !Rechecks(ms[n - 1], steps[n - 1], g);
    }
  }

  /** A call that makes its second test, woken or not, hands out the certificate it finds if that is fresh, and
      never obtains. Otherwise it obtains exactly once, unless its context is cancelled: so after a renewal
      that failed, a call that waited for it renews, unless another one has done so before its test. */
  lemma {:induction false} ObtainsExactly(ms: seq<Manager>, steps: seq<Step>, r: nat, n: nat, g: nat)
    requires IsRun(ms, steps) && r < n < |ms| && Rechecks(ms[r], steps[r], g)
    ensures g < |ms[n].calls|
    ensures After(ms[n].calls[g], Fresh(ms[r]), ms[r].cert, Obtainings(ms, steps, n, g), Cancellations(steps, n, g))
    ensures forall i :: 0 <= i < n && i != r ==> !Rechecks(ms[i], steps[i], g)
    decreases n
  {
    assert Enabled(ms[n - 1], steps[n - 1]) && ms[n - 1 + 1] == Apply(ms[n - 1], steps[n - 1]);
    CallsStay(ms, steps, r);
    CallsStay(ms, steps, n);
    CallsStay(ms, steps, n - 1);
    if r == n - 1 {
      RechecksOnce(ms, steps, r, g);
      BeforeRecheck(ms, steps, r, g);
    } else {
      ObtainsExactly(ms, steps, r, n - 1, g);
      AfterStep(ms[n - 1], steps[n - 1], g, Fresh(ms[r]), ms[r].cert,
                Obtainings(ms, steps, n - 1, g), Cancellations(steps, n - 1, g));
    }
  }

  /** A call that stands at its second test has not made it before. */
  lemma {:induction false} RechecksOnce(ms: seq<Manager>, steps: seq<Step>, n: nat, g: nat)
    requires IsRun(ms, steps) && n < |ms| && g < |ms[0].calls|
    ensures g < |ms[n].calls| && Undecided(ms[n].calls[g]) ==> forall i :: 0 <= i < n ==> !Rechecks(ms[i], steps[i], g)
  {
    hide Apply, Enabled, Rechecks, Undecided;
    CallsStay(ms, steps, n);
    if n > 0 {
      CallsStay(ms, steps, n - 1);
      RechecksOnce(ms, steps, n - 1, g);
      assert Enabled(ms[n - 1], steps[n - 1]) && ms[n - 1 + 1] == Apply(ms[n - 1], steps[n - 1]);
      if Undecided(ms[n].calls[g]) {
        UndecidedBefore(ms[n - 1], steps[n - 1], g);
      }
    }
  }

  lemma UndecidedBefore(m: Manager, s: Step, g: nat)
    requires Enabled(m, s) && g < |m.calls| && g < |Apply(m, s).calls| && Undecided(Apply(m, s).calls[g])
    ensures Undecided(m.calls[g]) && !Rechecks(m, s, g)
  {
    if !Working(s) || s.g != g {
      assert Apply(m, s).calls[g] == Wake(m.calls[g]) || Apply(m, s).calls[g] == m.calls[g];
    }
  }

  /** No call obtains twice. */
  lemma ObtainsAtMostOnce(ms: seq<Manager>, steps: seq<Step>, n: nat, g: nat)
    requires IsRun(ms, steps) && n < |ms| && g < |ms[0].calls|
    ensures Obtainings(ms, steps, n, g) <= 1
  {
    if r: nat :| r < n && Rechecks(ms[r], steps[r], g) {
      ObtainsExactly(ms, steps, r, n, g);
    } else {
      BeforeRecheck(ms, steps, n, g);
    }
  }

  /** A call parked while another one obtains receives the result of that renewal, without obtaining itself, if
      and only if the renewal got a certificate that is current and fresh when the parked call rechecks. */
  lemma WaiterGetsResultExactly(ms: seq<Manager>, steps: seq<Step>, f: nat, r: nat, n: nat, h: nat, g: nat)
    requires IsRun(ms, steps) && f < r < n < |ms| && steps[f].Finish? && steps[f].g == h
    requires g < |ms[f].calls| && ms[f].calls[g].Parked? && Rechecks(ms[r], steps[r], g)
    requires g < |ms[n].calls| && ms[n].calls[g].Returned?
    ensures var outcome := steps[f].outcome;
            outcome.Got? && ms[n].calls[g] == Returned(outcome) && Obtainings(ms, steps, n, g) == 0
            <==> outcome.Got? && ms[r].cert == Some(outcome.cert)
                 && ms[r].now + 2_592_000_000_000_000 < outcome.cert.expiry
  {
    ObtainsExactly(ms, steps, r, n, g);
  }

  // ----- What the tests of the certificate mean -----

  /** The certificate is the current one, and has more than 30 days left. */
  predicate CurrentFor30Days(m: Manager, c: Cert) {
    m.cert == Some(c) && m.now + 2_592_000_000_000_000 < c.expiry
  }

  /** It was so at some moment before. */
  ghost predicate WasCurrent(ms: seq<Manager>, n: nat, c: Cert) {
    exists k :: 0 <= k < n && k < |ms| && CurrentFor30Days(ms[k], c)
  }

  /** A certificate that a call hands out was current for 30 days, or the call has obtained. */
  ghost predicate WellFounded(ms: seq<Manager>, n: nat, p: Phase, obtainings: nat) {
    && (p.Obtaining? ==> obtainings > 0)
    && (p.Leaving? ==> WasCurrent(ms, n, p.cert))
    && (CertOf(p).Some? && obtainings == 0 ==> WasCurrent(ms, n, CertOf(p).value))
  }

  lemma WellFoundedStep(ms: seq<Manager>, n: nat, s: Step, g: nat, obtainings: nat)
    requires n < |ms| && Enabled(ms[n], s) && g < |ms[n].calls| && WellFounded(ms, n, ms[n].calls[g], obtainings)
    ensures g < |Apply(ms[n], s).calls|
    ensures WellFounded(ms, n + 1, Apply(ms[n], s).calls[g], obtainings + if Enters(ms[n], s, g) then 1 else 0)
  {
    hide WasCurrent;
    var m, v := ms[n], Apply(ms[n], s);
    forall c | WasCurrent(ms, n, c) || CurrentFor30Days(m, c)
      ensures WasCurrent(ms, n + 1, c)
    {
      LaterStill(ms, n, c);
    }
    FlagChange(m, s);
    if Fresh(m) {
      assert CurrentFor30Days(m, m.cert.value);
    }
    if !Working(s) || s.g != g {
      assert v.calls[g] == Wake(m.calls[g]) || v.calls[g] == m.calls[g];
    }
  }

  lemma LaterStill(ms: seq<Manager>, n: nat, c: Cert)
    requires n < |ms| && (WasCurrent(ms, n, c) || CurrentFor30Days(ms[n], c))
    ensures WasCurrent(ms, n + 1, c)
  {
    if CurrentFor30Days(ms[n], c) {
      assert ms[n] == ms[n];
    }
  }

  lemma {:induction false} CallsAreWellFounded(ms: seq<Manager>, steps: seq<Step>, n: nat, g: nat)
    requires IsRun(ms, steps) && n < |ms| && g < |ms[0].calls|
    ensures g < |ms[n].calls| && WellFounded(ms, n, ms[n].calls[g], Obtainings(ms, steps, n, g))
  {
    if n > 0 {
      CallsAreWellFounded(ms, steps, n - 1, g);
      assert Enabled(ms[n - 1], steps[n - 1]) && ms[n - 1 + 1] == Apply(ms[n - 1], steps[n - 1]);
      hide Apply, Enabled, WellFounded;
      WellFoundedStep(ms, n - 1, steps[n - 1], g, Obtainings(ms, steps, n - 1, g));
    }
  }

  /** In every run, a certificate that a call returns without having obtained was current, with more than 30 days
      left, at some moment before. */
  lemma OnlyFreshIsShared(ms: seq<Manager>, steps: seq<Step>, n: nat, g: nat, c: Cert)
    requires IsRun(ms, steps) && n < |ms| && g < |ms[n].calls| && ms[n].calls[g] == Returned(Got(c))
    requires Obtainings(ms, steps, n, g) == 0
    ensures exists k :: 0 <= k < n && ms[k].cert == Some(c) && ms[k].now + 2_592_000_000_000_000 < c.expiry
  {
    CallsStay(ms, steps, n);
    CallsAreWellFounded(ms, steps, n, g);
    var k :| 0 <= k < n && CurrentFor30Days(ms[k], c);
  }

  /** The first test of a call: it returns the current certificate if and only if that has more than 30 days left,
      and goes to the lock otherwise. */
  lemma FirstTestExactly(ms: seq<Manager>, steps: seq<Step>, r: nat, g: nat)
    requires IsRun(ms, steps) && r < |steps| && g < |ms[r].calls| && steps[r] == Advance(g) && ms[r].calls[g].Start?
    ensures g < |ms[r + 1].calls|
    ensures if ms[r].cert.Some? && ms[r].now + 2_592_000_000_000_000 < ms[r].cert.value.expiry
            then ms[r + 1].calls[g] == Returned(Got(ms[r].cert.value)) else ms[r + 1].calls[g] == AtLock
  {
    assert Enabled(ms[r], steps[r]) && ms[r + 1] == Apply(ms[r], steps[r]);
  }

  /** The second test: a call goes on to renew if and only if there is no certificate or it has 30 days left at
      most. */
  lemma RenewsExactly(ms: seq<Manager>, steps: seq<Step>, r: nat, g: nat)
    requires IsRun(ms, steps) && r < |steps| && Rechecks(ms[r], steps[r], g)
    ensures g < |ms[r + 1].calls|
    ensures ms[r + 1].calls[g].Claiming?
       <==> ms[r].cert == None || ms[r].cert.value.expiry <= ms[r].now + 2_592_000_000_000_000
    ensures ms[r + 1].calls[g].Claiming? || (ms[r].cert.Some? && ms[r + 1].calls[g] == Leaving(ms[r].cert.value))
  {
    assert Enabled(ms[r], steps[r]) && ms[r + 1] == Apply(ms[r], steps[r]);
  }

  // ----- A waiting call that gets another result -----

  lemma OneMore(ms: seq<Manager>, steps: seq<Step>, m: Manager, s: Step)
    returns (ms': seq<Manager>, steps': seq<Step>, n: Manager)
    requires IsRun(ms, steps) && ms[|ms| - 1] == m && Enabled(m, s)
    ensures n == Apply(m, s) && IsRun(ms', steps') && ms'[|ms'| - 1] == n && ms <= ms'
  {
    n := Apply(m, s);
    ms', steps' := ms + [n], steps + [s];
  }

  /** A call alone goes from the lock to obtaining. */
  lemma GoesToObtain(ms: seq<Manager>, steps: seq<Step>, m: Manager, g: nat)
    returns (ms': seq<Manager>, steps': seq<Step>, n: Manager)
    requires IsRun(ms, steps) && ms[|ms| - 1] == m && g < |m.calls| && (m.calls[g].AtLock? || m.calls[g].Woken?)
    requires m.mutex.None? && !m.renewing && !Fresh(m)
    ensures IsRun(ms', steps') && ms'[|ms'| - 1] == n && ms <= ms'
    ensures n == m.(renewing := true, calls := m.calls[g := Obtaining])
  {
    hide IsRun;
    ms', steps', n := OneMore(ms, steps, m, Advance(g));
    ms', steps', n := OneMore(ms', steps', n, Advance(g));
    ms', steps', n := OneMore(ms', steps', n, Advance(g));
    ms', steps', n := OneMore(ms', steps', n, Advance(g));
    ms', steps', n := OneMore(ms', steps', n, Advance(g));
    assert n == m.(renewing := true, calls := m.calls[g := Checking]);
    ms', steps', n := OneMore(ms', steps', n, Advance(g));
    assert n.calls == m.calls[g := Obtaining];
  }

  lemma GoesToSignal(ms: seq<Manager>, steps: seq<Step>, m: Manager, g: nat, outcome: Outcome)
    returns (ms': seq<Manager>, steps': seq<Step>, n: Manager)
    requires IsRun(ms, steps) && ms[|ms| - 1] == m && g < |m.calls| && m.calls[g].Obtaining? && m.mutex.None?
    requires outcome.Got? ==> m.cert == Some(outcome.cert)
    ensures IsRun(ms', steps') && ms'[|ms'| - 1] == n && ms <= ms'
    ensures n == m.(renewing := false, mutex := Some(g), calls := m.calls[g := Signalling(outcome)])
  {
    hide IsRun;
    ms', steps', n := OneMore(ms, steps, m, Finish(g, outcome));
    ms', steps', n := OneMore(ms', steps', n, Advance(g));
    ms', steps', n := OneMore(ms', steps', n, Advance(g));
    assert n.calls == m.calls[g := Signalling(outcome)];
  }

  /** It finishes with this outcome and wakes every parked call. */
  lemma GoesToReturn(ms: seq<Manager>, steps: seq<Step>, m: Manager, g: nat, outcome: Outcome)
    returns (ms': seq<Manager>, steps': seq<Step>, n: Manager)
    requires IsRun(ms, steps) && ms[|ms| - 1] == m && g < |m.calls| && m.calls[g].Obtaining? && m.mutex.None?
    requires outcome.Got? ==> m.cert == Some(outcome.cert)
    ensures IsRun(ms', steps') && ms'[|ms'| - 1] == n && ms <= ms'
    ensures n == m.(renewing := false, calls := WakeAll(m.calls)[g := Returned(outcome)])
  {
    hide IsRun;
    ms', steps', n := GoesToSignal(ms, steps, m, g, outcome);
    ms', steps', n := OneMore(ms', steps', n, Advance(g));
    assert n.calls == WakeAll(m.calls)[g := Unlocking(outcome)];
    ms', steps', n := OneMore(ms', steps', n, Advance(g));
    assert n.calls == WakeAll(m.calls)[g := Returned(outcome)];
  }

  /** One call obtains, another is parked. */
  lemma OneParks() returns (ms: seq<Manager>, steps: seq<Step>, m: Manager)
    ensures IsRun(ms, steps) && ms != [] && ms[|ms| - 1] == m
    ensures m == Manager(0, None, {}, true, None, [Obtaining, Parked])
  {
    hide IsRun;
    m := Manager(0, None, {}, false, None, [Start, Start]);
    ms, steps := [m], [];
    NoSteps(m);
    ms, steps, m := OneMore(ms, steps, m, Advance(0));
    assert m.calls == [AtLock, Start];
    ms, steps, m := GoesToObtain(ms, steps, m, 0);
    assert m.calls == [Obtaining, Start];
    ms, steps, m := OneMore(ms, steps, m, Advance(1));
    ms, steps, m := OneMore(ms, steps, m, Advance(1));
    ms, steps, m := OneMore(ms, steps, m, Advance(1));
    assert m.calls == [Obtaining, Parked];
  }

  /** The documentation promises that calls which wait for a renewal receive its result. There is a run in
      which the renewing call fails and the call parked meanwhile returns a certificate of its own. */
  lemma WaiterGetsAnotherResult(cert: Cert) returns (ms: seq<Manager>, steps: seq<Step>, k: nat)
    ensures IsRun(ms, steps) && k < |ms| && |ms[k].calls| == 2 && |ms[|ms| - 1].calls| == 2
    ensures ms[k].calls[0].Obtaining? && ms[k].calls[1].Parked?
    ensures ms[|ms| - 1].calls[0] == Returned(Failed) && ms[|ms| - 1].calls[1] == Returned(Got(cert))
  {
    hide IsRun, Apply;
    var m;
    ms, steps, m := OneParks();
    k := |ms| - 1;
    ms, steps, m := GoesToReturn(ms, steps, m, 0, Failed);
    assert m == Manager(0, None, {}, false, None, [Returned(Failed), Woken]);
    ms, steps, m := GoesToObtain(ms, steps, m, 1);
    assert m.calls == [Returned(Failed), Obtaining];
    ms, steps, m := Stores(ms, steps, m, 1, cert);
    ms, steps, m := GoesToReturn(ms, steps, m, 1, Got(cert));
  }

  lemma Stores(ms: seq<Manager>, steps: seq<Step>, m: Manager, g: nat, cert: Cert)
    returns (ms': seq<Manager>, steps': seq<Step>, n: Manager)
    requires IsRun(ms, steps) && ms[|ms| - 1] == m && g < |m.calls| && m.calls[g].Obtaining?
    ensures IsRun(ms', steps') && ms'[|ms'| - 1] == n && ms <= ms'
    ensures n == m.(cert := Some(cert), issued := m.issued + {cert})
  {
    hide IsRun;
    ms', steps', n := OneMore(ms, steps, m, StoreCert(g, cert));
  }

  lemma NoSteps(m: Manager)
    requires Initial(m)
    ensures IsRun([m], [])
  {
  }

  // ----- Progress -----

  predicate Working(s: Step) {
    s.Advance? || s.Finish? || s.Cancel?
  }

  /** Some call can go on whenever some call has not returned: there is no deadlock. */
  lemma SomeCallCanGoOn(ms: seq<Manager>, steps: seq<Step>, n: nat, g: nat) returns (s: Step)
    requires IsRun(ms, steps) && n < |ms| && g < |ms[n].calls| && !ms[n].calls[g].Returned?
    ensures Working(s) && Enabled(ms[n], s)
  {
    var m := ms[n];
    RunsAreSafe(ms, steps, n);
    if m.mutex.Some? {
      s := Advance(m.mutex.value);
      assert Locks(m.calls[m.mutex.value]);
    } else if m.calls[g].Parked? {
      var i :| 0 <= i < |m.calls| && Renews(m.calls[i]);
      s := if m.calls[i].Obtaining? then Finish(i, Failed) else Advance(i);
    } else {
      s := if m.calls[g].Obtaining? then Finish(g, Failed) else Advance(g);
    }
  }

  /** Statements left before a call returns or parks again. */
  function Weight(p: Phase): nat {
    match p
    case Start => 16
    case AtLock => 15
    case Woken => 15
    case Testing => 14
    case Rechecking => 13
    case Claiming => 12
    case Claimed => 11
    case Checking => 10
    case Obtaining => 9
    case Exiting(_) => 8
    case Clearing(_) => 7
    case Signalling(_) => 6
    case Unlocking(_) => 5
    case Leaving(_) => 5
    case Parked => 1
    case Returned(_) => 0
  }

  /** A call that may still broadcast. */
  function MayBroadcast(p: Phase): nat {
    if p.Unlocking? || p.Leaving? || p.Returned? then 0 else 1
  }

  function Rank(m: Manager): nat {
    Sum(m.calls, MayBroadcast) * (16 * |m.calls| + 1) + Sum(m.calls, Weight)
  }

  lemma {:induction false} WakeKeepsBroadcasters(calls: seq<Phase>)
    ensures Sum(WakeAll(calls), MayBroadcast) == Sum(calls, MayBroadcast)
  {
    if calls != [] {
      assert WakeAll(calls)[1..] == WakeAll(calls[1..]);
      WakeKeepsBroadcasters(calls[1..]);
    }
  }

  lemma BroadcastLowersRank(m: Manager, g: nat)
    requires g < |m.calls| && m.calls[g].Signalling?
    ensures Rank(Apply(m, Advance(g))) < Rank(m)
  {
    hide Sum, WakeAll;
    var n := Apply(m, Advance(g));
    var q := Unlocking(m.calls[g].outcome);
    SumUpdate(m.calls, g, q, MayBroadcast);
    WakeKeepsBroadcasters(m.calls[g := q]);
    SumBound(n.calls, Weight, 16);
    OneRoundLess(Sum(n.calls, MayBroadcast), 16 * |m.calls| + 1);
  }

  /** Apart from a broadcast, a working step moves one call to a lighter phase. */
  lemma OneCallMoves(m: Manager, s: Step)
    requires Enabled(m, s) && Working(s) && !m.calls[s.g].Signalling?
    ensures var p, n := m.calls[s.g], Apply(m, s);
            && |n.calls| == |m.calls| && n.calls == m.calls[s.g := n.calls[s.g]]
            && MayBroadcast(n.calls[s.g]) <= MayBroadcast(p) && Weight(n.calls[s.g]) < Weight(p)
  {
  }

  /** Every working step lowers the rank, a broadcast too, although it gives parked calls new work. */
  lemma WorkLowersRank(m: Manager, s: Step)
    requires Enabled(m, s) && Working(s)
    ensures Rank(Apply(m, s)) < Rank(m)
  {
    if m.calls[s.g].Signalling? {
      BroadcastLowersRank(m, s.g);
    } else {
      OneCallMoves(m, s);
      hide Apply, Weight, MayBroadcast;
      var n := Apply(m, s);
      SumUpdate(m.calls, s.g, n.calls[s.g], MayBroadcast);
      SumUpdate(m.calls, s.g, n.calls[s.g], Weight);
      Monotone(Sum(n.calls, MayBroadcast), Sum(m.calls, MayBroadcast), 16 * |m.calls| + 1);
    }
  }

  lemma OneRoundLess(a: nat, size: nat)
    ensures (a + 1) * size == a * size + size
  {
  }

  lemma Monotone(a: nat, b: nat, size: nat)
    requires a <= b
    ensures a * size <= b * size
  {
  }

  function WorkDone(steps: seq<Step>): nat {
    if steps == [] then 0
    else WorkDone(steps[..|steps| - 1]) + (if Working(steps[|steps| - 1]) then 1 else 0)
  }

  /** Every run of `k` calls takes at most `k * (16 * k + 17)` working steps, counting obtaining as one:
      no call waits or retries for ever, in whatever order they are scheduled. */
  lemma {:induction false} WorkIsBounded(ms: seq<Manager>, steps: seq<Step>)
    requires IsRun(ms, steps)
    ensures WorkDone(steps) + Rank(ms[|steps|]) <= Rank(ms[0])
    ensures WorkDone(steps) <= |ms[0].calls| * (16 * |ms[0].calls| + 1) + 16 * |ms[0].calls|
    decreases |steps|
  {
    hide Apply, Rank, Sum;
    if steps != [] {
      var k := |steps| - 1;
      assert IsRun(ms[..k + 1], steps[..k]);
      WorkIsBounded(ms[..k + 1], steps[..k]);
      assert Enabled(ms[k], steps[k]) && ms[k + 1] == Apply(ms[k], steps[k]);
      if Working(steps[k]) {
        WorkLowersRank(ms[k], steps[k]);
      } else {
        IdleKeepsRank(ms[k], steps[k]);
      }
    }
    RankBound(ms[0]);
  }

  lemma RankBound(m: Manager)
    ensures Rank(m) <= |m.calls| * (16 * |m.calls| + 1) + 16 * |m.calls|
  {
    SumBound(m.calls, Weight, 16);
    SumBound(m.calls, MayBroadcast, 1);
    Monotone(Sum(m.calls, MayBroadcast), |m.calls|, 16 * |m.calls| + 1);
  }

  lemma IdleKeepsRank(m: Manager, s: Step)
    requires Enabled(m, s) && !Working(s)
    ensures Rank(Apply(m, s)) == Rank(m)
  {
  }
}
