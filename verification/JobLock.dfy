/** The distributed job lock and the executions that use it.

    One Redis server holds the lock entries; any number of scheduler instances, told apart by
    their owner ID, run executions of named jobs. Time is the server's clock. */
module JobLock {
  import opened Wrappers
  import opened Sums

  datatype Entry = Entry(owner: string, expires: int)

  type Store = map<string, Entry>

  // ----- The Redis commands -----

  /** An entry is there until its time to live is over. */
  predicate Live(store: Store, key: string, now: int) {
    key in store && now < store[key].expires
  }

  /** `SET key owner NX PX ttl`. */
  function SetNX(store: Store, key: string, owner: string, ttl: int, now: int): Store {
    if Live(store, key, now) then store else store[key := Entry(owner, now + ttl)]
  }

  predicate OwnedBy(store: Store, key: string, owner: string, now: int) {
    Live(store, key, now) && store[key].owner == owner
  }

  /** The release script: delete the entry if it is the owner's. */
  function CompareAndDelete(store: Store, key: string, owner: string, now: int): Store {
    if OwnedBy(store, key, owner, now) then store - {key} else store
  }

  /** The extension script: give the owner's entry a new time to live. */
  function CompareAndExpire(store: Store, key: string, owner: string, ttl: int, now: int): Store {
    if OwnedBy(store, key, owner, now) then store[key := Entry(owner, now + ttl)] else store
  }

  function Get(store: Store, key: string, now: int): Option<string> {
    if Live(store, key, now) then Some(store[key].owner) else None
  }

  const NANOS_PER_MILLI := 1_000_000

  /** `int64(ttl/time.Millisecond)`, back in nanoseconds: truncation toward zero. */
  function WholeMillis(ttl: int): int {
    if ttl >= 0 then ttl / NANOS_PER_MILLI * NANOS_PER_MILLI else -(-ttl / NANOS_PER_MILLI * NANOS_PER_MILLI)
  }

  /** The whole milliseconds of a time to live. */
  lemma WholeMillisMeans(ttl: int)
    ensures WholeMillis(ttl) % 1_000_000 == 0
    ensures ttl >= 0 ==> WholeMillis(ttl) <= ttl < WholeMillis(ttl) + 1_000_000
    ensures ttl <= 0 ==> WholeMillis(ttl) - 1_000_000 < ttl <= WholeMillis(ttl)
  {
  }

  /** What the network does with one command. */
  datatype Link = Up | RequestLost | ReplyLost

  // ----- What the commands mean for a caller -----

  ghost predicate Free(store: Store, key: string, now: int) {
    forall owner :: !OwnedBy(store, key, owner, now)
  }

  /** From `now` on the owner holds the key at exactly the times before `until`. */
  ghost predicate HeldUntil(store: Store, key: string, owner: string, now: int, until: int) {
    forall u :: now <= u ==> (OwnedBy(store, key, owner, u) <==> u < until)
  }

  ghost predicate OnlyKeyChanges(before: Store, after: Store, key: string) {
    forall k :: k != key ==> (k in before <==> k in after) && (k in before ==> before[k] == after[k])
  }

  /** From `now` on the key is held by the same owners at the same times. */
  ghost predicate SameHolders(before: Store, after: Store, key: string, now: int) {
    forall owner, u :: now <= u ==> (OwnedBy(after, key, owner, u) <==> OwnedBy(before, key, owner, u))
  }

  /** A free key becomes the owner's for `ttl`; a key that is held stays with its holder. */
  ghost predicate Locks(before: Store, after: Store, key: string, owner: string, ttl: int, now: int) {
    && OnlyKeyChanges(before, after, key)
    && if Free(before, key, now) then HeldUntil(after, key, owner, now, now + ttl)
       else SameHolders(before, after, key, now)
  }

  /** The owner holds the key at no later time; another holder keeps it. */
  ghost predicate Unlocks(before: Store, after: Store, key: string, owner: string, now: int) {
    && OnlyKeyChanges(before, after, key)
    && HeldUntil(after, key, owner, now, now)
    && (!OwnedBy(before, key, owner, now) ==> SameHolders(before, after, key, now))
  }

  /** A key the owner holds stays the owner's for `ttl`; any other is left alone. */
  ghost predicate Extends(before: Store, after: Store, key: string, owner: string, ttl: int, now: int) {
    && OnlyKeyChanges(before, after, key)
    && if OwnedBy(before, key, owner, now) then HeldUntil(after, key, owner, now, now + ttl)
       else SameHolders(before, after, key, now)
  }

  lemma SetNXLocks(store: Store, key: string, owner: string, ttl: int, now: int)
    ensures Locks(store, SetNX(store, key, owner, ttl, now), key, owner, ttl, now)
    ensures Free(store, key, now) <==> !Live(store, key, now)
  {
    if Live(store, key, now) {
      assert OwnedBy(store, key, store[key].owner, now);
    }
  }

  lemma DeleteUnlocks(store: Store, key: string, owner: string, now: int)
    ensures Unlocks(store, CompareAndDelete(store, key, owner, now), key, owner, now)
  {
  }

  lemma ExpireExtends(store: Store, key: string, owner: string, ttl: int, now: int)
    ensures Extends(store, CompareAndExpire(store, key, owner, ttl, now), key, owner, ttl, now)
  {
  }

  // ----- A lease among other owners -----

  datatype Command =
    | Lock(key: string, owner: string, ttl: int)
    | Unlock(key: string, owner: string)
    | Renew(key: string, owner: string, ttl: int)

  function Execute(store: Store, c: Command, now: int): Store {
    match c
    case Lock(key, owner, ttl) => SetNX(store, key, owner, ttl, now)
    case Unlock(key, owner) => CompareAndDelete(store, key, owner, now)
    case Renew(key, owner, ttl) => CompareAndExpire(store, key, owner, ttl, now)
  }

  /** Commands with the times at which they reach the server. */
  function ExecuteAll(store: Store, cs: seq<(Command, int)>): Store
    decreases |cs|
  {
    if cs == [] then store
    else ExecuteAll(Execute(store, cs[0].0, cs[0].1), cs[1..])
  }

  ghost predicate InTime(cs: seq<(Command, int)>, now: int, end: int) {
    now <= end && forall i :: 0 <= i < |cs| ==> now <= cs[i].1 <= end && forall j :: 0 <= j < i ==> cs[j].1 <= cs[i].1
  }

  lemma OthersKeepLease(store: Store, c: Command, at: int, key: string, owner: string, now: int, until: int)
    requires HeldUntil(store, key, owner, now, until) && now <= at && (c.key != key || c.owner != owner)
    ensures HeldUntil(Execute(store, c, at), key, owner, at, until)
  {
    assert OwnedBy(store, key, owner, at) <==> at < until;
    forall u | at <= u
      ensures OwnedBy(Execute(store, c, at), key, owner, u) <==> u < until
    {
      assert OwnedBy(store, key, owner, u) <==> u < until;
    }
  }

  /** Whatever other owners do, and whatever happens to other keys: a lock that was acquired is held at every
      time before it expires and at none after that. */
  lemma {:induction false} LeaseHoldsExactly(store: Store, cs: seq<(Command, int)>, key: string, owner: string,
                                            now: int, until: int, end: int)
    requires HeldUntil(store, key, owner, now, until) && InTime(cs, now, end)
    requires forall i :: 0 <= i < |cs| ==> cs[i].0.key != key || cs[i].0.owner != owner
    ensures HeldUntil(ExecuteAll(store, cs), key, owner, end, until)
    decreases |cs|
  {
    if cs != [] {
      OthersKeepLease(store, cs[0].0, cs[0].1, key, owner, now, until);
      LeaseHoldsExactly(Execute(store, cs[0].0, cs[0].1), cs[1..], key, owner, cs[0].1, until, end);
    }
  }

  // ----- The locker object -----

  class Redis {
    var entries: Store

    constructor ()
      ensures entries == map[]
    {
      entries := map[];
    }
  }

  class RedisLocker {
    const redis: Redis
    const prefix: string
    const ownerID: string
    var held: set<string>

    /** `random` is the owner ID drawn if none is given. */
    constructor (redis: Redis, prefix: string, ownerID: string, random: string)
      ensures this.redis == redis && held == {}
      ensures this.prefix == if prefix == "" then "lock:" else prefix
      ensures this.ownerID == if ownerID == "" then random else ownerID
    {
      this.redis := redis;
      this.prefix := if prefix == "" then "lock:" else prefix;
      this.ownerID := if ownerID == "" then random else ownerID;
      held := {};
    }

    /** True means that nobody held the lock and that it is now this owner's for `ttl`, false that somebody
        holds it. After an error it may have been taken all the same. */
    method Acquire(key: string, ttl: int, now: int, link: Link) returns (r: Result<bool>)
      modifies redis, this`held
      ensures r.Ok? <==> link.Up?
      ensures r.Ok? ==> (r.value <==> old(Free(redis.entries, prefix + key, now)))
      ensures if link.RequestLost? then redis.entries == old(redis.entries)
              else Locks(old(redis.entries), redis.entries, prefix + key, ownerID, ttl, now)
      ensures held == if r == Ok(true) then old(held) + {key} else old(held)
    {
      SetNXLocks(redis.entries, prefix + key, ownerID, ttl, now);
      var ok := !Live(redis.entries, prefix + key, now);
      if !link.RequestLost? {
        redis.entries := SetNX(redis.entries, prefix + key, ownerID, ttl, now);
      }
      if !link.Up? {
        return Err("failed to acquire lock");
      }
      if ok {
        held := held + {key};
      }
      return Ok(ok);
    }

    /** Once the request has reached the server this owner does not hold the lock any more, and a lock of
        another owner stands as before. */
    method Release(key: string, now: int, link: Link) returns (r: Result<bool>)
      modifies redis, this`held
      ensures r.Ok? <==> link.Up?
      ensures r.Ok? ==> (r.value <==> old(OwnedBy(redis.entries, prefix + key, ownerID, now)))
      ensures if link.RequestLost? then redis.entries == old(redis.entries)
              else Unlocks(old(redis.entries), redis.entries, prefix + key, ownerID, now)
      ensures held == if r.Ok? then old(held) - {key} else old(held)
    {
      DeleteUnlocks(redis.entries, prefix + key, ownerID, now);
      var released := OwnedBy(redis.entries, prefix + key, ownerID, now);
      if !link.RequestLost? {
        redis.entries := CompareAndDelete(redis.entries, prefix + key, ownerID, now);
      }
      if !link.Up? {
        return Err("failed to release lock");
      }
      held := held - {key};
      return Ok(released);
    }

    /** Success means that this owner held the lock and holds it for the whole milliseconds of `ttl`. */
    method Extend(key: string, ttl: int, now: int, link: Link) returns (r: Result<()>)
      modifies redis
      ensures r.Ok? <==> link.Up? && old(OwnedBy(redis.entries, prefix + key, ownerID, now))
      ensures if link.RequestLost? then redis.entries == old(redis.entries)
              else Extends(old(redis.entries), redis.entries, prefix + key, ownerID, WholeMillis(ttl), now)
    {
      ExpireExtends(redis.entries, prefix + key, ownerID, WholeMillis(ttl), now);
      var owned := OwnedBy(redis.entries, prefix + key, ownerID, now);
      if !link.RequestLost? {
        redis.entries := CompareAndExpire(redis.entries, prefix + key, ownerID, WholeMillis(ttl), now);
      }
      if !link.Up? {
        return Err("failed to extend lock");
      }
      return if owned then Ok(()) else Err("lock not held");
    }

    /** True exactly if the answer arrives and this owner holds the lock for some time to come; then nobody
        can take it now. */
    method IsHeld(key: string, now: int, link: Link) returns (b: bool)
      ensures b <==> link.Up?
                     && exists until :: now < until && HeldUntil(redis.entries, prefix + key, ownerID, now, until)
      ensures b ==> forall owner, ttl :: SetNX(redis.entries, prefix + key, owner, ttl, now) == redis.entries
    {
      ghost var full := prefix + key;
      assert forall until :: HeldUntil(redis.entries, full, ownerID, now, until) && now < until
                             ==> OwnedBy(redis.entries, full, ownerID, now);
      var value := Get(redis.entries, prefix + key, now);
      if !link.Up? || value.None? {
        return false;
      }
      if value.value == ownerID {
        assert HeldUntil(redis.entries, prefix + key, ownerID, now, redis.entries[prefix + key].expires);
      }
      return value.value == ownerID;
    }
  }

  // ----- Executions -----

  /** Where an execution stands: before its lock, inside its handler, or past its handler and waiting for the
      answer to its release. Then it returns, and it has ended, or a command it has sent is still under way.
      `lease` is when the lock it acquired expires, `since` when the handler returned. */
  datatype Phase =
    | Starting | Inside(lease: int) | Releasing(lease: int, since: int)
    | LockSent | ReleaseSent(lease: int) | Ended

  datatype Execution = Execution(owner: string, name: string, timeout: int, deadline: int, phase: Phase) {
    predicate Holds() {
      phase.Inside? || phase.Releasing?
    }

    /** `executeJob` has not returned. */
    predicate Runs() {
      phase.Starting? || Holds()
    }

    /** It has taken the lock, and the server has not handled its release. */
    predicate Unsettled() {
      Holds() || phase.ReleaseSent?
    }
  }

  datatype World = World(now: int, store: Store, execs: map<nat, Execution>)

  /** One atomic step of one execution, or the passing of time. A handler that panics still reaches
      the deferred release, so it too takes `Return`. An execution that gives up waiting for an answer returns,
      and its command reaches the server later, or never. */
  datatype Step =
    | Tick(d: nat)
    | Begin(id: nat, owner: string, name: string, timeout: int)
    | TryLock(id: nat, link: Link)
    | Return(id: nat)
    | Release(id: nat, link: Link)
    | GiveUp(id: nat)
    | Arrive(id: nat)

  function LockKey(name: string): string {
    "lock:" + "scheduler:" + name
  }

  predicate Enabled(w: World, s: Step) {
    match s
    case Tick(_) => true
    case Begin(id, _, _, _) => id !in w.execs
    case TryLock(id, _) => id in w.execs && w.execs[id].phase.Starting?
    case Return(id) => id in w.execs && w.execs[id].phase.Inside?
    case Release(id, _) => id in w.execs && w.execs[id].phase.Releasing?
    case GiveUp(id) => id in w.execs && (w.execs[id].phase.Starting? || w.execs[id].phase.Releasing?)
    case Arrive(id) => id in w.execs && (w.execs[id].phase.LockSent? || w.execs[id].phase.ReleaseSent?)
  }

  /** The lock command of an execution reaches the server. */
  function Locked(w: World, e: Execution): Store {
    SetNX(w.store, LockKey(e.name), e.owner, e.timeout, w.now)
  }

  /** Its release reaches the server. */
  function Released(w: World, e: Execution): Store {
    CompareAndDelete(w.store, LockKey(e.name), e.owner, w.now)
  }

  function Apply(w: World, s: Step): World
    requires Enabled(w, s)
  {
    match s
    case Tick(d) => w.(now := w.now + d)
    case Begin(id, owner, name, timeout) =>
      w.(execs := w.execs[id := Execution(owner, name, timeout, w.now + timeout, Starting)])
    case TryLock(id, link) =>
      var e := w.execs[id];
      var phase := if link.Up? && !Live(w.store, LockKey(e.name), w.now)
                   then Inside(w.now + e.timeout) else Ended;
      World(w.now, if link.RequestLost? then w.store else Locked(w, e), w.execs[id := e.(phase := phase)])
    case Return(id) =>
      var e := w.execs[id];
      w.(execs := w.execs[id := e.(phase := Releasing(e.phase.lease, w.now))])
    case Release(id, link) =>
      var e := w.execs[id];
      World(w.now, if link.RequestLost? then w.store else Released(w, e), w.execs[id := e.(phase := Ended)])
    case GiveUp(id) =>
      var e := w.execs[id];
      var phase := if e.phase.Starting? then LockSent else ReleaseSent(e.phase.lease);
      w.(execs := w.execs[id := e.(phase := phase)])
    case Arrive(id) =>
      var e := w.execs[id];
      World(w.now, if e.phase.LockSent? then Locked(w, e) else Released(w, e), w.execs[id := e.(phase := Ended)])
  }

  lemma KeyOfJob(name: string)
    ensures LockKey(name) == "lock:scheduler:" + name
  {
    assert "lock:" + "scheduler:" == "lock:scheduler:";
  }

  /** An execution's lock commands do to the store what the locker's methods do. */
  lemma TryLockAcquires(w: World, id: nat, link: Link)
    requires Enabled(w, TryLock(id, link))
    ensures var e, v := w.execs[id], Apply(w, TryLock(id, link));
            && (v.execs[id].phase.Inside? <==> link.Up? && Free(w.store, "lock:scheduler:" + e.name, w.now))
            && if link.RequestLost? then v.store == w.store
               else Locks(w.store, v.store, "lock:scheduler:" + e.name, e.owner, e.timeout, w.now)
  {
    var e := w.execs[id];
    KeyOfJob(e.name);
    SetNXLocks(w.store, LockKey(e.name), e.owner, e.timeout, w.now);
  }

  lemma ReleaseUnlocks(w: World, id: nat, link: Link)
    requires Enabled(w, Release(id, link))
    ensures var e, v := w.execs[id], Apply(w, Release(id, link));
            if link.RequestLost? then v.store == w.store
            else Unlocks(w.store, v.store, "lock:scheduler:" + e.name, e.owner, w.now)
  {
    var e := w.execs[id];
    KeyOfJob(e.name);
    DeleteUnlocks(w.store, LockKey(e.name), e.owner, w.now);
  }

  ghost predicate IsRun(ws: seq<World>, steps: seq<Step>) {
    && |ws| == |steps| + 1
    && ws[0].execs == map[]
    && forall i :: 0 <= i < |steps| ==> Enabled(ws[i], steps[i]) && ws[i + 1] == Apply(ws[i], steps[i])
  }

  /** In every run an execution keeps its owner, name and timeout, and its deadline is that long after it began. */
  lemma {:induction false} DeadlineMeans(ws: seq<World>, steps: seq<Step>, b: nat, n: nat)
    requires IsRun(ws, steps) && b < n < |ws| && steps[b].Begin?
    ensures var s := steps[b];
            && s.id in ws[n].execs && ws[n].execs[s.id].owner == s.owner && ws[n].execs[s.id].name == s.name
            && ws[n].execs[s.id].timeout == s.timeout && ws[n].execs[s.id].deadline == ws[b].now + s.timeout
  {
    assert Enabled(ws[n - 1], steps[n - 1]) && ws[n - 1 + 1] == Apply(ws[n - 1], steps[n - 1]);
    if b < n - 1 {
      DeadlineMeans(ws, steps, b, n - 1);
    }
  }

  // ----- What is to be shown -----

  /** Two different executions of one job hold its lock or are inside its handler. */
  predicate Together(w: World, i: nat, j: nat) {
    i in w.execs && j in w.execs && i != j && w.execs[i].name == w.execs[j].name
    && w.execs[i].Holds() && w.execs[j].Holds()
  }

  ghost predicate Exclusive(w: World) {
    forall i, j :: !Together(w, i, j)
  }

  /** Every handler ends, and its release has reached the server, before the deadline of their context. */
  ghost predicate Timely(w: World) {
    forall i :: i in w.execs && w.execs[i].Unsettled() ==> w.now < w.execs[i].deadline
  }

  /** No instance runs one job twice at a time. */
  ghost predicate OneAtATime(w: World) {
    forall i, j :: (&& i in w.execs && j in w.execs && i != j && w.execs[i].Runs() && w.execs[j].Runs()
                    && w.execs[i].name == w.execs[j].name) ==> w.execs[i].owner != w.execs[j].owner
  }

  /** A release takes effect at the server. */
  predicate Unlocking(w: World, s: Step)
    requires Enabled(w, s)
  {
    (s.Release? && !s.link.RequestLost?) || (s.Arrive? && w.execs[s.id].phase.ReleaseSent?)
  }

  /** If it does, then before the deadline of its execution. */
  predicate Prompt(w: World, s: Step)
    requires Enabled(w, s)
  {
    Unlocking(w, s) ==> w.now < w.execs[s.id].deadline
  }

  /** If it does, then before its execution has returned. */
  predicate Settled(w: World, s: Step)
    requires Enabled(w, s)
  {
    Unlocking(w, s) ==> w.execs[s.id].Runs()
  }

  /** The lease of a lock never ends before the deadline of the execution that took it. */
  ghost predicate LeasesCoverDeadlines(w: World) {
    forall i :: i in w.execs ==>
      && w.execs[i].deadline <= w.now + w.execs[i].timeout
      && (w.execs[i].Unsettled() ==> w.execs[i].deadline <= w.execs[i].phase.lease)
  }

  /** The lock that the execution took has not expired. */
  predicate InLease(w: World, i: nat) {
    i in w.execs && w.execs[i].Unsettled() && w.now < w.execs[i].phase.lease
  }

  predicate OwnEntry(w: World, i: nat)
    requires InLease(w, i)
  {
    && LockKey(w.execs[i].name) in w.store
    && w.store[LockKey(w.execs[i].name)] == Entry(w.execs[i].owner, w.execs[i].phase.lease)
  }

  /** An execution within its lease finds its own entry in the store. */
  ghost predicate EntriesStand(w: World) {
    forall i :: InLease(w, i) ==> OwnEntry(w, i)
  }

  lemma KeysDiffer(a: string, b: string)
    requires LockKey(a) == LockKey(b)
    ensures a == b
  {
    var n := |"lock:" + "scheduler:"|;
    assert LockKey(a)[n..] == a && LockKey(b)[n..] == b;
  }

  lemma LeaseStep(w: World, s: Step)
    requires Enabled(w, s) && LeasesCoverDeadlines(w)
    ensures LeasesCoverDeadlines(Apply(w, s))
  {
  }

  // ----- Exclusion when every release is prompt -----

  /** Of the executions of one job at most one is within its lease. */
  ghost predicate LeasesAreExclusive(w: World) {
    forall i, j :: InLease(w, i) && InLease(w, j) && w.execs[i].name == w.execs[j].name ==> i == j
  }

  /** A step of another execution leaves an entry alone, unless it releases an execution of the same job. */
  lemma EntryStays(w: World, s: Step, i: nat)
    requires Enabled(w, s) && InLease(w, i) && OwnEntry(w, i) && InLease(Apply(w, s), i)
    requires Unlocking(w, s) ==> w.execs[s.id].name != w.execs[i].name || w.execs[s.id].owner != w.execs[i].owner
    ensures OwnEntry(Apply(w, s), i)
  {
    if (s.TryLock? || s.Release? || s.Arrive?) && LockKey(w.execs[i].name) == LockKey(w.execs[s.id].name) {
      KeysDiffer(w.execs[i].name, w.execs[s.id].name);
    }
  }

  /** A lease begins when no entry is live. */
  lemma LeaseBegins(w: World, s: Step, i: nat)
    requires Enabled(w, s) && !InLease(w, i) && InLease(Apply(w, s), i)
    ensures s == TryLock(i, Up) && !Live(w.store, LockKey(w.execs[i].name), w.now) && OwnEntry(Apply(w, s), i)
    ensures Apply(w, s).execs[i].name == w.execs[i].name
  {
  }

  lemma NamesStay(w: World, s: Step, i: nat)
    requires Enabled(w, s) && i in w.execs
    ensures i in Apply(w, s).execs && Apply(w, s).execs[i].name == w.execs[i].name
  {
  }

  lemma PromptStep(w: World, s: Step)
    requires Enabled(w, s) && Prompt(w, s)
    requires LeasesCoverDeadlines(w) && EntriesStand(w) && LeasesAreExclusive(w)
    ensures EntriesStand(Apply(w, s)) && LeasesAreExclusive(Apply(w, s))
  {
    var v := Apply(w, s);
    forall i | InLease(v, i)
      ensures OwnEntry(v, i)
    {
      if InLease(w, i) {
        PromptEntry(w, s, i);
      } else {
        LeaseBegins(w, s, i);
      }
    }
    forall i, j | InLease(v, i) && InLease(v, j) && v.execs[i].name == v.execs[j].name
      ensures i == j
    {
      NewLeaseIsAlone(w, s, i, j);
    }
  }

  lemma PromptEntry(w: World, s: Step, i: nat)
    requires Enabled(w, s) && Prompt(w, s)
    requires LeasesCoverDeadlines(w) && EntriesStand(w) && LeasesAreExclusive(w)
    requires InLease(w, i) && InLease(Apply(w, s), i)
    ensures OwnEntry(Apply(w, s), i)
  {
    assert OwnEntry(w, i);
    if Unlocking(w, s) && w.execs[s.id].name == w.execs[i].name {
      assert InLease(w, s.id);
    }
    EntryStays(w, s, i);
  }

  lemma NewLeaseIsAlone(w: World, s: Step, i: nat, j: nat)
    requires Enabled(w, s) && EntriesStand(w) && LeasesAreExclusive(w)
    requires InLease(Apply(w, s), i) && InLease(Apply(w, s), j)
    requires Apply(w, s).execs[i].name == Apply(w, s).execs[j].name
    ensures i == j
  {
    if !InLease(w, i) {
      LeaseBegins(w, s, i);
      if i != j {
        OldLeaseIsLive(w, s, j);
      }
    } else if !InLease(w, j) {
      LeaseBegins(w, s, j);
      OldLeaseIsLive(w, s, i);
    } else {
      NamesStay(w, s, i);
      NamesStay(w, s, j);
    }
  }

  lemma OldLeaseIsLive(w: World, s: Step, j: nat)
    requires Enabled(w, s) && EntriesStand(w) && InLease(Apply(w, s), j) && !(s.TryLock? && s.id == j)
    ensures Live(w.store, LockKey(Apply(w, s).execs[j].name), w.now)
  {
    if !InLease(w, j) {
      LeaseBegins(w, s, j);
    }
    assert OwnEntry(w, j);
  }

  /** In every run of any number of instances in which no release takes effect past the deadline of its
      execution, at most one execution of a job is within its lease at a time, and its entry stands. */
  lemma {:induction false} PromptRunsKeepLeases(ws: seq<World>, steps: seq<Step>, n: nat)
    requires IsRun(ws, steps) && n < |ws|
    requires forall i :: 0 <= i < n ==> Enabled(ws[i], steps[i]) && Prompt(ws[i], steps[i])
    ensures LeasesCoverDeadlines(ws[n]) && EntriesStand(ws[n]) && LeasesAreExclusive(ws[n])
  {
    if n > 0 {
      PromptRunsKeepLeases(ws, steps, n - 1);
      assert Enabled(ws[n - 1], steps[n - 1]) && ws[n - 1 + 1] == Apply(ws[n - 1], steps[n - 1]);
      LeaseStep(ws[n - 1], steps[n - 1]);
      PromptStep(ws[n - 1], steps[n - 1]);
    }
  }

  /** In every run of any number of instances in which every handler ends and its release has reached the
      server before their deadline, no two executions of one job are ever inside the handler together. */
  lemma TimelyRunsAreExclusive(ws: seq<World>, steps: seq<Step>, n: nat)
    requires IsRun(ws, steps) && n < |ws|
    requires forall i :: 0 <= i < |ws| ==> Timely(ws[i])
    ensures Exclusive(ws[n]) && LeasesCoverDeadlines(ws[n]) && EntriesStand(ws[n])
  {
    forall i | 0 <= i < n
      ensures Enabled(ws[i], steps[i]) && Prompt(ws[i], steps[i])
    {
      assert Timely(ws[i]);
    }
    PromptRunsKeepLeases(ws, steps, n);
    var w := ws[n];
    assert Timely(w);
    assert forall i :: i in w.execs && w.execs[i].Holds() ==> InLease(w, i);
  }

  // ----- Only an overrun handler can have company -----

  ghost predicate OneIsOverrun(w: World, i: nat, j: nat)
    requires Together(w, i, j)
  {
    w.execs[i].deadline <= w.now || w.execs[j].deadline <= w.now
  }

  /** If no release takes effect past its deadline, then whenever two executions of a job are together, one of
      them is past its deadline, however many executions an instance runs. */
  lemma PromptRunsMeet(ws: seq<World>, steps: seq<Step>, n: nat, i: nat, j: nat)
    requires IsRun(ws, steps) && n < |ws| && Together(ws[n], i, j)
    requires forall k :: 0 <= k < |steps| ==> Enabled(ws[k], steps[k]) && Prompt(ws[k], steps[k])
    ensures OneIsOverrun(ws[n], i, j)
  {
    PromptRunsKeepLeases(ws, steps, n);
    var w := ws[n];
    assert w.now < w.execs[i].deadline ==> InLease(w, i);
    assert w.now < w.execs[j].deadline ==> InLease(w, j);
  }

  /** Holders within their lease find their own entry in the store. */
  ghost predicate HoldersStand(w: World) {
    forall i :: InLease(w, i) && w.execs[i].Holds() ==> OwnEntry(w, i)
  }

  lemma OneAtATimeStep(w: World, s: Step)
    requires Enabled(w, s) && Settled(w, s) && HoldersStand(w) && OneAtATime(w)
    ensures HoldersStand(Apply(w, s))
  {
    var v := Apply(w, s);
    forall i | InLease(v, i) && v.execs[i].Holds()
      ensures OwnEntry(v, i)
    {
      if InLease(w, i) {
        assert w.execs[i].Holds() && OwnEntry(w, i);
        if Unlocking(w, s) {
          assert s.id != i && w.execs[s.id].Runs() && w.execs[i].Runs();
        }
        EntryStays(w, s, i);
      } else {
        LeaseBegins(w, s, i);
      }
    }
  }

  lemma {:induction false} HoldersStandInRuns(ws: seq<World>, steps: seq<Step>, n: nat)
    requires IsRun(ws, steps) && n < |ws|
    requires forall i :: 0 <= i < |ws| ==> OneAtATime(ws[i])
    requires forall i :: 0 <= i < |steps| ==> Enabled(ws[i], steps[i]) && Settled(ws[i], steps[i])
    ensures HoldersStand(ws[n]) && LeasesCoverDeadlines(ws[n])
  {
    if n > 0 {
      HoldersStandInRuns(ws, steps, n - 1);
      assert Enabled(ws[n - 1], steps[n - 1]) && ws[n - 1 + 1] == Apply(ws[n - 1], steps[n - 1]);
      LeaseStep(ws[n - 1], steps[n - 1]);
      OneAtATimeStep(ws[n - 1], steps[n - 1]);
    }
  }

  /** So it is if no instance runs one job twice at a time and no release takes effect after its execution has
      returned, however late it is. */
  lemma OnlyOverrunsMeet(ws: seq<World>, steps: seq<Step>, n: nat, i: nat, j: nat)
    requires IsRun(ws, steps) && n < |ws| && Together(ws[n], i, j)
    requires forall k :: 0 <= k < |ws| ==> OneAtATime(ws[k])
    requires forall k :: 0 <= k < |steps| ==> Enabled(ws[k], steps[k]) && Settled(ws[k], steps[k])
    ensures OneIsOverrun(ws[n], i, j)
  {
    HoldersStandInRuns(ws, steps, n);
    var w := ws[n];
    assert OneAtATime(w);
    assert w.now < w.execs[i].deadline ==> InLease(w, i);
    assert w.now < w.execs[j].deadline ==> InLease(w, j);
  }

  // ----- The conditions are needed -----

  function Extended(ws: seq<World>, s: Step): seq<World>
    requires ws != [] && Enabled(ws[|ws| - 1], s)
  {
    ws + [Apply(ws[|ws| - 1], s)]
  }

  lemma ExtendRun(ws: seq<World>, steps: seq<Step>, s: Step)
    requires IsRun(ws, steps) && Enabled(ws[|ws| - 1], s)
    ensures IsRun(Extended(ws, s), steps + [s])
  {
  }

  /** Nothing stops a handler at its deadline: every run that leaves an execution in its handler goes on
      to one in which a second instance enters the same handler, once the lease has run out. */
  lemma OverrunAdmitsASecond(ws: seq<World>, steps: seq<Step>, i: nat, j: nat, other: string)
    returns (ws': seq<World>, steps': seq<Step>)
    requires IsRun(ws, steps)
    requires var w := ws[|ws| - 1]; i in w.execs && w.execs[i].phase.Inside? && j !in w.execs
    ensures IsRun(ws', steps') && ws <= ws'
    ensures var w := ws'[|ws'| - 1]; Together(w, i, j) && w.execs[i].phase.Inside? && w.execs[j].phase.Inside?
    ensures ws'[|ws'| - 1].execs[j].owner == other
  {
    var w := ws[|ws| - 1];
    var name := w.execs[i].name;
    var key := LockKey(name);
    var wait: nat := if Live(w.store, key, w.now) then w.store[key].expires - w.now else 0;
    var s1, s2, s3 := Tick(wait), Begin(j, other, name, 300), TryLock(j, Up);
    ExtendRun(ws, steps, s1);
    ExtendRun(Extended(ws, s1), steps + [s1], s2);
    ExtendRun(Extended(Extended(ws, s1), s2), steps + [s1] + [s2], s3);
    ws' := Extended(Extended(Extended(ws, s1), s2), s3);
    steps' := steps + [s1] + [s2] + [s3];
  }

  /** The executions of a job in one instance that have not returned. */
  ghost function RunningExecutions(w: World, owner: string, name: string): set<nat> {
    set i | i in w.execs && w.execs[i].Runs() && w.execs[i].owner == owner && w.execs[i].name == name
  }

  ghost predicate AtMost(w: World, k: nat) {
    forall owner, name :: |RunningExecutions(w, owner, name)| <= k
  }

  /** The client honours the context of the execution: it sends nothing past the deadline. What it has sent in
      time may reach the server later. */
  predicate Honours(w: World, s: Step)
    requires Enabled(w, s)
  {
    match s
    case TryLock(id, Up) => w.now < w.execs[id].deadline
    case Release(id, link) => link.RequestLost? || w.execs[id].phase.since < w.execs[id].deadline
    case GiveUp(id) => w.execs[id].phase.Starting? || w.execs[id].phase.since < w.execs[id].deadline
    case _ => true
  }

  /** What is assumed of a run: at most `k` executions of a job in one instance; if `settled`, no release takes
      effect after its execution has returned; if `prompt`, none past the deadline. */
  datatype Setting = Setting(k: nat, settled: bool, prompt: bool)

  predicate Admits(c: Setting, w: World, s: Step) {
    Enabled(w, s) && Honours(w, s) && (c.settled ==> Settled(w, s)) && (c.prompt ==> Prompt(w, s))
  }

  ghost predicate IsRunOf(c: Setting, ws: seq<World>, steps: seq<Step>) {
    && IsRun(ws, steps)
    && (forall i :: 0 <= i < |ws| ==> AtMost(ws[i], c.k))
    && forall i :: 0 <= i < |steps| ==> Admits(c, ws[i], steps[i])
  }

  /** In all those runs, of two executions together one is past its deadline. */
  ghost predicate OnlyOverruns(c: Setting) {
    forall ws: seq<World>, steps: seq<Step>, n: nat, i: nat, j: nat ::
      IsRunOf(c, ws, steps) && n < |ws| && Together(ws[n], i, j) ==> OneIsOverrun(ws[n], i, j)
  }

  lemma AtMostOne(w: World, k: nat)
    requires AtMost(w, k) && k <= 1
    ensures OneAtATime(w)
  {
    forall i, j | && i in w.execs && j in w.execs && i != j && w.execs[i].Runs() && w.execs[j].Runs()
                  && w.execs[i].name == w.execs[j].name
      ensures w.execs[i].owner != w.execs[j].owner
    {
      if w.execs[i].owner == w.execs[j].owner {
        SubsetSize({i, j}, RunningExecutions(w, w.execs[i].owner, w.execs[i].name));
      }
    }
  }

  lemma NobodyHolds(w: World, i: nat)
    requires AtMost(w, 0) && i in w.execs
    ensures !w.execs[i].Holds()
  {
    if w.execs[i].Holds() {
      SubsetSize({i}, RunningExecutions(w, w.execs[i].owner, w.execs[i].name));
    }
  }

  // ----- A release that comes too late -----

  /** Executions 1 and 2 belong to one instance, execution 3 to another; with `k == 1` the first two do not run
      at the same time. */
  predicate Siblings(w: World, k: nat) {
    && w.execs.Keys <= {1, 2, 3}
    && (forall i :: i in w.execs ==> w.execs[i].owner == if i == 3 then "B" else "A")
    && (1 in w.execs && 2 in w.execs && w.execs[1].Runs() && w.execs[2].Runs() ==> k >= 2)
  }

  lemma SiblingsAreFew(w: World, k: nat)
    requires Siblings(w, k) && k >= 1
    ensures AtMost(w, k)
  {
    forall owner, name
      ensures |RunningExecutions(w, owner, name)| <= k
    {
      var some := RunningExecutions(w, owner, name);
      if owner == "B" {
        SubsetSize(some, {3});
      } else if k >= 2 {
        SubsetSize(some, {1, 2});
      } else {
        SubsetSize(some, if 1 in some then {1} else {2});
      }
    }
  }

  lemma OneMore(c: Setting, ws: seq<World>, steps: seq<Step>, w: World, s: Step)
    returns (ws': seq<World>, steps': seq<Step>, v: World)
    requires c.k >= 1 && IsRunOf(c, ws, steps) && ws[|ws| - 1] == w
    requires Admits(c, w, s) && Siblings(Apply(w, s), c.k)
    ensures v == Apply(w, s) && IsRunOf(c, ws', steps') && ws'[|ws'| - 1] == v
  {
    v := Apply(w, s);
    SiblingsAreFew(v, c.k);
    ws', steps' := ws + [v], steps + [s];
  }

  lemma NoSteps(c: Setting, w: World)
    requires c.k >= 1 && w.execs == map[]
    ensures IsRunOf(c, [w], [])
  {
    SiblingsAreFew(w, c.k);
  }

  function First(phase: Phase): Execution {
    Execution("A", "job", 5, 5, phase)
  }

  function Second(phase: Phase): Execution {
    Execution("A", "job", 100, 105, phase)
  }

  /** A handler returns before its deadline, and its release is under way when the lease runs out. */
  lemma SlowRelease(c: Setting) returns (ws: seq<World>, steps: seq<Step>, w: World)
    requires c.k >= 1
    ensures IsRunOf(c, ws, steps) && ws[|ws| - 1] == w
    ensures w == World(5, map[LockKey("job") := Entry("A", 5)], map[1 := First(Releasing(5, 4))])
  {
    hide LockKey, AtMost, IsRunOf;
    w := World(0, map[], map[]);
    ws, steps := [w], [];
    NoSteps(c, w);
    ws, steps, w := OneMore(c, ws, steps, w, Begin(1, "A", "job", 5));
    assert w == World(0, map[], map[1 := First(Starting)]);
    ws, steps, w := OneMore(c, ws, steps, w, TryLock(1, Up));
    assert w == World(0, map[LockKey("job") := Entry("A", 5)], map[1 := First(Inside(5))]);
    ws, steps, w := OneMore(c, ws, steps, w, Tick(4));
    ws, steps, w := OneMore(c, ws, steps, w, Return(1));
    ws, steps, w := OneMore(c, ws, steps, w, Tick(1));
    assert w.execs == map[1 := First(Releasing(5, 4))];
  }

  /** The next execution of the same instance takes the lock. */
  lemma SecondLocks(c: Setting, ws: seq<World>, steps: seq<Step>, w: World, phase: Phase)
    returns (ws': seq<World>, steps': seq<Step>, v: World)
    requires c.k >= 1 && IsRunOf(c, ws, steps) && ws[|ws| - 1] == w && (First(phase).Runs() ==> c.k >= 2)
    requires w == World(5, map[LockKey("job") := Entry("A", 5)], map[1 := First(phase)])
    ensures IsRunOf(c, ws', steps') && ws'[|ws'| - 1] == v
    ensures v == World(5, map[LockKey("job") := Entry("A", 105)], map[1 := First(phase), 2 := Second(Inside(105))])
  {
    hide LockKey, AtMost, IsRunOf;
    ws', steps', v := OneMore(c, ws, steps, w, Begin(2, "A", "job", 100));
    assert v.execs == map[1 := First(phase), 2 := Second(Starting)];
    ws', steps', v := OneMore(c, ws', steps', v, TryLock(2, Up));
    assert v.store == map[LockKey("job") := Entry("A", 105)];
    assert v.execs == map[1 := First(phase), 2 := Second(Inside(105))];
  }

  /** The release of the first execution has deleted the entry of the second, since both carry the same owner ID.
      Now another instance enters the handler beside the second, both well before their deadlines. */
  lemma ThirdEnters(c: Setting, ws: seq<World>, steps: seq<Step>, w: World)
    returns (ws': seq<World>, steps': seq<Step>)
    requires c.k >= 1 && IsRunOf(c, ws, steps) && ws[|ws| - 1] == w
    requires w == World(5, map[], map[1 := First(Ended), 2 := Second(Inside(105))])
    ensures IsRunOf(c, ws', steps') && Together(ws'[|ws'| - 1], 2, 3) && !OneIsOverrun(ws'[|ws'| - 1], 2, 3)
  {
    hide LockKey, AtMost, IsRunOf;
    var v;
    ws', steps', v := OneMore(c, ws, steps, w, Begin(3, "B", "job", 100));
    ws', steps', v := OneMore(c, ws', steps', v, TryLock(3, Up));
  }

  /** Two executions of a job at a time in one instance, as when it is registered both by interval and by cron:
      the first waits for the answer to its release past its deadline, and the release takes effect after the
      second has taken the lock. */
  lemma DoubleRegistration(c: Setting) returns (ws: seq<World>, steps: seq<Step>)
    requires c.k >= 2 && !c.prompt
    ensures IsRunOf(c, ws, steps) && Together(ws[|ws| - 1], 2, 3) && !OneIsOverrun(ws[|ws| - 1], 2, 3)
  {
    hide LockKey, AtMost, IsRunOf;
    var w;
    ws, steps, w := SlowRelease(c);
    ws, steps, w := SecondLocks(c, ws, steps, w, Releasing(5, 4));
    ws, steps, w := OneMore(c, ws, steps, w, Release(1, Up));
    assert w.store == map[];
    assert w.execs == map[1 := First(Ended), 2 := Second(Inside(105))];
    ws, steps := ThirdEnters(c, ws, steps, w);
  }

  /** One execution at a time, as with a single registration: the first gives up at its deadline and returns, the
      next one takes the lock, and then the release of the first reaches the server. */
  lemma ReleaseInFlight(c: Setting) returns (ws: seq<World>, steps: seq<Step>)
    requires c.k >= 1 && !c.prompt && !c.settled
    ensures IsRunOf(c, ws, steps) && Together(ws[|ws| - 1], 2, 3) && !OneIsOverrun(ws[|ws| - 1], 2, 3)
  {
    hide LockKey, AtMost, IsRunOf;
    var w;
    ws, steps, w := SlowRelease(c);
    ws, steps, w := OneMore(c, ws, steps, w, GiveUp(1));
    assert w.execs == map[1 := First(ReleaseSent(5))];
    ws, steps, w := SecondLocks(c, ws, steps, w, ReleaseSent(5));
    ws, steps, w := OneMore(c, ws, steps, w, Arrive(1));
    assert w.store == map[];
    assert w.execs == map[1 := First(Ended), 2 := Second(Inside(105))];
    ws, steps := ThirdEnters(c, ws, steps, w);
  }

  /** Only overrun handlers have company if and only if nothing runs, or no release takes effect past its
      deadline, or each instance runs one execution of a job at a time and no release takes effect after its
      execution has returned: the owner ID does not tell apart the executions of one instance. */
  lemma OnlyOverrunsExactly(c: Setting)
    ensures OnlyOverruns(c) <==> c.k == 0 || c.prompt || (c.k == 1 && c.settled)
  {
    if c.k == 0 || c.prompt || (c.k == 1 && c.settled) {
      forall ws: seq<World>, steps: seq<Step>, n: nat, i: nat, j: nat
        | IsRunOf(c, ws, steps) && n < |ws| && Together(ws[n], i, j)
        ensures OneIsOverrun(ws[n], i, j)
      {
        SettingSuffices(c, ws, steps, n, i, j);
      }
    } else if c.settled {
      var ws, steps := DoubleRegistration(c);
      assert Together(ws[|ws| - 1], 2, 3);
    } else {
      var ws, steps := ReleaseInFlight(c);
      assert Together(ws[|ws| - 1], 2, 3);
    }
  }

  lemma SettingSuffices(c: Setting, ws: seq<World>, steps: seq<Step>, n: nat, i: nat, j: nat)
    requires c.k == 0 || c.prompt || (c.k == 1 && c.settled)
    requires IsRunOf(c, ws, steps) && n < |ws| && Together(ws[n], i, j)
    ensures OneIsOverrun(ws[n], i, j)
  {
    assert forall m :: 0 <= m < |steps| ==> Admits(c, ws[m], steps[m]);
    if c.prompt {
      PromptRunsMeet(ws, steps, n, i, j);
    } else if c.k == 0 {
      NobodyHolds(ws[n], i);
    } else {
      forall m | 0 <= m < |ws|
        ensures OneAtATime(ws[m])
      {
        AtMostOne(ws[m], c.k);
      }
      OnlyOverrunsMeet(ws, steps, n, i, j);
    }
  }
}
