/** The token bucket and the per-key limiter that forgets idle keys. Times are nanoseconds of a
    clock that does not go back; token amounts are exact reals. */
module RateLimit {

  // ----- The bucket -----

  datatype Params = Params(rate: real, burst: int) {
    predicate Valid() {
      rate >= 0.0 && burst >= 0
    }
  }

  function Seconds(d: int): real {
    d as real / 1_000_000_000.0
  }

  /** Tokens that flow in during `d` nanoseconds. */
  function Gain(p: Params, d: int): real {
    Seconds(d) * p.rate
  }

  datatype Bucket = Bucket(tokens: real, last: int)

  function NewBucket(p: Params, now: int): Bucket {
    Bucket(p.burst as real, now)
  }

  function Level(p: Params, b: Bucket, now: int): real {
    var t := b.tokens + Gain(p, now - b.last);
    if t > p.burst as real then p.burst as real else t
  }

  predicate Grants(p: Params, b: Bucket, n: int, now: int) {
    Level(p, b, now) >= n as real
  }

  function Take(p: Params, b: Bucket, n: int, now: int): Bucket {
    var level := Level(p, b, now);
    Bucket(if Grants(p, b, n, now) then level - n as real else level, now)
  }

  class Limiter {
    const p: Params
    var tokens: real
    var lastTime: int

    function Value(): Bucket
      reads this
    {
      Bucket(tokens, lastTime)
    }

    constructor (p: Params, now: int)
      ensures this.p == p && Value() == NewBucket(p, now)
    {
      this.p := p;
      tokens, lastTime := p.burst as real, now;
    }

    method AllowN(n: int, now: int) returns (ok: bool)
      modifies this
      ensures Value() == Take(p, old(Value()), n, now) && ok == Grants(p, old(Value()), n, now)
    {
      var elapsed := Seconds(now - lastTime);
      lastTime := now;
      tokens := tokens + elapsed * p.rate;
      if tokens > p.burst as real {
        tokens := p.burst as real;
      }
      ok := tokens >= n as real;
      if ok {
        tokens := tokens - n as real;
      }
    }

    method Allow(now: int) returns (ok: bool)
      modifies this
      ensures Value() == Take(p, old(Value()), 1, now) && ok == Grants(p, old(Value()), 1, now)
    {
      ok := AllowN(1, now);
    }

    method Tokens(now: int) returns (t: real)
      ensures t == Level(p, Value(), now)
    {
      t := tokens + Seconds(now - lastTime) * p.rate;
      if t > p.burst as real {
        t := p.burst as real;
      }
    }
  }

  /** The rate is per second. */
  lemma GainPerSecond(p: Params, k: int)
    ensures Gain(p, k * 1_000_000_000) == k as real * p.rate
  {
    assert Seconds(k * 1_000_000_000) == k as real;
  }

  lemma GainAdds(p: Params, a: int, b: int)
    ensures Gain(p, a + b) == Gain(p, a) + Gain(p, b)
  {
    assert Seconds(a + b) == Seconds(a) + Seconds(b);
  }

  lemma GainGrows(p: Params, a: int, b: int)
    requires p.Valid() && a <= b
    ensures Gain(p, a) <= Gain(p, b) && (0 <= a ==> 0.0 <= Gain(p, a)) && Gain(p, 0) == 0.0
  {
    assert Seconds(a) <= Seconds(b) && Seconds(0) == 0.0;
    Scale(Seconds(a), Seconds(b), p.rate);
    if 0 <= a {
      Scale(Seconds(0), Seconds(a), p.rate);
    }
  }

  lemma Scale(x: real, y: real, r: real)
    requires x <= y && r >= 0.0
    ensures x * r <= y * r
  {
    assert (y - x) * r >= 0.0;
  }

  // ----- Runs of one limiter -----

  datatype Request = Request(n: int, at: int)

  ghost predicate InOrder(start: int, rs: seq<Request>) {
    && (forall i :: 0 <= i < |rs| ==> start <= rs[i].at && 0 <= rs[i].n)
    && forall i, j :: 0 <= i <= j < |rs| ==> rs[i].at <= rs[j].at
  }

  /** The bucket before request `k`. */
  function Before(p: Params, start: int, rs: seq<Request>, k: nat): Bucket
    requires k <= |rs|
  {
    if k == 0 then NewBucket(p, start)
    else Take(p, Before(p, start, rs, k - 1), rs[k - 1].n, rs[k - 1].at)
  }

  predicate Granted(p: Params, start: int, rs: seq<Request>, k: nat)
    requires k < |rs|
  {
    Grants(p, Before(p, start, rs, k), rs[k].n, rs[k].at)
  }

  /** Tokens granted to requests `i` up to, not including, `j`. */
  function Total(p: Params, start: int, rs: seq<Request>, i: nat, j: nat): int
    requires i <= j <= |rs|
    decreases j
  {
    if i == j then 0
    else Total(p, start, rs, i, j - 1) + (if Granted(p, start, rs, j - 1) then rs[j - 1].n else 0)
  }

  /** What a window from request `i` to the moment of request `j` may hold. */
  function Allowance(p: Params, rs: seq<Request>, i: nat, j: nat): real
    requires i < |rs| && j < |rs|
  {
    p.burst as real + Gain(p, rs[j].at - rs[i].at)
  }

  function LevelAt(p: Params, start: int, rs: seq<Request>, k: nat): real
    requires k < |rs|
  {
    Level(p, Before(p, start, rs, k), rs[k].at)
  }

  /** The level at one request, from the level at the one before. */
  lemma LevelStep(p: Params, start: int, rs: seq<Request>, j: nat)
    requires j + 1 < |rs|
    ensures var carried := LevelAt(p, start, rs, j) - (if Granted(p, start, rs, j) then rs[j].n else 0) as real
                           + Gain(p, rs[j + 1].at - rs[j].at);
            LevelAt(p, start, rs, j + 1) == if carried > p.burst as real then p.burst as real else carried
  {
  }

  lemma AllowanceStep(p: Params, rs: seq<Request>, i: nat, j: nat)
    requires i <= j && j + 1 < |rs|
    ensures Allowance(p, rs, i, j + 1) == Allowance(p, rs, i, j) + Gain(p, rs[j + 1].at - rs[j].at)
  {
    GainAdds(p, rs[j].at - rs[i].at, rs[j + 1].at - rs[j].at);
  }

  /** No window has a smaller balance than the bucket... */
  lemma {:induction false} LevelBelowWindows(p: Params, start: int, rs: seq<Request>, i: nat, j: nat)
    requires p.Valid() && InOrder(start, rs) && i <= j < |rs|
    ensures LevelAt(p, start, rs, j) + Total(p, start, rs, i, j) as real <= Allowance(p, rs, i, j)
    decreases j
  {
    if i == j {
      assert Seconds(0) == 0.0;
    } else {
      hide LevelAt, Gain, Granted, Allowance;
      LevelBelowWindows(p, start, rs, i, j - 1);
      LevelStep(p, start, rs, j - 1);
      AllowanceStep(p, rs, i, j - 1);
    }
  }

  /** ...and some window has exactly its balance. */
  lemma {:induction false} LevelIsSomeWindow(p: Params, start: int, rs: seq<Request>, j: nat) returns (i: nat)
    requires p.Valid() && InOrder(start, rs) && j < |rs|
    ensures i <= j && LevelAt(p, start, rs, j) + Total(p, start, rs, i, j) as real == Allowance(p, rs, i, j)
    decreases j
  {
    i := j;
    assert Seconds(0) == 0.0;
    if j == 0 {
      GainGrows(p, 0, rs[0].at - start);
    } else if LevelAt(p, start, rs, j) != p.burst as real {
      hide LevelAt, Gain, Granted, Allowance;
      i := LevelIsSomeWindow(p, start, rs, j - 1);
      LevelStep(p, start, rs, j - 1);
      AllowanceStep(p, rs, i, j - 1);
    }
  }

  /** A request is granted if and only if every window that ends with it stays within burst plus rate
      times its length: the bucket is the most generous policy with that guarantee. */
  lemma GrantedExactly(p: Params, start: int, rs: seq<Request>, j: nat)
    requires p.Valid() && InOrder(start, rs) && j < |rs|
    ensures Granted(p, start, rs, j) <==>
            forall i :: 0 <= i <= j ==> (Total(p, start, rs, i, j) + rs[j].n) as real <= Allowance(p, rs, i, j)
  {
    hide Allowance, Total;
    forall i | 0 <= i <= j
      ensures LevelAt(p, start, rs, j) + Total(p, start, rs, i, j) as real <= Allowance(p, rs, i, j)
    {
      LevelBelowWindows(p, start, rs, i, j);
    }
    var w := LevelIsSomeWindow(p, start, rs, j);
    assert Granted(p, start, rs, j) <==> LevelAt(p, start, rs, j) >= rs[j].n as real;
  }

  /** Between any two requests no more is granted than burst plus rate times the elapsed time. */
  lemma {:induction false} WindowBound(p: Params, start: int, rs: seq<Request>, i: nat, j: nat)
    requires p.Valid() && InOrder(start, rs) && i <= j < |rs|
    ensures Total(p, start, rs, i, j + 1) as real <= Allowance(p, rs, i, j)
    decreases j
  {
    if Granted(p, start, rs, j) {
      GrantedExactly(p, start, rs, j);
    } else if i < j {
      WindowBound(p, start, rs, i, j - 1);
      GainGrows(p, rs[j - 1].at - rs[i].at, rs[j].at - rs[i].at);
    } else {
      assert Seconds(0) == 0.0;
    }
  }

  lemma TakeKeepsRange(p: Params, b: Bucket, n: int, now: int)
    requires p.Valid() && 0 <= n && b.last <= now && 0.0 <= b.tokens <= p.burst as real
    ensures 0.0 <= Take(p, b, n, now).tokens <= p.burst as real && Take(p, b, n, now).last == now
  {
    hide Gain;
    GainGrows(p, 0, now - b.last);
  }

  /** Tokens stay between zero and burst in every run. */
  lemma {:induction false} TokensInRange(p: Params, start: int, rs: seq<Request>, k: nat)
    requires p.Valid() && InOrder(start, rs) && k <= |rs|
    ensures var b := Before(p, start, rs, k);
            0.0 <= b.tokens <= p.burst as real && b.last == if k == 0 then start else rs[k - 1].at
  {
    if k > 0 {
      TokensInRange(p, start, rs, k - 1);
      TakeKeepsRange(p, Before(p, start, rs, k - 1), rs[k - 1].n, rs[k - 1].at);
    }
  }

  // ----- One limiter per key, with eviction -----

  datatype Entry = Entry(bucket: Bucket, lastSeen: int)

  type Table = map<string, Entry>

  /** The entry a request for the key works on. */
  function Lookup(p: Params, t: Table, key: string, now: int): Bucket {
    if key in t then t[key].bucket else NewBucket(p, now)
  }

  function AfterAsk(p: Params, t: Table, key: string, n: int, now: int): Table {
    t[key := Entry(Take(p, Lookup(p, t, key, now), n, now), now)]
  }

  predicate Decision(p: Params, t: Table, key: string, n: int, now: int) {
    Grants(p, Lookup(p, t, key, now), n, now)
  }

  function Evict(t: Table, ttl: int, now: int): Table {
    map key | key in t && now - t[key].lastSeen <= ttl :: t[key]
  }

  class KeyLimiter {
    const p: Params
    const ttl: int
    var limiters: Table

    constructor (p: Params, ttl: int)
      ensures this.p == p && this.ttl == ttl && limiters == map[]
    {
      this.p, this.ttl, limiters := p, ttl, map[];
    }

    /** An entry holds the fields of its limiter; the object is set up from them for the call. */
    method AllowN(key: string, n: int, now: int) returns (ok: bool)
      modifies this
      ensures limiters == AfterAsk(p, old(limiters), key, n, now)
      ensures ok == Decision(p, old(limiters), key, n, now)
    {
      var bucket;
      if key !in limiters {
        bucket := NewBucket(p, now);
      } else {
        bucket := limiters[key].bucket;
      }
      var limiter := new Limiter(p, now);
      limiter.tokens, limiter.lastTime := bucket.tokens, bucket.last;
      ok := limiter.AllowN(n, now);
      limiters := limiters[key := Entry(Bucket(limiter.tokens, limiter.lastTime), now)];
    }

    method Allow(key: string, now: int) returns (ok: bool)
      modifies this
      ensures limiters == AfterAsk(p, old(limiters), key, 1, now)
      ensures ok == Decision(p, old(limiters), key, 1, now)
    {
      ok := AllowN(key, 1, now);
    }

    /** The body of the cleanup loop: delete every key not seen for longer than the time to live. */
    method Cleanup(now: int)
      modifies this
      ensures limiters == Evict(old(limiters), ttl, now)
    {
      var keys := limiters.Keys;
      while keys != {}
        invariant keys <= old(limiters).Keys
        invariant limiters.Keys <= old(limiters).Keys
        invariant forall k :: k in limiters ==> limiters[k] == old(limiters)[k]
        invariant forall k :: k in old(limiters) ==>
                    (k in limiters <==> k in keys || now - old(limiters)[k].lastSeen <= ttl)
        decreases |keys|
      {
        var key :| key in keys;
        keys := keys - {key};
        if now - limiters[key].lastSeen > ttl {
          limiters := limiters - {key};
        }
      }
    }
  }

  datatype Event = Ask(key: string, n: int, at: int) | Clean(at: int)

  ghost predicate EventsInOrder(es: seq<Event>) {
    && (forall i :: 0 <= i < |es| && es[i].Ask? ==> 0 <= es[i].n)
    && forall i, j :: 0 <= i <= j < |es| ==> es[i].at <= es[j].at
  }

  /** The table after `k` events; without eviction the cleanups do nothing. */
  function TableAfter(p: Params, ttl: int, evicting: bool, es: seq<Event>, k: nat): Table
    requires k <= |es|
  {
    if k == 0 then map[]
    else
      var t := TableAfter(p, ttl, evicting, es, k - 1);
      match es[k - 1]
      case Ask(key, n, at) => AfterAsk(p, t, key, n, at)
      case Clean(at) => if evicting then Evict(t, ttl, at) else t
  }

  predicate Answer(p: Params, ttl: int, evicting: bool, es: seq<Event>, k: nat)
    requires k < |es| && es[k].Ask?
  {
    Decision(p, TableAfter(p, ttl, evicting, es, k), es[k].key, es[k].n, es[k].at)
  }

  /** Eviction can not be told from the answers, in any run. */
  ghost predicate EvictionInvisible(p: Params, ttl: int) {
    forall es: seq<Event>, k: nat :: EventsInOrder(es) && k < |es| && es[k].Ask? ==>
      (Answer(p, ttl, true, es, k) <==> Answer(p, ttl, false, es, k))
  }

  /** The evicting table agrees with the full one, except for keys idle longer than the time to live. */
  ghost predicate Agrees(p: Params, ttl: int, small: Table, full: Table, now: int) {
    && (forall k :: k in small ==> k in full && small[k] == full[k])
    && forall k :: k in full ==>
         && full[k].bucket.last == full[k].lastSeen <= now
         && 0.0 <= full[k].bucket.tokens <= p.burst as real
         && (k !in small ==> now - full[k].lastSeen > ttl)
  }

  /** An idle bucket has refilled: it cannot be told from a new one. */
  lemma IdleIsFull(p: Params, b: Bucket, ttl: int, now: int)
    requires p.Valid() && 0.0 <= b.tokens && now - b.last > ttl && Gain(p, ttl + 1) >= p.burst as real
    ensures Level(p, b, now) == p.burst as real
  {
    GainGrows(p, ttl + 1, now - b.last);
  }

  lemma NewIsFull(p: Params, now: int)
    ensures Level(p, NewBucket(p, now), now) == p.burst as real
  {
    assert Seconds(0) == 0.0;
  }

  lemma SameLookup(p: Params, ttl: int, small: Table, full: Table, key: string, now: int, n: int)
    requires p.Valid() && Gain(p, ttl + 1) >= p.burst as real && Agrees(p, ttl, small, full, now)
    ensures Take(p, Lookup(p, small, key, now), n, now) == Take(p, Lookup(p, full, key, now), n, now)
    ensures Decision(p, small, key, n, now) <==> Decision(p, full, key, n, now)
  {
    hide Gain;
    if key !in small && key in full {
      IdleIsFull(p, full[key].bucket, ttl, now);
      NewIsFull(p, now);
    }
  }

  lemma LookupInRange(p: Params, ttl: int, small: Table, full: Table, key: string, now: int, n: int)
    requires p.Valid() && 0 <= n && Agrees(p, ttl, small, full, now)
    ensures var b := Take(p, Lookup(p, full, key, now), n, now);
            0.0 <= b.tokens <= p.burst as real && b.last == now
  {
    TakeKeepsRange(p, Lookup(p, full, key, now), n, now);
  }

  lemma {:induction false} TablesAgree(p: Params, ttl: int, es: seq<Event>, k: nat, now: int)
    requires p.Valid() && Gain(p, ttl + 1) >= p.burst as real && EventsInOrder(es) && k <= |es|
    requires 0 < k ==> es[k - 1].at <= now
    ensures Agrees(p, ttl, TableAfter(p, ttl, true, es, k), TableAfter(p, ttl, false, es, k), now)
    decreases k
  {
    if k > 0 {
      hide Gain, Take, Grants;
      var e := es[k - 1];
      var small, full := TableAfter(p, ttl, true, es, k - 1), TableAfter(p, ttl, false, es, k - 1);
      TablesAgree(p, ttl, es, k - 1, e.at);
      if e.Ask? {
        SameLookup(p, ttl, small, full, e.key, e.at, e.n);
        LookupInRange(p, ttl, small, full, e.key, e.at, e.n);
      }
    }
  }

  /** Eviction is invisible if and only if an empty bucket refills within the shortest idle time after
      which a key can be evicted. */
  lemma EvictionInvisibleExactly(p: Params, ttl: int)
    requires p.Valid() && ttl > 0
    ensures EvictionInvisible(p, ttl) <==> Gain(p, ttl + 1) >= p.burst as real
  {
    if Gain(p, ttl + 1) >= p.burst as real {
      forall es: seq<Event>, k: nat | EventsInOrder(es) && k < |es| && es[k].Ask?
        ensures Answer(p, ttl, true, es, k) <==> Answer(p, ttl, false, es, k)
      {
        TablesAgree(p, ttl, es, k, es[k].at);
        SameLookup(p, ttl, TableAfter(p, ttl, true, es, k), TableAfter(p, ttl, false, es, k),
                   es[k].key, es[k].at, es[k].n);
      }
    } else {
      EarlyEviction(p, ttl);
    }
  }

  /** Drain the bucket, wait until the key is evicted, and ask again. */
  function DrainAndWait(p: Params, ttl: int): seq<Event> {
    [Ask("k", p.burst, 0), Clean(ttl + 1), Ask("k", p.burst, ttl + 1)]
  }

  lemma EarlyEviction(p: Params, ttl: int)
    requires p.Valid() && ttl > 0 && Gain(p, ttl + 1) < p.burst as real
    ensures var es := DrainAndWait(p, ttl);
            EventsInOrder(es) && Answer(p, ttl, true, es, 2) && !Answer(p, ttl, false, es, 2)
  {
    var es := DrainAndWait(p, ttl);
    assert Seconds(0) == 0.0;
    hide Gain;
    GainGrows(p, 0, 0);
    var drained := map["k" := Entry(Bucket(0.0, 0), 0)];
    assert TableAfter(p, ttl, true, es, 0) == TableAfter(p, ttl, false, es, 0) == map[];
    assert TableAfter(p, ttl, true, es, 1) == TableAfter(p, ttl, false, es, 1) == drained;
    assert TableAfter(p, ttl, true, es, 2) == map[];
    assert TableAfter(p, ttl, false, es, 2) == drained;
  }
}
