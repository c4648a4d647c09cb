/** The Redis email queue, one Redis command at a time: stored records, one sorted set per status, and
    any number of operations under way. Commands succeed; records keep the fields that decide queueing. */
module EmailQueue {
  import opened Wrappers
  import opened Sums

  datatype Status = Pending | Scheduled | Sending | Sent | Failed

  /** `due` is the time an email is scheduled for, or when it was created. */
  datatype Email = Email(status: Status, attempts: int, maxRetries: int, due: int, priority: int) {
    /** `calculateScore`: a higher priority comes earlier. */
    function Score(): int {
      due - priority
    }

    /** How often an email enqueued like this may be handed to the sender. */
    function Limit(): int {
      if maxRetries - attempts < 1 then 1 else maxRetries - attempts
    }

    predicate Waiting() {
      status.Pending? || status.Scheduled?
    }
  }

  /** `queues` maps a status and an ID to the score in the sorted set of that status. */
  datatype Redis = Redis(data: map<string, Email>, queues: map<(Status, string), int>)

  // ----- Commands -----

  function ZRem(r: Redis, s: Status, id: string): Redis {
    r.(queues := r.queues - {(s, id)})
  }

  function ZAdd(r: Redis, e: Email, id: string): Redis {
    r.(queues := r.queues[(e.status, id) := e.Score()])
  }

  function Set(r: Redis, e: Email, id: string): Redis {
    r.(data := r.data[id := e])
  }

  predicate Ready(r: Redis, s: Status, id: string, now: int) {
    (s, id) in r.queues && 0 <= r.queues[(s, id)] <= now
  }

  /** `ZRANGEBYSCORE queue 0 now LIMIT 0 1` may answer this ID: it has the least score. */
  predicate First(r: Redis, s: Status, id: string, now: int) {
    && Ready(r, s, id, now)
    && forall k :: k in r.queues && k.0 == s && 0 <= r.queues[k] <= now ==> r.queues[(s, id)] <= r.queues[k]
  }

  predicate Empty(r: Redis, s: Status, now: int) {
    forall k :: k in r.queues && k.0 == s ==> !(0 <= r.queues[k] <= now)
  }

  // ----- Operations under way -----

  /** The next command of an operation. `Enqueue` stores, then indexes. `processNext` looks for an ID, gets
      and unindexes it, updates it to sending, sends it, and updates it again; an update gets the old record,
      unindexes it if its status differs, stores and indexes. `Delete` gets, unindexes and deletes. */
  datatype Op =
    | EnqueueSet(id: string, email: Email) | EnqueueAdd(id: string, email: Email)
    | LookPending | LookScheduled | Picked(id: string) | Read(id: string, email: Email)
    | UpdateGet(id: string, email: Email) | UpdateRem(id: string, email: Email, before: Status)
    | UpdateSet(id: string, email: Email) | UpdateAdd(id: string, email: Email) | Send(id: string, email: Email)
    | DeleteGet(id: string) | DeleteRem(id: string, before: Status) | DeleteDel(id: string)
    | Done

  /** The email an operation works on. */
  function Owns(op: Op): Option<string> {
    match op
    case LookPending => None
    case LookScheduled => None
    case Done => None
    case _ => Some(op.id)
  }

  datatype World = World(now: int, redis: Redis, ops: map<nat, Op>)

  datatype Step =
    | Tick(d: nat)
    | Begin(k: nat, op: Op)            // a new operation starts
    | Find(k: nat, id: Option<string>) // a range command answers
    | Advance(k: nat)                  // any other command
    | Deliver(k: nat, ok: bool)        // the sender returns

  predicate IsStart(op: Op) {
    op.EnqueueSet? || op.LookPending? || op.DeleteGet?
  }

  predicate Enabled(w: World, s: Step) {
    match s
    case Tick(_) => true
    case Begin(k, op) => k !in w.ops && IsStart(op)
    case Find(k, id) =>
      k in w.ops && (w.ops[k].LookPending? || w.ops[k].LookScheduled?) &&
      var q := if w.ops[k].LookPending? then Pending else Scheduled;
      if id.None? then Empty(w.redis, q, w.now) else First(w.redis, q, id.value, w.now)
    case Advance(k) => k in w.ops && Owns(w.ops[k]).Some? && !w.ops[k].Send?
    case Deliver(k, _) => k in w.ops && w.ops[k].Send?
  }

  /** The command that is next, and where the operation goes after it. */
  function Command(r: Redis, op: Op): (Redis, Op)
    requires Owns(op).Some? && !op.Send?
  {
    match op
    case EnqueueSet(id, e) => (Set(r, e, id), EnqueueAdd(id, e))
    case EnqueueAdd(id, e) => (ZAdd(r, e, id), Done)
    case Picked(id) => (r, if id in r.data then Read(id, r.data[id]) else Done)
    case Read(id, e) => (ZRem(r, e.status, id), UpdateGet(id, e.(status := Sending, attempts := e.attempts + 1)))
    case UpdateGet(id, e) =>
      var moves := id in r.data && r.data[id].status != e.status;
      (r, if moves then UpdateRem(id, e, r.data[id].status) else UpdateSet(id, e))
    case UpdateRem(id, e, before) => (ZRem(r, before, id), UpdateSet(id, e))
    case UpdateSet(id, e) => (Set(r, e, id), UpdateAdd(id, e))
    case UpdateAdd(id, e) => (ZAdd(r, e, id), if e.status.Sending? then Send(id, e) else Done)
    case DeleteGet(id) => (r, if id in r.data then DeleteRem(id, r.data[id].status) else Done)
    case DeleteRem(id, before) => (ZRem(r, before, id), DeleteDel(id))
    case DeleteDel(id) => (r.(data := r.data - {id}), Done)
  }

  function AfterDelivery(e: Email, ok: bool): Email {
    e.(status := if ok then Sent else if e.attempts >= e.maxRetries then Failed else Pending)
  }

  function Apply(w: World, s: Step): World
    requires Enabled(w, s)
  {
    match s
    case Tick(d) => w.(now := w.now + d)
    case Begin(k, op) => w.(ops := w.ops[k := op])
    case Find(k, None) => w.(ops := w.ops[k := if w.ops[k].LookPending? then LookScheduled else Done])
    case Find(k, Some(id)) => w.(ops := w.ops[k := Picked(id)])
    case Advance(k) => var (r, op) := Command(w.redis, w.ops[k]); World(w.now, r, w.ops[k := op])
    case Deliver(k, ok) =>
      w.(ops := w.ops[k := UpdateGet(w.ops[k].id, AfterDelivery(w.ops[k].email, ok))])
  }

  ghost predicate Initial(w: World) {
    w.redis == Redis(map[], map[]) && w.ops == map[]
  }

  ghost predicate IsRun(ws: seq<World>, steps: seq<Step>) {
    && |ws| == |steps| + 1 && Initial(ws[0])
    && forall i :: 0 <= i < |steps| ==> Enabled(ws[i], steps[i]) && ws[i + 1] == Apply(ws[i], steps[i])
  }

  // ----- What is to be shown -----

  /** The email is in no queue, or only in that of status `s`. */
  predicate OnlyIn(r: Redis, id: string, s: Status) {
    forall t :: (t, id) in r.queues ==> t == s
  }

  predicate InNone(r: Redis, id: string) {
    forall t :: (t, id) !in r.queues
  }

  /** The index agrees with the stored record. */
  predicate Agrees(r: Redis, id: string) {
    if id in r.data then OnlyIn(r, id, r.data[id].status) && (r.data[id].status, id) in r.queues
    else InNone(r, id)
  }

  /** What holds of an email while an operation works on it. */
  predicate Owned(r: Redis, op: Op)
    requires Owns(op).Some?
  {
    var id := op.id;
    match op
    case EnqueueSet(_, e) => id !in r.data && InNone(r, id)
    case EnqueueAdd(_, e) => id in r.data && r.data[id] == e && InNone(r, id)
    case Picked(_) => Agrees(r, id) && id in r.data && r.data[id].Waiting()
    case Read(_, e) => Agrees(r, id) && id in r.data && r.data[id] == e && e.Waiting()
    case UpdateGet(_, e) =>
      id in r.data && if e.status.Sending? then InNone(r, id) else OnlyIn(r, id, r.data[id].status)
    case UpdateRem(_, e, before) => if e.status.Sending? then InNone(r, id) else OnlyIn(r, id, before)
    case UpdateSet(_, e) => if e.status.Sending? then InNone(r, id) else OnlyIn(r, id, e.status)
    case UpdateAdd(_, e) => id in r.data && r.data[id] == e && OnlyIn(r, id, e.status)
    case Send(_, e) => Agrees(r, id) && id in r.data && r.data[id] == e && e.status.Sending?
    case DeleteGet(_) => Agrees(r, id)
    case DeleteRem(_, before) => id in r.data && OnlyIn(r, id, before)
    case DeleteDel(_) => InNone(r, id)
  }

  ghost predicate IsOwned(w: World, id: string) {
    exists k :: k in w.ops && Owns(w.ops[k]) == Some(id)
  }

  /** No two operations work on the same email. */
  ghost predicate Exclusive(w: World) {
    forall j, k :: j in w.ops && k in w.ops && j != k && Owns(w.ops[j]).Some? ==> Owns(w.ops[j]) != Owns(w.ops[k])
  }

  ghost predicate Inv(w: World) {
    && (forall k :: k in w.ops && Owns(w.ops[k]).Some? ==> Owned(w.redis, w.ops[k]))
    && forall id :: !IsOwned(w, id) ==> Agrees(w.redis, id)
  }

  /** An enqueued email has a new ID: nothing is stored under it, and no operation works on it, such as a deletion
      begun before. */
  ghost predicate FreshStart(w: World, s: Step) {
    s.Begin? && s.op.EnqueueSet? ==> s.op.id !in w.redis.data && !IsOwned(w, s.op.id)
  }

  // ----- One command keeps the index right -----

  /** A command touches only the email of its operation. */
  lemma CommandFrame(r: Redis, op: Op, id: string)
    requires Owns(op).Some? && !op.Send? && id != op.id
    ensures var r' := Command(r, op).0;
            && (id in r'.data <==> id in r.data) && (id in r.data ==> r'.data[id] == r.data[id])
            && (forall t :: (t, id) in r'.queues <==> (t, id) in r.queues)
            && forall t :: (t, id) in r.queues ==> r'.queues[(t, id)] == r.queues[(t, id)]
  {
  }

  lemma CommandKeeps(r: Redis, op: Op)
    requires Owns(op).Some? && !op.Send? && Owned(r, op)
    ensures var (r', op') := Command(r, op);
            if Owns(op').Some? then op'.id == op.id && Owned(r', op') else Agrees(r', op.id)
  {
  }

  lemma OwnedFrame(r: Redis, r': Redis, op: Op)
    requires Owns(op).Some? && Owned(r, op)
    requires (op.id in r'.data <==> op.id in r.data) && (op.id in r.data ==> r'.data[op.id] == r.data[op.id])
    requires forall t :: (t, op.id) in r'.queues <==> (t, op.id) in r.queues
    ensures Owned(r', op)
  {
  }

  lemma AdvanceKeeps(w: World, k: nat)
    requires Enabled(w, Advance(k)) && Inv(w) && Exclusive(w)
    ensures Inv(Apply(w, Advance(k)))
  {
    hide Owned, Agrees, Command;
    var op := w.ops[k];
    var v := Apply(w, Advance(k));
    CommandKeeps(w.redis, op);
    forall j | j in v.ops && Owns(v.ops[j]).Some?
      ensures Owned(v.redis, v.ops[j])
    {
      if j != k {
        CommandFrame(w.redis, op, w.ops[j].id);
        OwnedFrame(w.redis, v.redis, w.ops[j]);
      }
    }
    forall id | !IsOwned(v, id)
      ensures Agrees(v.redis, id)
    {
      if id != op.id {
        CommandFrame(w.redis, op, id);
        UnownedBefore(w, k, id);
        AgreesFrame(w.redis, v.redis, id);
      } else {
        assert v.ops[k] == Command(w.redis, op).1;
      }
    }
  }

  lemma AgreesFrame(r: Redis, r': Redis, id: string)
    requires Agrees(r, id)
    requires (id in r'.data <==> id in r.data) && (id in r.data ==> r'.data[id] == r.data[id])
    requires forall t :: (t, id) in r'.queues <==> (t, id) in r.queues
    ensures Agrees(r', id)
  {
  }

  lemma UnownedBefore(w: World, k: nat, id: string)
    requires Enabled(w, Advance(k)) && id != w.ops[k].id && !IsOwned(Apply(w, Advance(k)), id)
    ensures !IsOwned(w, id)
  {
    hide Command;
    forall j | j in w.ops
      ensures Owns(w.ops[j]) != Some(id)
    {
      assert j != k ==> Apply(w, Advance(k)).ops[j] == w.ops[j];
    }
  }

  lemma BeginKeeps(w: World, k: nat, op: Op)
    requires Enabled(w, Begin(k, op)) && Inv(w) && FreshStart(w, Begin(k, op))
    requires Exclusive(Apply(w, Begin(k, op)))
    ensures Inv(Apply(w, Begin(k, op)))
  {
    var v := Apply(w, Begin(k, op));
    if Owns(op).Some? {
      NotOwnedByOthers(w, v, k, op);
    }
    OwnersStay(w, v, k);
  }

  lemma FindKeeps(w: World, k: nat, id: Option<string>)
    requires Enabled(w, Find(k, id)) && Inv(w) && Exclusive(Apply(w, Find(k, id)))
    ensures Inv(Apply(w, Find(k, id)))
  {
    var v := Apply(w, Find(k, id));
    if id.Some? {
      NotOwnedByOthers(w, v, k, v.ops[k]);
      assert Agrees(w.redis, id.value);
    }
    OwnersStay(w, v, k);
  }

  /** An operation that takes up an email finds it free. */
  lemma NotOwnedByOthers(w: World, v: World, k: nat, op: Op)
    requires v.ops == w.ops[k := op] && Owns(op).Some? && Exclusive(v) && (k in w.ops ==> Owns(w.ops[k]).None?)
    ensures !IsOwned(w, op.id)
  {
    assert v.ops[k] == op;
    forall j | j in w.ops
      ensures Owns(w.ops[j]) != Some(op.id)
    {
      assert j != k ==> v.ops[j] == w.ops[j];
    }
  }

  lemma OwnersStay(w: World, v: World, k: nat)
    requires k in v.ops && v.ops == w.ops[k := v.ops[k]] && (k in w.ops ==> Owns(w.ops[k]).None?)
    ensures forall id :: IsOwned(w, id) ==> IsOwned(v, id)
  {
    forall id | IsOwned(w, id)
      ensures IsOwned(v, id)
    {
      var j :| j in w.ops && Owns(w.ops[j]) == Some(id);
      assert v.ops[j] == w.ops[j];
    }
  }

  lemma DeliverKeeps(w: World, k: nat, ok: bool)
    requires Enabled(w, Deliver(k, ok)) && Inv(w)
    ensures Inv(Apply(w, Deliver(k, ok)))
  {
    var v := Apply(w, Deliver(k, ok));
    assert Owned(w.redis, w.ops[k]);
    forall id | IsOwned(w, id)
      ensures IsOwned(v, id)
    {
      var j :| j in w.ops && Owns(w.ops[j]) == Some(id);
      assert Owns(v.ops[j]) == Some(id);
    }
  }

  lemma StepKeeps(w: World, s: Step)
    requires Enabled(w, s) && Inv(w) && Exclusive(w) && Exclusive(Apply(w, s)) && FreshStart(w, s)
    ensures Inv(Apply(w, s))
  {
    match s
    case Tick(_) =>
      assert forall id :: IsOwned(Apply(w, s), id) <==> IsOwned(w, id);
    case Begin(k, op) => BeginKeeps(w, k, op);
    case Find(k, id) => FindKeeps(w, k, id);
    case Advance(k) => AdvanceKeeps(w, k);
    case Deliver(k, ok) => DeliverKeeps(w, k, ok);
  }

  // ----- Whole runs -----

  lemma InitialIsRight(w: World)
    requires Initial(w)
    ensures Inv(w) && Exclusive(w)
  {
  }

  /** If no two operations ever work on the same email and enqueued IDs are new, then in every run every
      email that no operation works on is in exactly the queue of its stored status. */
  lemma {:induction false} RunsKeepIndex(ws: seq<World>, steps: seq<Step>, n: nat)
    requires IsRun(ws, steps) && n < |ws|
    requires forall i :: 0 <= i < |ws| ==> Exclusive(ws[i])
    requires forall i :: 0 <= i < |steps| ==> FreshStart(ws[i], steps[i])
    ensures Inv(ws[n])
  {
    if n == 0 {
      InitialIsRight(ws[0]);
    } else {
      RunsKeepIndex(ws, steps, n - 1);
      assert Enabled(ws[n - 1], steps[n - 1]) && ws[n - 1 + 1] == Apply(ws[n - 1], steps[n - 1]);
      StepKeeps(ws[n - 1], steps[n - 1]);
    }
  }

  /** Also while an operation works on it, an email is in at most one queue. */
  lemma AtMostOneQueue(w: World, id: string, s: Status, t: Status)
    requires Inv(w) && (s, id) in w.redis.queues && (t, id) in w.redis.queues
    ensures s == t
  {
    if IsOwned(w, id) {
      var k :| k in w.ops && Owns(w.ops[k]) == Some(id);
      assert Owned(w.redis, w.ops[k]);
    } else {
      assert Agrees(w.redis, id);
    }
  }

  predicate Works(op: Op) {
    !op.EnqueueSet? && !op.EnqueueAdd? && !op.Done?
  }

  /** At most one `processNext` or `Delete` at a time, beside any number of `Enqueue`s. */
  ghost predicate OneWorker(w: World) {
    forall j, k :: j in w.ops && k in w.ops && Works(w.ops[j]) && Works(w.ops[k]) ==> j == k
  }

  ghost predicate SafeDelete(w: World, s: Step) {
    s.Begin? && s.op.DeleteGet? ==> !IsOwned(w, s.op.id)
  }

  lemma ExclusiveStep(w: World, s: Step)
    requires Enabled(w, s) && Inv(w) && Exclusive(w) && OneWorker(w) && FreshStart(w, s) && SafeDelete(w, s)
    ensures Exclusive(Apply(w, s))
  {
    hide Command, Agrees;
    var v := Apply(w, s);
    if s.Begin? && Owns(s.op).Some? {
      assert forall j :: j in w.ops ==> Owns(w.ops[j]) != Owns(s.op);
    } else if s.Find? && s.id.Some? {
      forall j | j in w.ops
        ensures Owns(w.ops[j]) != s.id
      {
        assert Owns(w.ops[j]).Some? ==> Owned(w.redis, w.ops[j]);
      }
    } else if s.Advance? {
      AdvanceOwner(w.redis, w.ops[s.k]);
    }
  }

  lemma AdvanceOwner(r: Redis, op: Op)
    requires Owns(op).Some? && !op.Send?
    ensures Owns(Command(r, op).1) == Owns(op) || Owns(Command(r, op).1) == None
  {
  }

  /** With one worker at a time, and no email deleted while it is being enqueued, no two operations can meet on
      an email, so the index is always right, however the commands of enqueues interleave with the worker's. */
  lemma {:induction false} OneWorkerKeepsIndex(ws: seq<World>, steps: seq<Step>, n: nat)
    requires IsRun(ws, steps) && n < |ws|
    requires forall i :: 0 <= i < |ws| ==> OneWorker(ws[i])
    requires forall i :: 0 <= i < |steps| ==> FreshStart(ws[i], steps[i]) && SafeDelete(ws[i], steps[i])
    ensures Inv(ws[n]) && Exclusive(ws[n])
  {
    if n == 0 {
      InitialIsRight(ws[0]);
    } else {
      OneWorkerKeepsIndex(ws, steps, n - 1);
      assert Enabled(ws[n - 1], steps[n - 1]) && ws[n - 1 + 1] == Apply(ws[n - 1], steps[n - 1]);
      ExclusiveStep(ws[n - 1], steps[n - 1]);
      StepKeeps(ws[n - 1], steps[n - 1]);
    }
  }

  // ----- How often an email is sent -----

  predicate Delivers(w: World, s: Step, id: string)
    requires Enabled(w, s)
  {
    s.Deliver? && w.ops[s.k].id == id
  }

  /** How often the first `n` steps handed the email to the sender. */
  function Deliveries(ws: seq<World>, steps: seq<Step>, n: nat, id: string): nat
    requires n <= |steps| <= |ws| && forall i :: 0 <= i < |steps| ==> Enabled(ws[i], steps[i])
  {
    if n == 0 then 0
    else Deliveries(ws, steps, n - 1, id) + (if Delivers(ws[n - 1], steps[n - 1], id) then 1 else 0)
  }

  predicate Enqueues(s: Step, id: string) {
    s.Begin? && s.op.EnqueueSet? && s.op.id == id
  }

  ghost predicate EnqueuedOnce(steps: seq<Step>, id: string) {
    forall i, j :: 0 <= i < j < |steps| ==> !(Enqueues(steps[i], id) && Enqueues(steps[j], id))
  }

  /** The record of an email, enqueued as `e0`, that has been delivered `d` times, the last time with this
      result. */
  predicate Fits(e: Email, e0: Email, d: int, last: Option<bool>) {
    && e.maxRetries == e0.maxRetries && e.due == e0.due && e.priority == e0.priority
    && e.attempts == e0.attempts + d && 0 <= d <= e0.Limit() && (d == 0 <==> last.None?)
    && e.status == match last
                   case None => e0.status
                   case Some(ok) => if ok then Sent else if e.attempts < e.maxRetries then Pending else Failed
  }

  /** The record of an email that is about to be delivered once more. */
  predicate Attempting(e: Email, e0: Email, d: int, last: Option<bool>) {
    && e.maxRetries == e0.maxRetries && e.due == e0.due && e.priority == e0.priority
    && e.attempts == e0.attempts + d + 1 && 0 <= d < e0.Limit()
  }

  /** The result of the last delivery within the first `n` steps. */
  function LastDelivery(ws: seq<World>, steps: seq<Step>, n: nat, id: string): Option<bool>
    requires n <= |steps| <= |ws| && forall i :: 0 <= i < |steps| ==> Enabled(ws[i], steps[i])
  {
    if n == 0 then None
    else if Delivers(ws[n - 1], steps[n - 1], id) then Some(steps[n - 1].ok)
    else LastDelivery(ws, steps, n - 1, id)
  }

  predicate StoredFits(r: Redis, id: string, e0: Email, d: int, last: Option<bool>) {
    0 <= d <= e0.Limit() && (id in r.data ==> Fits(r.data[id], e0, d, last))
  }

  /** The same, read off the operation that works on the email. */
  predicate OpFits(r: Redis, op: Op, e0: Email, d: int, last: Option<bool>)
    requires Owns(op).Some?
  {
    match op
    case EnqueueSet(_, e) => e == e0 && d == 0 && last.None?
    case EnqueueAdd(_, e) => e == e0 && d == 0 && last.None?
    case Read(_, e) => Fits(e, e0, d, last)
    case UpdateGet(_, e) => if e.status.Sending? then Attempting(e, e0, d, last) else Fits(e, e0, d, last)
    case UpdateRem(_, e, _) => if e.status.Sending? then Attempting(e, e0, d, last) else Fits(e, e0, d, last)
    case UpdateSet(_, e) => if e.status.Sending? then Attempting(e, e0, d, last) else Fits(e, e0, d, last)
    case UpdateAdd(_, e) => if e.status.Sending? then Attempting(e, e0, d, last) else Fits(e, e0, d, last)
    case Send(_, e) => Attempting(e, e0, d, last)
    case _ => StoredFits(r, op.id, e0, d, last)
  }

  /** A worker has picked the email. */
  predicate Taken(op: Op) {
    Works(op) && !op.LookPending? && !op.LookScheduled? && !op.DeleteGet? && !op.DeleteRem? && !op.DeleteDel?
  }

  predicate ScoresFit(r: Redis, id: string, e0: Email) {
    forall s :: (s, id) in r.queues ==> r.queues[(s, id)] == e0.Score()
  }

  /** Whether at rest, worked on or deleted: the email has been delivered `d` times, within its limit, any record
      of it says so, and nobody takes it before its time. */
  ghost predicate Counted(w: World, id: string, e0: Email, d: int, last: Option<bool>) {
    && 0 <= d <= e0.Limit() && ScoresFit(w.redis, id, e0)
    && (forall k :: k in w.ops && Owns(w.ops[k]) == Some(id) ==>
          OpFits(w.redis, w.ops[k], e0, d, last) && (Taken(w.ops[k]) ==> e0.Score() <= w.now))
    && (!IsOwned(w, id) ==> StoredFits(w.redis, id, e0, d, last))
  }

  /** Nothing is known of the email yet; somebody may be trying to delete it. */
  ghost predicate Absent(w: World, id: string) {
    && id !in w.redis.data && InNone(w.redis, id)
    && forall k :: k in w.ops && Owns(w.ops[k]) == Some(id) ==> w.ops[k].DeleteGet?
  }

  lemma CommandCounts(r: Redis, op: Op, e0: Email, d: int, last: Option<bool>)
    requires Owns(op).Some? && !op.Send? && Owned(r, op) && OpFits(r, op, e0, d, last) && ScoresFit(r, op.id, e0)
    ensures var (r', op') := Command(r, op);
            && (if Owns(op').Some? then OpFits(r', op', e0, d, last) else StoredFits(r', op.id, e0, d, last))
            && ScoresFit(r', op.id, e0) && (Taken(op') ==> Taken(op))
  {
  }

  lemma AdvanceCounts(w: World, k: nat, id: string, e0: Email, d: int, last: Option<bool>)
    requires Enabled(w, Advance(k)) && Inv(w) && Exclusive(w) && Counted(w, id, e0, d, last)
    ensures Counted(Apply(w, Advance(k)), id, e0, d, last)
  {
    hide Command, Owned, Agrees, OpFits, StoredFits, Taken;
    var op := w.ops[k];
    var v := Apply(w, Advance(k));
    AdvanceOwner(w.redis, op);
    if id == op.id {
      CommandCounts(w.redis, op, e0, d, last);
      assert v.ops[k] == Command(w.redis, op).1;
    } else {
      CommandFrame(w.redis, op, id);
      SameCounts(w, v, k, id, e0, d, last);
    }
  }

  lemma SameCounts(w: World, v: World, k: nat, id: string, e0: Email, d: int, last: Option<bool>)
    requires k in w.ops && k in v.ops && v.ops == w.ops[k := v.ops[k]] && Counted(w, id, e0, d, last)
    requires Owns(w.ops[k]) != Some(id) && Owns(v.ops[k]) != Some(id)
    requires id in v.redis.data <==> id in w.redis.data
    requires id in w.redis.data ==> v.redis.data[id] == w.redis.data[id]
    requires ScoresFit(v.redis, id, e0) && w.now <= v.now
    ensures Counted(v, id, e0, d, last)
  {
    hide Fits, Attempting;
    assert IsOwned(w, id) <==> IsOwned(v, id) by {
      assert forall j :: j in w.ops && j != k ==> v.ops[j] == w.ops[j];
    }
  }

  /** An operation that takes up an email starts from the record. */
  lemma TakeUpCounts(w: World, v: World, k: nat, id: string, e0: Email, d: int, last: Option<bool>)
    requires v.redis == w.redis && v.now == w.now && k in v.ops && v.ops == w.ops[k := v.ops[k]]
    requires Exclusive(v) && Counted(w, id, e0, d, last) && (k in w.ops ==> Owns(w.ops[k]).None?)
    requires Owns(v.ops[k]) == Some(id) && StoredFits(w.redis, id, e0, d, last) ==>
               OpFits(v.redis, v.ops[k], e0, d, last) && (Taken(v.ops[k]) ==> e0.Score() <= w.now)
    ensures Counted(v, id, e0, d, last)
  {
    hide OpFits, StoredFits, Taken;
    OwnersStay(w, v, k);
    if Owns(v.ops[k]) == Some(id) {
      NotOwnedByOthers(w, v, k, v.ops[k]);
      assert Exclusive(v);
    } else {
      assert forall j :: j in v.ops && j != k ==> j in w.ops && v.ops[j] == w.ops[j];
    }
  }

  lemma DeliverCounts(w: World, k: nat, ok: bool, e0: Email, d: int, last: Option<bool>)
    requires Enabled(w, Deliver(k, ok)) && Exclusive(w) && Counted(w, w.ops[k].id, e0, d, last)
    ensures Counted(Apply(w, Deliver(k, ok)), w.ops[k].id, e0, d + 1, Some(ok))
  {
    var v := Apply(w, Deliver(k, ok));
    var id := w.ops[k].id;
    assert Owns(v.ops[k]) == Some(id) && Owns(w.ops[k]) == Some(id);
    assert OpFits(v.redis, v.ops[k], e0, d + 1, Some(ok));
    assert forall j :: j in v.ops && j != k ==> v.ops[j] == w.ops[j];
  }

  lemma CountStep(w: World, s: Step, id: string, e0: Email, d: int, last: Option<bool>)
    requires Enabled(w, s) && Inv(w) && Exclusive(w) && Exclusive(Apply(w, s)) && Counted(w, id, e0, d, last)
    requires !Enqueues(s, id)
    ensures Counted(Apply(w, s), id, e0, d + (if Delivers(w, s, id) then 1 else 0),
                    if Delivers(w, s, id) then Some(s.ok) else last)
  {
    hide Owned, Agrees, Command, First, Empty, Fits, Attempting;
    var v := Apply(w, s);
    match s
    case Tick(_) =>
      assert IsOwned(v, id) <==> IsOwned(w, id);
    case Begin(k, _) => TakeUpCounts(w, v, k, id, e0, d, last);
    case Find(k, found) =>
      if found == Some(id) {
        FoundIsDue(w, k, id);
      }
      TakeUpCounts(w, v, k, id, e0, d, last);
    case Advance(k) => AdvanceCounts(w, k, id, e0, d, last);
    case Deliver(k, ok) =>
      if w.ops[k].id == id {
        DeliverCounts(w, k, ok, e0, d, last);
      } else {
        SameCounts(w, v, k, id, e0, d, last);
      }
  }

  lemma FoundIsDue(w: World, k: nat, id: string)
    requires Enabled(w, Find(k, Some(id)))
    ensures exists s :: (s, id) in w.redis.queues && w.redis.queues[(s, id)] <= w.now
  {
    var s := if w.ops[k].LookPending? then Pending else Scheduled;
    assert (s, id) in w.redis.queues;
  }

  lemma AbsentStep(w: World, s: Step, id: string)
    requires Enabled(w, s) && Absent(w, id) && !Enqueues(s, id)
    ensures Absent(Apply(w, s), id) && !Delivers(w, s, id)
  {
    if s.Advance? && w.ops[s.k].id != id {
      CommandFrame(w.redis, w.ops[s.k], id);
      AdvanceOwner(w.redis, w.ops[s.k]);
      hide Command;
    }
  }

  /** Before it is enqueued, nothing is delivered. */
  lemma {:induction false} NothingDelivered(ws: seq<World>, steps: seq<Step>, n: nat, id: string)
    requires IsRun(ws, steps) && n < |ws| && forall i :: 0 <= i < n ==> !Enqueues(steps[i], id)
    ensures Absent(ws[n], id) && Deliveries(ws, steps, n, id) == 0 && LastDelivery(ws, steps, n, id) == None
  {
    if n > 0 {
      NothingDelivered(ws, steps, n - 1, id);
      assert Enabled(ws[n - 1], steps[n - 1]) && ws[n - 1 + 1] == Apply(ws[n - 1], steps[n - 1]);
      AbsentStep(ws[n - 1], steps[n - 1], id);
    }
  }

  lemma EnqueueCounts(w: World, k: nat, id: string, e0: Email)
    requires Enabled(w, Begin(k, EnqueueSet(id, e0))) && FreshStart(w, Begin(k, EnqueueSet(id, e0)))
    requires Absent(w, id)
    ensures Counted(Apply(w, Begin(k, EnqueueSet(id, e0))), id, e0, 0, None)
  {
    var v := Apply(w, Begin(k, EnqueueSet(id, e0)));
    assert Owns(v.ops[k]) == Some(id);
    assert forall j :: j in v.ops && j != k ==> j in w.ops && v.ops[j] == w.ops[j];
  }

  /** Under the same conditions, an ID that is enqueued once: from then on, also while it is worked on and
      after it is deleted, the attempts on its record are those it was enqueued with and one for each time it
      was handed to the sender, and that is no more often than its limit allows. */
  lemma {:induction false} AttemptsAreDeliveries(
    ws: seq<World>, steps: seq<Step>, a: nat, n: nat, k: nat, id: string, e0: Email)
    requires IsRun(ws, steps) && a < n < |ws| && steps[a] == Begin(k, EnqueueSet(id, e0)) && EnqueuedOnce(steps, id)
    requires forall i :: 0 <= i < |ws| ==> Exclusive(ws[i])
    requires forall i :: 0 <= i < |steps| ==> FreshStart(ws[i], steps[i])
    ensures Counted(ws[n], id, e0, Deliveries(ws, steps, n, id), LastDelivery(ws, steps, n, id))
  {
    hide Counted, Apply, Inv, Exclusive, FreshStart, IsRun;
    RunLengths(ws, steps);
    RunStep(ws, steps, n - 1);
    assert Enqueues(steps[a], id);
    if n == a + 1 {
      NothingDelivered(ws, steps, a, id);
      EnqueueCounts(ws[a], k, id, e0);
    } else {
      AttemptsAreDeliveries(ws, steps, a, n - 1, k, id, e0);
      RunsKeepIndex(ws, steps, n - 1);
      CountStep(ws[n - 1], steps[n - 1], id, e0,
                Deliveries(ws, steps, n - 1, id), LastDelivery(ws, steps, n - 1, id));
    }
  }

  lemma RunLengths(ws: seq<World>, steps: seq<Step>)
    requires IsRun(ws, steps)
    ensures |ws| == |steps| + 1
  {
  }

  lemma RunStep(ws: seq<World>, steps: seq<Step>, i: nat)
    requires IsRun(ws, steps) && i < |steps|
    ensures |ws| == |steps| + 1 && forall j :: 0 <= j < |steps| ==> Enabled(ws[j], steps[j])
    ensures ws[i + 1] == Apply(ws[i], steps[i])
  {
  }

  /** So no email is ever sent more often than its limit allows. */
  lemma DeliveriesAreBounded(ws: seq<World>, steps: seq<Step>, a: nat, n: nat, k: nat, id: string, e0: Email)
    requires IsRun(ws, steps) && a < n < |ws| && steps[a] == Begin(k, EnqueueSet(id, e0)) && EnqueuedOnce(steps, id)
    requires forall i :: 0 <= i < |ws| ==> Exclusive(ws[i])
    requires forall i :: 0 <= i < |steps| ==> FreshStart(ws[i], steps[i])
    ensures Deliveries(ws, steps, n, id) <= e0.Limit()
    ensures Deliveries(ws, steps, n, id) <= 1 || e0.attempts + Deliveries(ws, steps, n, id) <= e0.maxRetries
    ensures id in ws[n].redis.data && !IsOwned(ws[n], id) ==>
              ws[n].redis.data[id].attempts == e0.attempts + Deliveries(ws, steps, n, id)
  {
    AttemptsAreDeliveries(ws, steps, a, n, k, id, e0);
  }

  /** Once nobody works on it, the status of an email is what became of its last delivery. */
  lemma StatusIsOutcome(ws: seq<World>, steps: seq<Step>, a: nat, n: nat, k: nat, id: string, e0: Email)
    requires IsRun(ws, steps) && a < n < |ws| && steps[a] == Begin(k, EnqueueSet(id, e0)) && EnqueuedOnce(steps, id)
    requires forall i :: 0 <= i < |ws| ==> Exclusive(ws[i])
    requires forall i :: 0 <= i < |steps| ==> FreshStart(ws[i], steps[i])
    requires id in ws[n].redis.data && !IsOwned(ws[n], id)
    ensures var e, last := ws[n].redis.data[id], LastDelivery(ws, steps, n, id);
            && (last.None? ==> e.status == e0.status)
            && (last.Some? ==> && (e.status == Sent <==> last.value)
                               && (e.status == Failed <==> !last.value && e.attempts >= e.maxRetries)
                               && (e.status == Pending <==> !last.value && e.attempts < e.maxRetries))
  {
    AttemptsAreDeliveries(ws, steps, a, n, k, id, e0);
  }

  /** No email is handed to the sender before the time it is due, less a second for each step of its priority. */
  lemma NotBeforeItsTime(ws: seq<World>, steps: seq<Step>, a: nat, n: nat, k: nat, id: string, e0: Email)
    requires IsRun(ws, steps) && a < n < |steps| && steps[a] == Begin(k, EnqueueSet(id, e0)) && EnqueuedOnce(steps, id)
    requires forall i :: 0 <= i < |ws| ==> Exclusive(ws[i])
    requires forall i :: 0 <= i < |steps| ==> FreshStart(ws[i], steps[i])
    requires steps[n].Deliver? && Delivers(ws[n], steps[n], id)
    ensures e0.due - e0.priority <= ws[n].now
  {
    AttemptsAreDeliveries(ws, steps, a, n, k, id, e0);
    assert Owns(ws[n].ops[steps[n].k]) == Some(id) && Taken(ws[n].ops[steps[n].k]);
  }

  // ----- Which email a worker takes -----

  /** It takes one that is due, and of its queue none with an earlier score is. */
  lemma TakesTheEarliest(w: World, k: nat, id: string, other: string)
    requires Enabled(w, Find(k, Some(id)))
    ensures var s := if w.ops[k].LookPending? then Pending else Scheduled;
            && (s, id) in w.redis.queues && 0 <= w.redis.queues[(s, id)] <= w.now
            && ((s, other) in w.redis.queues && 0 <= w.redis.queues[(s, other)] <= w.now ==>
                  w.redis.queues[(s, id)] <= w.redis.queues[(s, other)])
  {
  }

  /** It looks for scheduled emails only after it has found no pending one due. */
  lemma {:induction false} PendingFirst(ws: seq<World>, steps: seq<Step>, n: nat, k: nat) returns (m: nat)
    requires IsRun(ws, steps) && n < |ws| && k in ws[n].ops && ws[n].ops[k].LookScheduled?
    ensures m < n && steps[m] == Find(k, None) && k in ws[m].ops && ws[m].ops[k].LookPending?
    ensures forall id :: (Pending, id) in ws[m].redis.queues ==> !(0 <= ws[m].redis.queues[(Pending, id)] <= ws[m].now)
  {
    assert Enabled(ws[n - 1], steps[n - 1]) && ws[n - 1 + 1] == Apply(ws[n - 1], steps[n - 1]);
    if k in ws[n - 1].ops && ws[n - 1].ops[k].LookScheduled? {
      m := PendingFirst(ws, steps, n - 1, k);
    } else {
      m := n - 1;
      BecomesScheduled(ws[m], steps[m], k);
    }
  }

  lemma BecomesScheduled(w: World, s: Step, k: nat)
    requires Enabled(w, s) && k in Apply(w, s).ops && Apply(w, s).ops[k].LookScheduled?
    requires !(k in w.ops && w.ops[k].LookScheduled?)
    ensures s == Find(k, None) && k in w.ops && w.ops[k].LookPending?
    ensures forall id :: (Pending, id) in w.redis.queues ==> !(0 <= w.redis.queues[(Pending, id)] <= w.now)
  {
  }

  // ----- How many workers the index can stand -----

  ghost function Workers(w: World): set<nat> {
    set k | k in w.ops && Works(w.ops[k])
  }

  /** A run with new IDs and at most `n` operations that work on emails at a time; if `safe`, no email is
      deleted while an operation works on it, its enqueuing included. */
  ghost predicate IsRunOf(n: nat, safe: bool, ws: seq<World>, steps: seq<Step>) {
    && IsRun(ws, steps)
    && (forall i :: 0 <= i < |ws| ==> |Workers(ws[i])| <= n)
    && forall i :: 0 <= i < |steps| ==> FreshStart(ws[i], steps[i]) && (safe ==> SafeDelete(ws[i], steps[i]))
  }

  /** In all those runs every email that no operation works on is in exactly the queue of its status. */
  ghost predicate IndexKept(n: nat, safe: bool) {
    forall ws: seq<World>, steps: seq<Step>, i: nat, id: string ::
      IsRunOf(n, safe, ws, steps) && i < |ws| && !IsOwned(ws[i], id) ==> Agrees(ws[i].redis, id)
  }

  /** Two operations are about to send the same email. */
  predicate DoubleSend(w: World, j: nat, k: nat) {
    j in w.ops && k in w.ops && j != k && w.ops[j].Send? && w.ops[k].Send? && w.ops[j].id == w.ops[k].id
  }

  ghost predicate SendsAreSingle(n: nat, safe: bool) {
    forall ws: seq<World>, steps: seq<Step>, i: nat, j: nat, k: nat ::
      IsRunOf(n, safe, ws, steps) && i < |ws| ==> !DoubleSend(ws[i], j, k)
  }

  lemma AtMostOneWorks(w: World)
    requires |Workers(w)| <= 1
    ensures OneWorker(w)
  {
    forall j, k | j in w.ops && k in w.ops && Works(w.ops[j]) && Works(w.ops[k])
      ensures j == k
    {
      SubsetSize({j, k}, Workers(w));
    }
  }

  /** Without workers nothing is deleted. */
  lemma NobodyDeletes(safe: bool, ws: seq<World>, steps: seq<Step>, i: nat)
    requires IsRunOf(0, safe, ws, steps) && i < |steps|
    ensures SafeDelete(ws[i], steps[i])
  {
    assert Enabled(ws[i], steps[i]) && ws[i + 1] == Apply(ws[i], steps[i]);
    hide Workers;
    if steps[i].Begin? && steps[i].op.DeleteGet? {
      DeleterWorks(ws[i], steps[i]);
    }
  }

  lemma DeleterWorks(w: World, s: Step)
    requires Enabled(w, s) && s.Begin? && s.op.DeleteGet?
    ensures |Workers(Apply(w, s))| > 0
  {
    assert s.k in Workers(Apply(w, s));
  }

  lemma OneWorkerIsEnough(n: nat, safe: bool, ws: seq<World>, steps: seq<Step>, i: nat)
    requires (n == 0 || (n == 1 && safe)) && IsRunOf(n, safe, ws, steps) && i < |ws|
    ensures Inv(ws[i]) && Exclusive(ws[i])
  {
    forall m | 0 <= m < |ws|
      ensures OneWorker(ws[m])
    {
      AtMostOneWorks(ws[m]);
    }
    forall m | 0 <= m < |steps|
      ensures SafeDelete(ws[m], steps[m])
    {
      if n == 0 {
        NobodyDeletes(safe, ws, steps, m);
      }
    }
    OneWorkerKeepsIndex(ws, steps, i);
  }

  // ----- Two workers, one email -----

  lemma WorkersStay(w: World, s: Step)
    requires Enabled(w, s) && !s.Begin?
    ensures Workers(Apply(w, s)) <= Workers(w)
  {
  }

  /** Only steps that start no operation are added. */
  ghost predicate Continues(steps: seq<Step>, steps': seq<Step>) {
    steps <= steps' && forall i :: |steps| <= i < |steps'| ==> !steps'[i].Begin?
  }

  lemma GoOn(a: seq<Step>, b: seq<Step>, c: seq<Step>)
    requires Continues(a, b) && Continues(b, c)
    ensures Continues(a, c)
  {
    assert forall i :: |a| <= i < |b| ==> c[i] == b[i];
  }

  /** A run goes on by any step that starts no operation. */
  lemma OneMore(n: nat, safe: bool, ws: seq<World>, steps: seq<Step>, w: World, s: Step)
    returns (ws': seq<World>, steps': seq<Step>, v: World)
    requires IsRunOf(n, safe, ws, steps) && ws[|ws| - 1] == w && Enabled(w, s) && !s.Begin?
    ensures v == Apply(w, s) && IsRunOf(n, safe, ws', steps') && ws'[|ws'| - 1] == v && ws <= ws'
    ensures steps' == steps + [s] && Continues(steps, steps')
  {
    v := Apply(w, s);
    WorkersStay(w, s);
    SubsetSize(Workers(v), Workers(w));
    ws', steps' := ws + [v], steps + [s];
  }

  lemma OneStart(n: nat, safe: bool, ws: seq<World>, steps: seq<Step>, w: World, s: Step)
    returns (ws': seq<World>, steps': seq<Step>, v: World)
    requires IsRunOf(n, safe, ws, steps) && ws[|ws| - 1] == w && Enabled(w, s) && FreshStart(w, s)
    requires (safe ==> SafeDelete(w, s)) && |Workers(Apply(w, s))| <= n
    ensures v == Apply(w, s) && IsRunOf(n, safe, ws', steps') && ws'[|ws'| - 1] == v && steps' == steps + [s]
  {
    v := Apply(w, s);
    ws', steps' := ws + [v], steps + [s];
  }

  /** Two workers that look at the same time get the same email and both read it before either removes it. */
  lemma BothPick(n: nat, safe: bool, ws: seq<World>, steps: seq<Step>, w: World, i: nat, j: nat, id: string)
    returns (ws': seq<World>, steps': seq<Step>, v: World)
    requires IsRunOf(n, safe, ws, steps) && ws[|ws| - 1] == w
    requires i != j && i in w.ops && j in w.ops && w.ops[i].LookPending? && w.ops[j].LookPending?
    requires id in w.redis.data && First(w.redis, Pending, id, w.now)
    ensures IsRunOf(n, safe, ws', steps') && ws'[|ws'| - 1] == v && ws <= ws'
    ensures v == w.(ops := w.ops[i := Read(id, w.redis.data[id])][j := Read(id, w.redis.data[id])])
  {
    hide IsRunOf;
    ws', steps', v := OneMore(n, safe, ws, steps, w, Find(i, Some(id)));
    ws', steps', v := OneMore(n, safe, ws', steps', v, Find(j, Some(id)));
    ws', steps', v := OneMore(n, safe, ws', steps', v, Advance(i));
    ws', steps', v := OneMore(n, safe, ws', steps', v, Advance(j));
    assert v.ops == w.ops[i := Read(id, w.redis.data[id])][j := Read(id, w.redis.data[id])];
  }

  function ToSend(e: Email): Email {
    e.(status := Sending, attempts := e.attempts + 1)
  }

  lemma GoesOnToStore(n: nat, safe: bool, ws: seq<World>, steps: seq<Step>, w: World, i: nat, id: string, e: Email)
    returns (ws': seq<World>, steps': seq<Step>, v: World)
    requires IsRunOf(n, safe, ws, steps) && ws[|ws| - 1] == w && i in w.ops && w.ops[i] == Read(id, e)
    ensures IsRunOf(n, safe, ws', steps') && ws'[|ws'| - 1] == v && ws <= ws' && v.now == w.now
    ensures v.ops == w.ops[i := UpdateSet(id, ToSend(e))] && Continues(steps, steps')
  {
    hide IsRunOf, Continues;
    ghost var s1, s2;
    ws', s1, v := OneMore(n, safe, ws, steps, w, Advance(i));
    ws', s2, v := OneMore(n, safe, ws', s1, v, Advance(i));
    GoOn(steps, s1, s2);
    steps' := s2;
    if v.ops[i].UpdateRem? {
      ws', steps', v := OneMore(n, safe, ws', s2, v, Advance(i));
      GoOn(steps, s2, steps');
    }
    assert v.ops == w.ops[i := UpdateSet(id, ToSend(e))];
  }

  /** A worker that has read an email goes on to send it, whatever another worker has done meanwhile. */
  lemma GoesOnToSend(n: nat, safe: bool, ws: seq<World>, steps: seq<Step>, w: World, i: nat, id: string, e: Email)
    returns (ws': seq<World>, steps': seq<Step>, v: World)
    requires IsRunOf(n, safe, ws, steps) && ws[|ws| - 1] == w && i in w.ops && w.ops[i] == Read(id, e)
    ensures IsRunOf(n, safe, ws', steps') && ws'[|ws'| - 1] == v && ws <= ws' && v.now == w.now
    ensures v.ops == w.ops[i := Send(id, ToSend(e))] && id in v.redis.data && v.redis.data[id] == ToSend(e)
    ensures Continues(steps, steps')
  {
    hide IsRunOf, Continues;
    ghost var s1, s2;
    ws', s1, v := GoesOnToStore(n, safe, ws, steps, w, i, id, e);
    ws', s2, v := OneMore(n, safe, ws', s1, v, Advance(i));
    GoOn(steps, s1, s2);
    ws', steps', v := OneMore(n, safe, ws', s2, v, Advance(i));
    GoOn(steps, s2, steps');
    assert v.ops == w.ops[i := Send(id, ToSend(e))];
  }

  /** The worker comes to look at the queue of the email. */
  lemma LooksAt(n: nat, safe: bool, ws: seq<World>, steps: seq<Step>, w: World, i: nat, id: string)
    returns (ws': seq<World>, steps': seq<Step>, v: World)
    requires IsRunOf(n, safe, ws, steps) && ws[|ws| - 1] == w && i in w.ops && w.ops[i].LookPending?
    requires || First(w.redis, Pending, id, w.now)
             || (Empty(w.redis, Pending, w.now) && First(w.redis, Scheduled, id, w.now))
    ensures IsRunOf(n, safe, ws', steps') && ws'[|ws'| - 1] == v && ws <= ws' && Continues(steps, steps')
    ensures Enabled(v, Find(i, Some(id))) && v == w.(ops := w.ops[i := v.ops[i]])
  {
    hide IsRunOf, First, Empty;
    ws', steps', v := ws, steps, w;
    if !First(w.redis, Pending, id, w.now) {
      ws', steps', v := OneMore(n, safe, ws, steps, w, Find(i, None));
    } else {
      assert w.ops == w.ops[i := w.ops[i]];
    }
  }

  /** Whenever in a run a worker looks, an email that is due is sent: the first pending one, and if none is due,
      the first scheduled one. */
  lemma DueIsSent(n: nat, safe: bool, ws: seq<World>, steps: seq<Step>, w: World, i: nat, id: string)
    returns (ws': seq<World>, steps': seq<Step>, v: World)
    requires IsRunOf(n, safe, ws, steps) && ws[|ws| - 1] == w && i in w.ops && w.ops[i].LookPending?
    requires id in w.redis.data
    requires || First(w.redis, Pending, id, w.now)
             || (Empty(w.redis, Pending, w.now) && First(w.redis, Scheduled, id, w.now))
    ensures IsRunOf(n, safe, ws', steps') && ws'[|ws'| - 1] == v && ws <= ws'
    ensures v.ops == w.ops[i := Send(id, ToSend(w.redis.data[id]))] && v.now == w.now && Continues(steps, steps')
  {
    hide IsRunOf, First, Empty, Continues;
    ghost var s1, s2, s3;
    ws', s1, v := LooksAt(n, safe, ws, steps, w, i, id);
    ws', s2, v := OneMore(n, safe, ws', s1, v, Find(i, Some(id)));
    GoOn(steps, s1, s2);
    ws', s3, v := OneMore(n, safe, ws', s2, v, Advance(i));
    GoOn(steps, s2, s3);
    ws', steps', v := GoesOnToSend(n, safe, ws', s3, v, i, id, w.redis.data[id]);
    GoOn(steps, s3, steps');
    assert v.ops == w.ops[i := Send(id, ToSend(w.redis.data[id]))];
  }

  /** Whenever in a run an email is first in the pending queue and two workers look for work, the run goes on
      to one in which both of them send it. */
  lemma TwoWorkersSendOneEmail(
    n: nat, safe: bool, ws: seq<World>, steps: seq<Step>, w: World, i: nat, j: nat, id: string)
    returns (ws': seq<World>, steps': seq<Step>, v: World)
    requires IsRunOf(n, safe, ws, steps) && ws[|ws| - 1] == w
    requires i != j && i in w.ops && j in w.ops && w.ops[i].LookPending? && w.ops[j].LookPending?
    requires id in w.redis.data && First(w.redis, Pending, id, w.now)
    ensures IsRunOf(n, safe, ws', steps') && ws'[|ws'| - 1] == v && ws <= ws'
    ensures var e := ToSend(w.redis.data[id]);
            && v.ops == w.ops[i := Send(id, e)][j := Send(id, e)]
            && id in v.redis.data && v.redis.data[id] == e
    ensures DoubleSend(v, i, j)
  {
    hide IsRunOf, First;
    var e := w.redis.data[id];
    ws', steps', v := BothPick(n, safe, ws, steps, w, i, j, id);
    ws', steps', v := GoesOnToSend(n, safe, ws', steps', v, i, id, e);
    ws', steps', v := GoesOnToSend(n, safe, ws', steps', v, j, id, e);
    assert v.ops == w.ops[i := Send(id, ToSend(e))][j := Send(id, ToSend(e))];
  }

  /** One of them succeeds, the other fails and will retry; both have seen the record as sending. */
  lemma BothDeliver(
    n: nat, safe: bool, ws: seq<World>, steps: seq<Step>, w: World, i: nat, j: nat, id: string, e: Email)
    returns (ws': seq<World>, steps': seq<Step>, v: World)
    requires IsRunOf(n, safe, ws, steps) && ws[|ws| - 1] == w
    requires i != j && i in w.ops && j in w.ops && w.ops[i] == Send(id, e) && w.ops[j] == Send(id, e)
    requires id in w.redis.data && w.redis.data[id].status.Sending? && e.attempts < e.maxRetries
    ensures IsRunOf(n, safe, ws', steps') && ws'[|ws'| - 1] == v && v.redis == w.redis
    ensures v.ops == w.ops[i := UpdateRem(id, e.(status := Sent), Sending)]
                          [j := UpdateRem(id, e.(status := Pending), Sending)]
  {
    hide IsRunOf;
    ws', steps', v := OneMore(n, safe, ws, steps, w, Deliver(i, true));
    ws', steps', v := OneMore(n, safe, ws', steps', v, Deliver(j, false));
    ws', steps', v := OneMore(n, safe, ws', steps', v, Advance(i));
    ws', steps', v := OneMore(n, safe, ws', steps', v, Advance(j));
    assert v.ops == w.ops[i := UpdateRem(id, e.(status := Sent), Sending)]
                         [j := UpdateRem(id, e.(status := Pending), Sending)];
  }

  lemma FinishUpdate(n: nat, safe: bool, ws: seq<World>, steps: seq<Step>, w: World, i: nat)
    returns (ws': seq<World>, steps': seq<Step>, v: World)
    requires IsRunOf(n, safe, ws, steps) && ws[|ws| - 1] == w
    requires i in w.ops && w.ops[i].UpdateRem? && !w.ops[i].email.status.Sending?
    ensures IsRunOf(n, safe, ws', steps') && ws'[|ws'| - 1] == v && v.ops == w.ops[i := Done]
    ensures (w.ops[i].email.status, w.ops[i].id) in v.redis.queues
    ensures forall k :: k in w.redis.queues && k != (w.ops[i].before, w.ops[i].id) ==> k in v.redis.queues
  {
    hide IsRunOf;
    ws', steps', v := OneMore(n, safe, ws, steps, w, Advance(i));
    ws', steps', v := OneMore(n, safe, ws', steps', v, Advance(i));
    ws', steps', v := OneMore(n, safe, ws', steps', v, Advance(i));
    assert v.ops == w.ops[i := Done];
  }

  const MAIL := Email(Pending, 0, 3, 0, 0)

  /** An email has been enqueued. */
  lemma Enqueued(n: nat, safe: bool, e: Email) returns (ws: seq<World>, steps: seq<Step>, w: World)
    requires n >= 1
    ensures IsRunOf(n, safe, ws, steps) && ws[|ws| - 1] == w && Continues([Begin(0, EnqueueSet("a", e))], steps)
    ensures w == World(0, Redis(map["a" := e], map[(e.status, "a") := e.Score()]), map[0 := Done])
  {
    hide IsRunOf, Workers, Continues;
    var s1, s2;
    w := World(0, Redis(map[], map[]), map[]);
    ws, steps := [w], [];
    FewWorkers(w, n);
    NoSteps(n, safe, w);
    FewWorkers(w.(ops := w.ops[0 := EnqueueSet("a", e)]), n);
    ws, s1, w := OneStart(n, safe, ws, steps, w, Begin(0, EnqueueSet("a", e)));
    assert s1 == [Begin(0, EnqueueSet("a", e))];
    assert w == World(0, Redis(map[], map[]), map[0 := EnqueueSet("a", e)]);
    ws, s2, w := OneMore(n, safe, ws, s1, w, Advance(0));
    assert w == World(0, Redis(map["a" := e], map[]), map[0 := EnqueueAdd("a", e)]);
    ws, steps, w := OneMore(n, safe, ws, s2, w, Advance(0));
    GoOn(s1, s2, steps);
  }

  /** Another worker looks for work. */
  lemma OneLooks(n: nat, safe: bool, ws: seq<World>, steps: seq<Step>, w: World, k: nat)
    returns (ws': seq<World>, steps': seq<Step>, v: World)
    requires IsRunOf(n, safe, ws, steps) && ws[|ws| - 1] == w && k !in w.ops
    requires |Workers(w.(ops := w.ops[k := LookPending]))| <= n
    ensures v == w.(ops := w.ops[k := LookPending])
    ensures IsRunOf(n, safe, ws', steps') && ws'[|ws'| - 1] == v && steps' == steps + [Begin(k, LookPending)]
  {
    hide IsRunOf, Workers, IsOwned;
    ws', steps', v := OneStart(n, safe, ws, steps, w, Begin(k, LookPending));
  }

  /** Two workers look for work. */
  lemma TwoLookers(n: nat, safe: bool) returns (ws: seq<World>, steps: seq<Step>, w: World)
    requires n >= 2
    ensures IsRunOf(n, safe, ws, steps) && ws[|ws| - 1] == w
    ensures w.ops == map[0 := Done, 1 := LookPending, 2 := LookPending]
    ensures w.now == 0 && w.redis == Redis(map["a" := MAIL], map[(Pending, "a") := 0])
  {
    hide IsRunOf, Workers, Continues, Works;
    ws, steps, w := Enqueued(n, safe, MAIL);
    LookerIsOne(w, 1, n);
    ws, steps, w := OneLooks(n, safe, ws, steps, w, 1);
    assert w.ops == map[0 := Done, 1 := LookPending];
    LookerIsOne(w, 2, n);
    ws, steps, w := OneLooks(n, safe, ws, steps, w, 2);
    assert w.ops == map[0 := Done, 1 := LookPending, 2 := LookPending];
  }

  lemma LookerIsOne(w: World, k: nat, n: nat)
    requires k == 1 || (k == 2 && n >= 2)
    requires n >= 1 && w.ops.Keys <= {0, 1} && (0 in w.ops ==> w.ops[0] == Done)
    ensures |Workers(w.(ops := w.ops[k := LookPending]))| <= n
  {
    FewWorkers(w.(ops := w.ops[k := LookPending]), n);
  }

  lemma NoSteps(n: nat, safe: bool, w: World)
    requires Initial(w) && |Workers(w)| <= n
    ensures IsRunOf(n, safe, [w], [])
  {
  }

  lemma FewWorkers(w: World, n: nat)
    requires n >= 1 && w.ops.Keys <= {0, 1, 2} && (0 in w.ops ==> !Works(w.ops[0])) && (n == 1 ==> 2 !in w.ops)
    ensures |Workers(w)| <= n
  {
    SubsetSize(Workers(w), if n == 1 then {1} else {1, 2});
  }

  /** After that run the email is in the queue of sent and in that of pending emails, and nobody works on it. */
  lemma IndexBreaks(n: nat, safe: bool) returns (ws: seq<World>, steps: seq<Step>, v: World)
    requires n >= 2
    ensures IsRunOf(n, safe, ws, steps) && ws[|ws| - 1] == v
    ensures !IsOwned(v, "a") && (Sent, "a") in v.redis.queues && (Pending, "a") in v.redis.queues
  {
    hide IsRunOf;
    ws, steps, v := TwoLookers(n, safe);
    ws, steps, v := TwoWorkersSendOneEmail(n, safe, ws, steps, v, 1, 2, "a");
    ws, steps, v := BothDeliver(n, safe, ws, steps, v, 1, 2, "a", ToSend(MAIL));
    ws, steps, v := FinishUpdate(n, safe, ws, steps, v, 1);
    ws, steps, v := FinishUpdate(n, safe, ws, steps, v, 2);
    assert v.ops == map[0 := Done, 1 := Done, 2 := Done];
  }

  /** An enqueue has stored its email but not indexed it. */
  lemma HalfEnqueued(n: nat, safe: bool) returns (ws: seq<World>, steps: seq<Step>, w: World)
    requires n >= 1
    ensures IsRunOf(n, safe, ws, steps) && ws[|ws| - 1] == w && w.ops == map[0 := EnqueueAdd("a", MAIL)]
    ensures w.redis == Redis(map["a" := MAIL], map[])
  {
    hide IsRunOf, Workers;
    w := World(0, Redis(map[], map[]), map[]);
    ws, steps := [w], [];
    FewWorkers(w, n);
    NoSteps(n, safe, w);
    FewWorkers(w.(ops := w.ops[0 := EnqueueSet("a", MAIL)]), n);
    ws, steps, w := OneStart(n, safe, ws, steps, w, Begin(0, EnqueueSet("a", MAIL)));
    ws, steps, w := OneMore(n, safe, ws, steps, w, Advance(0));
  }

  /** A deletion that runs whole leaves neither record nor entry. */
  lemma GoesOnToDelete(n: nat, safe: bool, ws: seq<World>, steps: seq<Step>, w: World, i: nat, id: string)
    returns (ws': seq<World>, steps': seq<Step>, v: World)
    requires IsRunOf(n, safe, ws, steps) && ws[|ws| - 1] == w
    requires i in w.ops && w.ops[i] == DeleteGet(id) && id in w.redis.data
    ensures IsRunOf(n, safe, ws', steps') && ws'[|ws'| - 1] == v
    ensures v.ops == w.ops[i := Done] && id !in v.redis.data
  {
    hide IsRunOf;
    ws', steps', v := OneMore(n, safe, ws, steps, w, Advance(i));
    ws', steps', v := OneMore(n, safe, ws', steps', v, Advance(i));
    ws', steps', v := OneMore(n, safe, ws', steps', v, Advance(i));
    assert v.ops == w.ops[i := Done];
  }

  /** The email is deleted between the two commands of its enqueuing. The second one then indexes an email that
      is not there, and nobody works on it. */
  lemma DeletedTooEarly(n: nat) returns (ws: seq<World>, steps: seq<Step>, v: World)
    requires n >= 1
    ensures IsRunOf(n, false, ws, steps) && ws[|ws| - 1] == v
    ensures !IsOwned(v, "a") && "a" !in v.redis.data && (Pending, "a") in v.redis.queues
  {
    hide IsRunOf, Workers;
    ws, steps, v := HalfEnqueued(n, false);
    FewWorkers(v.(ops := v.ops[1 := DeleteGet("a")]), n);
    ws, steps, v := OneStart(n, false, ws, steps, v, Begin(1, DeleteGet("a")));
    ws, steps, v := GoesOnToDelete(n, false, ws, steps, v, 1, "a");
    assert v.ops == map[0 := EnqueueAdd("a", MAIL), 1 := Done];
    ws, steps, v := OneMore(n, false, ws, steps, v, Advance(0));
    assert v.ops == map[0 := Done, 1 := Done];
  }

  /** In all runs with one worker and safe deletions, no email of at most this priority is sent before it is due. */
  ghost predicate NeverEarly(priority: int) {
    forall ws: seq<World>, steps: seq<Step>, a: nat, n: nat, k: nat, id: string, e0: Email ::
      (&& IsRunOf(1, true, ws, steps) && a < n < |steps| && steps[a] == Begin(k, EnqueueSet(id, e0))
       && EnqueuedOnce(steps, id) && e0.priority <= priority
       && Enabled(ws[n], steps[n]) && Delivers(ws[n], steps[n], id)) ==> e0.due <= ws[n].now
  }

  function Soon(priority: int): Email {
    Email(Scheduled, 0, 3, priority, priority)
  }

  /** An email scheduled for `priority` seconds later, and a worker that looks. */
  lemma SoonAndLooker(priority: int) returns (ws: seq<World>, steps: seq<Step>, w: World)
    ensures IsRunOf(1, true, ws, steps) && ws[|ws| - 1] == w && EnqueuedOnce(steps, "a")
    ensures steps != [] && steps[0] == Begin(0, EnqueueSet("a", Soon(priority)))
    ensures w.now == 0 && w.redis == Redis(map["a" := Soon(priority)], map[(Scheduled, "a") := 0])
    ensures w.ops == map[0 := Done, 1 := LookPending]
  {
    hide IsRunOf, Workers, Continues;
    var s1;
    ws, s1, w := Enqueued(1, true, Soon(priority));
    LookerIsOne(w, 1, 1);
    ws, steps, w := OneLooks(1, true, ws, s1, w, 1);
    OneEnqueue(Begin(0, EnqueueSet("a", Soon(priority))), s1, Begin(1, LookPending), steps);
    assert w.ops == map[0 := Done, 1 := LookPending];
  }

  lemma OneEnqueue(first: Step, s1: seq<Step>, s: Step, steps: seq<Step>)
    requires Continues([first], s1) && steps == s1 + [s] && !Enqueues(s, "a")
    ensures EnqueuedOnce(steps, "a") && steps != [] && steps[0] == first
  {
    assert forall i :: 1 <= i < |s1| ==> !Enqueues(s1[i], "a");
    assert s1[0] == [first][0];
  }

  /** The worker sends it at once. */
  lemma SentEarly(priority: int) returns (ws: seq<World>, steps: seq<Step>, n: nat)
    ensures IsRunOf(1, true, ws, steps) && 0 < n < |steps| && EnqueuedOnce(steps, "a")
    ensures steps[0] == Begin(0, EnqueueSet("a", Soon(priority)))
    ensures Enabled(ws[n], steps[n]) && Delivers(ws[n], steps[n], "a") && ws[n].now == 0
  {
    hide IsRunOf;
    var s0, s1, w, ws1, w1;
    ws, s0, w := SoonAndLooker(priority);
    ws1, s1, w1 := DueIsSent(1, true, ws, s0, w, 1, "a");
    n := |s1|;
    RunLength(1, true, ws1, s1);
    ws, steps, w := OneMore(1, true, ws1, s1, w1, Deliver(1, true));
    RunLength(1, true, ws, steps);
    assert Delivers(w1, Deliver(1, true), "a");
  }

  lemma RunLength(n: nat, safe: bool, ws: seq<World>, steps: seq<Step>)
    requires IsRunOf(n, safe, ws, steps)
    ensures |ws| == |steps| + 1
  {
  }

  /** An email is never sent before it is due, in all those runs, if and only if its priority is not positive: the
      score that decides when it is taken is the time it is due less the priority. */
  lemma NeverEarlyExactly(priority: int)
    ensures NeverEarly(priority) <==> priority <= 0
  {
    if priority <= 0 {
      forall ws: seq<World>, steps: seq<Step>, a: nat, n: nat, k: nat, id: string, e0: Email
        | && IsRunOf(1, true, ws, steps) && a < n < |steps| && steps[a] == Begin(k, EnqueueSet(id, e0))
          && EnqueuedOnce(steps, id) && e0.priority <= priority
          && Enabled(ws[n], steps[n]) && Delivers(ws[n], steps[n], id)
        ensures e0.due <= ws[n].now
      {
        forall i | 0 <= i < |ws|
          ensures Exclusive(ws[i])
        {
          OneWorkerIsEnough(1, true, ws, steps, i);
        }
        NotBeforeItsTime(ws, steps, a, n, k, id, e0);
      }
    } else {
      var ws, steps, n := SentEarly(priority);
      assert steps[0] == Begin(0, EnqueueSet("a", Soon(priority)));
    }
  }

  /** The index stays right in all runs if and only if nobody works, or there is at most one worker at a time
      and no email is deleted while it is being enqueued. */
  lemma IndexKeptExactly(n: nat, safe: bool)
    ensures IndexKept(n, safe) <==> n == 0 || (n == 1 && safe)
  {
    if n == 0 || (n == 1 && safe) {
      forall ws: seq<World>, steps: seq<Step>, i: nat, id: string
        | IsRunOf(n, safe, ws, steps) && i < |ws| && !IsOwned(ws[i], id)
        ensures Agrees(ws[i].redis, id)
      {
        OneWorkerIsEnough(n, safe, ws, steps, i);
      }
    } else if n >= 2 {
      var ws, steps, v := IndexBreaks(n, safe);
      assert !Agrees(ws[|ws| - 1].redis, "a");
    } else {
      var ws, steps, v := DeletedTooEarly(n);
      assert !Agrees(ws[|ws| - 1].redis, "a");
    }
  }

  /** No email is sent by two workers at a time if and only if there is at most one worker. */
  lemma SendsAreSingleExactly(n: nat, safe: bool)
    ensures SendsAreSingle(n, safe) <==> n <= 1
  {
    if n <= 1 {
      forall ws: seq<World>, steps: seq<Step>, i: nat, j: nat, k: nat | IsRunOf(n, safe, ws, steps) && i < |ws|
        ensures !DoubleSend(ws[i], j, k)
      {
        AtMostOneWorks(ws[i]);
      }
    } else {
      var ws, steps, w := TwoLookers(n, safe);
      ws, steps, w := TwoWorkersSendOneEmail(n, safe, ws, steps, w, 1, 2, "a");
      assert DoubleSend(ws[|ws| - 1], 1, 2);
    }
  }
}
