/** The in-memory execution history: per-job lists, an index by execution ID, and statistics. */
module JobHistory {
  import opened Wrappers
  import opened JobStats

  // ----- What the operations do to a list -----

  /** A full list drops its oldest element when one is appended. */
  function Append<T>(s: seq<T>, x: T, cap: int): (r: seq<T>)
    requires cap > 0
    ensures |s| <= cap ==> 0 < |r| <= cap && r[|r| - 1] == x
  {
    if |s| + 1 > cap then (s + [x])[1..] else s + [x]
  }

  /** The elements that started after the cutoff, in order. */
  function Newer<T>(s: seq<T>, at: T -> int, cutoff: int): (r: seq<T>)
    ensures |r| <= |s|
  {
    if s == [] then []
    else
      var n := |s| - 1;
      Newer(s[..n], at, cutoff) + (if at(s[n]) > cutoff then [s[n]] else [])
  }

  /** The newest `limit` elements, newest first. */
  function Newest<T>(s: seq<T>, limit: nat): (r: seq<T>)
    ensures |r| == if limit < |s| then limit else |s|
    ensures forall i :: 0 <= i < |r| ==> r[i] == s[|s| - 1 - i]
  {
    if limit == 0 || s == [] then [] else [s[|s| - 1]] + Newest(s[..|s| - 1], limit - 1)
  }

  // ----- The store -----

  class JobExecution {
    const id: string
    const jobName: string
    const startedAt: int
    var status: Status
    var completedAt: Option<int>
    var duration: int
    var error: string

    constructor (id: string, jobName: string, startedAt: int)
      ensures this.id == id && this.jobName == jobName && this.startedAt == startedAt
      ensures status == Running && completedAt == None
    {
      this.id, this.jobName, this.startedAt := id, jobName, startedAt;
      status, completedAt, duration, error := Running, None, 0, "";
    }
  }

  function StartOf(e: JobExecution): int {
    e.startedAt
  }

  function ListOf(executions: map<string, seq<JobExecution>>, name: string): seq<JobExecution> {
    if name in executions then executions[name] else []
  }

  ghost predicate Distinct(s: seq<JobExecution>) {
    forall i, j :: 0 <= i < j < |s| ==> s[i].id != s[j].id
  }

  /** A list holds executions of its own job, within the cap, and all of them are in the index. */
  ghost predicate ListRight(name: string, list: seq<JobExecution>, byID: map<string, JobExecution>, cap: int) {
    && |list| <= cap && Distinct(list)
    && forall e :: e in list ==> e.jobName == name && e.id in byID && byID[e.id] == e
  }

  ghost predicate ListsRight(executions: map<string, seq<JobExecution>>, byID: map<string, JobExecution>, cap: int) {
    forall name :: name in executions ==> ListRight(name, executions[name], byID, cap)
  }

  /** The index holds nothing but listed executions, each under its own ID. */
  ghost predicate IndexRight(executions: map<string, seq<JobExecution>>, byID: map<string, JobExecution>) {
    forall id :: id in byID ==>
      byID[id].id == id && byID[id] in ListOf(executions, byID[id].jobName)
  }

  class MemoryHistoryStore {
    const maxPerJob: int
    var executions: map<string, seq<JobExecution>>
    var byID: map<string, JobExecution>
    var stats: map<string, Stats>

    ghost function Lists(): History
      reads this
    {
      History(executions, byID)
    }

    ghost predicate Valid()
      reads this
    {
      maxPerJob > 0 && Right(Lists(), maxPerJob)
    }

    constructor (maxPerJob: int)
      ensures Valid() && executions == map[] && byID == map[] && stats == map[]
      ensures this.maxPerJob == if maxPerJob <= 0 then 100 else maxPerJob
    {
      this.maxPerJob := if maxPerJob <= 0 then 100 else maxPerJob;
      executions, byID, stats := map[], map[], map[];
    }

    function StatsOf(name: string): Stats
      reads this
    {
      if name in stats then stats[name] else NO_STATS
    }

    /** The lists and the index stay in agreement if and only if the ID is not indexed yet. */
    method RecordStart(exec: JobExecution)
      requires Valid()
      modifies this
      ensures Valid() <==> exec.id !in old(byID)
      ensures Lists() == AfterStart(old(Lists()), exec, maxPerJob)
      ensures StatsOf(exec.jobName) == old(StatsOf(exec.jobName)).(
                total := old(StatsOf(exec.jobName)).total + 1, lastExecution := Some(exec.startedAt))
      ensures forall name :: name != exec.jobName ==> StatsOf(name) == old(StatsOf(name))
    {
      hide ListsRight, IndexRight, Distinct;
      if exec.id in byID {
        DuplicateBreaks(Lists(), exec, maxPerJob);
      } else {
        StartKeepsRight(executions, byID, exec, maxPerJob);
      }
      var name := exec.jobName;
      var list := ListOf(executions, name) + [exec];
      byID := byID[exec.id := exec];
      executions := executions[name := list];
      if |list| > maxPerJob {
        byID := byID - {list[0].id};
        executions := executions[name := list[1..]];
      }
      assert executions == old(executions)[name := Append(old(ListOf(executions, name)), exec, maxPerJob)];
      assert byID == IndexAfterStart(old(executions), old(byID), exec, maxPerJob);
      var s := StatsOf(name);
      stats := stats[name := s.(total := s.total + 1, lastExecution := Some(exec.startedAt))];
    }

    /** The stored record is updated in place; the lists and the index do not change. */
    method RecordComplete(c: Completion)
      requires Valid()
      modifies this`stats, if c.id in byID then {byID[c.id]} else {}
      ensures Valid() && Lists() == old(Lists())
      ensures c.id in byID ==>
                var e := byID[c.id];
                e.status == c.status && e.completedAt == Some(c.completedAt)
                && e.duration == c.duration && e.error == c.error
      ensures StatsOf(c.jobName) == AfterComplete(old(StatsOf(c.jobName)), c)
      ensures forall name :: name != c.jobName ==> StatsOf(name) == old(StatsOf(name))
    {
      hide ListsRight, IndexRight, AfterComplete;
      if c.id in byID {
        var e := byID[c.id];
        e.status, e.completedAt, e.duration, e.error := c.status, Some(c.completedAt), c.duration, c.error;
      }
      stats := stats[c.jobName := AfterComplete(StatsOf(c.jobName), c)];
    }

    method GetExecutions(name: string, limit: nat) returns (result: seq<JobExecution>)
      ensures result == Newest(ListOf(executions, name), limit)
    {
      var execs := ListOf(executions, name);
      result := [];
      var i := |execs| - 1;
      while i >= 0 && |result| < limit
        invariant -1 <= i < |execs| && |result| == |execs| - 1 - i <= limit
        invariant forall k :: 0 <= k < |result| ==> result[k] == execs[|execs| - 1 - k]
      {
        result := result + [execs[i]];
        i := i - 1;
      }
    }

    /** Every list keeps its newer executions; the index forgets the others. */
    method Cleanup(cutoff: int)
      requires Valid()
      modifies this`executions, this`byID
      ensures Valid()
      ensures Lists() == AfterCleanup(old(Lists()), cutoff)
    {
      hide ListsRight, IndexRight, Newer, Remaining, NewerIndex;
      var names := executions.Keys;
      ghost var done: set<string> := {};
      ghost var before, index := executions, byID;
      NothingDone(index, cutoff);
      while names != {}
        invariant names + done == before.Keys && names !! done
        invariant executions.Keys == before.Keys
        invariant forall name :: name in before ==>
                    executions[name] == if name in done then Newer(before[name], StartOf, cutoff) else before[name]
        invariant byID == Remaining(index, done, [], cutoff)
        decreases |names|
      {
        var name :| name in names;
        names := names - {name};
        CleanList(name, cutoff, before, index, done);
        done := done + {name};
      }
      RemainingAll(before, index, cutoff);
      NewerKeepsRight(before, index, executions, maxPerJob, cutoff);
      assert executions == AfterCleanup(History(before, index), cutoff).executions;
    }

    /** The inner loop of the cleanup. */
    method CleanList(name: string, cutoff: int, ghost before: map<string, seq<JobExecution>>,
                     ghost index: map<string, JobExecution>, ghost done: set<string>)
      requires ListsRight(before, index, maxPerJob) && IndexRight(before, index)
      requires name in executions && name in before && executions[name] == before[name] && name !in done
      requires byID == Remaining(index, done, [], cutoff)
      modifies this`executions, this`byID
      ensures executions == old(executions)[name := Newer(old(executions)[name], StartOf, cutoff)]
      ensures byID == Remaining(index, done + {name}, [], cutoff)
    {
      hide ListsRight, IndexRight, Remaining;
      var execs := executions[name];
      var kept: seq<JobExecution> := [];
      for i := 0 to |execs|
        invariant executions == old(executions)
        invariant kept == Newer(execs[..i], StartOf, cutoff)
        invariant byID == Remaining(index, done, execs[..i], cutoff)
      {
        var e := execs[i];
        assert execs[..i + 1][..i] == execs[..i];
        RemainingNext(before, index, done, name, i, cutoff, maxPerJob);
        if e.startedAt > cutoff {
          kept := kept + [e];
        } else {
          byID := byID - {e.id};
        }
      }
      assert execs[..|execs|] == execs;
      RemainingList(before, index, done, name, cutoff, maxPerJob);
      executions := executions[name := kept];
    }
  }

  lemma DropFirst(list: seq<JobExecution>)
    requires list != []
    ensures forall e :: e in list[1..] ==> e in list
    ensures forall e :: e in list && e != list[0] ==> e in list[1..]
  {
    forall e | e in list && e != list[0]
      ensures e in list[1..]
    {
      var i :| 0 <= i < |list| && list[i] == e;
      assert list[1..][i - 1] == e;
    }
  }

  ghost function IndexAfterStart(executions: map<string, seq<JobExecution>>, byID: map<string, JobExecution>,
                                 exec: JobExecution, cap: int): map<string, JobExecution> {
    var list := ListOf(executions, exec.jobName) + [exec];
    byID[exec.id := exec] - (if |list| > cap then {list[0].id} else {})
  }

  lemma StartKeepsRight(executions: map<string, seq<JobExecution>>, byID: map<string, JobExecution>,
                        exec: JobExecution, cap: int)
    requires cap > 0 && ListsRight(executions, byID, cap) && IndexRight(executions, byID) && exec.id !in byID
    ensures var after := executions[exec.jobName := Append(ListOf(executions, exec.jobName), exec, cap)];
            var index := IndexAfterStart(executions, byID, exec, cap);
            ListsRight(after, index, cap) && IndexRight(after, index)
  {
    var name := exec.jobName;
    var after := executions[name := Append(ListOf(executions, name), exec, cap)];
    var index := IndexAfterStart(executions, byID, exec, cap);
    OwnListAfterStart(executions, byID, exec, cap);
    forall other | other in executions && other != name
      ensures ListRight(other, executions[other], index, cap)
    {
      OtherListAfterStart(executions, byID, exec, cap, other);
    }
    forall id | id in index
      ensures index[id].id == id && index[id] in ListOf(after, index[id].jobName)
    {
      IndexedAfterStart(executions, byID, exec, cap, id);
    }
  }

  /** An ID that is already indexed leaves an execution in a list that the index does not lead to. */
  lemma DuplicateBreaks(h: History, exec: JobExecution, cap: int)
    requires cap > 0 && Right(h, cap) && exec.id in h.byID
    ensures !Right(AfterStart(h, exec, cap), cap)
  {
    hide IndexRight, Append;
    var v := AfterStart(h, exec, cap);
    var first, name := h.byID[exec.id], exec.jobName;
    FirstIsListed(h, exec.id);
    LastIsNew(ListOf(h.executions, name), exec, cap);
    if ListsRight(v.executions, v.byID, cap) {
      assert ListRight(name, v.executions[name], v.byID, cap);
      assert exec in v.executions[name];
      assert v.byID[exec.id] == exec;
      if first.jobName != name {
        OtherListBreaks(first.jobName, v, first, exec, cap);
      } else {
        var i :| 0 <= i < |ListOf(h.executions, name)| && ListOf(h.executions, name)[i] == first;
        StillListed(ListOf(h.executions, name), exec, cap, i);
      }
    }
  }

  lemma OtherListBreaks(name: string, h: History, e: JobExecution, other: JobExecution, cap: int)
    requires name in h.executions && e in h.executions[name] && e.id == other.id && e != other
    requires e.id in h.byID && h.byID[e.id] == other
    ensures !ListsRight(h.executions, h.byID, cap)
  {
    assert !ListRight(name, h.executions[name], h.byID, cap);
  }

  lemma FirstIsListed(h: History, id: string)
    requires IndexRight(h.executions, h.byID) && id in h.byID
    ensures var e := h.byID[id]; e.id == id && e in ListOf(h.executions, e.jobName)
  {
  }

  lemma LastIsNew(list: seq<JobExecution>, exec: JobExecution, cap: int)
    requires cap > 0 && |list| <= cap
    ensures var r := Append(list, exec, cap); r != [] && r[|r| - 1] == exec
  {
  }

  lemma StillListed(list: seq<JobExecution>, exec: JobExecution, cap: int, i: nat)
    requires cap > 0 && i < |list| <= cap && !(|list| == cap && i == 0)
    ensures var r := Append(list, exec, cap);
            exists j :: 0 <= j < |r| - 1 && r[j] == list[i]
  {
    var r := Append(list, exec, cap);
    assert r[if |list| == cap then i - 1 else i] == list[i];
  }

  lemma OwnListAfterStart(executions: map<string, seq<JobExecution>>, byID: map<string, JobExecution>,
                          exec: JobExecution, cap: int)
    requires cap > 0 && ListsRight(executions, byID, cap) && exec.id !in byID
    ensures ListRight(exec.jobName, Append(ListOf(executions, exec.jobName), exec, cap),
                      IndexAfterStart(executions, byID, exec, cap), cap)
  {
    var name := exec.jobName;
    var list := ListOf(executions, name);
    assert ListRight(name, list, byID, cap);
    AppendedRight(name, list, byID, exec, cap);
    if |list| + 1 > cap {
      DroppedRight(name, list + [exec], byID[exec.id := exec], cap);
    } else {
      assert byID[exec.id := exec] - {} == byID[exec.id := exec];
    }
  }

  lemma AppendedRight(name: string, list: seq<JobExecution>, byID: map<string, JobExecution>,
                      exec: JobExecution, cap: int)
    requires ListRight(name, list, byID, cap) && exec.jobName == name && exec.id !in byID
    ensures ListRight(name, list + [exec], byID[exec.id := exec], cap + 1)
  {
    assert forall i :: 0 <= i < |list| ==> list[i] in list;
  }

  lemma DroppedRight(name: string, list: seq<JobExecution>, byID: map<string, JobExecution>, cap: int)
    requires ListRight(name, list, byID, cap + 1) && list != []
    ensures ListRight(name, list[1..], byID - {list[0].id}, cap)
  {
    forall e | e in list[1..]
      ensures e in list && e.id != list[0].id
    {
      var i :| 0 <= i < |list[1..]| && list[1..][i] == e;
      assert list[i + 1] == e;
    }
  }

  lemma OtherListAfterStart(executions: map<string, seq<JobExecution>>, byID: map<string, JobExecution>,
                            exec: JobExecution, cap: int, other: string)
    requires cap > 0 && ListsRight(executions, byID, cap) && exec.id !in byID
    requires other in executions && other != exec.jobName
    ensures ListRight(other, executions[other], IndexAfterStart(executions, byID, exec, cap), cap)
  {
    hide Distinct;
    var list := ListOf(executions, exec.jobName) + [exec];
    assert ListRight(other, executions[other], byID, cap);
    if exec.jobName in executions {
      assert ListRight(exec.jobName, executions[exec.jobName], byID, cap);
      assert list[0] == exec || list[0] in executions[exec.jobName];
    }
  }

  lemma IndexedAfterStart(executions: map<string, seq<JobExecution>>, byID: map<string, JobExecution>,
                          exec: JobExecution, cap: int, id: string)
    requires cap > 0 && IndexRight(executions, byID) && exec.id !in byID
    requires id in IndexAfterStart(executions, byID, exec, cap)
    ensures var e := IndexAfterStart(executions, byID, exec, cap)[id];
            var after := executions[exec.jobName := Append(ListOf(executions, exec.jobName), exec, cap)];
            e.id == id && e in ListOf(after, e.jobName)
  {
    var e := IndexAfterStart(executions, byID, exec, cap)[id];
    var list := ListOf(executions, exec.jobName) + [exec];
    if e.jobName == exec.jobName {
      DropFirst(list);
      assert e in list;
    }
  }

  /** The index once the lists of `done` and the executions of `part` have been cleaned. */
  ghost function Remaining(index: map<string, JobExecution>, done: set<string>, part: seq<JobExecution>, cutoff: int)
    : map<string, JobExecution>
  {
    map id | id in index && !(index[id].startedAt <= cutoff && (index[id].jobName in done || index[id] in part))
      :: index[id]
  }

  lemma NothingDone(index: map<string, JobExecution>, cutoff: int)
    ensures Remaining(index, {}, [], cutoff) == index
  {
  }

  lemma RemainingNext(executions: map<string, seq<JobExecution>>, index: map<string, JobExecution>,
                      done: set<string>, name: string, i: nat, cutoff: int, cap: int)
    requires ListsRight(executions, index, cap) && IndexRight(executions, index)
    requires name in executions && i < |executions[name]|
    ensures Remaining(index, done, executions[name][..i + 1], cutoff)
         == Remaining(index, done, executions[name][..i], cutoff)
          - (if executions[name][i].startedAt > cutoff then {} else {executions[name][i].id})
  {
    hide Distinct;
    var execs := executions[name];
    assert execs[..i + 1] == execs[..i] + [execs[i]];
    assert execs[i] in execs;
  }

  lemma RemainingList(executions: map<string, seq<JobExecution>>, index: map<string, JobExecution>,
                      done: set<string>, name: string, cutoff: int, cap: int)
    requires ListsRight(executions, index, cap) && IndexRight(executions, index) && name in executions
    ensures Remaining(index, done, executions[name], cutoff) == Remaining(index, done + {name}, [], cutoff)
  {
    hide Distinct;
  }

  lemma {:induction false} NewerMembers(s: seq<JobExecution>, cutoff: int)
    ensures forall e :: e in s && e.startedAt > cutoff ==> e in Newer(s, StartOf, cutoff)
    ensures forall e :: e in Newer(s, StartOf, cutoff) ==> e in s && e.startedAt > cutoff
  {
    if s != [] {
      NewerMembers(s[..|s| - 1], cutoff);
      assert s == s[..|s| - 1] + [s[|s| - 1]];
    }
  }

  lemma {:induction false} NewerIsDistinct(s: seq<JobExecution>, cutoff: int)
    requires Distinct(s)
    ensures Distinct(Newer(s, StartOf, cutoff))
  {
    if s != [] {
      var n := |s| - 1;
      NewerIsDistinct(s[..n], cutoff);
      NewerMembers(s[..n], cutoff);
      var kept := Newer(s[..n], StartOf, cutoff);
      forall i | 0 <= i < |kept|
        ensures kept[i].id != s[n].id
      {
        assert kept[i] in s[..n];
      }
    }
  }

  /** The index entries that started after the cutoff. */
  ghost function NewerIndex(index: map<string, JobExecution>, cutoff: int): map<string, JobExecution> {
    map id | id in index && index[id].startedAt > cutoff :: index[id]
  }

  lemma RemainingAll(executions: map<string, seq<JobExecution>>, index: map<string, JobExecution>, cutoff: int)
    requires IndexRight(executions, index)
    ensures Remaining(index, executions.Keys, [], cutoff) == NewerIndex(index, cutoff)
  {
  }

  lemma NewerListRight(name: string, list: seq<JobExecution>, index: map<string, JobExecution>, cap: int, cutoff: int)
    requires ListRight(name, list, index, cap)
    ensures ListRight(name, Newer(list, StartOf, cutoff), NewerIndex(index, cutoff), cap)
  {
    hide Newer;
    NewerIsDistinct(list, cutoff);
    NewerMembers(list, cutoff);
    hide Distinct;
  }

  lemma NewerKeepsRight(before: map<string, seq<JobExecution>>, index: map<string, JobExecution>,
                        after: map<string, seq<JobExecution>>, cap: int, cutoff: int)
    requires ListsRight(before, index, cap) && IndexRight(before, index)
    requires after.Keys == before.Keys
    requires forall name :: name in before ==> after[name] == Newer(before[name], StartOf, cutoff)
    ensures ListsRight(after, NewerIndex(index, cutoff), cap) && IndexRight(after, NewerIndex(index, cutoff))
  {
    hide Newer, ListRight;
    var byID := NewerIndex(index, cutoff);
    forall name | name in after
      ensures ListRight(name, after[name], byID, cap)
    {
      NewerListRight(name, before[name], index, cap, cutoff);
    }
    forall id | id in byID
      ensures byID[id].id == id && byID[id] in ListOf(after, byID[id].jobName)
    {
      assert byID[id] in ListOf(before, byID[id].jobName);
      NewerMembers(ListOf(before, byID[id].jobName), cutoff);
    }
  }

  // ----- Runs of the store -----

  datatype History = History(executions: map<string, seq<JobExecution>>, byID: map<string, JobExecution>)

  /** The lists and the index agree. */
  ghost predicate Right(h: History, cap: int) {
    ListsRight(h.executions, h.byID, cap) && IndexRight(h.executions, h.byID)
  }

  ghost function AfterStart(h: History, exec: JobExecution, cap: int): History
    requires cap > 0
  {
    History(h.executions[exec.jobName := Append(ListOf(h.executions, exec.jobName), exec, cap)],
            IndexAfterStart(h.executions, h.byID, exec, cap))
  }

  ghost function AfterCleanup(h: History, cutoff: int): History {
    History(map name | name in h.executions :: Newer(h.executions[name], StartOf, cutoff),
            NewerIndex(h.byID, cutoff))
  }

  datatype Event = Started(exec: JobExecution) | Completed(c: Completion) | Cleaned(cutoff: int)

  /** The lists and the index after the first `k` calls. */
  ghost function HistoryAfter(cap: int, es: seq<Event>, k: nat): History
    requires cap > 0 && k <= |es|
  {
    if k == 0 then History(map[], map[])
    else
      var h := HistoryAfter(cap, es, k - 1);
      match es[k - 1]
      case Started(exec) => AfterStart(h, exec, cap)
      case Completed(_) => h
      case Cleaned(cutoff) => AfterCleanup(h, cutoff)
  }

  /** Every run in which each started execution has an ID that is not indexed keeps lists and index in
      agreement. */
  lemma {:induction false} RunsAgree(cap: int, es: seq<Event>, k: nat)
    requires cap > 0 && k <= |es|
    requires forall i :: 0 <= i < k && es[i].Started? ==> es[i].exec.id !in HistoryAfter(cap, es, i).byID
    ensures Right(HistoryAfter(cap, es, k), cap)
  {
    if k > 0 {
      RunsAgree(cap, es, k - 1);
      hide ListsRight, IndexRight, IndexAfterStart, Newer, NewerIndex, Append;
      var h := HistoryAfter(cap, es, k - 1);
      match es[k - 1]
      case Started(exec) => StartKeepsRight(h.executions, h.byID, exec, cap);
      case Completed(_) =>
      case Cleaned(cutoff) =>
        NewerKeepsRight(h.executions, h.byID, AfterCleanup(h, cutoff).executions, cap, cutoff);
    }
  }

  // ----- Which executions a run retains -----

  /** An execution and the position of its start in the run. */
  datatype Mark = Mark(pos: nat, exec: JobExecution)

  /** All executions of the job that were started by the first `k` calls, in order. */
  function Starts(es: seq<Event>, k: nat, name: string): seq<Mark>
    requires k <= |es|
  {
    if k == 0 then []
    else Starts(es, k - 1, name) + StartAt(es, k - 1, name)
  }

  function StartAt(es: seq<Event>, i: nat, name: string): seq<Mark>
    requires i < |es|
  {
    if es[i].Started? && es[i].exec.jobName == name then [Mark(i, es[i].exec)] else []
  }

  function Execs(s: seq<Mark>): (r: seq<JobExecution>)
    ensures |r| == |s| && forall i :: 0 <= i < |s| ==> r[i] == s[i].exec
  {
    seq(|s|, i requires 0 <= i < |s| => s[i].exec)
  }

  /** The elements for which `p` holds, in order. */
  ghost function Filter(s: seq<Mark>, p: Mark -> bool): (r: seq<Mark>)
    ensures |r| <= |s|
  {
    if s == [] then []
    else
      var n := |s| - 1;
      Filter(s[..n], p) + (if p(s[n]) then [s[n]] else [])
  }

  /** Newer than the cutoff of every cleanup since it started. */
  ghost predicate Survives(es: seq<Event>, k: nat, m: Mark)
    requires k <= |es|
  {
    forall j :: m.pos < j < k && es[j].Cleaned? ==> es[j].cutoff < m.exec.startedAt
  }

  ghost function LaterSurvivor(es: seq<Event>, k: nat, m: Mark): Mark -> bool
    requires k <= |es|
  {
    (q: Mark) => q.pos > m.pos && Survives(es, k, q)
  }

  /** How many executions started after `m` survive the cleanups of the first `k` calls. */
  ghost function Later(es: seq<Event>, k: nat, name: string, m: Mark): nat
    requires k <= |es|
  {
    |Filter(Starts(es, k, name), LaterSurvivor(es, k, m))|
  }

  /** It survives, and at no time have there been as many later survivors as the list can hold. */
  ghost predicate Stays(cap: int, es: seq<Event>, k: nat, name: string, m: Mark)
    requires k <= |es|
  {
    Survives(es, k, m) && forall j :: m.pos < j <= k ==> Later(es, j, name, m) < cap
  }

  ghost function Staying(cap: int, es: seq<Event>, k: nat, name: string): Mark -> bool
    requires k <= |es|
  {
    (m: Mark) => Stays(cap, es, k, name, m)
  }

  ghost function Retained(cap: int, es: seq<Event>, k: nat, name: string): seq<Mark>
    requires k <= |es|
  {
    Filter(Starts(es, k, name), Staying(cap, es, k, name))
  }

  // Filtering.

  lemma FilterNext(s: seq<Mark>, x: Mark, p: Mark -> bool)
    ensures Filter(s + [x], p) == Filter(s, p) + (if p(x) then [x] else [])
  {
    assert (s + [x])[..|s|] == s;
  }

  lemma FilterLast(s: seq<Mark>, p: Mark -> bool)
    requires s != []
    ensures Filter(s, p) == Filter(s[..|s| - 1], p) + (if p(s[|s| - 1]) then [s[|s| - 1]] else [])
  {
  }

  lemma {:induction false} FilterMembers(s: seq<Mark>, p: Mark -> bool)
    ensures forall i :: 0 <= i < |Filter(s, p)| ==> Filter(s, p)[i] in s && p(Filter(s, p)[i])
  {
    if s != [] {
      hide Filter;
      FilterLast(s, p);
      FilterMembers(s[..|s| - 1], p);
      assert s == s[..|s| - 1] + [s[|s| - 1]];
    } else {
      assert Filter(s, p) == [];
    }
  }

  lemma {:induction false} FilterTwice(s: seq<Mark>, p: Mark -> bool, q: Mark -> bool, both: Mark -> bool)
    requires forall i :: 0 <= i < |s| ==> (both(s[i]) <==> p(s[i]) && q(s[i]))
    ensures Filter(Filter(s, p), q) == Filter(s, both)
  {
    if s == [] {
      assert Filter(s, p) == [];
    } else {
      hide Filter;
      var n := |s| - 1;
      var front := Filter(s[..n], p);
      FilterLast(s, p);
      FilterLast(s, both);
      FilterTwice(s[..n], p, q, both);
      FilterNext(front, s[n], q);
      assert front + [] == front;
    }
  }

  lemma {:induction false} FilterSmaller(s: seq<Mark>, p: Mark -> bool, q: Mark -> bool)
    requires forall i :: 0 <= i < |s| && p(s[i]) ==> q(s[i])
    ensures |Filter(s, p)| <= |Filter(s, q)|
  {
    if s != [] {
      FilterSmaller(s[..|s| - 1], p, q);
    }
  }

  lemma {:induction false} FilterSame(s: seq<Mark>, p: Mark -> bool, q: Mark -> bool)
    requires forall i :: 0 <= i < |s| ==> (p(s[i]) <==> q(s[i]))
    ensures Filter(s, p) == Filter(s, q)
  {
    if s != [] {
      FilterSame(s[..|s| - 1], p, q);
    }
  }

  /** If `p` holds exactly from position `d` on, the filter leaves the suffix from `d`. */
  lemma {:induction false} FilterSuffix(s: seq<Mark>, d: nat, p: Mark -> bool)
    requires d <= |s| && forall i :: 0 <= i < |s| ==> (p(s[i]) <==> d <= i)
    ensures Filter(s, p) == s[d..]
    decreases |s|
  {
    if s == [] {
      assert Filter(s, p) == [];
    } else {
      hide Filter;
      var n := |s| - 1;
      var front := s[..n];
      FilterLast(s, p);
      if d <= n {
        FilterSuffix(front, d, p);
        SuffixNext(s, d);
      } else {
        FilterSuffix(front, n, p);
        assert front[n..] == [] && s[d..] == [];
      }
    }
  }

  lemma SuffixNext(s: seq<Mark>, d: nat)
    requires d < |s|
    ensures s[d..] == s[..|s| - 1][d..] + [s[|s| - 1]]
  {
  }

  ghost predicate Ordered(s: seq<Mark>) {
    forall i, j :: 0 <= i < j < |s| ==> s[i].pos < s[j].pos
  }

  lemma {:induction false} FilterOrdered(s: seq<Mark>, p: Mark -> bool)
    requires Ordered(s)
    ensures Ordered(Filter(s, p))
  {
    if s != [] {
      hide Filter;
      var n := |s| - 1;
      FilterLast(s, p);
      FilterOrdered(s[..n], p);
      FilterMembers(s[..n], p);
      var kept := Filter(s[..n], p);
      forall i | 0 <= i < |kept|
        ensures kept[i].pos < s[n].pos
      {
        assert kept[i] in s[..n];
      }
    } else {
      assert Filter(s, p) == [];
    }
  }

  lemma {:induction false} StartsOrdered(es: seq<Event>, k: nat, name: string)
    requires k <= |es|
    ensures var s := Starts(es, k, name);
            && Ordered(s)
            && forall i :: 0 <= i < |s| ==>
                 s[i].pos < k && es[s[i].pos] == Started(s[i].exec) && s[i].exec.jobName == name
  {
    if k > 0 {
      StartsOrdered(es, k - 1, name);
    }
  }

  // The list holds what stays.

  /** What survives and started after something that stays, stays too. */
  lemma StaysUpward(cap: int, es: seq<Event>, k: nat, name: string, m: Mark, q: Mark)
    requires k <= |es| && Stays(cap, es, k, name, m) && q.pos > m.pos && Survives(es, k, q)
    ensures Stays(cap, es, k, name, q)
  {
    forall j | q.pos < j <= k
      ensures Later(es, j, name, q) < cap
    {
      FilterSmaller(Starts(es, j, name), LaterSurvivor(es, j, q), LaterSurvivor(es, j, m));
      assert Later(es, j, name, m) < cap;
    }
  }

  /** An element of the list has as many later survivors as there are elements behind it. */
  lemma LaterIsBehind(cap: int, es: seq<Event>, k: nat, name: string, i: nat)
    requires k <= |es| && i < |Retained(cap, es, k, name)|
    ensures var list := Retained(cap, es, k, name);
            Later(es, k, name, list[i]) == |list| - 1 - i
  {
    hide Filter, Starts, Survives, Later;
    var s, list, stays := Starts(es, k, name), Retained(cap, es, k, name), Staying(cap, es, k, name);
    var m := list[i];
    StartsOrdered(es, k, name);
    FilterOrdered(s, stays);
    FilterMembers(s, stays);
    var later := (q: Mark) => q.pos > m.pos;
    forall p | 0 <= p < |s|
      ensures LaterSurvivor(es, k, m)(s[p]) <==> stays(s[p]) && later(s[p])
    {
      if LaterSurvivor(es, k, m)(s[p]) {
        StaysUpward(cap, es, k, name, m, s[p]);
      }
    }
    FilterTwice(s, stays, later, LaterSurvivor(es, k, m));
    FilterSuffix(list, i + 1, later);
    LaterIs(es, k, name, m);
  }

  lemma LaterIs(es: seq<Event>, k: nat, name: string, m: Mark)
    requires k <= |es|
    ensures Later(es, k, name, m) == |Filter(Starts(es, k, name), LaterSurvivor(es, k, m))|
  {
  }

  /** Appending drops the first element exactly if the others and the new one fill the list. */
  lemma AppendFilters(list: seq<Mark>, x: Mark, cap: int, p: Mark -> bool)
    requires cap > 0 && |list| <= cap
    requires forall i :: 0 <= i < |list| ==> (p(list[i]) <==> |list| - i < cap)
    ensures Append(list, x, cap) == Filter(list, p) + [x]
  {
    hide Filter;
    FilterSuffix(list, if |list| == cap then 1 else 0, p);
    assert |list| == cap ==> (list + [x])[1..] == list[1..] + [x];
    assert list[0..] == list;
  }

  lemma {:induction false} NewerFilters(list: seq<Mark>, cutoff: int, p: Mark -> bool)
    requires forall i :: 0 <= i < |list| ==> (p(list[i]) <==> list[i].exec.startedAt > cutoff)
    ensures Newer(Execs(list), StartOf, cutoff) == Execs(Filter(list, p))
  {
    if list != [] {
      var n := |list| - 1;
      NewerFilters(list[..n], cutoff, p);
      assert Execs(list)[..n] == Execs(list[..n]);
      FilterLast(list, p);
      hide Filter;
      assert Execs(list)[n] == list[n].exec;
    } else {
      assert Filter(list, p) == [];
    }
  }

  lemma StaysNext(cap: int, es: seq<Event>, k: nat, name: string, m: Mark)
    requires k < |es| && m.pos < k
    ensures Stays(cap, es, k + 1, name, m)
       <==> Stays(cap, es, k, name, m) && Survives(es, k + 1, m) && Later(es, k + 1, name, m) < cap
  {
    hide Later;
  }

  /** A start adds one later survivor to every execution of the job before it. */
  lemma LaterAfterStart(es: seq<Event>, k: nat, name: string, m: Mark)
    requires k < |es| && !es[k].Cleaned? && m.pos < k
    ensures Later(es, k + 1, name, m) == Later(es, k, name, m) + |StartAt(es, k, name)|
  {
    var s := Starts(es, k, name);
    FilterSame(s, LaterSurvivor(es, k, m), LaterSurvivor(es, k + 1, m));
    if StartAt(es, k, name) != [] {
      FilterNext(s, Mark(k, es[k].exec), LaterSurvivor(es, k + 1, m));
    } else {
      assert s + [] == s;
    }
  }

  lemma LaterAfterClean(es: seq<Event>, k: nat, name: string, m: Mark)
    requires k < |es| && es[k].Cleaned?
    ensures Later(es, k + 1, name, m) <= Later(es, k, name, m)
  {
    assert Starts(es, k + 1, name) == Starts(es, k, name);
    FilterSmaller(Starts(es, k, name), LaterSurvivor(es, k + 1, m), LaterSurvivor(es, k, m));
  }

  lemma StaysAfterStart(cap: int, es: seq<Event>, k: nat, name: string, m: Mark)
    requires k < |es| && !es[k].Cleaned? && m.pos < k
    ensures Stays(cap, es, k + 1, name, m)
       <==> Stays(cap, es, k, name, m) && Later(es, k, name, m) + |StartAt(es, k, name)| < cap
  {
    hide Later, StartAt;
    StaysNext(cap, es, k, name, m);
    LaterAfterStart(es, k, name, m);
    assert Survives(es, k + 1, m) <==> Survives(es, k, m);
  }

  lemma StaysAfterClean(cap: int, es: seq<Event>, k: nat, name: string, m: Mark)
    requires k < |es| && es[k].Cleaned? && m.pos < k
    ensures Stays(cap, es, k + 1, name, m)
       <==> Stays(cap, es, k, name, m) && m.exec.startedAt > es[k].cutoff
  {
    hide Later;
    StaysNext(cap, es, k, name, m);
    LaterAfterClean(es, k, name, m);
    assert Survives(es, k + 1, m) <==> Survives(es, k, m) && m.exec.startedAt > es[k].cutoff;
  }

  lemma NewestStays(cap: int, es: seq<Event>, k: nat, name: string)
    requires cap > 0 && k < |es| && StartAt(es, k, name) != []
    ensures Stays(cap, es, k + 1, name, Mark(k, es[k].exec))
  {
    hide Filter, Starts;
    var x := Mark(k, es[k].exec);
    var s := Starts(es, k + 1, name);
    StartsOrdered(es, k + 1, name);
    FilterSuffix(s, |s|, LaterSurvivor(es, k + 1, x));
    assert s[|s|..] == [];
  }

  lemma RetainedOtherStart(cap: int, es: seq<Event>, k: nat, name: string)
    requires cap > 0 && k < |es| && !es[k].Cleaned? && StartAt(es, k, name) == []
    ensures Retained(cap, es, k + 1, name) == Retained(cap, es, k, name)
  {
    var s := Starts(es, k, name);
    assert Starts(es, k + 1, name) == s;
    StartsOrdered(es, k, name);
    forall i | 0 <= i < |s|
      ensures Staying(cap, es, k + 1, name)(s[i]) <==> Staying(cap, es, k, name)(s[i])
    {
      StaysAfterStart(cap, es, k, name, s[i]);
    }
    FilterSame(s, Staying(cap, es, k + 1, name), Staying(cap, es, k, name));
  }

  lemma RetainedClean(cap: int, es: seq<Event>, k: nat, name: string)
    requires cap > 0 && k < |es| && es[k].Cleaned?
    ensures Execs(Retained(cap, es, k + 1, name)) == Newer(Execs(Retained(cap, es, k, name)), StartOf, es[k].cutoff)
  {
    hide Filter, Later, Newer;
    var s := Starts(es, k, name);
    assert Starts(es, k + 1, name) == s;
    hide Starts;
    StartsOrdered(es, k, name);
    var cutoff := es[k].cutoff;
    var newer := (m: Mark) => m.exec.startedAt > cutoff;
    forall i | 0 <= i < |s|
      ensures Staying(cap, es, k + 1, name)(s[i]) <==> Staying(cap, es, k, name)(s[i]) && newer(s[i])
    {
      StaysAfterClean(cap, es, k, name, s[i]);
    }
    FilterTwice(s, Staying(cap, es, k, name), newer, Staying(cap, es, k + 1, name));
    NewerFilters(Retained(cap, es, k, name), cutoff, newer);
  }

  /** The list is within the cap. */
  lemma RetainedFits(cap: int, es: seq<Event>, k: nat, name: string)
    requires cap > 0 && k <= |es|
    ensures |Retained(cap, es, k, name)| <= cap
  {
    hide Filter, Later, Survives, Starts;
    var s, list := Starts(es, k, name), Retained(cap, es, k, name);
    if list != [] {
      LaterIsBehind(cap, es, k, name, 0);
      StartsOrdered(es, k, name);
      FilterMembers(s, Staying(cap, es, k, name));
      var i :| 0 <= i < |s| && s[i] == list[0];
      assert Staying(cap, es, k, name)(list[0]);
      assert list[0].pos < k;
    }
  }

  lemma RetainedStart(cap: int, es: seq<Event>, k: nat, name: string)
    requires cap > 0 && k < |es| && StartAt(es, k, name) != []
    ensures Retained(cap, es, k + 1, name) == Append(Retained(cap, es, k, name), Mark(k, es[k].exec), cap)
  {
    var s, list, x := Starts(es, k, name), Retained(cap, es, k, name), Mark(k, es[k].exec);
    assert Starts(es, k + 1, name) == s + [x];
    hide Filter, Later, Starts, Append;
    StartsOrdered(es, k, name);
    var room := (m: Mark) => Later(es, k, name, m) + 1 < cap;
    forall i | 0 <= i < |s|
      ensures Staying(cap, es, k + 1, name)(s[i]) <==> Staying(cap, es, k, name)(s[i]) && room(s[i])
    {
      StaysAfterStart(cap, es, k, name, s[i]);
    }
    FilterTwice(s, Staying(cap, es, k, name), room, Staying(cap, es, k + 1, name));
    NewestStays(cap, es, k, name);
    FilterNext(s, x, Staying(cap, es, k + 1, name));
    RetainedFits(cap, es, k, name);
    forall i | 0 <= i < |list|
      ensures room(list[i]) <==> |list| - i < cap
    {
      LaterIsBehind(cap, es, k, name, i);
    }
    AppendFilters(list, x, cap, room);
  }

  lemma ExecsAppend(list: seq<Mark>, x: Mark, cap: int)
    requires cap > 0
    ensures Execs(Append(list, x, cap)) == Append(Execs(list), x.exec, cap)
  {
  }

  lemma NothingRetained(cap: int, es: seq<Event>, name: string)
    requires cap > 0
    ensures ListOf(HistoryAfter(cap, es, 0).executions, name) == Execs(Retained(cap, es, 0, name))
  {
    assert Retained(cap, es, 0, name) == [];
  }

  /** What a call does to the list of a job. */
  lemma ListNext(cap: int, es: seq<Event>, k: nat, name: string)
    requires cap > 0 && k < |es|
    ensures var list := ListOf(HistoryAfter(cap, es, k).executions, name);
            ListOf(HistoryAfter(cap, es, k + 1).executions, name) ==
              if es[k].Cleaned? then Newer(list, StartOf, es[k].cutoff)
              else if StartAt(es, k, name) != [] then Append(list, es[k].exec, cap)
              else list
  {
    hide IndexAfterStart, NewerIndex, Append;
  }

  /** In every run the list of a job is exactly its executions, in the order of their starts, that no cleanup
      since has cut off and that were never crowded out by as many later survivors as the list can hold. */
  lemma {:induction false} RetainedExactly(cap: int, es: seq<Event>, k: nat, name: string)
    requires cap > 0 && k <= |es|
    ensures ListOf(HistoryAfter(cap, es, k).executions, name) == Execs(Retained(cap, es, k, name))
  {
    hide HistoryAfter, Retained, Execs, Append, Newer, ListOf;
    if k == 0 {
      NothingRetained(cap, es, name);
    } else {
      RetainedExactly(cap, es, k - 1, name);
      ListNext(cap, es, k - 1, name);
      if es[k - 1].Cleaned? {
        RetainedClean(cap, es, k - 1, name);
      } else if StartAt(es, k - 1, name) != [] {
        RetainedStart(cap, es, k - 1, name);
        ExecsAppend(Retained(cap, es, k - 1, name), Mark(k - 1, es[k - 1].exec), cap);
      } else {
        RetainedOtherStart(cap, es, k - 1, name);
      }
    }
  }

  // With one clock.

  /** Executions of the job are recorded in the order of their start times. */
  ghost predicate InOrder(es: seq<Event>, name: string) {
    forall i, j :: (&& 0 <= i < j < |es| && es[i].Started? && es[j].Started?
                    && es[i].exec.jobName == name && es[j].exec.jobName == name)
                   ==> es[i].exec.startedAt <= es[j].exec.startedAt
  }

  lemma {:induction false} StartsExtend(es: seq<Event>, j: nat, k: nat, name: string)
    requires j <= k <= |es|
    ensures Starts(es, j, name) <= Starts(es, k, name)
    decreases k
  {
    if j < k {
      StartsExtend(es, j, k - 1, name);
    }
  }

  lemma {:induction false} FilterPrefix(s: seq<Mark>, t: seq<Mark>, p: Mark -> bool)
    requires s <= t
    ensures |Filter(s, p)| <= |Filter(t, p)|
    decreases |t|
  {
    if s == t {
    } else {
      FilterPrefix(s, t[..|t| - 1], p);
    }
  }

  /** If executions start in order, what started after a survivor survives. */
  lemma SurvivesUpward(es: seq<Event>, k: nat, name: string, p: nat, q: nat)
    requires k <= |es| && InOrder(es, name) && p <= q < |Starts(es, k, name)|
    requires Survives(es, k, Starts(es, k, name)[p])
    ensures Survives(es, k, Starts(es, k, name)[q])
  {
    hide Starts;
    StartsOrdered(es, k, name);
  }

  /** There are no more later survivors than later starts; behind a survivor there are as many. */
  lemma LaterIsBounded(es: seq<Event>, j: nat, k: nat, name: string, p: nat)
    requires j <= k <= |es| && p < |Starts(es, k, name)|
    ensures Later(es, j, name, Starts(es, k, name)[p]) <= |Starts(es, k, name)| - 1 - p
  {
    hide Filter, Starts, Survives;
    var s := Starts(es, k, name);
    var later := (q: Mark) => q.pos > s[p].pos;
    StartsOrdered(es, k, name);
    StartsExtend(es, j, k, name);
    FilterSmaller(Starts(es, j, name), LaterSurvivor(es, j, s[p]), later);
    FilterPrefix(Starts(es, j, name), s, later);
    FilterSuffix(s, p + 1, later);
  }

  lemma LaterIsAll(es: seq<Event>, k: nat, name: string, p: nat)
    requires k <= |es| && InOrder(es, name) && p < |Starts(es, k, name)|
    requires Survives(es, k, Starts(es, k, name)[p])
    ensures Later(es, k, name, Starts(es, k, name)[p]) == |Starts(es, k, name)| - 1 - p
  {
    hide Filter, Starts, Survives, InOrder;
    var s := Starts(es, k, name);
    StartsOrdered(es, k, name);
    forall q | p <= q < |s|
      ensures Survives(es, k, s[q])
    {
      SurvivesUpward(es, k, name, p, q);
    }
    FilterSuffix(s, p + 1, LaterSurvivor(es, k, s[p]));
  }

  lemma StaysInOrder(cap: int, es: seq<Event>, k: nat, name: string, p: nat)
    requires k <= |es| && InOrder(es, name) && p < |Starts(es, k, name)|
    ensures var s := Starts(es, k, name);
            Stays(cap, es, k, name, s[p]) <==> Survives(es, k, s[p]) && |s| - cap <= p
  {
    hide Later, Starts, Survives, InOrder;
    var s := Starts(es, k, name);
    StartsOrdered(es, k, name);
    if Survives(es, k, s[p]) {
      LaterIsAll(es, k, name, p);
      forall j | s[p].pos < j <= k
        ensures Later(es, j, name, s[p]) <= |s| - 1 - p
      {
        LaterIsBounded(es, j, k, name, p);
      }
    }
  }

  /** `s[d..]` are the latest `cap` executions without those that a later cleanup has cut off. */
  ghost predicate LatestFrom(cap: int, es: seq<Event>, k: nat, s: seq<Mark>, d: nat)
    requires k <= |es|
  {
    d <= |s| && forall p :: 0 <= p < |s| ==> (d <= p <==> |s| - cap <= p && Survives(es, k, s[p]))
  }

  lemma StayingIsLatest(cap: int, es: seq<Event>, k: nat, name: string, s: seq<Mark>, d: nat)
    requires k <= |es| && InOrder(es, name) && s == Starts(es, k, name) && d <= |s|
    requires forall p :: 0 <= p < |s| ==> (Staying(cap, es, k, name)(s[p]) <==> d <= p)
    ensures LatestFrom(cap, es, k, s, d)
  {
    hide Starts, InOrder, Stays;
    forall p | 0 <= p < |s|
      ensures d <= p <==> |s| - cap <= p && Survives(es, k, s[p])
    {
      assert Staying(cap, es, k, name)(s[p]) <==> d <= p;
      StaysInOrder(cap, es, k, name, p);
    }
    LatestIs(cap, es, k, s, d);
  }

  lemma LatestIs(cap: int, es: seq<Event>, k: nat, s: seq<Mark>, d: nat)
    requires k <= |es| && d <= |s|
    requires forall p :: 0 <= p < |s| ==> (d <= p <==> |s| - cap <= p && Survives(es, k, s[p]))
    ensures LatestFrom(cap, es, k, s, d)
  {
  }

  /** If executions are recorded in the order of their start times, the list is a suffix of all starts: the
      latest `cap`, without those that a later cleanup has cut off. */
  lemma RetainedInOrder(cap: int, es: seq<Event>, k: nat, name: string) returns (d: nat)
    requires cap > 0 && k <= |es| && InOrder(es, name)
    ensures LatestFrom(cap, es, k, Starts(es, k, name), d)
    ensures ListOf(HistoryAfter(cap, es, k).executions, name) == Execs(Starts(es, k, name)[d..])
  {
    hide Filter, Starts, InOrder, HistoryAfter, Stays;
    var s := Starts(es, k, name);
    RetainedExactly(cap, es, k, name);
    d := FirstStaying(cap, es, k, name);
    FilterSuffix(s, d, Staying(cap, es, k, name));
    StayingIsLatest(cap, es, k, name, s, d);
  }

  /** The executions that stay are the last ones. */
  lemma FirstStaying(cap: int, es: seq<Event>, k: nat, name: string) returns (d: nat)
    requires k <= |es| && InOrder(es, name)
    ensures var s := Starts(es, k, name);
            d <= |s| && forall p :: 0 <= p < |s| ==> (Staying(cap, es, k, name)(s[p]) <==> d <= p)
  {
    hide Starts, Survives, InOrder, Stays;
    var s := Starts(es, k, name);
    d := |s|;
    while d > 0 && Stays(cap, es, k, name, s[d - 1])
      invariant d <= |s| && forall p :: d <= p < |s| ==> Stays(cap, es, k, name, s[p])
    {
      d := d - 1;
    }
    forall p | 0 <= p < d
      ensures !Stays(cap, es, k, name, s[p])
    {
      StaysInOrder(cap, es, k, name, p);
      StaysInOrder(cap, es, k, name, d - 1);
      if Survives(es, k, s[p]) {
        SurvivesUpward(es, k, name, p, d - 1);
      }
    }
  }
}
