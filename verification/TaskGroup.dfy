/**
 The task group as a monitor: one thread adds tasks, waits for them and handles them when they have
 ended; each task runs in a thread of its own, which reports once that the task has ended. One event
 is one critical section, or the handling of a task between two of them.
 */
module TaskGroupProtocol {
  import opened Common

  datatype Outcome = Ok | Failed | Interrupted

  datatype Ended = Ended(id: nat, name: string, outcome: Outcome)

  /** What the adding and waiting thread has been called for. */
  datatype Call = NoCall | Adding(name: string) | Waiting(threw: bool) | HandlingOnce

  /** Where it stands: before looking at the number of active tasks, with room for one more, before
      looking for ended tasks, asleep, after having found something to do, or handling a task. */
  datatype Position = Outside | AtAdd | HasRoom | AtWait | Asleep(notified: bool) | FoundWork | Handling(task: Ended)

  /** The tasks of the group, with a log of those that have ended. */
  datatype Tasks = Tasks(
    counter: nat,
    active: map<nat, string>,
    completed: seq<Ended>,
    running: set<nat>,                // threads of tasks that have not reported yet
    ended: seq<Ended>,                // every task that has ended, in order
    taken: nat)                       // how many of them have left the queue

  datatype Results = Results(
    succeeded: nat,
    failed: nat,
    exceptionInfo: seq<Ended>,
    cleared: nat)                     // how many tasks had been handled when the failures were last cleared

  datatype Group = Group(
    max: nat,
    tasks: Tasks,
    results: Results,
    stopRequested: bool,
    stopOnError: bool,
    call: Call,
    position: Position)

  datatype Event =
    | BeginAdd(name: string)
    | BeginWait
    | BeginHandle
    | CheckActive
    | CheckEnded
    | WakeUp
    | TakeEnded
    | HandleTask
    | CreateTask
    | Report(id: nat, outcome: Outcome)   // by the thread of the task
    | Stop
    | SetStopOnError(enable: bool)
    | ClearInfo

  const MaxExceptions := 100

  const NoTasks := Tasks(0, map[], [], {}, [], 0)
  const NoResults := Results(0, 0, [], 0)

  ghost function Create(max: nat): Group {
    Group(max, NoTasks, NoResults, false, false, NoCall, Outside)
  }

  /** The predicate of the condition variable. */
  ghost predicate SomethingToDo(t: Tasks) {
    |t.active| == 0 || t.completed != []
  }

  ghost predicate Enabled(s: Group, e: Event) {
    match e
    case BeginAdd(_) => s.position.Outside?
    case BeginWait => s.position.Outside?
    case BeginHandle => s.position.Outside?
    case CheckActive => s.position.AtAdd?
    case CheckEnded => s.position.AtWait?
    case WakeUp => s.position.Asleep?
    case TakeEnded => s.position.FoundWork?
    case HandleTask => s.position.Handling?
    case CreateTask => s.position.HasRoom? && s.call.Adding?
    case Report(id, _) => id in s.tasks.running
    case Stop => true
    case SetStopOnError(_) => true
    case ClearInfo => s.position.Outside?
  }

  /** One more failure; only the last hundred are kept. */
  function Noted(info: seq<Ended>, t: Ended): seq<Ended> {
    LastOnes(info, MaxExceptions - 1) + [t]
  }

  /** What handling a task adds to the results. */
  function Noting(r: Results, t: Ended): Results {
    match t.outcome
    case Ok => r.(succeeded := r.succeeded + 1)
    case Interrupted => r
    case Failed => r.(failed := r.failed + 1, exceptionInfo := Noted(r.exceptionInfo, t))
  }

  /** A new task, whose thread starts at once. */
  function Started(t: Tasks, name: string): Tasks {
    var id := t.counter + 1;
    t.(counter := id, active := t.active[id := name], running := t.running + {id})
  }

  /** A task that ends moves from the active ones to the queue, if it is found there. */
  function Reported(t: Tasks, id: nat, outcome: Outcome): Tasks {
    if id !in t.active then t
    else
      var e := Ended(id, t.active[id], outcome);
      t.(active := t.active - {id}, completed := t.completed + [e], ended := t.ended + [e], running := t.running - {id})
  }

  function TakenOut(t: Tasks): Tasks {
    if t.completed == [] then t else t.(completed := t.completed[1..], taken := t.taken + 1)
  }

  /** Whether handling a task ends in an exception, which also stops the group. */
  predicate Throws(stopOnError: bool, t: Ended) {
    stopOnError && t.outcome == Failed
  }

  /** Where the thread goes after handling a task: back to the caller, or on with its call. */
  function Onwards(call: Call, threw: bool): (Call, Position) {
    match call
    case Adding(_) => if threw then (NoCall, Outside) else (call, AtAdd)
    case Waiting(t) => (Waiting(t || threw), AtWait)
    case _ => (NoCall, Outside)
  }

  ghost function Apply(s: Group, e: Event): Group
    requires Enabled(s, e)
  {
    match e
    case BeginAdd(name) => s.(position := AtAdd, call := Adding(name))
    case BeginWait => s.(position := AtWait, call := Waiting(false))
    case BeginHandle => s.(position := FoundWork, call := HandlingOnce)
    case CheckActive => s.(position := if |s.tasks.active| >= s.max then AtWait else HasRoom)
    case CheckEnded => s.(position := if SomethingToDo(s.tasks) then FoundWork else Asleep(false))
    case WakeUp => s.(position := if SomethingToDo(s.tasks) then FoundWork else Asleep(false))
    case TakeEnded =>
      if s.tasks.completed != [] then
        s.(tasks := TakenOut(s.tasks), position := Handling(s.tasks.completed[0]))
      else if s.call.Adding? then s.(position := AtAdd)
      else s.(position := Outside, call := NoCall)
    case HandleTask =>
      var t := s.position.task;
      var threw := Throws(s.stopOnError, t);
      var (call, position) := Onwards(s.call, threw);
      s.(results := Noting(s.results, t), stopRequested := s.stopRequested || threw, call := call, position := position)
    case CreateTask =>
      s.(tasks := if s.stopRequested then s.tasks else Started(s.tasks, s.call.name),
         position := Outside, call := NoCall)
    case Report(id, outcome) =>
      s.(tasks := Reported(s.tasks, id, outcome),
         position := if s.position.Asleep? && id in s.tasks.active then Asleep(true) else s.position)
    case Stop => s.(stopRequested := true)
    case SetStopOnError(enable) => s.(stopOnError := enable)
    case ClearInfo => s.(results := s.results.(exceptionInfo := [], cleared := s.tasks.taken))
  }

  // ---------------------------------------------------------------- the invariant

  ghost function Ids(ended: seq<Ended>): set<nat> {
    set t | t in ended :: t.id
  }

  ghost predicate DistinctIds(ended: seq<Ended>) {
    forall i, j :: 0 <= i < j < |ended| ==> ended[i].id != ended[j].id
  }

  /** Every task created is either active, with a thread that has yet to report, or has ended, once. */
  ghost predicate Ledger(t: Tasks) {
    && t.running == t.active.Keys
    && DistinctIds(t.ended)
    && (forall id :: id in t.active ==> id !in Ids(t.ended))
    && (forall id :: id in t.active || id in Ids(t.ended) <==> 1 <= id <= t.counter)
    && t.counter == |t.active| + |t.ended|
    && t.taken <= |t.ended| && t.completed == t.ended[t.taken..]
  }

  function Failures(ended: seq<Ended>): seq<Ended> {
    if ended == [] then []
    else
      var t := ended[|ended| - 1];
      Failures(ended[..|ended| - 1]) + if t.outcome == Failed then [t] else []
  }

  function Tally(ended: seq<Ended>, o: Outcome): nat {
    if ended == [] then 0
    else Tally(ended[..|ended| - 1], o) + if ended[|ended| - 1].outcome == o then 1 else 0
  }

  /** The results are those of the first `h` tasks that have ended. */
  ghost predicate Counted(r: Results, ended: seq<Ended>, h: int) {
    && 0 <= r.cleared <= h <= |ended|
    && r.succeeded == Tally(ended[..h], Ok)
    && r.failed == Tally(ended[..h], Failed)
    && r.exceptionInfo == LastOnes(Failures(ended[r.cleared..h]), MaxExceptions)
  }

  /** The number of tasks being handled. */
  ghost function InHand(s: Group): nat {
    if s.position.Handling? then 1 else 0
  }

  /** The number of ended tasks whose handling is finished. */
  ghost function HandledCount(s: Group): int {
    s.tasks.taken - InHand(s)
  }

  /** The limit is kept, nobody oversleeps, and work that was found is still there. */
  ghost predicate Placed(s: Group) {
    && |s.tasks.active| <= s.max
    && (s.position.Outside? <==> s.call.NoCall?)
    && (s.position.AtAdd? || s.position.HasRoom? ==> s.call.Adding?)
    && (s.position.HasRoom? ==> |s.tasks.active| < s.max)
    && (s.call.HandlingOnce? ==> s.position.FoundWork? || s.position.Handling?)
    && (s.position.FoundWork? && !s.call.HandlingOnce? ==> SomethingToDo(s.tasks))
    && (s.position.Asleep? ==> (s.position.notified <==> SomethingToDo(s.tasks)))
    && (s.position.Handling? ==>
          0 < s.tasks.taken <= |s.tasks.ended| && s.position.task == s.tasks.ended[s.tasks.taken - 1])
  }

  ghost predicate Inv(s: Group) {
    Ledger(s.tasks) && Counted(s.results, s.tasks.ended, HandledCount(s)) && Placed(s)
  }

  /** The states that the invariant allows. */
  ghost function Lawful(): iset<Group> {
    iset s: Group | Inv(s)
  }

  lemma CreateInv(max: nat)
    ensures Inv(Create(max))
  {
  }

  // ---------------------------------------------------------------- the tasks

  lemma OneLess(m: map<nat, string>, id: nat)
    requires id in m
    ensures |m - {id}| == |m| - 1 && (m - {id}).Keys == m.Keys - {id}
  {
    assert (m - {id}).Keys == m.Keys - {id};
    assert |m| == |m.Keys|;
  }

  lemma OneMore(m: map<nat, string>, id: nat, name: string)
    requires id !in m
    ensures |m[id := name]| == |m| + 1 && m[id := name].Keys == m.Keys + {id}
  {
    assert m[id := name].Keys == m.Keys + {id};
    assert |m| == |m.Keys|;
  }

  lemma IdsGrow(ended: seq<Ended>, t: Ended)
    ensures Ids(ended + [t]) == Ids(ended) + {t.id}
    ensures DistinctIds(ended) && t.id !in Ids(ended) ==> DistinctIds(ended + [t])
  {
    assert forall i :: 0 <= i < |ended| ==> ended[i].id in Ids(ended);
    assert (ended + [t])[|ended|] == t;
    assert forall i :: 0 <= i < |ended| ==> (ended + [t])[i] == ended[i];
    assert forall u :: u in ended + [t] <==> u in ended || u == t;
  }

  lemma StartKeepsLedger(t: Tasks, name: string)
    requires Ledger(t)
    ensures Ledger(Started(t, name)) && |Started(t, name).active| == |t.active| + 1
  {
    var id, n := t.counter + 1, Started(t, name);
    assert id !in t.active && id !in Ids(t.ended);
    OneMore(t.active, id, name);
    assert forall k :: k in n.active <==> k in t.active || k == id;
  }

  lemma ReportKeepsLedger(t: Tasks, id: nat, outcome: Outcome)
    requires Ledger(t) && id in t.running
    ensures id in t.active && Ledger(Reported(t, id, outcome))
    ensures |Reported(t, id, outcome).active| == |t.active| - 1
  {
    var e := Ended(id, t.active[id], outcome);
    OneLess(t.active, id);
    IdsGrow(t.ended, e);
    assert (t.ended + [e])[t.taken..] == t.ended[t.taken..] + [e];
  }

  lemma TakeKeepsLedger(t: Tasks)
    requires Ledger(t)
    ensures Ledger(TakenOut(t))
    ensures t.completed != [] ==> t.taken < |t.ended| && t.completed[0] == t.ended[t.taken]
  {
    if t.completed != [] {
      assert t.completed[1..] == t.ended[t.taken + 1..];
    }
  }

  // ---------------------------------------------------------------- the results

  lemma FailuresGrow(ended: seq<Ended>, i: nat, j: nat)
    requires i <= j < |ended|
    ensures Failures(ended[i..j + 1]) == Failures(ended[i..j]) + if ended[j].outcome == Failed then [ended[j]] else []
  {
    assert ended[i..j + 1][..j - i] == ended[i..j];
  }

  lemma TallyGrows(ended: seq<Ended>, j: nat, o: Outcome)
    requires j < |ended|
    ensures Tally(ended[..j + 1], o) == Tally(ended[..j], o) + if ended[j].outcome == o then 1 else 0
  {
    assert ended[..j + 1][..j] == ended[..j];
  }

  lemma NotedIsLast(f: seq<Ended>, t: Ended)
    ensures Noted(LastOnes(f, MaxExceptions), t) == LastOnes(f + [t], MaxExceptions)
  {
  }

  lemma NotingKeepsCounted(r: Results, ended: seq<Ended>, h: nat)
    requires h < |ended| && Counted(r, ended, h)
    ensures Counted(Noting(r, ended[h]), ended, h + 1)
  {
    TallyGrows(ended, h, Ok);
    TallyGrows(ended, h, Failed);
    FailuresGrow(ended, r.cleared, h);
    NotedIsLast(Failures(ended[r.cleared..h]), ended[h]);
  }

  lemma CountedOfMore(r: Results, ended: seq<Ended>, h: int, t: Ended)
    requires Counted(r, ended, h)
    ensures Counted(r, ended + [t], h)
  {
    assert (ended + [t])[..h] == ended[..h];
    assert (ended + [t])[r.cleared..h] == ended[r.cleared..h];
  }

  lemma ClearingKeepsCounted(r: Results, ended: seq<Ended>, h: nat)
    requires Counted(r, ended, h)
    ensures Counted(r.(exceptionInfo := [], cleared := h), ended, h)
  {
    assert ended[h..h] == [];
  }

  // ---------------------------------------------------------------- every step keeps the invariant

  lemma ReportKeepsInv(s: Group, id: nat, outcome: Outcome)
    requires Inv(s) && Enabled(s, Report(id, outcome))
    ensures Inv(Apply(s, Report(id, outcome)))
  {
    ReportKeepsLedger(s.tasks, id, outcome);
    CountedOfMore(s.results, s.tasks.ended, HandledCount(s), Ended(id, s.tasks.active[id], outcome));
  }

  lemma TakeKeepsInv(s: Group)
    requires Inv(s) && Enabled(s, TakeEnded)
    ensures Inv(Apply(s, TakeEnded))
  {
    if s.tasks.completed == [] {
      FindNothingKeepsInv(s);
    } else {
      TakeOneKeepsInv(s);
    }
  }

  /** The invariant does not depend on where the thread stands, except through `Placed`. */
  lemma OtherPlace(s: Group, t: Group)
    requires Inv(s) && t.tasks == s.tasks && t.results == s.results && InHand(t) == InHand(s) && Placed(t)
    ensures Inv(t)
  {
  }

  lemma FindNothingKeepsPlaced(s: Group)
    requires Placed(s) && Enabled(s, TakeEnded) && s.tasks.completed == []
    ensures Placed(Apply(s, TakeEnded))
  {
  }

  lemma FindNothingKeepsInv(s: Group)
    requires Inv(s) && Enabled(s, TakeEnded) && s.tasks.completed == []
    ensures Inv(Apply(s, TakeEnded))
  {
    FindNothingKeepsPlaced(s);
    OtherPlace(s, Apply(s, TakeEnded));
  }

  lemma TakeOneKeepsInv(s: Group)
    requires Inv(s) && Enabled(s, TakeEnded) && s.tasks.completed != []
    ensures Inv(Apply(s, TakeEnded))
  {
    TakeKeepsLedger(s.tasks);
    assert HandledCount(Apply(s, TakeEnded)) == HandledCount(s);
  }

  lemma HandleKeepsPlaced(s: Group)
    requires Inv(s) && Enabled(s, HandleTask)
    ensures Placed(Apply(s, HandleTask)) && !Apply(s, HandleTask).position.Handling?
  {
  }

  lemma HandleKeepsInv(s: Group)
    requires Inv(s) && Enabled(s, HandleTask)
    ensures Inv(Apply(s, HandleTask))
  {
    HandleKeepsPlaced(s);
    var s' := Apply(s, HandleTask);
    assert s'.tasks == s.tasks && s'.results == Noting(s.results, s.position.task);
    NotingKeepsCounted(s.results, s.tasks.ended, s.tasks.taken - 1);
  }

  lemma CreateKeepsInv(s: Group)
    requires Inv(s) && Enabled(s, CreateTask)
    ensures Inv(Apply(s, CreateTask))
  {
    StartKeepsLedger(s.tasks, s.call.name);
  }

  lemma ClearKeepsInv(s: Group)
    requires Inv(s) && Enabled(s, ClearInfo)
    ensures Inv(Apply(s, ClearInfo))
  {
    ClearingKeepsCounted(s.results, s.tasks.ended, s.tasks.taken);
  }

  lemma MoveKeepsPlaced(s: Group, e: Event)
    requires Placed(s) && Enabled(s, e)
    requires !e.Report? && !e.TakeEnded? && !e.HandleTask? && !e.CreateTask? && !e.ClearInfo?
    ensures Placed(Apply(s, e))
  {
  }

  lemma MoveKeepsInv(s: Group, e: Event)
    requires Inv(s) && Enabled(s, e)
    requires !e.Report? && !e.TakeEnded? && !e.HandleTask? && !e.CreateTask? && !e.ClearInfo?
    ensures Inv(Apply(s, e))
  {
    MoveKeepsPlaced(s, e);
    OtherPlace(s, Apply(s, e));
  }

  lemma EventKeepsInv(s: Group, e: Event)
    requires Inv(s) && Enabled(s, e)
    ensures Inv(Apply(s, e))
  {
    match e {
      case Report(id, outcome) => ReportKeepsInv(s, id, outcome);
      case TakeEnded => TakeKeepsInv(s);
      case HandleTask => HandleKeepsInv(s);
      case CreateTask => CreateKeepsInv(s);
      case ClearInfo => ClearKeepsInv(s);
      case _ => MoveKeepsInv(s, e);
    }
  }

  lemma LawfulReportFindsTask(s: Group, id: nat, outcome: Outcome)
    requires s in Lawful() && Enabled(s, Report(id, outcome))
    ensures id in s.tasks.active
  {
  }

  lemma EventStaysLawful(s: Group, e: Event)
    requires s in Lawful() && Enabled(s, e)
    ensures Apply(s, e) in Lawful()
  {
    EventKeepsInv(s, e);
  }

  // ---------------------------------------------------------------- whole runs

  ghost predicate Valid(s: Group, es: seq<Event>)
    decreases |es|
  {
    es == [] || (Enabled(s, es[0]) && Valid(Apply(s, es[0]), es[1..]))
  }

  ghost function After(s: Group, es: seq<Event>): Group
    requires Valid(s, es)
    decreases |es|
  {
    if es == [] then s else After(Apply(s, es[0]), es[1..])
  }

  lemma {:induction false} RunKeepsInv(s: Group, es: seq<Event>)
    requires Inv(s) && Valid(s, es)
    ensures Inv(After(s, es)) && After(s, es).max == s.max
    decreases |es|
  {
    if es != [] {
      EventKeepsInv(s, es[0]);
      RunKeepsInv(Apply(s, es[0]), es[1..]);
    }
  }

  /** The number of tasks handled that had been interrupted. */
  ghost function InterruptedCount(s: Group): nat
    requires 0 <= HandledCount(s) <= |s.tasks.ended|
  {
    Tally(s.tasks.ended[..HandledCount(s)], Interrupted)
  }

  lemma {:induction false} TalliesAddUp(ended: seq<Ended>)
    ensures Tally(ended, Ok) + Tally(ended, Failed) + Tally(ended, Interrupted) == |ended|
  {
    if ended != [] {
      TalliesAddUp(ended[..|ended| - 1]);
    }
  }

  /** Every task created is active, ended, in hand or handled. */
  lemma NoTaskIsLost(s: Group)
    requires Inv(s)
    ensures s.tasks.counter == |s.tasks.active| + |s.tasks.completed| + InHand(s)
                               + s.results.succeeded + s.results.failed + InterruptedCount(s)
  {
    TalliesAddUp(s.tasks.ended[..HandledCount(s)]);
  }

  /** In every reachable state no task is lost and none is counted twice, the limit is kept, and the
      failures noted are the last hundred since they were cleared. */
  lemma GroupIsSafe(max: nat, es: seq<Event>)
    requires Valid(Create(max), es)
    ensures var s := After(Create(max), es);
            && Inv(s) && |s.tasks.active| <= max
            && s.tasks.counter == |s.tasks.active| + |s.tasks.completed| + InHand(s)
                                  + s.results.succeeded + s.results.failed + InterruptedCount(s)
            && s.results.exceptionInfo == LastOnes(Failures(s.tasks.ended[s.results.cleared..HandledCount(s)]), 100)
  {
    CreateInv(max);
    RunKeepsInv(Create(max), es);
    NoTaskIsLost(After(Create(max), es));
  }

  /** The thread of a task always finds its task among the active ones. */
  lemma ReportFindsTask(s: Group, id: nat, outcome: Outcome)
    requires Inv(s) && Enabled(s, Report(id, outcome))
    ensures id in s.tasks.active
    ensures Apply(s, Report(id, outcome)).tasks.completed
         == s.tasks.completed + [Ended(id, s.tasks.active[id], outcome)]
  {
  }

  /** When waiting is over, normally or by an exception, no task is active and none is left to handle. */
  lemma WaitEndsEmpty(s: Group, e: Event)
    requires Inv(s) && Enabled(s, e) && s.call.Waiting? && Apply(s, e).position.Outside?
    ensures Apply(s, e).tasks == s.tasks && |s.tasks.active| == 0 && s.tasks.completed == []
  {
  }

  // ---------------------------------------------------------------- progress

  /** Steps inside a call, and reports; not the start of a call, nor waking up for nothing. */
  ghost predicate Internal(s: Group, e: Event) {
    match e
    case CheckActive => true
    case CheckEnded => true
    case WakeUp => s.position.Asleep? && s.position.notified
    case TakeEnded => true
    case HandleTask => true
    case CreateTask => true
    case Report(_, _) => true
    case _ => false
  }

  ghost function Rank(s: Group): nat {
    match s.position
    case Outside => 0
    case HasRoom => 1
    case AtAdd => if |s.tasks.active| < s.max then 2 else 7
    case AtWait => 6
    case Asleep(notified) => if notified then 5 else 4
    case FoundWork => 4
    case Handling(_) => 9
  }

  ghost function Work(s: Group): nat {
    10 * (2 * |s.tasks.active| + |s.tasks.completed|) + Rank(s)
  }

  /** Every step inside a call, except the one that creates a task and ends the call, leaves less work. */
  lemma InternalStepDescends(s: Group, e: Event)
    requires Inv(s) && (s.max > 0 || !s.call.Adding?) && Enabled(s, e) && Internal(s, e)
    ensures if e.CreateTask? then Apply(s, e).position.Outside? else Work(Apply(s, e)) < Work(s)
  {
    if e.Report? {
      ReportKeepsLedger(s.tasks, e.id, e.outcome);
    }
  }

  /** Anything else that may happen during a call leaves as much work as there was. */
  lemma OtherStepKeepsWork(s: Group, e: Event)
    requires Inv(s) && !s.position.Outside? && Enabled(s, e) && !Internal(s, e)
    ensures Work(Apply(s, e)) == Work(s) && !Apply(s, e).position.Outside?
  {
  }

  /** Inside a call somebody can always move: the thread itself, or else the thread of a task. */
  lemma SomebodyCanMove(s: Group) returns (e: Event)
    requires Inv(s) && !s.position.Outside?
    ensures Enabled(s, e) && Internal(s, e)
  {
    match s.position {
      case AtAdd => e := CheckActive;
      case HasRoom => e := CreateTask;
      case AtWait => e := CheckEnded;
      case FoundWork => e := TakeEnded;
      case Handling(_) => e := HandleTask;
      case Asleep(notified) =>
        if notified {
          e := WakeUp;
        } else {
          var id :| id in s.tasks.active;
          e := Report(id, Ok);
        }
    }
  }

  // ---------------------------------------------------------------- calls end

  ghost predicate Step(s: Group, t: Group) {
    exists e :: Enabled(s, e) && t == Apply(s, e)
  }

  ghost predicate InternalStep(s: Group, t: Group) {
    exists e :: Enabled(s, e) && Internal(s, e) && t == Apply(s, e)
  }

  ghost predicate StepAt(f: nat -> Group, k: nat) {
    Step(f(k), f(k + 1))
  }

  /** A run without end of a group with this limit: any event may come next, also stops, calls and
      wakeups for nothing. */
  ghost predicate Schedule(max: nat, f: nat -> Group) {
    f(0) == Create(max) && forall k: nat :: StepAt(f, k)
  }

  ghost predicate MovesAt(f: nat -> Group, k: nat) {
    f(k).position.Outside? || InternalStep(f(k), f(k + 1))
  }

  ghost predicate MovesAfter(f: nat -> Group, k: nat) {
    exists j: nat :: k <= j && MovesAt(f, j)
  }

  /** During a call, there is always another step of the calling thread or of a task to come. */
  ghost predicate Fair(f: nat -> Group) {
    forall k: nat :: MovesAfter(f, k)
  }

  ghost predicate SameCall(s: Group, t: Group) {
    (s.call == t.call || (s.call.Waiting? && t.call.Waiting?)) && t.tasks.counter == s.tasks.counter
  }

  /** The call that is under way in state `i` goes on until state `k`, which is the first one after it. */
  ghost predicate ReturnsAt(f: nat -> Group, i: nat, k: nat) {
    && i < k && f(k).position.Outside?
    && forall j: nat :: i <= j < k ==> SameCall(f(i), f(j)) && !f(j).position.Outside?
  }

  lemma LawfulStep(s: Group, t: Group)
    requires s in Lawful() && Step(s, t)
    ensures t in Lawful() && t.max == s.max
  {
    var e :| Enabled(s, e) && t == Apply(s, e);
    EventStaysLawful(s, e);
  }

  lemma {:induction false} ScheduleIsLawful(max: nat, f: nat -> Group, k: nat)
    requires Schedule(max, f)
    ensures f(k) in Lawful() && f(k).max == max
  {
    if k == 0 {
      CreateInv(max);
    } else {
      ScheduleIsLawful(max, f, k - 1);
      assert StepAt(f, k - 1);
      LawfulStep(f(k - 1), f(k));
    }
  }

  lemma CallerIsInside(max: nat, f: nat -> Group, k: nat)
    requires Schedule(max, f) && !f(k).call.NoCall?
    ensures !f(k).position.Outside? && f(k).max == max
  {
    ScheduleIsLawful(max, f, k);
  }

  /** The thread is inside a call that does not wait for room where there can be none. */
  ghost predicate Calling(s: Group) {
    !s.position.Outside? && (s.max > 0 || !s.call.Adding?)
  }

  /** A step of its own brings a call nearer to its end. */
  lemma OwnStep(s: Group, t: Group)
    requires s in Lawful() && Calling(s) && InternalStep(s, t)
    ensures t.position.Outside? || Work(t) < Work(s)
  {
    var e :| Enabled(s, e) && Internal(s, e) && t == Apply(s, e);
    InternalStepDescends(s, e);
  }

  /** Any step during a call either ends it or leaves no more work than there was. */
  lemma CallGoesOn(s: Group, t: Group)
    requires s in Lawful() && Calling(s) && Step(s, t)
    ensures t.position.Outside? || (SameCall(s, t) && Work(t) <= Work(s))
  {
    var e :| Enabled(s, e) && t == Apply(s, e);
    if Internal(s, e) {
      InternalStepDescends(s, e);
    } else {
      OtherStepKeepsWork(s, e);
    }
  }

  lemma CallStepAt(max: nat, f: nat -> Group, i: nat)
    requires Schedule(max, f) && Calling(f(i))
    ensures f(i + 1).position.Outside?
            || (Calling(f(i + 1)) && SameCall(f(i), f(i + 1)) && Work(f(i + 1)) <= Work(f(i)))
    ensures MovesAt(f, i) ==> f(i + 1).position.Outside? || Work(f(i + 1)) < Work(f(i))
  {
    ScheduleIsLawful(max, f, i);
    assert StepAt(f, i);
    LawfulStep(f(i), f(i + 1));
    CallGoesOn(f(i), f(i + 1));
    if MovesAt(f, i) {
      OwnStep(f(i), f(i + 1));
    }
  }

  /** The call goes on from state `i`; the next step of its own comes in state `j` at the latest. */
  lemma {:induction false} CallEnds(max: nat, f: nat -> Group, i: nat, j: nat) returns (k: nat)
    requires Schedule(max, f) && Fair(f) && Calling(f(i)) && i <= j && MovesAt(f, j)
    ensures ReturnsAt(f, i, k)
    decreases Work(f(i)), j - i
  {
    CallStepAt(max, f, i);
    if f(i + 1).position.Outside? {
      k := i + 1;
    } else if i < j {
      k := CallEnds(max, f, i + 1, j);
    } else {
      var l := NextMove(f, i + 1);
      k := CallEnds(max, f, i + 1, l);
    }
  }

  lemma NextMove(f: nat -> Group, i: nat) returns (j: nat)
    requires Fair(f)
    ensures i <= j && MovesAt(f, j)
  {
    assert MovesAfter(f, i);
    j :| i <= j && MovesAt(f, j);
  }

  ghost predicate WaitOver(f: nat -> Group, i: nat, k: nat) {
    ReturnsAt(f, i, k) && f(k).tasks.active == map[] && f(k).tasks.completed == []
  }

  lemma WaitEndsEmptyHanded(s: Group, t: Group)
    requires s in Lawful() && Step(s, t) && s.call.Waiting? && t.position.Outside?
    ensures t.tasks.active == map[] && t.tasks.completed == []
  {
    var e :| Enabled(s, e) && t == Apply(s, e);
    WaitEndsEmpty(s, e);
  }

  /** In every fair schedule, each `wait` ends, with no task active and none left to handle. */
  lemma WaitEnds(max: nat, f: nat -> Group, i: nat) returns (k: nat)
    requires Schedule(max, f) && Fair(f) && f(i).call.Waiting?
    ensures WaitOver(f, i, k)
  {
    CallerIsInside(max, f, i);
    var j := NextMove(f, i);
    k := CallEnds(max, f, i, j);
    ScheduleIsLawful(max, f, k - 1);
    assert StepAt(f, k - 1) && SameCall(f(i), f(k - 1));
    WaitEndsEmptyHanded(f(k - 1), f(k));
  }

  /** The call of `add` is over; its task is there unless the group has been asked to stop. */
  ghost predicate AddOver(f: nat -> Group, i: nat, k: nat)
    requires f(i).call.Adding?
  {
    && ReturnsAt(f, i, k)
    && (f(k).stopRequested ||
        var id := f(i).tasks.counter + 1;
        f(k).tasks.counter == id && id in f(k).tasks.active && f(k).tasks.active[id] == f(i).call.name)
  }

  ghost predicate AddEndsFrom(f: nat -> Group, i: nat) {
    f(i).call.Adding? ==> exists k: nat :: AddOver(f, i, k)
  }

  ghost predicate EveryAddEnds(f: nat -> Group) {
    forall i: nat :: AddEndsFrom(f, i)
  }

  lemma AddEndsWithTask(s: Group, t: Group)
    requires Step(s, t) && s.call.Adding? && !s.position.Outside? && t.position.Outside?
    ensures var id := s.tasks.counter + 1;
            t.stopRequested || (t.tasks.counter == id && id in t.tasks.active && t.tasks.active[id] == s.call.name)
  {
    var e :| Enabled(s, e) && t == Apply(s, e);
  }

  lemma AddEnds(max: nat, f: nat -> Group, i: nat)
    requires Schedule(max, f) && Fair(f) && max > 0
    ensures AddEndsFrom(f, i)
  {
    if f(i).call.Adding? {
      CallerIsInside(max, f, i);
      var j := NextMove(f, i);
      var k := CallEnds(max, f, i, j);
      assert StepAt(f, k - 1) && SameCall(f(i), f(k - 1));
      AddEndsWithTask(f(k - 1), f(k));
      assert AddOver(f, i, k);
    }
  }

  lemma NothingBooked(t: Tasks)
    requires t.counter == 0 == |t.active| + |t.ended| && t.running == t.active.Keys
    requires t.taken <= |t.ended| && t.completed == t.ended[t.taken..]
    ensures t.active == map[] && t.completed == [] && t.running == {} && t.taken == 0
  {
  }

  lemma NothingCreated(s: Group)
    requires Inv(s) && s.tasks.counter == 0
    ensures s.tasks.completed == [] && s.tasks.running == {} && !s.position.Handling?
    ensures s.position.HasRoom? ==> s.max > 0
  {
    NothingBooked(s.tasks);
  }

  /** With a limit of zero no event whatever, not even a stop, ends an `add`. */
  lemma ZeroLimitKeepsAdding(s: Group, t: Group)
    requires s.tasks.counter == 0 && s.tasks.completed == [] && s.tasks.running == {}
    requires !s.position.HasRoom? && !s.position.Handling? && (s.call.Adding? ==> !s.position.Outside?)
    requires Step(s, t)
    ensures t.tasks.counter == 0 && (s.call.Adding? ==> t.call == s.call)
  {
    var e :| Enabled(s, e) && t == Apply(s, e);
  }

  lemma ZeroLimitStep(f: nat -> Group, k: nat)
    requires Schedule(0, f) && f(k).tasks.counter == 0
    ensures f(k + 1).tasks.counter == 0 && (f(k).call.Adding? ==> f(k + 1).call == f(k).call)
    ensures f(k).call.Adding? ==> !f(k).position.Outside?
  {
    ScheduleIsLawful(0, f, k);
    assert StepAt(f, k);
    NothingCreated(f(k));
    ZeroLimitKeepsAdding(f(k), f(k + 1));
  }

  lemma {:induction false} ZeroLimitNeverCreates(f: nat -> Group, k: nat)
    requires Schedule(0, f)
    ensures f(k).tasks.counter == 0
  {
    if k > 0 {
      ZeroLimitNeverCreates(f, k - 1);
      ZeroLimitStep(f, k - 1);
    }
  }

  /** In no schedule, fair or not, does an `add` with a limit of zero return. */
  lemma {:induction false} ZeroLimitNeverAdds(f: nat -> Group, i: nat, k: nat)
    requires Schedule(0, f) && f(i).call.Adding? && i <= k
    ensures f(k).call == f(i).call && !f(k).position.Outside?
    decreases k - i
  {
    ZeroLimitNeverCreates(f, k);
    if i < k {
      ZeroLimitNeverAdds(f, i, k - 1);
      ZeroLimitNeverCreates(f, k - 1);
      ZeroLimitStep(f, k - 1);
    }
    ZeroLimitStep(f, k);
  }

  /** A call of `add` that goes round in a circle for ever. */
  ghost function Circle(k: nat): Group {
    if k == 0 then Create(0)
    else
      Create(0).(call := Adding(""),
                 position := if k % 3 == 1 then AtAdd else if k % 3 == 2 then AtWait else FoundWork)
  }

  lemma CircleStep(k: nat)
    ensures StepAt(Circle, k) && MovesAt(Circle, k)
  {
    var e := if k == 0 then BeginAdd("")
             else if k % 3 == 1 then CheckActive else if k % 3 == 2 then CheckEnded else TakeEnded;
    assert Enabled(Circle(k), e) && Circle(k + 1) == Apply(Circle(k), e) && (k > 0 ==> Internal(Circle(k), e));
  }

  lemma CircleIsFair()
    ensures Schedule(0, Circle) && Fair(Circle)
  {
    forall k: nat ensures StepAt(Circle, k) {
      CircleStep(k);
    }
    forall k: nat ensures MovesAfter(Circle, k) {
      CircleStep(k);
    }
  }

  /** `add` ends in every fair schedule, with its task created unless the group has been asked to stop,
      exactly when the limit is not zero. */
  lemma AddEndsIff(max: nat)
    ensures (forall f :: Schedule(max, f) && Fair(f) ==> EveryAddEnds(f)) <==> max > 0
  {
    if max > 0 {
      forall f, i: nat | Schedule(max, f) && Fair(f) ensures AddEndsFrom(f, i) {
        AddEnds(max, f, i);
      }
    } else {
      CircleIsFair();
      forall k: nat | 1 <= k ensures !AddOver(Circle, 1, k) {
        ZeroLimitNeverAdds(Circle, 1, k);
      }
      assert !AddEndsFrom(Circle, 1);
    }
  }
}
