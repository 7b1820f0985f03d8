/** Runs of concurrent share submissions: the duplicate guard, the share counters and the pruning of worker records. */
module ShareRuns {
  import opened Basics
  import opened Guards

  datatype Counter = Shares | Stales | Invalids

  datatype Counts = Counts(shares: nat, stales: nat, invalids: nat)

  function Of(n: Counts, c: Counter): (r: nat)
  {
    match c
    case Shares => n.shares
    case Stales => n.stales
    case Invalids => n.invalids
  }

  function Bump(n: Counts, c: Counter): (r: Counts)
    ensures forall d :: Of(r, d) == Of(n, d) + if d == c then 1 else 0
  {
    match c
    case Shares => n.(shares := n.shares + 1)
    case Stales => n.(stales := n.stales + 1)
    case Invalids => n.(invalids := n.invalids + 1)
  }

  const ZERO := Counts(0, 0, 0)

  function CounterOf(o: SubmitOutcome): (c: Counter)
  {
    match o
    case Accepted => Shares
    case Stale => Stales
    case _ => Invalids
  }

  // ---- Tasks ---------------------------------------------------------------------------------------------

  /** What a settled submission does to shared state, each under its own lock. */
  datatype Action = Record | Lookup | CountWorker | CountOverall

  function Program(o: SubmitOutcome): (p: seq<Action>)
  {
    match o
    case Stale => [Record, Lookup, CountWorker, CountOverall]
    case Accepted => [Lookup, Lookup, CountWorker, CountOverall, Record]
    case _ => [Lookup, CountWorker, CountOverall, Record]
  }

  /**
   * One submission: before the guard, answered from the guard, let through and being validated, or settled with an
   * outcome and `pc` actions into its program. `handle` names the worker record it looked up.
   */
  datatype Task =
    | Waiting(key: string, worker: string)
    | Answered(key: string, worker: string, outcome: SubmitOutcome)
    | Admitted(key: string, worker: string)
    | Running(key: string, worker: string, outcome: SubmitOutcome, pc: nat, handle: Option<nat>)

  /**
   * Worker records are never destroyed here: `records` holds all that were ever created and
   * `owners` the worker each was created for, `live` maps the workers of the
   * statistics table to theirs, and a pruned record stays reachable for a task that looked it up. `dropped` remembers
   * the keys that left the guard.
   */
  datatype State = State(
    guard: Guard<SubmitEntry>,
    dropped: multiset<string>,
    records: seq<Counts>,
    owners: seq<string>,
    live: map<string, nat>,
    overall: Counts,
    tasks: seq<Task>)

  /** Any task may move at any time, at any time of day; any set of workers may be pruned at any moment. */
  datatype Event =
    | Arrive(key: string, worker: string)
    | Check(i: nat, now: nat)
    | Settle(i: nat, outcome: SubmitOutcome)
    | Advance(i: nat, now: nat)
    | Touch(worker: string)
    | PruneStats(gone: set<string>)

  predicate Enabled(s: State, e: Event)
  {
    match e
    case Check(i, _) => i < |s.tasks| && s.tasks[i].Waiting?
    case Settle(i, o) => i < |s.tasks| && s.tasks[i].Admitted? && o != InFlight
    case Advance(i, _) =>
      i < |s.tasks| && s.tasks[i].Running? && s.tasks[i].pc < |Program(s.tasks[i].outcome)| &&
      (Program(s.tasks[i].outcome)[s.tasks[i].pc] == CountWorker ==>
         s.tasks[i].handle.Some? && s.tasks[i].handle.value < |s.records|)
    case _ => true
  }

  /** The guard replaced by a later one; what left it is remembered in `dropped`. */
  function WithGuard(s: State, g: Guard<SubmitEntry>): (r: State)
  {
    s.(guard := g, dropped := s.dropped + multiset(s.guard.entries.Keys - g.entries.Keys))
  }

  /** `get_create_stats`: the worker's record, created when it has none. */
  function Looked(s: State, worker: string): (r: (State, nat))
  {
    if worker in s.live then (s, s.live[worker])
    else
      var h := |s.records|;
      (s.(records := s.records + [ZERO], owners := s.owners + [worker], live := s.live[worker := h]), h)
  }

  function Checked(s: State, i: nat, now: nat, ttl: nat, max: nat): (r: State)
    requires Enabled(s, Check(i, now))
  {
    var key, worker := s.tasks[i].key, s.tasks[i].worker;
    var g := Pruned(s.guard, SUBMIT_TS, now, ttl, max);
    if key in g.entries then
      WithGuard(s, g).(tasks := s.tasks[i := Answered(key, worker, g.entries[key].outcome)])
    else
      WithGuard(s, Pruned(g, SUBMIT_TS, now, ttl, max))
        .(guard := Inserted(g, key, now, ttl, max), tasks := s.tasks[i := Admitted(key, worker)])
  }

  function Recorded(s: State, key: string, o: SubmitOutcome, now: nat, ttl: nat, max: nat): (r: State)
  {
    WithGuard(s, Resolved(s.guard, key, now, o, ttl, max))
  }

  function Advanced(s: State, i: nat, now: nat, ttl: nat, max: nat): (r: State)
    requires Enabled(s, Advance(i, now))
  {
    var t := s.tasks[i];
    var next := t.(pc := t.pc + 1);
    match Program(t.outcome)[t.pc]
    case Record => Recorded(s, t.key, t.outcome, now, ttl, max).(tasks := s.tasks[i := next])
    case Lookup =>
      var (r, h) := Looked(s, t.worker);
      r.(tasks := s.tasks[i := next.(handle := Some(h))])
    case CountWorker =>
      var h := t.handle.value;
      s.(records := s.records[h := Bump(s.records[h], CounterOf(t.outcome))], tasks := s.tasks[i := next])
    case CountOverall =>
      s.(overall := Bump(s.overall, CounterOf(t.outcome)), tasks := s.tasks[i := next])
  }

  function Next(s: State, e: Event, ttl: nat, max: nat): (r: State)
    requires Enabled(s, e)
  {
    match e
    case Arrive(key, worker) => s.(tasks := s.tasks + [Waiting(key, worker)])
    case Check(i, now) => Checked(s, i, now, ttl, max)
    case Settle(i, o) => s.(tasks := s.tasks[i := Running(s.tasks[i].key, s.tasks[i].worker, o, 0, None)])
    case Advance(i, now) => Advanced(s, i, now, ttl, max)
    case Touch(worker) => Looked(s, worker).0
    case PruneStats(gone) => s.(live := s.live - gone)
  }

  const INIT := State(Guard(map[], []), multiset{}, [], [], map[], ZERO, [])

  // ---- Counting tasks --------------------------------------------------------------------------------------

  /** Where the counting actions stand in a program. */
  function WorkerAt(o: SubmitOutcome): (n: nat)
  {
    if o == Stale || o == Accepted then 2 else 1
  }

  lemma ProgramShape(o: SubmitOutcome, pc: nat)
    requires pc < |Program(o)|
    ensures Program(o)[pc] == CountWorker <==> pc == WorkerAt(o)
    ensures Program(o)[pc] == CountOverall <==> pc == WorkerAt(o) + 1
    ensures Program(o)[pc] == Record <==> pc == RecordAt(o)
    ensures Program(o)[pc] == Lookup ==> pc < WorkerAt(o)
    ensures pc == WorkerAt(o) - 1 ==> Program(o)[pc] == Lookup
  {
  }

  function RecordAt(o: SubmitOutcome): (n: nat)
  {
    match o
    case Stale => 0
    case Accepted => 4
    case _ => 3
  }

  predicate WorkerCounted(t: Task)
  {
    t.Running? && t.pc > WorkerAt(t.outcome)
  }

  predicate OverallCounted(t: Task)
  {
    t.Running? && t.pc > WorkerAt(t.outcome) + 1
  }

  /** Past the guard. */
  predicate Processed(t: Task)
  {
    t.Admitted? || t.Running?
  }

  /** The questions about tasks whose answers are counted. */
  datatype Query =
    | InOverall(c: Counter)
    | InWorker(c: Counter)
    | InRecord(h: nat, c: Counter)
    | InRecordBelow(h: nat, c: Counter)
    | Between(c: Counter)
    | OfWorker(worker: string, c: Counter)
    | OfWorkerBelow(h: nat, worker: string, c: Counter)
    | OfKey(key: string)
    | WithOutcome(o: SubmitOutcome)
    | Uncounted
    | AnyProcessed

  predicate Holds(q: Query, t: Task)
  {
    match q
    case InOverall(c) => OverallCounted(t) && CounterOf(t.outcome) == c
    case InWorker(c) => WorkerCounted(t) && CounterOf(t.outcome) == c
    case InRecord(h, c) => WorkerCounted(t) && CounterOf(t.outcome) == c && t.handle == Some(h)
    case InRecordBelow(h, c) => WorkerCounted(t) && CounterOf(t.outcome) == c && t.handle.Some? && t.handle.value < h
    case Between(c) => WorkerCounted(t) && !OverallCounted(t) && CounterOf(t.outcome) == c
    case OfWorker(w, c) => WorkerCounted(t) && t.worker == w && CounterOf(t.outcome) == c
    case OfWorkerBelow(h, w, c) =>
      WorkerCounted(t) && t.worker == w && CounterOf(t.outcome) == c && t.handle.Some? && t.handle.value < h
    case OfKey(k) => Processed(t) && t.key == k
    case WithOutcome(o) => OverallCounted(t) && t.outcome == o
    case Uncounted => Processed(t) && !OverallCounted(t)
    case AnyProcessed => Processed(t)
  }

  function One(b: bool): (n: nat)
  {
    if b then 1 else 0
  }

  function Count(tasks: seq<Task>, q: Query): (n: nat)
  {
    if tasks == [] then 0 else Count(tasks[..|tasks| - 1], q) + One(Holds(q, tasks[|tasks| - 1]))
  }

  lemma CountAppend(tasks: seq<Task>, t: Task, q: Query)
    ensures Count(tasks + [t], q) == Count(tasks, q) + One(Holds(q, t))
  {
    assert (tasks + [t])[..|tasks|] == tasks;
  }

  lemma {:induction false} CountUpdate(tasks: seq<Task>, i: nat, t: Task, q: Query)
    requires i < |tasks|
    ensures Count(tasks[i := t], q) == Count(tasks, q) - One(Holds(q, tasks[i])) + One(Holds(q, t))
  {
    var n := |tasks| - 1;
    if i == n {
      assert tasks[i := t][..n] == tasks[..n];
    } else {
      assert tasks[i := t][..n] == tasks[..n][i := t];
      CountUpdate(tasks[..n], i, t, q);
    }
  }

  lemma {:induction false} CountNone(tasks: seq<Task>, q: Query)
    requires forall i :: 0 <= i < |tasks| ==> !Holds(q, tasks[i])
    ensures Count(tasks, q) == 0
  {
    if tasks != [] {
      CountNone(tasks[..|tasks| - 1], q);
    }
  }

  lemma {:induction false} CountSplit(tasks: seq<Task>, q: Query, a: Query, b: Query)
    requires forall i :: 0 <= i < |tasks| ==>
               One(Holds(q, tasks[i])) == One(Holds(a, tasks[i])) + One(Holds(b, tasks[i]))
    ensures Count(tasks, q) == Count(tasks, a) + Count(tasks, b)
  {
    if tasks != [] {
      CountSplit(tasks[..|tasks| - 1], q, a, b);
    }
  }

  // ---- Records and handles -----------------------------------------------------------------------------

  /** Live workers have distinct records. */
  ghost predicate LiveHandled(live: map<string, nat>, n: nat)
  {
    && (forall w :: w in live ==> live[w] < n)
    && (forall v, w :: v in live && w in live && live[v] == live[w] ==> v == w)
  }

  /** A task that is past its lookup has a record. */
  ghost predicate TaskHandled(t: Task, n: nat)
  {
    t.Running? ==>
      && t.outcome != InFlight && t.pc <= |Program(t.outcome)|
      && (t.pc >= WorkerAt(t.outcome) ==> t.handle.Some?)
      && (t.handle.Some? ==> t.handle.value < n)
  }

  ghost predicate Handled(s: State)
  {
    LiveHandled(s.live, |s.records|) && forall i :: 0 <= i < |s.tasks| ==> TaskHandled(s.tasks[i], |s.records|)
  }

  lemma LookedHandled(s: State, worker: string)
    requires Handled(s)
    ensures Handled(Looked(s, worker).0) && Looked(s, worker).1 < |Looked(s, worker).0.records|
  {
  }

  lemma TaskStepHandled(s: State, i: nat, t: Task, r: State)
    requires Handled(s) && i < |s.tasks| && TaskHandled(t, |s.records|)
    requires r.live == s.live && |r.records| == |s.records| && r.tasks == s.tasks[i := t]
    ensures Handled(r)
  {
  }

  lemma AdvanceHandled(s: State, i: nat, now: nat, ttl: nat, max: nat)
    requires Handled(s) && Enabled(s, Advance(i, now))
    ensures Handled(Advanced(s, i, now, ttl, max))
  {
    var t := s.tasks[i];
    var r := Advanced(s, i, now, ttl, max);
    ProgramShape(t.outcome, t.pc);
    LookedHandled(s, t.worker);
    if Program(t.outcome)[t.pc] == Lookup {
      TaskStepHandled(Looked(s, t.worker).0, i, r.tasks[i], r);
    } else {
      TaskStepHandled(s, i, t.(pc := t.pc + 1), r);
    }
  }

  lemma HandledStep(s: State, e: Event, ttl: nat, max: nat)
    requires Handled(s) && Enabled(s, e)
    ensures Handled(Next(s, e, ttl, max))
  {
    var r := Next(s, e, ttl, max);
    match e {
      case Arrive(key, worker) =>
      case Check(i, now) => TaskStepHandled(s, i, r.tasks[i], r);
      case Settle(i, o) => TaskStepHandled(s, i, r.tasks[i], r);
      case Advance(i, now) => AdvanceHandled(s, i, now, ttl, max);
      case Touch(worker) => LookedHandled(s, worker);
      case PruneStats(gone) =>
    }
  }

  /** No step is blocked for want of a record: a submission that is not finished can go on. */
  lemma NeverStuck(s: State, i: nat, now: nat)
    requires Handled(s) && i < |s.tasks| && s.tasks[i].Running? && s.tasks[i].pc < |Program(s.tasks[i].outcome)|
    ensures Enabled(s, Advance(i, now))
  {
    ProgramShape(s.tasks[i].outcome, s.tasks[i].pc);
  }

  // ---- Counters ------------------------------------------------------------------------------------------

  /** Every counter is the number of submissions that were counted in it. */
  ghost predicate Counted(s: State)
  {
    && (forall c :: Of(s.overall, c) == Count(s.tasks, InOverall(c)))
    && (forall h, c :: 0 <= h < |s.records| ==> Of(s.records[h], c) == Count(s.tasks, InRecord(h, c)))
  }

  lemma LookedCounted(s: State, worker: string)
    requires Handled(s) && Counted(s)
    ensures Counted(Looked(s, worker).0)
  {
    forall c
      ensures Count(s.tasks, InRecord(|s.records|, c)) == 0
    {
      CountNone(s.tasks, InRecord(|s.records|, c));
    }
  }

  /** A step that leaves the counters alone and changes one task in a way no counter sees. */
  lemma UnseenCounted(s: State, i: nat, t: Task, r: State)
    requires Counted(s) && i < |s.tasks|
    requires r.records == s.records && r.overall == s.overall && r.tasks == s.tasks[i := t]
    requires WorkerCounted(s.tasks[i]) == WorkerCounted(t) && OverallCounted(s.tasks[i]) == OverallCounted(t)
    requires WorkerCounted(t) ==> s.tasks[i].outcome == t.outcome && s.tasks[i].handle == t.handle
    ensures Counted(r)
  {
    forall c
      ensures Count(r.tasks, InOverall(c)) == Count(s.tasks, InOverall(c))
    {
      CountUpdate(s.tasks, i, t, InOverall(c));
    }
    forall h, c
      ensures Count(r.tasks, InRecord(h, c)) == Count(s.tasks, InRecord(h, c))
    {
      CountUpdate(s.tasks, i, t, InRecord(h, c));
    }
  }

  lemma WorkerStepCounted(s: State, i: nat, now: nat, ttl: nat, max: nat)
    requires Handled(s) && Counted(s) && Enabled(s, Advance(i, now))
    requires Program(s.tasks[i].outcome)[s.tasks[i].pc] == CountWorker
    ensures Counted(Advanced(s, i, now, ttl, max))
  {
    var t := s.tasks[i];
    var next := t.(pc := t.pc + 1);
    var r := Advanced(s, i, now, ttl, max);
    ProgramShape(t.outcome, t.pc);
    forall c
      ensures Count(r.tasks, InOverall(c)) == Count(s.tasks, InOverall(c))
    {
      CountUpdate(s.tasks, i, next, InOverall(c));
    }
    forall h, c | 0 <= h < |s.records|
      ensures Of(r.records[h], c) == Count(r.tasks, InRecord(h, c))
    {
      CountUpdate(s.tasks, i, next, InRecord(h, c));
    }
  }

  lemma OverallStepCounted(s: State, i: nat, now: nat, ttl: nat, max: nat)
    requires Handled(s) && Counted(s) && Enabled(s, Advance(i, now))
    requires Program(s.tasks[i].outcome)[s.tasks[i].pc] == CountOverall
    ensures Counted(Advanced(s, i, now, ttl, max))
  {
    var t := s.tasks[i];
    var next := t.(pc := t.pc + 1);
    var r := Advanced(s, i, now, ttl, max);
    ProgramShape(t.outcome, t.pc);
    forall c
      ensures Of(r.overall, c) == Count(r.tasks, InOverall(c))
    {
      CountUpdate(s.tasks, i, next, InOverall(c));
    }
    forall h, c | 0 <= h < |s.records|
      ensures Of(r.records[h], c) == Count(r.tasks, InRecord(h, c))
    {
      CountUpdate(s.tasks, i, next, InRecord(h, c));
    }
  }

  lemma AdvanceCounted(s: State, i: nat, now: nat, ttl: nat, max: nat)
    requires Handled(s) && Counted(s) && Enabled(s, Advance(i, now))
    ensures Counted(Advanced(s, i, now, ttl, max))
  {
    var t := s.tasks[i];
    var r := Advanced(s, i, now, ttl, max);
    ProgramShape(t.outcome, t.pc);
    match Program(t.outcome)[t.pc] {
      case Record => UnseenCounted(s, i, t.(pc := t.pc + 1), r);
      case Lookup =>
        LookedCounted(s, t.worker);
        var (l, h) := Looked(s, t.worker);
        UnseenCounted(l, i, t.(pc := t.pc + 1, handle := Some(h)), r);
      case CountWorker => WorkerStepCounted(s, i, now, ttl, max);
      case CountOverall => OverallStepCounted(s, i, now, ttl, max);
    }
  }

  lemma CountedStep(s: State, e: Event, ttl: nat, max: nat)
    requires Handled(s) && Counted(s) && Enabled(s, e)
    ensures Counted(Next(s, e, ttl, max))
  {
    var r := Next(s, e, ttl, max);
    match e {
      case Arrive(key, worker) =>
        forall q
          ensures Count(r.tasks, q) == Count(s.tasks, q) + One(Holds(q, Waiting(key, worker)))
        {
          CountAppend(s.tasks, Waiting(key, worker), q);
        }
      case Check(i, now) => UnseenCounted(s, i, r.tasks[i], r);
      case Settle(i, o) => UnseenCounted(s, i, r.tasks[i], r);
      case Advance(i, now) => AdvanceCounted(s, i, now, ttl, max);
      case Touch(worker) => LookedCounted(s, worker);
      case PruneStats(gone) =>
    }
  }

  // ---- Owners --------------------------------------------------------------------------------------------

  ghost predicate TaskOwned(t: Task, owners: seq<string>)
  {
    t.Running? && t.handle.Some? ==> t.handle.value < |owners| && owners[t.handle.value] == t.worker
  }

  /** Every record was created for one worker; the table and the submissions use only records of the right worker. */
  ghost predicate Owned(s: State)
  {
    && |s.owners| == |s.records|
    && (forall w :: w in s.live ==> s.live[w] < |s.owners| && s.owners[s.live[w]] == w)
    && (forall i :: 0 <= i < |s.tasks| ==> TaskOwned(s.tasks[i], s.owners))
  }

  lemma LookedOwned(s: State, worker: string)
    requires Owned(s)
    ensures var (r, h) := Looked(s, worker); Owned(r) && h < |r.owners| && r.owners[h] == worker && r.tasks == s.tasks
  {
  }

  lemma TaskStepOwned(s: State, i: nat, t: Task, r: State)
    requires Owned(s) && i < |s.tasks| && TaskOwned(t, s.owners)
    requires r.live == s.live && |r.records| == |s.records| && r.owners == s.owners && r.tasks == s.tasks[i := t]
    ensures Owned(r)
  {
  }

  lemma LookupOwned(s: State, i: nat, now: nat, ttl: nat, max: nat)
    requires Owned(s) && Enabled(s, Advance(i, now)) && Program(s.tasks[i].outcome)[s.tasks[i].pc] == Lookup
    ensures Owned(Advanced(s, i, now, ttl, max))
  {
    var t := s.tasks[i];
    var (l, h) := Looked(s, t.worker);
    LookedOwned(s, t.worker);
    TaskStepOwned(l, i, t.(pc := t.pc + 1, handle := Some(h)), Advanced(s, i, now, ttl, max));
  }

  lemma OtherActions(s: State, i: nat, now: nat, ttl: nat, max: nat)
    requires Enabled(s, Advance(i, now)) && Program(s.tasks[i].outcome)[s.tasks[i].pc] != Lookup
    ensures var r := Advanced(s, i, now, ttl, max);
            && r.live == s.live && |r.records| == |s.records| && r.owners == s.owners
            && r.tasks == s.tasks[i := s.tasks[i].(pc := s.tasks[i].pc + 1)]
  {
  }

  lemma AdvanceOwned(s: State, i: nat, now: nat, ttl: nat, max: nat)
    requires Owned(s) && Enabled(s, Advance(i, now))
    ensures Owned(Advanced(s, i, now, ttl, max))
  {
    var t := s.tasks[i];
    var r := Advanced(s, i, now, ttl, max);
    if Program(t.outcome)[t.pc] == Lookup {
      LookupOwned(s, i, now, ttl, max);
    } else {
      OtherActions(s, i, now, ttl, max);
      assert TaskOwned(t, s.owners);
      TaskStepOwned(s, i, t.(pc := t.pc + 1), r);
    }
  }

  lemma OwnedStep(s: State, e: Event, ttl: nat, max: nat)
    requires Owned(s) && Enabled(s, e)
    ensures Owned(Next(s, e, ttl, max))
  {
    var r := Next(s, e, ttl, max);
    match e {
      case Arrive(key, worker) =>
      case Check(i, now) => TaskStepOwned(s, i, r.tasks[i], r);
      case Settle(i, o) => TaskStepOwned(s, i, r.tasks[i], r);
      case Advance(i, now) => AdvanceOwned(s, i, now, ttl, max);
      case Touch(worker) => LookedOwned(s, worker);
      case PruneStats(gone) =>
    }
  }

  // ---- Keys ----------------------------------------------------------------------------------------------

  /** Each key was let through the guard once for each time it was dropped, and once more while it is held. */
  ghost predicate Keyed(s: State)
  {
    Exact(s.guard) && forall k :: Count(s.tasks, OfKey(k)) == s.dropped[k] + One(k in s.guard.entries)
  }

  lemma WithGuardKeyed(s: State, g: Guard<SubmitEntry>)
    requires Keyed(s) && Exact(g) && g.entries.Keys <= s.guard.entries.Keys
    ensures Keyed(WithGuard(s, g))
  {
  }

  lemma PrunedKeys(g: Guard<SubmitEntry>, now: nat, ttl: nat, max: nat)
    requires Exact(g)
    ensures Exact(Pruned(g, SUBMIT_TS, now, ttl, max))
    ensures Pruned(g, SUBMIT_TS, now, ttl, max).entries.Keys <= g.entries.Keys
  {
    PrunedQueued(g, SUBMIT_TS, now, ttl, max);
    PrunedSub(g, SUBMIT_TS, now, ttl, max);
  }

  lemma UnseenKeyed(s: State, i: nat, t: Task)
    requires Keyed(s) && i < |s.tasks| && Processed(s.tasks[i]) == Processed(t) && s.tasks[i].key == t.key
    ensures Keyed(s.(tasks := s.tasks[i := t]))
  {
    forall k
      ensures Count(s.tasks[i := t], OfKey(k)) == Count(s.tasks, OfKey(k))
    {
      CountUpdate(s.tasks, i, t, OfKey(k));
    }
  }

  lemma AdmitKeyed(s: State, i: nat, e: SubmitEntry)
    requires Keyed(s) && i < |s.tasks| && s.tasks[i].Waiting? && s.tasks[i].key !in s.guard.entries
    ensures var key := s.tasks[i].key;
            Keyed(s.(guard := Guard(s.guard.entries[key := e], s.guard.order + [key]),
                     tasks := s.tasks[i := Admitted(key, s.tasks[i].worker)]))
  {
    var key := s.tasks[i].key;
    var t := Admitted(key, s.tasks[i].worker);
    PushExact(s.guard, key, e);
    forall k
      ensures Count(s.tasks[i := t], OfKey(k)) == Count(s.tasks, OfKey(k)) + One(k == key)
    {
      CountUpdate(s.tasks, i, t, OfKey(k));
    }
  }

  lemma AnswerKeyed(s: State, i: nat, g: Guard<SubmitEntry>, o: SubmitOutcome)
    requires Keyed(s) && i < |s.tasks| && s.tasks[i].Waiting? && Exact(g) && g.entries.Keys <= s.guard.entries.Keys
    ensures Keyed(WithGuard(s, g).(tasks := s.tasks[i := Answered(s.tasks[i].key, s.tasks[i].worker, o)]))
  {
    WithGuardKeyed(s, g);
    UnseenKeyed(WithGuard(s, g), i, Answered(s.tasks[i].key, s.tasks[i].worker, o));
  }

  lemma PassKeyed(s: State, i: nat, h: Guard<SubmitEntry>, e: SubmitEntry)
    requires Keyed(s) && i < |s.tasks| && s.tasks[i].Waiting? && Exact(h) && h.entries.Keys <= s.guard.entries.Keys
    requires s.tasks[i].key !in h.entries
    ensures var key := s.tasks[i].key;
            Keyed(WithGuard(s, h).(guard := Guard(h.entries[key := e], h.order + [key]),
                                   tasks := s.tasks[i := Admitted(key, s.tasks[i].worker)]))
  {
    WithGuardKeyed(s, h);
    AdmitKeyed(WithGuard(s, h), i, e);
  }

  lemma CheckKeyed(s: State, i: nat, now: nat, ttl: nat, max: nat)
    requires Keyed(s) && Enabled(s, Check(i, now))
    ensures Keyed(Checked(s, i, now, ttl, max))
  {
    var key := s.tasks[i].key;
    var g := Pruned(s.guard, SUBMIT_TS, now, ttl, max);
    PrunedKeys(s.guard, now, ttl, max);
    if key in g.entries {
      AnswerKeyed(s, i, g, g.entries[key].outcome);
    } else {
      PrunedKeys(g, now, ttl, max);
      PassKeyed(s, i, Pruned(g, SUBMIT_TS, now, ttl, max), SubmitEntry(now, InFlight));
    }
  }

  lemma RecordKeyed(s: State, key: string, o: SubmitOutcome, now: nat, ttl: nat, max: nat)
    requires Keyed(s)
    ensures Keyed(Recorded(s, key, o, now, ttl, max))
  {
    PrunedKeys(s.guard, now, ttl, max);
    WithGuardKeyed(s, Resolved(s.guard, key, now, o, ttl, max));
  }

  lemma AdvanceKeyed(s: State, i: nat, now: nat, ttl: nat, max: nat)
    requires Keyed(s) && Enabled(s, Advance(i, now))
    ensures Keyed(Advanced(s, i, now, ttl, max))
  {
    var t := s.tasks[i];
    var r := Advanced(s, i, now, ttl, max);
    if Program(t.outcome)[t.pc] == Record {
      RecordKeyed(s, t.key, t.outcome, now, ttl, max);
      UnseenKeyed(Recorded(s, t.key, t.outcome, now, ttl, max), i, r.tasks[i]);
    } else {
      UnseenKeyed(s, i, r.tasks[i]);
    }
  }

  lemma KeyedStep(s: State, e: Event, ttl: nat, max: nat)
    requires Keyed(s) && Enabled(s, e)
    ensures Keyed(Next(s, e, ttl, max))
  {
    var r := Next(s, e, ttl, max);
    match e {
      case Arrive(key, worker) =>
        forall k
          ensures Count(r.tasks, OfKey(k)) == Count(s.tasks, OfKey(k))
        {
          CountAppend(s.tasks, Waiting(key, worker), OfKey(k));
        }
      case Check(i, now) => CheckKeyed(s, i, now, ttl, max);
      case Settle(i, o) => UnseenKeyed(s, i, r.tasks[i]);
      case Advance(i, now) =>
        AdvanceKeyed(s, i, now, ttl, max);
      case Touch(worker) =>
      case PruneStats(gone) =>
    }
  }

  ghost predicate MayDrop(g: Guard<SubmitEntry>, now: nat, ttl: nat, max: nat, k: string)
  {
    k in g.entries && (Expired(now, g.entries[k].ts, ttl) || |PruneExpired(g, SUBMIT_TS, now, ttl).entries| > max)
  }

  lemma PruneTwice(g: Guard<SubmitEntry>, now: nat, ttl: nat, max: nat, k: string)
    requires Exact(g) && k in g.entries
    requires k !in Pruned(Pruned(g, SUBMIT_TS, now, ttl, max), SUBMIT_TS, now, ttl, max).entries
    ensures MayDrop(g, now, ttl, max, k)
  {
    var p := Pruned(g, SUBMIT_TS, now, ttl, max);
    PrunedQueued(g, SUBMIT_TS, now, ttl, max);
    PrunedSub(g, SUBMIT_TS, now, ttl, max);
    if k !in p.entries {
      PrunedReason(g, SUBMIT_TS, now, ttl, max, k);
    } else {
      PrunedReason(p, SUBMIT_TS, now, ttl, max, k);
      PruneExpiredSub(p, SUBMIT_TS, now, ttl);
      var q := PruneExpired(p, SUBMIT_TS, now, ttl);
      SubsetSize(q.entries.Keys, p.entries.Keys);
      assert |q.entries| == |q.entries.Keys| && |p.entries| == |p.entries.Keys|;
    }
  }

  lemma CheckDropReason(s: State, i: nat, now: nat, ttl: nat, max: nat, k: string)
    requires Keyed(s) && Enabled(s, Check(i, now)) && Checked(s, i, now, ttl, max).dropped[k] > s.dropped[k]
    ensures MayDrop(s.guard, now, ttl, max, k)
  {
    var p := Pruned(s.guard, SUBMIT_TS, now, ttl, max);
    PrunedSub(p, SUBMIT_TS, now, ttl, max);
    PruneTwice(s.guard, now, ttl, max, k);
  }

  lemma RecordDropReason(s: State, key: string, o: SubmitOutcome, now: nat, ttl: nat, max: nat, k: string)
    requires Recorded(s, key, o, now, ttl, max).dropped[k] > s.dropped[k]
    ensures MayDrop(s.guard, now, ttl, max, k)
  {
    PrunedReason(s.guard, SUBMIT_TS, now, ttl, max, k);
  }

  lemma AdvanceDropReason(s: State, i: nat, now: nat, ttl: nat, max: nat, k: string)
    requires Enabled(s, Advance(i, now)) && Advanced(s, i, now, ttl, max).dropped[k] > s.dropped[k]
    ensures MayDrop(s.guard, now, ttl, max, k)
  {
    var t := s.tasks[i];
    assert Program(t.outcome)[t.pc] == Record;
    RecordDropReason(s, t.key, t.outcome, now, ttl, max, k);
  }

  /** A key is dropped only after its time, or when more than the capacity is left behind the expired front. */
  lemma DropReason(s: State, e: Event, ttl: nat, max: nat, k: string)
    requires Keyed(s) && Enabled(s, e) && Next(s, e, ttl, max).dropped[k] > s.dropped[k]
    ensures (e.Check? || e.Advance?) && MayDrop(s.guard, e.now, ttl, max, k)
  {
    if e.Check? {
      CheckDropReason(s, e.i, e.now, ttl, max, k);
    } else if e.Advance? {
      AdvanceDropReason(s, e.i, e.now, ttl, max, k);
    }
  }

  // ---- Answers -------------------------------------------------------------------------------------------

  /** Some submission of this key was settled with this outcome. */
  ghost predicate Settled(tasks: seq<Task>, key: string, o: SubmitOutcome)
  {
    exists i :: 0 <= i < |tasks| && tasks[i].Running? && tasks[i].key == key && tasks[i].outcome == o
  }

  /** The guard holds, and duplicates were answered with, only outcomes of submissions of the same key. */
  ghost predicate Truthful(s: State)
  {
    && (forall k :: k in s.guard.entries && s.guard.entries[k].outcome != InFlight ==>
          Settled(s.tasks, k, s.guard.entries[k].outcome))
    && (forall i :: 0 <= i < |s.tasks| && s.tasks[i].Answered? && s.tasks[i].outcome != InFlight ==>
          Settled(s.tasks, s.tasks[i].key, s.tasks[i].outcome))
  }

  lemma SettledStays(tasks: seq<Task>, i: nat, t: Task)
    requires i < |tasks|
    requires tasks[i].Running? ==> t.Running? && t.key == tasks[i].key && t.outcome == tasks[i].outcome
    ensures forall k, o :: Settled(tasks, k, o) ==> Settled(tasks[i := t], k, o)
  {
    forall k, o | Settled(tasks, k, o)
      ensures Settled(tasks[i := t], k, o)
    {
      var j :| 0 <= j < |tasks| && tasks[j].Running? && tasks[j].key == k && tasks[j].outcome == o;
      assert tasks[i := t][j].Running? && tasks[i := t][j].key == k && tasks[i := t][j].outcome == o;
    }
  }

  lemma TaskTruthful(s: State, i: nat, t: Task, r: State)
    requires Truthful(s) && i < |s.tasks| && r.tasks == s.tasks[i := t]
    requires s.tasks[i].Running? ==> t.Running? && t.key == s.tasks[i].key && t.outcome == s.tasks[i].outcome
    requires t.Answered? && t.outcome != InFlight ==> Settled(s.tasks, t.key, t.outcome)
    requires forall k :: k in r.guard.entries && r.guard.entries[k].outcome != InFlight ==>
               || (k in s.guard.entries && r.guard.entries[k].outcome == s.guard.entries[k].outcome)
               || (t.Running? && t.key == k && t.outcome == r.guard.entries[k].outcome)
    ensures Truthful(r)
  {
    SettledStays(s.tasks, i, t);
    if t.Running? {
      assert r.tasks[i] == t;
      assert Settled(r.tasks, t.key, t.outcome);
    }
  }

  lemma CheckTruthful(s: State, i: nat, now: nat, ttl: nat, max: nat)
    requires Truthful(s) && Enabled(s, Check(i, now))
    ensures Truthful(Checked(s, i, now, ttl, max))
  {
    var g := Pruned(s.guard, SUBMIT_TS, now, ttl, max);
    PrunedSub(s.guard, SUBMIT_TS, now, ttl, max);
    PrunedSub(g, SUBMIT_TS, now, ttl, max);
    var r := Checked(s, i, now, ttl, max);
    TaskTruthful(s, i, r.tasks[i], r);
  }

  lemma AdvanceTruthful(s: State, i: nat, now: nat, ttl: nat, max: nat)
    requires Truthful(s) && Enabled(s, Advance(i, now))
    ensures Truthful(Advanced(s, i, now, ttl, max))
  {
    PrunedSub(s.guard, SUBMIT_TS, now, ttl, max);
    var r := Advanced(s, i, now, ttl, max);
    TaskTruthful(s, i, r.tasks[i], r);
  }

  lemma TruthfulStep(s: State, e: Event, ttl: nat, max: nat)
    requires Truthful(s) && Enabled(s, e)
    ensures Truthful(Next(s, e, ttl, max))
  {
    var r := Next(s, e, ttl, max);
    match e {
      case Arrive(key, worker) => ArriveTruthful(s, key, worker);
      case Check(i, now) => CheckTruthful(s, i, now, ttl, max);
      case Settle(i, o) => TaskTruthful(s, i, r.tasks[i], r);
      case Advance(i, now) => AdvanceTruthful(s, i, now, ttl, max);
      case Touch(worker) =>
      case PruneStats(gone) =>
    }
  }

  lemma ArriveTruthful(s: State, key: string, worker: string)
    requires Truthful(s)
    ensures Truthful(s.(tasks := s.tasks + [Waiting(key, worker)]))
  {
    var tasks := s.tasks + [Waiting(key, worker)];
    forall k, o | Settled(s.tasks, k, o)
      ensures Settled(tasks, k, o)
    {
      var j :| 0 <= j < |s.tasks| && s.tasks[j].Running? && s.tasks[j].key == k && s.tasks[j].outcome == o;
      assert tasks[j] == s.tasks[j];
    }
  }

  // ---- Keys in flight --------------------------------------------------------------------------------------

  /** Let through, and its outcome is still to be recorded. */
  predicate Unrecorded(t: Task)
  {
    t.Admitted? || (t.Running? && t.pc < |Program(t.outcome)| && Record in Program(t.outcome)[t.pc..])
  }

  ghost predicate UnderWay(tasks: seq<Task>, key: string)
  {
    exists i :: 0 <= i < |tasks| && tasks[i].key == key && Unrecorded(tasks[i])
  }

  /** A key the guard holds in flight has a submission that is going to record its outcome. */
  ghost predicate InFlightPending(s: State)
  {
    forall k :: k in s.guard.entries && s.guard.entries[k].outcome == InFlight ==> UnderWay(s.tasks, k)
  }

  lemma UnderWayStays(tasks: seq<Task>, i: nat, t: Task, k: string)
    requires i < |tasks| && t.key == tasks[i].key && UnderWay(tasks, k)
    requires k == t.key && Unrecorded(tasks[i]) ==> Unrecorded(t)
    ensures UnderWay(tasks[i := t], k)
  {
    var j :| 0 <= j < |tasks| && tasks[j].key == k && Unrecorded(tasks[j]);
    assert tasks[i := t][j].key == k && Unrecorded(tasks[i := t][j]);
  }

  lemma TaskPending(s: State, i: nat, t: Task, r: State)
    requires InFlightPending(s) && i < |s.tasks| && r.tasks == s.tasks[i := t] && t.key == s.tasks[i].key
    requires forall k :: k in r.guard.entries && r.guard.entries[k].outcome == InFlight ==>
               || (k == t.key && Unrecorded(t))
               || (k in s.guard.entries && s.guard.entries[k].outcome == InFlight &&
                   (k == t.key && Unrecorded(s.tasks[i]) ==> Unrecorded(t)))
    ensures InFlightPending(r)
  {
    forall k | k in r.guard.entries && r.guard.entries[k].outcome == InFlight
      ensures UnderWay(r.tasks, k)
    {
      if k == t.key && Unrecorded(t) {
        assert r.tasks[i].key == k && Unrecorded(r.tasks[i]);
      } else {
        UnderWayStays(s.tasks, i, t, k);
      }
    }
  }

  lemma CheckPending(s: State, i: nat, now: nat, ttl: nat, max: nat)
    requires InFlightPending(s) && Enabled(s, Check(i, now))
    ensures InFlightPending(Checked(s, i, now, ttl, max))
  {
    var g := Pruned(s.guard, SUBMIT_TS, now, ttl, max);
    PrunedSub(s.guard, SUBMIT_TS, now, ttl, max);
    PrunedSub(g, SUBMIT_TS, now, ttl, max);
    var r := Checked(s, i, now, ttl, max);
    TaskPending(s, i, r.tasks[i], r);
  }

  lemma ActionLeft(o: SubmitOutcome, pc: nat)
    requires pc < |Program(o)| && Program(o)[pc] != Record && Record in Program(o)[pc..]
    ensures pc + 1 < |Program(o)| && Record in Program(o)[pc + 1..]
  {
    var p := Program(o);
    assert p[pc..] == [p[pc]] + p[pc + 1..];
  }

  lemma AdvancePending(s: State, i: nat, now: nat, ttl: nat, max: nat)
    requires InFlightPending(s) && Handled(s) && Enabled(s, Advance(i, now))
    ensures InFlightPending(Advanced(s, i, now, ttl, max))
  {
    var t := s.tasks[i];
    var r := Advanced(s, i, now, ttl, max);
    assert TaskHandled(t, |s.records|);
    if Program(t.outcome)[t.pc] == Record {
      PrunedSub(s.guard, SUBMIT_TS, now, ttl, max);
    } else if Unrecorded(t) {
      ActionLeft(t.outcome, t.pc);
    }
    TaskPending(s, i, r.tasks[i], r);
  }

  lemma SettlePending(s: State, i: nat, o: SubmitOutcome, ttl: nat, max: nat)
    requires InFlightPending(s) && Enabled(s, Settle(i, o))
    ensures InFlightPending(Next(s, Settle(i, o), ttl, max))
  {
    var r := Next(s, Settle(i, o), ttl, max);
    var p := Program(o);
    assert p[0..] == p && (p[0] == Record || p[|p| - 1] == Record);
    TaskPending(s, i, r.tasks[i], r);
  }

  lemma ArrivePending(s: State, t: Task)
    requires InFlightPending(s)
    ensures InFlightPending(s.(tasks := s.tasks + [t]))
  {
    var tasks := s.tasks + [t];
    forall k | UnderWay(s.tasks, k)
      ensures UnderWay(tasks, k)
    {
      var j :| 0 <= j < |s.tasks| && s.tasks[j].key == k && Unrecorded(s.tasks[j]);
      assert tasks[j] == s.tasks[j];
    }
  }

  lemma PendingStep(s: State, e: Event, ttl: nat, max: nat)
    requires InFlightPending(s) && Handled(s) && Enabled(s, e)
    ensures InFlightPending(Next(s, e, ttl, max))
  {
    match e {
      case Arrive(key, worker) => ArrivePending(s, Waiting(key, worker));
      case Check(i, now) => CheckPending(s, i, now, ttl, max);
      case Settle(i, o) => SettlePending(s, i, o, ttl, max);
      case Advance(i, now) => AdvancePending(s, i, now, ttl, max);
      case Touch(worker) =>
      case PruneStats(gone) =>
    }
  }

  // ---- Totals ----------------------------------------------------------------------------------------------

  /** The sum of one counter over the records whose handle is in `hs`. */
  ghost function SumIn(records: seq<Counts>, hs: set<nat>, c: Counter): (n: nat)
  {
    if records == [] then 0
    else
      var m := |records| - 1;
      SumIn(records[..m], hs, c) + if m in hs then Of(records[m], c) else 0
  }

  ghost function Total(records: seq<Counts>, c: Counter): (n: nat)
  {
    if records == [] then 0 else Total(records[..|records| - 1], c) + Of(records[|records| - 1], c)
  }

  /** Records no live worker refers to any more. */
  ghost function Detached(s: State): (hs: set<nat>)
  {
    set h | 0 <= h < |s.records| && h !in s.live.Values
  }

  lemma {:induction false} SumSplit(records: seq<Counts>, a: set<nat>, b: set<nat>, c: Counter)
    requires forall h :: 0 <= h < |records| ==> (h in a <==> h !in b)
    ensures SumIn(records, a, c) + SumIn(records, b, c) == Total(records, c)
  {
    if records != [] {
      SumSplit(records[..|records| - 1], a, b, c);
    }
  }

  lemma {:induction false} TotalBelow(s: State, n: nat, c: Counter)
    requires Counted(s) && n <= |s.records|
    ensures Total(s.records[..n], c) == Count(s.tasks, InRecordBelow(n, c))
  {
    if n == 0 {
      CountNone(s.tasks, InRecordBelow(0, c));
    } else {
      TotalBelow(s, n - 1, c);
      assert s.records[..n][..n - 1] == s.records[..n - 1];
      CountSplit(s.tasks, InRecordBelow(n, c), InRecordBelow(n - 1, c), InRecord(n - 1, c));
    }
  }

  lemma RecordTotal(s: State, c: Counter)
    requires Handled(s) && Counted(s)
    ensures Total(s.records, c) == Count(s.tasks, InWorker(c))
  {
    var n := |s.records|;
    assert s.records[..n] == s.records;
    TotalBelow(s, n, c);
    CountNone(s.tasks, InRecord(n, c));
    CountSplit(s.tasks, InWorker(c), InRecordBelow(n, c), InRecord(n, c));
  }

  ghost predicate Inv(s: State)
  {
    Handled(s) && Counted(s) && Owned(s) && Keyed(s) && Truthful(s) && InFlightPending(s)
  }

  /**
   * Conservation of every counter: what the overall counter has, together with the submissions that stand between their
   * two increments, is what the live workers and the pruned records have. The overall counter is at least the sum over
   * live workers exactly when no more submissions stand between than the pruned records hold.
   */
  lemma CounterConserved(s: State, c: Counter)
    requires Inv(s)
    ensures Of(s.overall, c) + Count(s.tasks, Between(c)) ==
            SumIn(s.records, s.live.Values, c) + SumIn(s.records, Detached(s), c)
    ensures Of(s.overall, c) >= SumIn(s.records, s.live.Values, c) <==>
            Count(s.tasks, Between(c)) <= SumIn(s.records, Detached(s), c)
  {
    SumSplit(s.records, s.live.Values, Detached(s), c);
    RecordTotal(s, c);
    CountSplit(s.tasks, InWorker(c), InOverall(c), Between(c));
  }

  /** The records that were created for a worker. */
  ghost function OwnedBy(s: State, worker: string): (hs: set<nat>)
  {
    set h | 0 <= h < |s.owners| && s.owners[h] == worker
  }

  lemma OwnerSplits(t: Task, owners: seq<string>, n: nat, h: nat, w: string, c: Counter)
    requires TaskOwned(t, owners) && 0 < n <= |owners| && h == if owners[n - 1] == w then n - 1 else |owners|
    ensures One(Holds(OfWorkerBelow(n, w, c), t)) ==
            One(Holds(OfWorkerBelow(n - 1, w, c), t)) + One(Holds(InRecord(h, c), t))
  {
  }

  lemma {:induction false} OwnedBelow(s: State, n: nat, w: string, c: Counter)
    requires Handled(s) && Counted(s) && Owned(s) && n <= |s.records|
    ensures SumIn(s.records[..n], OwnedBy(s, w), c) == Count(s.tasks, OfWorkerBelow(n, w, c))
  {
    if n == 0 {
      CountNone(s.tasks, OfWorkerBelow(0, w, c));
    } else {
      OwnedBelow(s, n - 1, w, c);
      assert s.records[..n][..n - 1] == s.records[..n - 1];
      var h := if s.owners[n - 1] == w then n - 1 else |s.records|;
      forall i | 0 <= i < |s.tasks|
        ensures One(Holds(OfWorkerBelow(n, w, c), s.tasks[i])) ==
                One(Holds(OfWorkerBelow(n - 1, w, c), s.tasks[i])) + One(Holds(InRecord(h, c), s.tasks[i]))
      {
        OwnerSplits(s.tasks[i], s.owners, n, h, w, c);
      }
      CountSplit(s.tasks, OfWorkerBelow(n, w, c), OfWorkerBelow(n - 1, w, c), InRecord(h, c));
      CountNone(s.tasks, InRecord(|s.records|, c));
    }
  }

  /** For each worker and counter, the records created for the worker have as many as submissions of it were counted. */
  lemma WorkerTotal(s: State, w: string, c: Counter)
    requires Inv(s)
    ensures SumIn(s.records, OwnedBy(s, w), c) == Count(s.tasks, OfWorker(w, c))
  {
    var n := |s.records|;
    assert s.records[..n] == s.records;
    OwnedBelow(s, n, w, c);
    CountNone(s.tasks, InRecord(n, c));
    CountSplit(s.tasks, OfWorker(w, c), OfWorkerBelow(n, w, c), InRecord(n, c));
  }

  lemma {:induction false} SumOne(records: seq<Counts>, h: nat, b: set<nat>, c: Counter)
    requires h < |records| && h !in b
    ensures SumIn(records, b + {h}, c) == Of(records[h], c) + SumIn(records, b, c)
  {
    var m := |records| - 1;
    if h < m {
      SumOne(records[..m], h, b, c);
    } else {
      SumSame(records[..m], b + {h}, b, c);
    }
  }

  lemma {:induction false} SumSame(records: seq<Counts>, a: set<nat>, b: set<nat>, c: Counter)
    requires forall h :: 0 <= h < |records| ==> (h in a <==> h in b)
    ensures SumIn(records, a, c) == SumIn(records, b, c)
  {
    if records != [] {
      SumSame(records[..|records| - 1], a, b, c);
    }
  }

  /** A live worker's record has all submissions of the worker but those counted in records pruned from under it. */
  lemma LiveWorkerTotal(s: State, w: string, c: Counter)
    requires Inv(s) && w in s.live
    ensures s.live[w] < |s.records|
    ensures Of(s.records[s.live[w]], c) + SumIn(s.records, OwnedBy(s, w) * Detached(s), c) ==
            Count(s.tasks, OfWorker(w, c))
  {
    WorkerTotal(s, w, c);
    var h, rest := s.live[w], OwnedBy(s, w) * Detached(s);
    assert h in s.live.Values;
    SumOne(s.records, h, rest, c);
    SumSame(s.records, OwnedBy(s, w), rest + {h}, c);
  }

  /** Every submission let through is in exactly one overall counter, or has not reached it yet. */
  lemma ProcessedConserved(s: State)
    requires Inv(s)
    ensures Count(s.tasks, AnyProcessed) ==
            s.overall.shares + s.overall.stales + s.overall.invalids + Count(s.tasks, Uncounted)
  {
    OverallSplit(s.tasks);
    assert Of(s.overall, Shares) == s.overall.shares;
    assert Of(s.overall, Stales) == s.overall.stales;
    assert Of(s.overall, Invalids) == s.overall.invalids;
  }

  lemma {:induction false} OverallSplit(tasks: seq<Task>)
    ensures Count(tasks, AnyProcessed) == Count(tasks, InOverall(Shares)) + Count(tasks, InOverall(Stales)) +
                                          Count(tasks, InOverall(Invalids)) + Count(tasks, Uncounted)
  {
    if tasks != [] {
      OverallSplit(tasks[..|tasks| - 1]);
    }
  }

  /** Accepted submissions are in shares, stale ones in stale shares, low-difficulty and bad ones in invalid shares. */
  lemma CountersByOutcome(s: State)
    requires Inv(s)
    ensures s.overall.shares == Count(s.tasks, WithOutcome(Accepted))
    ensures s.overall.stales == Count(s.tasks, WithOutcome(Stale))
    ensures s.overall.invalids == Count(s.tasks, WithOutcome(LowDiff)) + Count(s.tasks, WithOutcome(Bad))
  {
    assert Of(s.overall, Shares) == s.overall.shares;
    assert Of(s.overall, Stales) == s.overall.stales;
    assert Of(s.overall, Invalids) == s.overall.invalids;
    var none := WithOutcome(InFlight);
    forall i | 0 <= i < |s.tasks|
      ensures !Holds(none, s.tasks[i])
    {
      assert TaskHandled(s.tasks[i], |s.records|);
    }
    CountNone(s.tasks, none);
    CountSplit(s.tasks, InOverall(Shares), WithOutcome(Accepted), none);
    CountSplit(s.tasks, InOverall(Stales), WithOutcome(Stale), none);
    CountSplit(s.tasks, InOverall(Invalids), WithOutcome(LowDiff), WithOutcome(Bad));
  }

  // ---- Runs ------------------------------------------------------------------------------------------------

  ghost predicate Steps(s: State, e: Event, r: State, ttl: nat, max: nat)
  {
    Enabled(s, e) && r == Next(s, e, ttl, max)
  }

  ghost predicate IsRun(ss: seq<State>, es: seq<Event>, ttl: nat, max: nat)
  {
    && |ss| == |es| + 1 && ss[0] == INIT
    && forall i :: 0 <= i < |es| ==> Steps(ss[i], es[i], ss[i + 1], ttl, max)
  }

  /** Every step of every submission, and every pruning, keeps all six invariants. */
  lemma InvStep(s: State, e: Event, ttl: nat, max: nat)
    requires Inv(s) && Enabled(s, e)
    ensures Inv(Next(s, e, ttl, max))
  {
    HandledStep(s, e, ttl, max);
    CountedStep(s, e, ttl, max);
    OwnedStep(s, e, ttl, max);
    KeyedStep(s, e, ttl, max);
    TruthfulStep(s, e, ttl, max);
    PendingStep(s, e, ttl, max);
  }

  lemma {:induction false} RunInv(ss: seq<State>, es: seq<Event>, ttl: nat, max: nat, n: nat)
    requires IsRun(ss, es, ttl, max) && n <= |es|
    ensures Inv(ss[n])
  {
    if n > 0 {
      RunInv(ss, es, ttl, max, n - 1);
      assert Steps(ss[n - 1], es[n - 1], ss[n - 1 + 1], ttl, max);
      InvStep(ss[n - 1], es[n - 1], ttl, max);
    }
  }

  /** A submission that ran to its end. */
  predicate Finished(t: Task)
  {
    t.Waiting? || t.Answered? || (t.Running? && t.pc == |Program(t.outcome)|)
  }

  lemma KeptLive(live: map<string, nat>, gone: set<string>, w: string)
    requires w in live
    ensures w in gone || live[w] in (live - gone).Values
  {
    if w !in gone {
      var rest := live - gone;
      assert w in rest && rest[w] == live[w];
    }
  }

  lemma DetachStep(s: State, e: Event, ttl: nat, max: nat, h: nat)
    requires Enabled(s, e) && h in Detached(Next(s, e, ttl, max)) && h !in Detached(s)
    ensures e.PruneStats? && exists w :: w in e.gone && w in s.live && s.live[w] == h
  {
    if e.Touch? {
      LookedStaysLive(s, e.worker, h);
    } else if e.Advance? {
      LookedStaysLive(s, s.tasks[e.i].worker, h);
    } else if e.PruneStats? {
      var w :| w in s.live && s.live[w] == h;
      KeptLive(s.live, e.gone, w);
    }
  }

  /** A lookup detaches nothing: live records stay live and a new record is live. */
  lemma LookedStaysLive(s: State, worker: string, h: nat)
    ensures h in Detached(Looked(s, worker).0) ==> h in Detached(s)
  {
    var r := Looked(s, worker).0;
    if worker !in s.live {
      assert r.live[worker] == |s.records|;
      assert |s.records| in r.live.Values;
      if h in s.live.Values {
        var w :| w in s.live && s.live[w] == h;
        assert w in r.live && r.live[w] == h;
      }
    }
  }

  /** Event j pruned the worker whose record was `h`. */
  ghost predicate PrunedAt(ss: seq<State>, es: seq<Event>, j: nat, h: nat)
    requires |ss| == |es| + 1
  {
    j < |es| && es[j].PruneStats? && exists w :: w in es[j].gone && w in ss[j].live && ss[j].live[w] == h
  }

  /** In every run, the records that no live worker has are records whose worker was pruned. */
  lemma {:induction false} DetachedWerePruned(ss: seq<State>, es: seq<Event>, ttl: nat, max: nat, n: nat, h: nat)
    requires IsRun(ss, es, ttl, max) && n <= |es| && h in Detached(ss[n])
    ensures exists j :: 0 <= j < n && PrunedAt(ss, es, j, h)
  {
    if n > 0 {
      assert Steps(ss[n - 1], es[n - 1], ss[n - 1 + 1], ttl, max);
      if h in Detached(ss[n - 1]) {
        DetachedWerePruned(ss, es, ttl, max, n - 1, h);
      } else {
        DetachStep(ss[n - 1], es[n - 1], ttl, max, h);
        assert PrunedAt(ss, es, n - 1, h);
      }
    }
  }

  lemma {:induction false} SumNone(records: seq<Counts>, c: Counter)
    ensures SumIn(records, {}, c) == 0
  {
    if records != [] {
      SumNone(records[..|records| - 1], c);
    }
  }

  /**
   * Until a worker is pruned, the overall counter and the submissions between their two increments make up the sum over
   * live workers; so the two are equal when no submission is under way.
   */
  lemma RunUntilPruned(ss: seq<State>, es: seq<Event>, ttl: nat, max: nat, n: nat, c: Counter)
    requires IsRun(ss, es, ttl, max) && n <= |es| && forall j :: 0 <= j < n ==> !es[j].PruneStats?
    ensures Detached(ss[n]) == {}
    ensures Of(ss[n].overall, c) + Count(ss[n].tasks, Between(c)) == SumIn(ss[n].records, ss[n].live.Values, c)
    ensures AllFinished(ss[n].tasks) ==> Of(ss[n].overall, c) == SumIn(ss[n].records, ss[n].live.Values, c)
  {
    var s := ss[n];
    if h :| h in Detached(s) {
      DetachedWerePruned(ss, es, ttl, max, n, h);
      assert false;
    }
    RunInv(ss, es, ttl, max, n);
    CounterConserved(s, c);
    SumNone(s.records, c);
    if AllFinished(s.tasks) {
      CountNone(s.tasks, Between(c));
    }
  }

  /** Until a worker is pruned, the record of every live worker has just the submissions of that worker. */
  lemma RunWorker(ss: seq<State>, es: seq<Event>, ttl: nat, max: nat, n: nat, w: string, c: Counter)
    requires IsRun(ss, es, ttl, max) && n <= |es| && w in ss[n].live
    requires forall j :: 0 <= j < n ==> !es[j].PruneStats?
    ensures ss[n].live[w] < |ss[n].records|
    ensures Of(ss[n].records[ss[n].live[w]], c) == Count(ss[n].tasks, OfWorker(w, c))
  {
    RunInv(ss, es, ttl, max, n);
    RunUntilPruned(ss, es, ttl, max, n, c);
    LiveWorkerTotal(ss[n], w, c);
    assert OwnedBy(ss[n], w) * Detached(ss[n]) == {};
    SumNone(ss[n].records, c);
  }

  ghost predicate AllFinished(tasks: seq<Task>)
  {
    forall i :: 0 <= i < |tasks| ==> Finished(tasks[i])
  }

  /**
   * In every run, at every moment when no submission is under way: each submission that passed the guard was counted
   * once, and every overall counter equals the sum over live workers and pruned records. It equals the sum over live
   * workers exactly when the pruned records are zero there. The guard holds no key in flight.
   */
  lemma RunQuiescent(ss: seq<State>, es: seq<Event>, ttl: nat, max: nat, n: nat)
    requires IsRun(ss, es, ttl, max) && n <= |es| && AllFinished(ss[n].tasks)
    ensures var s := ss[n];
            && Count(s.tasks, AnyProcessed) == s.overall.shares + s.overall.stales + s.overall.invalids
            && (forall c :: Quiescent(s, c))
            && forall k :: k in s.guard.entries ==> s.guard.entries[k].outcome != InFlight
  {
    var s := ss[n];
    RunInv(ss, es, ttl, max, n);
    ProcessedConserved(s);
    CountNone(s.tasks, Uncounted);
    forall c
      ensures Quiescent(s, c)
    {
      CounterConserved(s, c);
      CountNone(s.tasks, Between(c));
    }
  }

  ghost predicate Quiescent(s: State, c: Counter)
  {
    var live, pruned := SumIn(s.records, s.live.Values, c), SumIn(s.records, Detached(s), c);
    Of(s.overall, c) == live + pruned && Of(s.overall, c) >= live && (Of(s.overall, c) == live <==> pruned == 0)
  }

  /** The event is a call of the guard at which it may drop the key. */
  ghost predicate MayDropIn(s: State, e: Event, ttl: nat, max: nat, k: string)
  {
    (e.Check? || e.Advance?) && MayDrop(s.guard, e.now, ttl, max, k)
  }

  lemma DropStep(s: State, e: Event, r: State, ttl: nat, max: nat, k: string)
    requires Keyed(s) && Steps(s, e, r, ttl, max) && r.dropped[k] > s.dropped[k]
    ensures MayDropIn(s, e, ttl, max, k)
  {
    DropReason(s, e, ttl, max, k);
  }

  lemma {:induction false} RunDropped(ss: seq<State>, es: seq<Event>, ttl: nat, max: nat, n: nat, k: string)
    requires IsRun(ss, es, ttl, max) && n <= |es| && ss[n].dropped[k] > 0
    ensures exists j :: 0 <= j < n && MayDropIn(ss[j], es[j], ttl, max, k)
  {
    if n > 0 {
      assert Steps(ss[n - 1], es[n - 1], ss[n - 1 + 1], ttl, max);
      if ss[n - 1].dropped[k] > 0 {
        RunDropped(ss, es, ttl, max, n - 1, k);
      } else {
        RunInv(ss, es, ttl, max, n - 1);
        DropStep(ss[n - 1], es[n - 1], ss[n], ttl, max, k);
      }
    }
  }

  /**
   * In every run, however many copies of a key arrived, it was let through once for each time the guard dropped it and
   * once more while it is held; so more often than that only after an event at which the guard held it beyond its time
   * or over capacity. Every copy that was answered got the in-flight answer or the outcome of a submission of the key.
   */
  lemma RunOnce(ss: seq<State>, es: seq<Event>, ttl: nat, max: nat, n: nat, k: string)
    requires IsRun(ss, es, ttl, max) && n <= |es|
    ensures Count(ss[n].tasks, OfKey(k)) == ss[n].dropped[k] + One(k in ss[n].guard.entries)
    ensures Count(ss[n].tasks, OfKey(k)) > One(k in ss[n].guard.entries) ==>
              exists j :: 0 <= j < n && MayDropIn(ss[j], es[j], ttl, max, k)
    ensures forall t :: t in ss[n].tasks && t.Answered? && t.key == k && t.outcome != InFlight ==>
              Settled(ss[n].tasks, k, t.outcome)
  {
    RunInv(ss, es, ttl, max, n);
    if ss[n].dropped[k] > 0 {
      RunDropped(ss, es, ttl, max, n, k);
    }
  }

  /** A copy is told that its key is in flight only while a submission of the key is to record its outcome. */
  lemma RunInFlight(ss: seq<State>, es: seq<Event>, ttl: nat, max: nat, n: nat)
    requires IsRun(ss, es, ttl, max) && n < |es| && es[n].Check?
    ensures es[n].i < |ss[n].tasks| && es[n].i < |ss[n + 1].tasks|
    ensures var t := ss[n + 1].tasks[es[n].i]; t.Answered? && t.outcome == InFlight ==> UnderWay(ss[n].tasks, t.key)
  {
    RunInv(ss, es, ttl, max, n);
    assert Steps(ss[n], es[n], ss[n + 1], ttl, max);
    PrunedSub(ss[n].guard, SUBMIT_TS, es[n].now, ttl, max);
  }

  /** The key and the worker of each submission that arrived, in order. */
  ghost function Arrivals(es: seq<Event>): (a: seq<(string, string)>)
  {
    if es == [] then []
    else
      var m := |es| - 1;
      Arrivals(es[..m]) + if es[m].Arrive? then [(es[m].key, es[m].worker)] else []
  }

  ghost predicate Comes(tasks: seq<Task>, a: seq<(string, string)>)
  {
    |tasks| == |a| && forall i :: 0 <= i < |a| ==> (tasks[i].key, tasks[i].worker) == a[i]
  }

  ghost predicate Moves(t: Task, e: Event, u: Task)
  {
    && u.key == t.key && u.worker == t.worker
    && (u.Running? ==> (e.Settle? && u.outcome == e.outcome) || (t.Running? && u.outcome == t.outcome))
  }

  lemma TaskMoves(s: State, e: Event, ttl: nat, max: nat)
    requires Enabled(s, e) && (e.Check? || e.Settle? || e.Advance?)
    ensures var r := Next(s, e, ttl, max);
            && |r.tasks| == |s.tasks| && r.tasks == s.tasks[e.i := r.tasks[e.i]]
            && Moves(s.tasks[e.i], e, r.tasks[e.i])
  {
  }

  lemma ComesStep(s: State, e: Event, r: State, ttl: nat, max: nat, a: seq<(string, string)>)
    requires Steps(s, e, r, ttl, max) && Comes(s.tasks, a)
    ensures Comes(r.tasks, a + if e.Arrive? then [(e.key, e.worker)] else [])
  {
    if e.Check? || e.Settle? || e.Advance? {
      TaskMoves(s, e, ttl, max);
    }
  }

  /** In every run there is one submission for each arrival, and it keeps the key and the worker it came with. */
  lemma {:induction false} RunArrivals(ss: seq<State>, es: seq<Event>, ttl: nat, max: nat, n: nat)
    requires IsRun(ss, es, ttl, max) && n <= |es|
    ensures Comes(ss[n].tasks, Arrivals(es[..n]))
  {
    if n > 0 {
      RunArrivals(ss, es, ttl, max, n - 1);
      assert Steps(ss[n - 1], es[n - 1], ss[n - 1 + 1], ttl, max);
      ComesStep(ss[n - 1], es[n - 1], ss[n], ttl, max, Arrivals(es[..n - 1]));
      assert es[..n][..n - 1] == es[..n - 1];
    }
  }

  lemma OutcomeStep(s: State, e: Event, r: State, ttl: nat, max: nat, i: nat)
    requires Steps(s, e, r, ttl, max) && i < |r.tasks| && r.tasks[i].Running?
    ensures e == Settle(i, r.tasks[i].outcome) ||
            (i < |s.tasks| && s.tasks[i].Running? && s.tasks[i].outcome == r.tasks[i].outcome)
  {
    if e.Check? || e.Settle? || e.Advance? {
      TaskMoves(s, e, ttl, max);
    }
  }

  /** In every run, the outcome a submission is counted under is the one it was settled with. */
  lemma {:induction false} RunOutcome(ss: seq<State>, es: seq<Event>, ttl: nat, max: nat, n: nat, i: nat)
    requires IsRun(ss, es, ttl, max) && n <= |es| && i < |ss[n].tasks| && ss[n].tasks[i].Running?
    ensures Settle(i, ss[n].tasks[i].outcome) in es[..n]
  {
    if n > 0 {
      assert Steps(ss[n - 1], es[n - 1], ss[n - 1 + 1], ttl, max);
      OutcomeStep(ss[n - 1], es[n - 1], ss[n], ttl, max, i);
      if es[n - 1] == Settle(i, ss[n].tasks[i].outcome) {
        assert es[..n][n - 1] == es[n - 1];
      } else {
        RunOutcome(ss, es, ttl, max, n - 1, i);
        assert es[..n] == es[..n - 1] + [es[n - 1]];
      }
    }
  }

  // ---- The overall counter can lag ---------------------------------------------------------------------------

  lemma Extend(ss: seq<State>, es: seq<Event>, e: Event, r: State, ttl: nat, max: nat)
    returns (tt: seq<State>, fs: seq<Event>)
    requires IsRun(ss, es, ttl, max) && Steps(ss[|es|], e, r, ttl, max)
    ensures IsRun(tt, fs, ttl, max) && tt[|fs|] == r
  {
    tt, fs := ss + [r], es + [e];
    forall i | 0 <= i < |fs|
      ensures Steps(tt[i], fs[i], tt[i + 1], ttl, max)
    {
      if i < |es| {
        assert tt[i] == ss[i] && tt[i + 1] == ss[i + 1] && fs[i] == es[i];
      }
    }
  }

  /** One worker with one record, and one submission. */
  ghost function FirstState(g: Guard<SubmitEntry>, worker: string, n: Counts, t: Task): (s: State)
  {
    State(g, multiset{}, [n], [worker], map[worker := 0], ZERO, [t])
  }

  /**
   * A run in which the worker's increment is done and the overall one is not: overall is below the sum over workers.
   */
  lemma OverallLags(key: string, worker: string, ttl: nat, max: nat) returns (ss: seq<State>, es: seq<Event>)
    ensures IsRun(ss, es, ttl, max)
    ensures var s := ss[|es|]; Of(s.overall, Invalids) < SumIn(s.records, s.live.Values, Invalids)
  {
    var g := Guard(map[key := SubmitEntry(0, InFlight)], [key]);
    var waiting := INIT.(tasks := [Waiting(key, worker)]);
    var admitted := INIT.(guard := g, tasks := [Admitted(key, worker)]);
    var settled := INIT.(guard := g, tasks := [Running(key, worker, LowDiff, 0, None)]);
    var looked := FirstState(g, worker, ZERO, Running(key, worker, LowDiff, 1, Some(0)));
    var counted := FirstState(g, worker, Counts(0, 0, 1), Running(key, worker, LowDiff, 2, Some(0)));
    FirstCheck(key, worker, ttl, max);
    FirstSettled(key, worker, g, ttl, max);
    FirstLooked(key, worker, g, ttl, max);
    FirstBumped(key, worker, g, ttl, max);
    ss, es := [INIT], [];
    ss, es := Extend(ss, es, Arrive(key, worker), waiting, ttl, max);
    ss, es := Extend(ss, es, Check(0, 0), admitted, ttl, max);
    ss, es := Extend(ss, es, Settle(0, LowDiff), settled, ttl, max);
    ss, es := Extend(ss, es, Advance(0, 0), looked, ttl, max);
    ss, es := Extend(ss, es, Advance(0, 0), counted, ttl, max);
    FirstCounted(counted, worker);
  }

  lemma FirstCounted(s: State, worker: string)
    requires s.records == [Counts(0, 0, 1)] && s.live == map[worker := 0] && s.overall == ZERO
    ensures Of(s.overall, Invalids) < SumIn(s.records, s.live.Values, Invalids)
  {
    assert worker in s.live && s.live[worker] == 0;
    assert 0 in s.live.Values;
    assert s.records[..0] == [];
  }

  lemma FirstCheck(key: string, worker: string, ttl: nat, max: nat)
    ensures Checked(INIT.(tasks := [Waiting(key, worker)]), 0, 0, ttl, max) ==
            INIT.(guard := Guard(map[key := SubmitEntry(0, InFlight)], [key]), tasks := [Admitted(key, worker)])
  {
    var none: Guard<SubmitEntry> := Guard(map[], []);
    assert Pruned(none, SUBMIT_TS, 0, ttl, max) == none;
    assert [Waiting(key, worker)][0 := Admitted(key, worker)] == [Admitted(key, worker)];
    assert none.order + [key] == [key];
    assert multiset{} + multiset(none.entries.Keys - none.entries.Keys) == multiset{};
  }

  lemma FirstSettled(key: string, worker: string, g: Guard<SubmitEntry>, ttl: nat, max: nat)
    ensures Steps(INIT.(guard := g, tasks := [Admitted(key, worker)]), Settle(0, LowDiff),
                  INIT.(guard := g, tasks := [Running(key, worker, LowDiff, 0, None)]), ttl, max)
  {
    var t := Running(key, worker, LowDiff, 0, None);
    assert [Admitted(key, worker)][0 := t] == [t];
  }

  lemma FirstLooked(key: string, worker: string, g: Guard<SubmitEntry>, ttl: nat, max: nat)
    ensures Steps(INIT.(guard := g, tasks := [Running(key, worker, LowDiff, 0, None)]), Advance(0, 0),
                  FirstState(g, worker, ZERO, Running(key, worker, LowDiff, 1, Some(0))), ttl, max)
  {
    var t := Running(key, worker, LowDiff, 0, None);
    var u := Running(key, worker, LowDiff, 1, Some(0));
    assert [t][0 := u] == [u];
    assert [] + [ZERO] == [ZERO] && [] + [worker] == [worker];
  }

  lemma FirstBumped(key: string, worker: string, g: Guard<SubmitEntry>, ttl: nat, max: nat)
    ensures Steps(FirstState(g, worker, ZERO, Running(key, worker, LowDiff, 1, Some(0))), Advance(0, 0),
                  FirstState(g, worker, Counts(0, 0, 1), Running(key, worker, LowDiff, 2, Some(0))), ttl, max)
  {
    var t := Running(key, worker, LowDiff, 1, Some(0));
    var u := Running(key, worker, LowDiff, 2, Some(0));
    assert [t][0 := u] == [u];
    assert [ZERO][0 := Counts(0, 0, 1)] == [Counts(0, 0, 1)];
  }
}
