/** The per-client job table of the Stratum bridge: a ring of 300 slots addressed by job id. */
module JobRing {
  import opened Basics

  const MAX_JOBS: nat := 300

  /** The slot of the ring that an id falls into. */
  function Slot(id: nat): (s: nat)
  {
    id % MAX_JOBS
  }

  /** The largest id issued so far that falls into slot `s`; 0 if there is none, ids being issued from 1. */
  ghost function Latest(s: nat, counter: nat): (id: nat)
  {
    if counter == 0 then 0 else if Slot(counter) == s then counter else Latest(s, counter - 1)
  }

  lemma {:induction false} LatestIsLargest(s: nat, counter: nat)
    ensures Latest(s, counter) <= counter
    ensures Latest(s, counter) > 0 ==> Slot(Latest(s, counter)) == s
    ensures forall i :: 0 < i <= counter && Slot(i) == s ==> i <= Latest(s, counter)
  {
    if counter != 0 {
      LatestIsLargest(s, counter - 1);
    }
  }

  /** Ids of one slot that lie within one lap of each other are the same id. */
  lemma SameLap(i: nat, j: nat)
    requires Slot(i) == Slot(j) && i <= j < i + MAX_JOBS
    ensures i == j
  {
  }

  /** A slot still holds the id it is asked for exactly for the last 300 issued ids. */
  lemma LookupExactly(id: nat, counter: nat)
    requires id > 0
    ensures Latest(Slot(id), counter) == id <==> id <= counter < id + MAX_JOBS
  {
    LatestIsLargest(Slot(id), counter);
    if id <= counter < id + MAX_JOBS {
      SameLap(id, Latest(Slot(id), counter));
    } else if id <= counter {
      assert Slot(id + MAX_JOBS) == Slot(id);
    }
  }

  /** The table after the jobs of `history` were added: each slot holds the latest id of that slot and its job. */
  ghost predicate Ring<Job>(jobs: map<nat, Job>, jobIds: map<nat, nat>, history: seq<Job>)
  {
    && jobs.Keys == jobIds.Keys
    && (forall s: nat :: s in jobs <==> s < MAX_JOBS && Latest(s, |history|) > 0)
    && (forall s :: s in jobs ==> jobIds[s] == Latest(s, |history|) <= |history| && jobs[s] == history[jobIds[s] - 1])
  }

  class MiningState<Job> {
    var jobs: map<nat, Job>
    var jobIds: map<nat, nat>
    var jobCounter: nat
    /** All jobs ever added; job number i is `history[i - 1]`. */
    ghost var history: seq<Job>

    ghost predicate Valid()
      reads this
    {
      jobCounter == |history| && Ring(jobs, jobIds, history)
    }

    constructor ()
      ensures Valid() && history == []
    {
      jobs, jobIds, jobCounter, history := map[], map[], 0, [];
    }

    /** `add_job`. */
    method AddJob(job: Job) returns (id: nat)
      requires Valid()
      modifies this
      ensures Valid()
      ensures history == old(history) + [job] && id == |history|
    {
      jobCounter := jobCounter + 1;
      id := jobCounter;
      var slot := id % MAX_JOBS;
      forall s: nat
        ensures Latest(s, jobCounter) == if s == slot then id else Latest(s, jobCounter - 1)
      {
        LatestIsLargest(s, jobCounter - 1);
      }
      jobs := jobs[slot := job];
      jobIds := jobIds[slot := id];
      history := history + [job];
      forall s | s in jobs
        ensures jobIds[s] == Latest(s, jobCounter) <= |history| && jobs[s] == history[jobIds[s] - 1]
      {
        LatestIsLargest(s, jobCounter - 1);
      }
    }

    /** `get_job`: whatever the slot holds, the id not being compared. */
    method GetJob(id: nat) returns (r: Option<Job>)
      requires Valid()
      ensures r == var i := Latest(Slot(id), jobCounter); if 0 < i <= |history| then Some(history[i - 1]) else None
      ensures 0 < id <= jobCounter < id + MAX_JOBS ==> r == Some(history[id - 1])
      ensures r.None? ==> jobCounter < id || id == 0
    {
      var slot := id % MAX_JOBS;
      LatestIsLargest(slot, jobCounter);
      if id > 0 {
        LookupExactly(id, jobCounter);
      }
      r := if slot in jobs then Some(jobs[slot]) else None;
    }

    /** `get_job_id_at_slot`. */
    method GetJobIdAtSlot(slot: nat) returns (r: Option<nat>)
      requires Valid()
      ensures r == var i := Latest(Slot(slot), jobCounter); if i == 0 then None else Some(i)
    {
      var s := slot % MAX_JOBS;
      r := if s in jobIds then Some(jobIds[s]) else None;
    }
  }

  // ---- Walking back over earlier jobs ------------------------------------------------------------------

  datatype SubmitResult = Accepted | DuplicateBlock | Rejected

  /** What share validation asks about a job for one nonce: proof-of-work value, network target, node's answer. */
  datatype Env<!Job> = Env(
    pow: Job -> nat,
    networkTarget: Job -> nat,
    submitBlock: Job -> SubmitResult,
    poolTarget: nat)

  datatype Outcome = Valid | Stale | Bad | LowDiff

  /** The job settles the share: it meets the network target, or it is strictly below the pool target. */
  predicate Settles<Job>(e: Env<Job>, job: Job)
  {
    e.pow(job) <= e.networkTarget(job) || e.pow(job) < e.poolTarget
  }

  function Settlement<Job>(e: Env<Job>, job: Job): (o: Outcome)
  {
    if e.pow(job) <= e.networkTarget(job) then
      match e.submitBlock(job) case Accepted => Valid case DuplicateBlock => Stale case Rejected => Bad
    else Outcome.Valid
  }

  /** The id before `id` in 64 bits; without overflow checks, as in release builds, 0 wraps around. */
  function Previous(id: nat): (p: nat)
  {
    if id == 0 then 0xffff_ffff_ffff_ffff else id - 1
  }

  /** The id reached from `id` by `i` steps back. */
  function Back(id: nat, i: nat): (r: int)
  {
    if i <= id then id - i else 0x1_0000_0000_0000_0000 + id - i
  }

  /** After how many jobs the walk is back next to its first slot; from id 0 it wraps into slot 15. */
  function Lap(id: nat): (n: nat)
  {
    if id == 0 then 16 else MAX_JOBS
  }

  /**
   * The tested ids count down from `id`; all but the last are present and settle nothing; the last one settles the
   * share, or is the end of the walk: job 1, a full lap, or an empty slot next.
   */
  ghost predicate Walk<Job>(jobs: map<nat, Job>, id: nat, e: Env<Job>, tested: seq<nat>, o: Outcome)
  {
    && 0 < |tested| <= Lap(id)
    && (forall i :: 0 <= i < |tested| ==> tested[i] == Back(id, i) && Slot(tested[i]) in jobs)
    && (forall i :: 0 <= i < |tested| - 1 ==> !Settles(e, jobs[Slot(tested[i])]) && tested[i] != 1)
    && var last := tested[|tested| - 1];
       if Settles(e, jobs[Slot(last)]) then o == Settlement(e, jobs[Slot(last)])
       else o == LowDiff && (last == 1 || |tested| == Lap(id) || Slot(Previous(last)) !in jobs)
  }

  /** The walk back from an id, before it ends. */
  lemma BackStep(id: nat, i: nat)
    requires id < 0x1_0000_0000_0000_0000 && i < Lap(id) && (id > 0 ==> i < id)
    ensures 0 <= Back(id, i) < 0x1_0000_0000_0000_0000 && (Back(id, i) == id <==> i == 0)
    ensures Back(id, i) != 1 ==> Previous(Back(id, i)) == Back(id, i + 1) && (id > 0 ==> i + 1 < id)
    ensures Slot(Back(id, i)) == (Slot(id) + 1) % MAX_JOBS <==> i + 1 == Lap(id)
  {
    if id > 0 {
      LapCloses(id, i);
    }
  }

  lemma LapCloses(id: nat, i: nat)
    requires i < MAX_JOBS && i < id
    ensures Slot(id - i) == (Slot(id) + 1) % MAX_JOBS <==> i + 1 == MAX_JOBS
  {
    assert (Slot(id) + 1) % MAX_JOBS == Slot(id + 1);
  }

  /** The validation loop of `handle_submit`, for the job found under `id`. */
  method ValidateShare<Job>(jobs: map<nat, Job>, id: nat, e: Env<Job>) returns (o: Outcome, ghost tested: seq<nat>)
    requires id < 0x1_0000_0000_0000_0000 && Slot(id) in jobs
    ensures Walk(jobs, id, e, tested, o)
  {
    var currentId: nat := id;
    var currentJob := jobs[id % MAX_JOBS];
    var invalidShare := false;
    tested := [];
    while true
      invariant |tested| < Lap(id) && (id > 0 ==> |tested| < id) && currentId == Back(id, |tested|)
      invariant Slot(currentId) in jobs && currentJob == jobs[Slot(currentId)]
      invariant forall i :: 0 <= i < |tested| ==> tested[i] == Back(id, i) && Slot(tested[i]) in jobs
      invariant forall i :: 0 <= i < |tested| ==> !Settles(e, jobs[Slot(tested[i])]) && tested[i] != 1
      invariant invalidShare <==> |tested| > 0
      decreases Lap(id) - |tested|
    {
      BackStep(id, |tested|);
      tested := tested + [currentId];
      var powValue := e.pow(currentJob);
      if powValue <= e.networkTarget(currentJob) {
        match e.submitBlock(currentJob) {
          case Accepted =>
            invalidShare := false;
            break;
          case DuplicateBlock => return Stale, tested;
          case Rejected => return Bad, tested;
        }
      }
      if powValue >= e.poolTarget {
        if currentId == id {
          invalidShare := true;
        }
        if currentId == 1 || currentId % MAX_JOBS == (id % MAX_JOBS + 1) % MAX_JOBS {
          break;
        }
        var prevId := Previous(currentId);
        if prevId % MAX_JOBS in jobs {
          currentId, currentJob := prevId, jobs[prevId % MAX_JOBS];
        } else {
          break;
        }
      } else {
        invalidShare := false;
        break;
      }
    }
    o := if invalidShare then LowDiff else Outcome.Valid;
  }

  lemma ReachesOne<Job>(jobs: map<nat, Job>, id: nat, e: Env<Job>, tested: seq<nat>, o: Outcome)
    requires Walk(jobs, id, e, tested, o) && 0 < id <= |tested|
    ensures tested[id - 1] == 1
  {
  }

  /** Ids fewer than one lap apart lie in different slots. */
  lemma BackDistinct(id: nat, i: nat, j: nat)
    requires i < j < Lap(id) && (id > 0 ==> j < id)
    ensures 0 <= Back(id, j) && 0 <= Back(id, i) && Slot(Back(id, i)) != Slot(Back(id, j))
  {
    if id > 0 && Slot(id - i) == Slot(id - j) {
      SameLap(id - j, id - i);
    }
  }

  /** No slot is tested twice, and at most min(id, 300) jobs are tested for an issued id, at most 16 for id 0. */
  lemma WalkDistinct<Job>(jobs: map<nat, Job>, id: nat, e: Env<Job>, tested: seq<nat>, o: Outcome)
    requires Walk(jobs, id, e, tested, o)
    ensures id > 0 ==> |tested| <= id && |tested| <= MAX_JOBS
    ensures id == 0 ==> |tested| <= 16
    ensures forall i, j :: 0 <= i < j < |tested| ==> Slot(tested[i]) != Slot(tested[j])
  {
    if 0 < id < |tested| {
      ReachesOne(jobs, id, e, tested, o);
      assert false;
    }
    forall i, j | 0 <= i < j < |tested|
      ensures Slot(tested[i]) != Slot(tested[j])
    {
      BackDistinct(id, i, j);
    }
  }

  /**
   * What the outcome says about the last job tested, in terms of its proof-of-work value, the two targets and the
   * node's answer. Only low difficulty leaves the share unsettled.
   */
  lemma WalkOutcome<Job>(jobs: map<nat, Job>, id: nat, e: Env<Job>, tested: seq<nat>, o: Outcome)
    requires Walk(jobs, id, e, tested, o)
    ensures var job := jobs[Slot(tested[|tested| - 1])];
            var found := e.pow(job) <= e.networkTarget(job);
            && (o == Stale <==> found && e.submitBlock(job) == DuplicateBlock)
            && (o == Bad <==> found && e.submitBlock(job) == Rejected)
            && (o == Outcome.Valid <==>
                  (found && e.submitBlock(job) == Accepted) || (!found && e.pow(job) < e.poolTarget))
            && (o == LowDiff <==> !found && e.pow(job) >= e.poolTarget)
  {
  }

  /** The walk is determined by the job table, the id and the environment. */
  lemma WalkUnique<Job>(jobs: map<nat, Job>, id: nat, e: Env<Job>, t1: seq<nat>, o1: Outcome, t2: seq<nat>, o2: Outcome)
    requires Walk(jobs, id, e, t1, o1) && Walk(jobs, id, e, t2, o2)
    ensures t1 == t2 && o1 == o2
  {
    var n: nat := if |t1| <= |t2| then |t1| else |t2|;
    assert t1[n - 1] == t2[n - 1] == Back(id, n - 1);
    NextTested(jobs, id, e, t1, o1, n);
    NextTested(jobs, id, e, t2, o2, n);
    assert forall i :: 0 <= i < n ==> t1[i] == t2[i];
  }

  lemma NextTested<Job>(jobs: map<nat, Job>, id: nat, e: Env<Job>, tested: seq<nat>, o: Outcome, n: nat)
    requires Walk(jobs, id, e, tested, o)
    ensures 0 < n < |tested| ==>
              && tested[n] == Previous(tested[n - 1]) && Slot(tested[n]) in jobs && n < Lap(id)
              && tested[n - 1] != 1 && !Settles(e, jobs[Slot(tested[n - 1])])
  {
  }

  /** `held` is what the slot of `id` holds: that id, a newer one, or an older one if `id` is not issued yet. */
  ghost predicate HeldFor(id: nat, held: nat, counter: nat)
  {
    && Slot(held) == Slot(id) && 0 < held <= counter < held + MAX_JOBS
    && (held == id <==> 0 < id <= counter < id + MAX_JOBS)
    && (held > id <==> id == 0 || id + MAX_JOBS <= counter)
    && (held < id <==> counter < id)
  }

  lemma LatestIsHeld(id: nat, counter: nat)
    requires Latest(Slot(id), counter) > 0
    ensures HeldFor(id, Latest(Slot(id), counter), counter)
  {
    LatestIsLargest(Slot(id), counter);
    LookupExactly(Latest(Slot(id), counter), counter);
    if id > 0 {
      LookupExactly(id, counter);
    }
  }

  /**
   * On a client's own table, a tested id of the last lap is tested against its own job, an older one against the newer
   * job that took its slot, and one above the counter against the latest job issued in its slot. From the newest id,
   * every tested job is therefore the genuine one.
   */
  lemma WalkOnRing<Job>(jobs: map<nat, Job>, jobIds: map<nat, nat>, history: seq<Job>, id: nat, e: Env<Job>,
                        tested: seq<nat>, o: Outcome)
    requires Ring(jobs, jobIds, history) && Walk(jobs, id, e, tested, o)
    ensures forall i :: 0 <= i < |tested| ==>
              var held := jobIds[Slot(tested[i])];
              HeldFor(tested[i], held, |history|) && jobs[Slot(tested[i])] == history[held - 1]
    ensures 0 < id == |history| ==>
              |tested| <= id && forall i :: 0 <= i < |tested| ==> jobs[Slot(tested[i])] == history[id - i - 1]
  {
    WalkDistinct(jobs, id, e, tested, o);
    forall i | 0 <= i < |tested|
      ensures HeldFor(tested[i], jobIds[Slot(tested[i])], |history|)
    {
      LatestIsHeld(tested[i], |history|);
    }
  }
}
