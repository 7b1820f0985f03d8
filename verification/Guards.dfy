/** The two time-limited guards of the bridge: answered share submissions and submitted blocks. */
module Guards {
  import opened Basics

  // ---- The common queue ----------------------------------------------------------------------------

  /** Entries by key, and the order in which keys were pushed. */
  datatype Guard<E> = Guard(entries: map<string, E>, order: seq<string>)

  /** `Instant::duration_since`, which saturates at zero. */
  function Since(now: nat, ts: nat): (d: nat)
  {
    if ts <= now then now - ts else 0
  }

  predicate Expired(now: nat, ts: nat, ttl: nat)
  {
    Since(now, ts) > ttl
  }

  function DropFront<E>(g: Guard<E>): (r: Guard<E>)
    requires g.order != []
  {
    Guard(g.entries - {g.order[0]}, g.order[1..])
  }

  predicate FrontGoes<E>(g: Guard<E>, ts: E -> nat, now: nat, ttl: nat)
  {
    g.order != [] && (g.order[0] in g.entries ==> Expired(now, ts(g.entries[g.order[0]]), ttl))
  }

  /** First loop of `prune`: from the front, while the front is gone or has expired. */
  function PruneExpired<E>(g: Guard<E>, ts: E -> nat, now: nat, ttl: nat): (r: Guard<E>)
    decreases |g.order|
  {
    if FrontGoes(g, ts, now, ttl) then PruneExpired(DropFront(g), ts, now, ttl) else g
  }

  /** Second loop: from the front, while there are too many entries. */
  function PruneExcess<E>(g: Guard<E>, max: nat): (r: Guard<E>)
    decreases |g.order|
  {
    if |g.entries| > max && g.order != [] then PruneExcess(DropFront(g), max) else g
  }

  function Pruned<E>(g: Guard<E>, ts: E -> nat, now: nat, ttl: nat, max: nat): (r: Guard<E>)
  {
    PruneExcess(PruneExpired(g, ts, now, ttl), max)
  }

  // ---- Invariants ----------------------------------------------------------------------------------

  ghost predicate NoDuplicates(s: seq<string>)
  {
    forall i, j :: 0 <= i < j < |s| ==> s[i] != s[j]
  }

  /** Every entry is queued. */
  ghost predicate Queued<E>(g: Guard<E>)
  {
    forall k :: k in g.entries ==> k in g.order
  }

  /** The queue lists exactly the entries, each once. */
  ghost predicate Exact<E>(g: Guard<E>)
  {
    NoDuplicates(g.order) && forall k :: k in g.entries <==> k in g.order
  }

  lemma DropFrontQueued<E>(g: Guard<E>)
    requires g.order != []
    ensures Queued(g) ==> Queued(DropFront(g))
    ensures Exact(g) ==> Exact(DropFront(g))
  {
    assert g.order == [g.order[0]] + g.order[1..];
  }

  lemma {:induction false} PruneExpiredQueued<E>(g: Guard<E>, ts: E -> nat, now: nat, ttl: nat)
    ensures Queued(g) ==> Queued(PruneExpired(g, ts, now, ttl))
    ensures Exact(g) ==> Exact(PruneExpired(g, ts, now, ttl))
    decreases |g.order|
  {
    if FrontGoes(g, ts, now, ttl) {
      DropFrontQueued(g);
      PruneExpiredQueued(DropFront(g), ts, now, ttl);
    }
  }

  lemma {:induction false} PruneExcessQueued<E>(g: Guard<E>, max: nat)
    ensures Queued(g) ==> Queued(PruneExcess(g, max)) && |PruneExcess(g, max).entries| <= max
    ensures Exact(g) ==> Exact(PruneExcess(g, max))
    decreases |g.order|
  {
    if |g.entries| > max && g.order != [] {
      DropFrontQueued(g);
      PruneExcessQueued(DropFront(g), max);
    } else if Queued(g) && g.order == [] {
      assert g.entries == map[];
    }
  }

  /** Pruning keeps either invariant and brings the guard within its capacity. */
  lemma PrunedQueued<E>(g: Guard<E>, ts: E -> nat, now: nat, ttl: nat, max: nat)
    ensures Queued(g) ==> Queued(Pruned(g, ts, now, ttl, max)) && |Pruned(g, ts, now, ttl, max).entries| <= max
    ensures Exact(g) ==> Exact(Pruned(g, ts, now, ttl, max))
  {
    PruneExpiredQueued(g, ts, now, ttl);
    PruneExcessQueued(PruneExpired(g, ts, now, ttl), max);
  }

  /** Pruning never invents or alters entries. */
  lemma {:induction false} PruneExpiredSub<E>(g: Guard<E>, ts: E -> nat, now: nat, ttl: nat)
    ensures forall k :: k in PruneExpired(g, ts, now, ttl).entries ==>
              k in g.entries && PruneExpired(g, ts, now, ttl).entries[k] == g.entries[k]
    ensures forall k :: k in g.entries && k !in PruneExpired(g, ts, now, ttl).entries ==>
              Expired(now, ts(g.entries[k]), ttl)
    decreases |g.order|
  {
    if FrontGoes(g, ts, now, ttl) {
      PruneExpiredSub(DropFront(g), ts, now, ttl);
    }
  }

  lemma {:induction false} PruneExcessSub<E>(g: Guard<E>, max: nat)
    ensures forall k :: k in PruneExcess(g, max).entries ==>
              k in g.entries && PruneExcess(g, max).entries[k] == g.entries[k]
    ensures |g.entries| <= max ==> PruneExcess(g, max) == g
    decreases |g.order|
  {
    if |g.entries| > max && g.order != [] {
      PruneExcessSub(DropFront(g), max);
    }
  }

  lemma DropFrontSize<E>(g: Guard<E>)
    requires g.order != []
    ensures |DropFront(g).entries| >= |g.entries| - 1
  {
    RemoveShrinks(g.entries, g.order[0]);
  }

  /** Over capacity, exactly the capacity is kept, and what is kept is the end of the queue. */
  lemma {:induction false} PruneExcessExact<E>(g: Guard<E>, max: nat)
    requires Queued(g)
    ensures |g.entries| >= max ==> |PruneExcess(g, max).entries| == max
    ensures exists n :: 0 <= n <= |g.order| && PruneExcess(g, max).order == g.order[n..]
    decreases |g.order|
  {
    assert g.order == g.order[0..];
    PruneExcessQueued(g, max);
    if |g.entries| > max && g.order != [] {
      var d := DropFront(g);
      DropFrontQueued(g);
      DropFrontSize(g);
      PruneExcessExact(d, max);
      var n :| 0 <= n <= |d.order| && PruneExcess(d, max).order == d.order[n..];
      assert d.order[n..] == g.order[n + 1..];
    }
  }

  /**
   * An entry leaves at pruning only because it has expired, or because more than the capacity
   * is left once the expired entries at the front are gone.
   */
  lemma PrunedReason<E>(g: Guard<E>, ts: E -> nat, now: nat, ttl: nat, max: nat, k: string)
    requires k in g.entries && k !in Pruned(g, ts, now, ttl, max).entries
    ensures Expired(now, ts(g.entries[k]), ttl) || |PruneExpired(g, ts, now, ttl).entries| > max
  {
    PruneExpiredSub(g, ts, now, ttl);
    PruneExcessSub(PruneExpired(g, ts, now, ttl), max);
  }

  lemma PrunedSub<E>(g: Guard<E>, ts: E -> nat, now: nat, ttl: nat, max: nat)
    ensures forall k :: k in Pruned(g, ts, now, ttl, max).entries ==>
              k in g.entries && Pruned(g, ts, now, ttl, max).entries[k] == g.entries[k]
  {
    PruneExpiredSub(g, ts, now, ttl);
    PruneExcessSub(PruneExpired(g, ts, now, ttl), max);
  }

  // ---- Expiry --------------------------------------------------------------------------------------------

  ghost predicate Goes<E>(g: Guard<E>, ts: E -> nat, now: nat, ttl: nat, k: string)
  {
    k in g.entries ==> Expired(now, ts(g.entries[k]), ttl)
  }

  /** In the queue, every expired entry comes (first) before every entry that is still good. */
  ghost predicate ExpiredFirst<E>(g: Guard<E>, ts: E -> nat, now: nat, ttl: nat)
  {
    forall i, j | 0 <= i < j < |g.order| && g.order[j] in g.entries && g.order[j] !in g.order[..j] &&
                  Goes(g, ts, now, ttl, g.order[j]) :: Goes(g, ts, now, ttl, g.order[i])
  }

  ghost predicate NoneExpired<E>(g: Guard<E>, ts: E -> nat, now: nat, ttl: nat)
  {
    forall k :: k in g.entries ==> !Goes(g, ts, now, ttl, k)
  }

  lemma {:induction false} FirstIndex(s: seq<string>, k: string) returns (j: nat)
    requires k in s
    ensures j < |s| && s[j] == k && k !in s[..j]
  {
    if s[0] == k {
      j := 0;
    } else {
      j := FirstIndex(s[1..], k);
      assert s[..j + 1] == [s[0]] + s[1..][..j];
      j := j + 1;
    }
  }

  lemma ExpiredFirstDrop<E>(g: Guard<E>, ts: E -> nat, now: nat, ttl: nat)
    requires FrontGoes(g, ts, now, ttl)
    ensures ExpiredFirst(g, ts, now, ttl) <==> ExpiredFirst(DropFront(g), ts, now, ttl)
  {
    var d := DropFront(g);
    assert forall k :: Goes(d, ts, now, ttl, k) <==> Goes(g, ts, now, ttl, k);
    forall j | 0 < j < |g.order|
      ensures d.order[j - 1] == g.order[j] && g.order[..j] == [g.order[0]] + d.order[..j - 1]
    {
    }
    if ExpiredFirst(d, ts, now, ttl) {
      forall i, j | 0 <= i < j < |g.order| && g.order[j] in g.entries && g.order[j] !in g.order[..j] &&
                    Goes(g, ts, now, ttl, g.order[j])
        ensures Goes(g, ts, now, ttl, g.order[i])
      {
        assert g.order[0] in g.order[..j];
        if i > 0 {
          assert d.order[i - 1] == g.order[i] && d.order[j - 1] == g.order[j];
        }
      }
    }
    if ExpiredFirst(g, ts, now, ttl) {
      forall i, j | 0 <= i < j < |d.order| && d.order[j] in d.entries && d.order[j] !in d.order[..j] &&
                    Goes(d, ts, now, ttl, d.order[j])
        ensures Goes(d, ts, now, ttl, d.order[i])
      {
        assert g.order[j + 1] == d.order[j] && g.order[i + 1] == d.order[i];
      }
    }
  }

  /**
   * Pruning looks at the front only. It leaves no expired entry exactly when the queue holds the expired ones first;
   * otherwise an expired entry stays behind a good one and goes on answering.
   */
  lemma {:induction false} ExpiredGoExactly<E>(g: Guard<E>, ts: E -> nat, now: nat, ttl: nat)
    requires Queued(g)
    ensures NoneExpired(PruneExpired(g, ts, now, ttl), ts, now, ttl) <==> ExpiredFirst(g, ts, now, ttl)
    decreases |g.order|
  {
    if FrontGoes(g, ts, now, ttl) {
      DropFrontQueued(g);
      ExpiredFirstDrop(g, ts, now, ttl);
      ExpiredGoExactly(DropFront(g), ts, now, ttl);
    } else if ExpiredFirst(g, ts, now, ttl) {
      forall k | k in g.entries
        ensures !Goes(g, ts, now, ttl, k)
      {
        var j := FirstIndex(g.order, k);
        assert g.order[0] == k || (Goes(g, ts, now, ttl, g.order[j]) ==> Goes(g, ts, now, ttl, g.order[0]));
      }
    }
  }

  // ---- Answered share submissions --------------------------------------------------------------------

  datatype SubmitOutcome = InFlight | Accepted | Stale | LowDiff | Bad

  datatype SubmitEntry = SubmitEntry(ts: nat, outcome: SubmitOutcome)

  const SUBMIT_TS: SubmitEntry -> nat := (e: SubmitEntry) => e.ts

  /** The guard after `insert_inflight`. */
  function Inserted(g: Guard<SubmitEntry>, key: string, now: nat, ttl: nat, max: nat): (r: Guard<SubmitEntry>)
  {
    var p := Pruned(g, SUBMIT_TS, now, ttl, max);
    if key in p.entries then p else Guard(p.entries[key := SubmitEntry(now, InFlight)], p.order + [key])
  }

  /** The guard after `set_outcome`. */
  function Resolved(g: Guard<SubmitEntry>, key: string, now: nat, outcome: SubmitOutcome, ttl: nat, max: nat)
    : (r: Guard<SubmitEntry>)
  {
    var p := Pruned(g, SUBMIT_TS, now, ttl, max);
    if key in p.entries then Guard(p.entries[key := SubmitEntry(now, outcome)], p.order) else p
  }

  /** The answer of `get`. */
  function Answer(g: Guard<SubmitEntry>, key: string, now: nat, ttl: nat, max: nat): (r: Option<SubmitOutcome>)
  {
    var p := Pruned(g, SUBMIT_TS, now, ttl, max);
    if key in p.entries then Some(p.entries[key].outcome) else None
  }

  class DuplicateSubmitGuard {
    const ttl: nat
    const maxEntries: nat
    var entries: map<string, SubmitEntry>
    var order: seq<string>

    ghost function St(): (g: Guard<SubmitEntry>)
      reads this
    {
      Guard(entries, order)
    }

    constructor (ttl: nat, maxEntries: nat)
      ensures Exact(St()) && entries == map[] && this.ttl == ttl && this.maxEntries == maxEntries
    {
      this.ttl, this.maxEntries, entries, order := ttl, maxEntries, map[], [];
    }

    method Prune(now: nat)
      modifies this
      ensures St() == Pruned(old(St()), SUBMIT_TS, now, ttl, maxEntries)
    {
      var going := true;
      while going && order != []
        invariant PruneExpired(St(), SUBMIT_TS, now, ttl) == PruneExpired(old(St()), SUBMIT_TS, now, ttl)
        invariant !going ==> !FrontGoes(St(), SUBMIT_TS, now, ttl)
        decreases going, |order|
      {
        var front := order[0];
        var remove := if front in entries then Since(now, entries[front].ts) > ttl else true;
        if remove {
          order, entries := order[1..], entries - {front};
        } else {
          going := false;
        }
      }
      while |entries| > maxEntries && order != []
        invariant PruneExcess(St(), maxEntries) == Pruned(old(St()), SUBMIT_TS, now, ttl, maxEntries)
        decreases |order|
      {
        order, entries := order[1..], entries - {order[0]};
      }
    }

    method Get(key: string, now: nat) returns (r: Option<SubmitOutcome>)
      requires Exact(St())
      modifies this
      ensures Exact(St()) && |entries| <= maxEntries
      ensures St() == Pruned(old(St()), SUBMIT_TS, now, ttl, maxEntries)
      ensures r == Answer(old(St()), key, now, ttl, maxEntries)
    {
      PrunedQueued(St(), SUBMIT_TS, now, ttl, maxEntries);
      Prune(now);
      r := if key in entries then Some(entries[key].outcome) else None;
    }

    method InsertInflight(key: string, now: nat)
      requires Exact(St())
      modifies this
      ensures Exact(St()) && key in entries && |entries| <= maxEntries + 1
      ensures St() == Inserted(old(St()), key, now, ttl, maxEntries)
    {
      PrunedQueued(St(), SUBMIT_TS, now, ttl, maxEntries);
      Prune(now);
      if key in entries {
        return;
      }
      PushExact(St(), key, SubmitEntry(now, InFlight));
      entries := entries[key := SubmitEntry(now, InFlight)];
      order := order + [key];
    }

    method SetOutcome(key: string, now: nat, outcome: SubmitOutcome)
      requires Exact(St())
      modifies this
      ensures Exact(St()) && |entries| <= maxEntries
      ensures St() == Resolved(old(St()), key, now, outcome, ttl, maxEntries)
    {
      PrunedQueued(St(), SUBMIT_TS, now, ttl, maxEntries);
      Prune(now);
      if key in entries {
        assert entries[key := SubmitEntry(now, outcome)].Keys == entries.Keys;
        assert |entries[key := SubmitEntry(now, outcome)].Keys| == |entries.Keys|;
        entries := entries[key := SubmitEntry(now, outcome)];
      }
    }
  }

  /** The front is held and good, and there is room: pruning changes nothing. */
  lemma PrunedCalm<E>(g: Guard<E>, ts: E -> nat, now: nat, ttl: nat, max: nat)
    requires !FrontGoes(g, ts, now, ttl) && |g.entries| <= max
    ensures Pruned(g, ts, now, ttl, max) == g
  {
  }

  /**
   * Two submissions arrive together and the first is settled at the end of its time: that refreshes the front in place,
   * and the second outlives its own time behind it.
   */
  lemma RefreshedFrontHides(a: string, b: string, ttl: nat, max: nat)
    requires a != b && ttl > 0 && max >= 2
    ensures var g1 := Inserted(Guard(map[], []), a, 0, ttl, max);
            var g2 := Inserted(g1, b, 0, ttl, max);
            var g3 := Resolved(g2, a, ttl, Accepted, ttl, max);
            var g4 := Pruned(g3, SUBMIT_TS, ttl + 1, ttl, max);
            b in g4.entries && Expired(ttl + 1, g4.entries[b].ts, ttl)
  {
    var e := SubmitEntry(0, InFlight);
    var g0: Guard<SubmitEntry> := Guard(map[], []);
    PrunedCalm(g0, SUBMIT_TS, 0, ttl, max);
    var g1 := Guard(map[a := e], [a]);
    assert g0.order + [a] == [a];
    assert |g1.entries.Keys| == |{a}| == 1;
    PrunedCalm(g1, SUBMIT_TS, 0, ttl, max);
    var g2 := Guard(map[a := e, b := e], [a, b]);
    assert g2.entries.Keys == {a, b} && |{a, b}| == 2;
    assert Inserted(g1, b, 0, ttl, max) == g2;
    PrunedCalm(g2, SUBMIT_TS, ttl, ttl, max);
    var g3 := Guard(map[a := SubmitEntry(ttl, Accepted), b := e], [a, b]);
    assert g3.entries.Keys == {a, b};
    PrunedCalm(g3, SUBMIT_TS, ttl + 1, ttl, max);
  }

  lemma PushExact<E>(g: Guard<E>, k: string, e: E)
    requires Exact(g) && k !in g.entries
    ensures Exact(Guard(g.entries[k := e], g.order + [k]))
    ensures |g.entries[k := e]| == |g.entries| + 1
  {
    assert g.entries[k := e].Keys == g.entries.Keys + {k};
    assert |g.entries[k := e].Keys| == |g.entries.Keys| + 1;
    var order := g.order + [k];
    forall i, j | 0 <= i < j < |order|
      ensures order[i] != order[j]
    {
      if j == |g.order| {
        assert order[i] in g.order;
      }
    }
  }

  // ---- Runs of the submission guard ------------------------------------------------------------------------

  datatype SubmitCall =
    | GetCall(key: string, now: nat)
    | InsertCall(key: string, now: nat)
    | OutcomeCall(key: string, now: nat, outcome: SubmitOutcome)

  function AfterCall(g: Guard<SubmitEntry>, c: SubmitCall, ttl: nat, max: nat): (r: Guard<SubmitEntry>)
  {
    match c
    case GetCall(_, now) => Pruned(g, SUBMIT_TS, now, ttl, max)
    case InsertCall(key, now) => Inserted(g, key, now, ttl, max)
    case OutcomeCall(key, now, outcome) => Resolved(g, key, now, outcome, ttl, max)
  }

  function AfterCalls(g: Guard<SubmitEntry>, cs: seq<SubmitCall>, ttl: nat, max: nat): (r: Guard<SubmitEntry>)
  {
    if |cs| == 0 then g else AfterCall(AfterCalls(g, cs[..|cs| - 1], ttl, max), cs[|cs| - 1], ttl, max)
  }

  /** The outcome recorded last for the key, `start` before any. */
  function LastOutcome(start: SubmitOutcome, cs: seq<SubmitCall>, key: string): (o: SubmitOutcome)
  {
    if |cs| == 0 then start
    else
      var c := cs[|cs| - 1];
      if c.OutcomeCall? && c.key == key then c.outcome else LastOutcome(start, cs[..|cs| - 1], key)
  }

  /** The time of the last recording for the key, `start` before any. */
  function LastTime(start: nat, cs: seq<SubmitCall>, key: string): (t: nat)
  {
    if |cs| == 0 then start
    else
      var c := cs[|cs| - 1];
      if c.OutcomeCall? && c.key == key then c.now else LastTime(start, cs[..|cs| - 1], key)
  }

  /** At `now`, with the key last touched at `last`, neither time nor capacity makes the guard drop the key. */
  ghost predicate MustKeep(g: Guard<SubmitEntry>, last: nat, now: nat, ttl: nat, max: nat)
  {
    now <= last + ttl && |PruneExpired(g, SUBMIT_TS, now, ttl).entries| <= max
  }

  /** The same at every one of the calls. */
  ghost predicate MustKeepAll(g: Guard<SubmitEntry>, cs: seq<SubmitCall>, key: string, t: nat, ttl: nat, max: nat)
  {
    |cs| == 0 ||
    var n := |cs| - 1;
    && MustKeepAll(g, cs[..n], key, t, ttl, max)
    && MustKeep(AfterCalls(g, cs[..n], ttl, max), LastTime(t, cs[..n], key), cs[n].now, ttl, max)
  }

  lemma KeptEntry(g: Guard<SubmitEntry>, key: string, now: nat, ttl: nat, max: nat)
    requires key in g.entries && MustKeep(g, g.entries[key].ts, now, ttl, max)
    ensures var p := Pruned(g, SUBMIT_TS, now, ttl, max); key in p.entries && p.entries[key] == g.entries[key]
  {
    PrunedSub(g, SUBMIT_TS, now, ttl, max);
    if key !in Pruned(g, SUBMIT_TS, now, ttl, max).entries {
      PrunedReason(g, SUBMIT_TS, now, ttl, max, key);
      assert false;
    }
  }

  lemma KeptCall(g: Guard<SubmitEntry>, c: SubmitCall, key: string, ttl: nat, max: nat)
    requires key in g.entries && MustKeep(g, g.entries[key].ts, c.now, ttl, max)
    ensures var r := AfterCall(g, c, ttl, max);
            key in r.entries &&
            r.entries[key] == if c.OutcomeCall? && c.key == key then SubmitEntry(c.now, c.outcome) else g.entries[key]
  {
    KeptEntry(g, key, c.now, ttl, max);
  }

  /** While it must be kept, a key is held with the outcome and the time recorded last. */
  lemma {:induction false} HeldThrough(g: Guard<SubmitEntry>, cs: seq<SubmitCall>, key: string, ttl: nat, max: nat)
    requires key in g.entries && MustKeepAll(g, cs, key, g.entries[key].ts, ttl, max)
    ensures var r, e := AfterCalls(g, cs, ttl, max), g.entries[key];
            key in r.entries && r.entries[key] == SubmitEntry(LastTime(e.ts, cs, key), LastOutcome(e.outcome, cs, key))
  {
    if |cs| != 0 {
      var n := |cs| - 1;
      HeldThrough(g, cs[..n], key, ttl, max);
      KeptCall(AfterCalls(g, cs[..n], ttl, max), cs[n], key, ttl, max);
    }
  }

  /**
   * From the insertion of a new key on, `get` answers with the in-flight outcome until an outcome is recorded and
   * with the last recorded one after that, as long as every call comes within the time limit of the last of these
   * calls and the capacity is not exceeded.
   */
  lemma AnswersLast(g: Guard<SubmitEntry>, key: string, t: nat, cs: seq<SubmitCall>, now: nat, ttl: nat, max: nat)
    requires Answer(g, key, t, ttl, max) == None
    requires var g1 := AfterCall(g, InsertCall(key, t), ttl, max);
             && MustKeepAll(g1, cs, key, t, ttl, max)
             && MustKeep(AfterCalls(g1, cs, ttl, max), LastTime(t, cs, key), now, ttl, max)
    ensures var g1 := AfterCall(g, InsertCall(key, t), ttl, max);
            Answer(AfterCalls(g1, cs, ttl, max), key, now, ttl, max) == Some(LastOutcome(InFlight, cs, key))
  {
    var g1 := AfterCall(g, InsertCall(key, t), ttl, max);
    HeldThrough(g1, cs, key, ttl, max);
    KeptEntry(AfterCalls(g1, cs, ttl, max), key, now, ttl, max);
  }

  // ---- Submitted blocks ------------------------------------------------------------------------------

  const BLOCK_TS: nat -> nat := (t: nat) => t

  class BlockSubmitGuard {
    const ttl: nat
    const maxEntries: nat
    var entries: map<string, nat>
    var order: seq<string>

    ghost function St(): (g: Guard<nat>)
      reads this
    {
      Guard(entries, order)
    }

    constructor (ttl: nat, maxEntries: nat)
      ensures Queued(St()) && entries == map[] && this.ttl == ttl && this.maxEntries == maxEntries
    {
      this.ttl, this.maxEntries, entries, order := ttl, maxEntries, map[], [];
    }

    method Prune(now: nat)
      modifies this
      ensures St() == Pruned(old(St()), BLOCK_TS, now, ttl, maxEntries)
    {
      var going := true;
      while going && order != []
        invariant PruneExpired(St(), BLOCK_TS, now, ttl) == PruneExpired(old(St()), BLOCK_TS, now, ttl)
        invariant !going ==> !FrontGoes(St(), BLOCK_TS, now, ttl)
        decreases going, |order|
      {
        var front := order[0];
        var remove := if front in entries then Since(now, entries[front]) > ttl else true;
        if remove {
          order, entries := order[1..], entries - {front};
        } else {
          going := false;
        }
      }
      while |entries| > maxEntries && order != []
        invariant PruneExcess(St(), maxEntries) == Pruned(old(St()), BLOCK_TS, now, ttl, maxEntries)
        decreases |order|
      {
        order, entries := order[1..], entries - {order[0]};
      }
    }

    method TryMark(hash: string, now: nat) returns (fresh_: bool)
      requires Queued(St())
      modifies this
      ensures Queued(St()) && |entries| <= maxEntries + 1
      ensures (fresh_, St()) == Marked(old(St()), hash, now, ttl, maxEntries)
    {
      PrunedQueued(St(), BLOCK_TS, now, ttl, maxEntries);
      Prune(now);
      if hash in entries {
        return false;
      }
      assert entries[hash := now].Keys == entries.Keys + {hash};
      assert |entries[hash := now].Keys| <= |entries.Keys| + 1;
      entries := entries[hash := now];
      order := order + [hash];
      return true;
    }

    method Remove(hash: string, now: nat)
      requires Queued(St())
      modifies this
      ensures Queued(St()) && |entries| <= maxEntries
      ensures St() == Unmarked(old(St()), hash, now, ttl, maxEntries)
    {
      PrunedQueued(St(), BLOCK_TS, now, ttl, maxEntries);
      Prune(now);
      RemoveShrinks(entries, hash);
      entries := entries - {hash};
    }
  }

  lemma SubsetSize(a: set<string>, b: set<string>)
    requires a <= b
    ensures |a| <= |b|
  {
    assert b == a + (b - a);
    assert |b| == |a| + |b - a|;
  }

  function Marked(g: Guard<nat>, h: string, now: nat, ttl: nat, max: nat): (r: (bool, Guard<nat>))
  {
    var p := Pruned(g, BLOCK_TS, now, ttl, max);
    if h in p.entries then (false, p) else (true, Guard(p.entries[h := now], p.order + [h]))
  }

  function Unmarked(g: Guard<nat>, h: string, now: nat, ttl: nat, max: nat): (r: Guard<nat>)
  {
    var p := Pruned(g, BLOCK_TS, now, ttl, max);
    Guard(p.entries - {h}, p.order)
  }

  // ---- Runs of the block guard -------------------------------------------------------------------------

  datatype BlockOp = TryMark(h: string, now: nat) | Unmark(h: string, now: nat)

  function After(g: Guard<nat>, op: BlockOp, ttl: nat, max: nat): (r: Guard<nat>)
  {
    match op
    case TryMark(h, now) => Marked(g, h, now, ttl, max).1
    case Unmark(h, now) => Unmarked(g, h, now, ttl, max)
  }

  /** The call removes the mark of `h` although it has not expired: on request, or because capacity is exceeded. */
  ghost predicate Forgets(g: Guard<nat>, op: BlockOp, h: string, ttl: nat, max: nat)
  {
    (op.Unmark? && op.h == h) || |PruneExpired(g, BLOCK_TS, op.now, ttl).entries| > max
  }

  function States(g: Guard<nat>, ops: seq<BlockOp>, ttl: nat, max: nat): (r: Guard<nat>)
  {
    if |ops| == 0 then g else After(States(g, ops[..|ops| - 1], ttl, max), ops[|ops| - 1], ttl, max)
  }

  lemma MarkStays(s: Guard<nat>, op: BlockOp, h: string, t0: nat, ttl: nat, max: nat)
    requires h in s.entries && s.entries[h] == t0 && op.now <= t0 + ttl && !Forgets(s, op, h, ttl, max)
    ensures h in Pruned(s, BLOCK_TS, op.now, ttl, max).entries
    ensures var r := After(s, op, ttl, max); h in r.entries && r.entries[h] == t0
  {
    PrunedSub(s, BLOCK_TS, op.now, ttl, max);
    if h !in Pruned(s, BLOCK_TS, op.now, ttl, max).entries {
      PrunedReason(s, BLOCK_TS, op.now, ttl, max, h);
      assert false;
    }
  }

  /** Every one of the calls is made by the given time, and none forgets the hash in the state that it meets. */
  ghost predicate NoneForgets(g: Guard<nat>, ops: seq<BlockOp>, h: string, until: nat, ttl: nat, max: nat)
  {
    |ops| == 0 ||
    var n := |ops| - 1;
    NoneForgets(g, ops[..n], h, until, ttl, max) && ops[n].now <= until &&
    !Forgets(States(g, ops[..n], ttl, max), ops[n], h, ttl, max)
  }

  /** A marked hash stays marked, with its time, through any calls within the time limit, unless one forgets it. */
  lemma {:induction false} MarkSurvives(g: Guard<nat>, ops: seq<BlockOp>, h: string, t0: nat, ttl: nat, max: nat)
    requires h in g.entries && g.entries[h] == t0 && NoneForgets(g, ops, h, t0 + ttl, ttl, max)
    ensures var s := States(g, ops, ttl, max); h in s.entries && s.entries[h] == t0
  {
    if |ops| != 0 {
      var n := |ops| - 1;
      MarkSurvives(g, ops[..n], h, t0, ttl, max);
      MarkStays(States(g, ops[..n], ttl, max), ops[n], h, t0, ttl, max);
    }
  }

  /** So a second attempt within the time limit fails, whatever calls came between, if none of them forgot the hash. */
  lemma MarkBlocks(g: Guard<nat>, h: string, t0: nat, ops: seq<BlockOp>, now: nat, ttl: nat, max: nat)
    requires Marked(g, h, t0, ttl, max).0 && now <= t0 + ttl
    requires var g1 := Marked(g, h, t0, ttl, max).1;
             && NoneForgets(g1, ops, h, t0 + ttl, ttl, max)
             && !Forgets(States(g1, ops, ttl, max), TryMark(h, now), h, ttl, max)
    ensures !Marked(States(Marked(g, h, t0, ttl, max).1, ops, ttl, max), h, now, ttl, max).0
  {
    var g1 := Marked(g, h, t0, ttl, max).1;
    MarkSurvives(g1, ops, h, t0, ttl, max);
    MarkStays(States(g1, ops, ttl, max), TryMark(h, now), h, t0, ttl, max);
  }

  /** After a removal the hash is not held, everything else is as after pruning, and the hash can be marked again. */
  lemma UnmarkFrees(g: Guard<nat>, h: string, now: nat, later: nat, ttl: nat, max: nat)
    ensures var r := Unmarked(g, h, now, ttl, max);
            && h !in r.entries
            && (forall k :: k != h && k in Pruned(g, BLOCK_TS, now, ttl, max).entries ==> k in r.entries)
            && Marked(r, h, later, ttl, max).0
  {
    PrunedSub(Unmarked(g, h, now, ttl, max), BLOCK_TS, later, ttl, max);
  }

  /** Marking keeps the queue free of repeats exactly when the hash is marked already or is no longer queued. */
  lemma MarkRepeatsExactly(g: Guard<nat>, h: string, now: nat, ttl: nat, max: nat)
    requires NoDuplicates(Pruned(g, BLOCK_TS, now, ttl, max).order)
    ensures var p := Pruned(g, BLOCK_TS, now, ttl, max);
            NoDuplicates(Marked(g, h, now, ttl, max).1.order) <==> h in p.entries || h !in p.order
  {
    var p := Pruned(g, BLOCK_TS, now, ttl, max);
    var order := p.order + [h];
    if h in p.order {
      var i :| 0 <= i < |p.order| && p.order[i] == h;
      assert order[i] == order[|p.order|];
    } else {
      assert forall i :: 0 <= i < |p.order| ==> order[i] in p.order;
    }
  }

  /** A new hash is marked while there is room and the front is held and good. */
  lemma MarkNew(g: Guard<nat>, h: string, now: nat, ttl: nat, max: nat)
    requires !FrontGoes(g, BLOCK_TS, now, ttl) && |g.entries| <= max && h !in g.entries
    ensures Marked(g, h, now, ttl, max) == (true, Guard(g.entries[h := now], g.order + [h]))
  {
    PrunedCalm(g, BLOCK_TS, now, ttl, max);
  }

  lemma ThreeKeys(a: string, b: string, c: string, u: nat, v: nat, w: nat)
    requires a != b && a != c && b != c
    ensures |map[a := u]| == 1 && |map[a := u, b := v]| == 2 && |map[a := u, b := v, c := w]| == 3
  {
    assert map[a := u].Keys == {a} && map[a := u, b := v].Keys == {a, b};
    assert map[a := u, b := v, c := w].Keys == {a, b, c};
  }

  lemma FourKeys(m: map<string, nat>, d: string, w: nat)
    requires |m| == 3 && d !in m
    ensures |m[d := w]| == 4
  {
    assert m[d := w].Keys == m.Keys + {d};
    assert |m.Keys + {d}| == |m.Keys| + 1;
  }

  lemma MarkThree(a: string, h: string, k: string, t: nat, ttl: nat)
    requires a != h && a != k && h != k
    ensures var g1: Guard<nat> := Guard(map[a := t], [a]);
            var g2: Guard<nat> := Guard(map[a := t, h := t], [a, h]);
            && Marked(Guard(map[], []), a, t, ttl, 3).1 == g1
            && Marked(g1, h, t, ttl, 3).1 == g2
            && Marked(g2, k, t, ttl, 3).1 == Guard(map[a := t, h := t, k := t], [a, h, k])
  {
    var g0: Guard<nat>, g1: Guard<nat>, g2: Guard<nat> :=
      Guard(map[], []), Guard(map[a := t], [a]), Guard(map[a := t, h := t], [a, h]);
    ThreeKeys(a, h, k, t, t, t);
    assert g0.order + [a] == [a] && g1.order + [h] == [a, h] && g2.order + [k] == [a, h, k];
    MarkNew(g0, a, t, ttl, 3);
    MarkNew(g1, h, t, ttl, 3);
    MarkNew(g2, k, t, ttl, 3);
  }

  lemma MarkAgain(a: string, h: string, k: string, t: nat, u: nat, ttl: nat)
    requires a != h && a != k && h != k && t <= u <= t + ttl
    ensures var g3: Guard<nat> := Guard(map[a := t, h := t, k := t], [a, h, k]);
            var g4: Guard<nat> := Guard(map[a := t, k := t], [a, h, k]);
            && Unmarked(g3, h, t, ttl, 3) == g4
            && Marked(g4, h, u, ttl, 3).1 == Guard(map[a := t, k := t, h := u], [a, h, k, h])
  {
    var g3: Guard<nat>, g4: Guard<nat> :=
      Guard(map[a := t, h := t, k := t], [a, h, k]), Guard(map[a := t, k := t], [a, h, k]);
    ThreeKeys(a, h, k, t, t, t);
    ThreeKeys(a, k, h, t, t, t);
    PrunedCalm(g3, BLOCK_TS, t, ttl, 3);
    assert g3.entries - {h} == g4.entries;
    assert g4.order + [h] == [a, h, k, h];
    MarkNew(g4, h, u, ttl, 3);
  }

  /** From the empty guard: three marks, then the second hash is removed and marked again. */
  function Remark(a: string, h: string, k: string, t: nat, u: nat, ttl: nat): (g: Guard<nat>)
  {
    var g1 := Marked(Guard(map[], []), a, t, ttl, 3).1;
    var g2 := Marked(g1, h, t, ttl, 3).1;
    var g3 := Marked(g2, k, t, ttl, 3).1;
    Marked(Unmarked(g3, h, t, ttl, 3), h, u, ttl, 3).1
  }

  /** The hash is queued twice, the first time in its old place. */
  lemma RemarkRepeats(a: string, h: string, k: string, t: nat, u: nat, ttl: nat)
    requires a != h && a != k && h != k && t <= u <= t + ttl
    ensures Remark(a, h, k, t, u, ttl) == Guard(map[a := t, k := t, h := u], [a, h, k, h])
  {
    MarkThree(a, h, k, t, ttl);
    MarkAgain(a, h, k, t, u, ttl);
  }

  /** One entry too many: the front goes. */
  lemma EvictFront(m: map<string, nat>, front: string, rest: seq<string>, now: nat, ttl: nat)
    requires front in m && !Expired(now, m[front], ttl) && |m| == 4
    ensures Pruned(Guard(m, [front] + rest), BLOCK_TS, now, ttl, 3) == Guard(m - {front}, rest)
    ensures |m - {front}| == 3
  {
    var g, r := Guard(m, [front] + rest), Guard(m - {front}, rest);
    assert DropFront(g) == r;
    RemoveShrinks(m, front);
    assert PruneExcess(r, 3) == r;
  }

  /** Over capacity, with two hashes in front: one more mark evicts the first, and the next pruning the second. */
  lemma EvictTwo(m: map<string, nat>, a: string, h: string, rest: seq<string>, y: string, now: nat, ttl: nat)
    requires |m| == 4 && a in m && h in m && a != h && y !in m && !Expired(now, m[a], ttl) && !Expired(now, m[h], ttl)
    ensures var g := Marked(Guard(m, [a] + ([h] + rest)), y, now, ttl, 3).1;
            Pruned(g, BLOCK_TS, now, ttl, 3).entries == (m - {a})[y := now] - {h}
  {
    EvictFront(m, a, [h] + rest, now, ttl);
    var n := (m - {a})[y := now];
    FourKeys(m - {a}, y, now);
    assert [h] + rest + [y] == [h] + (rest + [y]);
    EvictFront(n, h, rest + [y], now, ttl);
  }

  /** What is held when two more hashes have been marked and the guard is pruned again. */
  function TwoMore(g: Guard<nat>, x: string, y: string, now: nat, ttl: nat): (r: map<string, nat>)
  {
    Pruned(Marked(Marked(g, x, now, ttl, 3).1, y, now, ttl, 3).1, BLOCK_TS, now, ttl, 3).entries
  }

  lemma BeyondCapacity(m: map<string, nat>, a: string, h: string, rest: seq<string>, x: string, y: string, now: nat,
                       ttl: nat)
    requires |m| == 3 && a in m && h in m && a != h && x !in m && y !in m && x != y
    requires !Expired(now, m[a], ttl) && !Expired(now, m[h], ttl)
    ensures TwoMore(Guard(m, [a] + ([h] + rest)), x, y, now, ttl) == (m[x := now] - {a})[y := now] - {h}
  {
    var g := Guard(m, [a] + ([h] + rest));
    MarkNew(g, x, now, ttl, 3);
    FourKeys(m, x, now);
    assert g.order + [x] == [a] + ([h] + (rest + [x]));
    EvictTwo(m[x := now], a, h, rest + [x], y, now, ttl);
  }

  lemma RepeatedGoes(g: Guard<nat>, a: string, h: string, k: string, x: string, y: string, t: nat, u: nat, ttl: nat)
    requires a != h && a != k && a != x && a != y && h != k && h != x && h != y && k != x && k != y && x != y
    requires t <= u <= t + ttl && g.order == [a, h, k, h] && g.entries == map[a := t, k := t, h := u]
    ensures h !in TwoMore(g, x, y, u, ttl) && k in TwoMore(g, x, y, u, ttl) && TwoMore(g, x, y, u, ttl)[k] == t
  {
    var rest := [k, h];
    ThreeKeys(a, k, h, t, t, u);
    assert g.order == [a] + ([h] + rest);
    BeyondCapacity(g.entries, a, h, rest, x, y, u, ttl);
    Survivor(g.entries, TwoMore(g, x, y, u, ttl), a, h, k, x, y, u);
  }

  lemma Survivor(m: map<string, nat>, r: map<string, nat>, a: string, h: string, k: string, x: string, y: string,
                 now: nat)
    requires k in m && k != a && k != h && k != x && k != y && r == (m[x := now] - {a})[y := now] - {h}
    ensures h !in r && k in r && r[k] == m[k]
  {
  }

  /**
   * A hash that was removed and marked again keeps its old place in the queue. With two more marks beyond the
   * capacity of three it is evicted, although `k`, which was marked before it was marked again, stays.
   */
  lemma RemarkedGoesFirst(a: string, h: string, k: string, x: string, y: string, t: nat, u: nat, ttl: nat)
    requires a != h && a != k && a != x && a != y && h != k && h != x && h != y && k != x && k != y && x != y
    requires t <= u <= t + ttl
    ensures var g := Remark(a, h, k, t, u, ttl);
            var r := TwoMore(g, x, y, u, ttl);
            h in g.entries && g.entries[h] == u && h !in r && k in r && r[k] == t
  {
    RemarkRepeats(a, h, k, t, u, ttl);
    RepeatedGoes(Remark(a, h, k, t, u, ttl), a, h, k, x, y, t, u, ttl);
  }
}
