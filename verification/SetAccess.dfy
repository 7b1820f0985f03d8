/** `CachedDbSetAccess`: sets stored as one database key per element, cached as whole sets. */
module SetAccess {
  import opened Basics
  import opened Database
  import opened CacheStore

  // ---- Keys ----------------------------------------------------------------------------------------

  /** `DbKey`: a byte path built in place, with the length of what counts as its prefix. */
  class DbKey {
    var path: Bytes
    var prefixLen: nat

    constructor New(prefix: Bytes, key: Bytes)
      ensures path == prefix + key && prefixLen == |prefix|
    {
      path, prefixLen := prefix + key, |prefix|;
    }

    method AddBucket(bucket: Bytes)
      modifies this
      ensures path == old(path) + bucket && prefixLen == old(prefixLen) + |bucket|
    {
      path := path + bucket;
      prefixLen := prefixLen + |bucket|;
    }

    /** Adding a key also counts it as prefix. */
    method AddKey(key: Bytes)
      modifies this
      ensures path == old(path) + key && prefixLen == old(prefixLen) + |key|
    {
      path := path + key;
      prefixLen := prefixLen + |key|;
    }
  }

  /** `DbKey::new_with_bucket`: the prefix length of the result is its whole length, the key's bytes included. */
  method NewWithBucket(prefix: Bytes, bucket: Bytes, key: Bytes) returns (k: DbKey)
    ensures fresh(k) && k.path == prefix + bucket + key && k.prefixLen == |k.path|
  {
    k := new DbKey.New(prefix, []);
    k.AddBucket(bucket);
    k.AddKey(key);
  }

  /** How a set store lays out its entries; `len` is the common length of all key bytes. */
  datatype Layout<!K, !T> = Layout(
    prefix: Bytes,
    len: nat,
    keyBytes: K -> Bytes,
    ser: T -> Bytes,
    deser: Bytes -> Option<T>)
  {
    function BucketKey(k: K): (b: Bytes)
    {
      prefix + keyBytes(k)
    }

    function EntryKey(k: K, t: T): (b: Bytes)
    {
      BucketKey(k) + ser(t)
    }
  }

  /** Keys have one length and are told apart by their bytes; elements survive serialization. */
  ghost predicate Sound<K(!new), T(!new)>(l: Layout<K, T>)
  {
    && (forall k :: |l.keyBytes(k)| == l.len)
    && (forall j, k :: l.keyBytes(j) == l.keyBytes(k) ==> j == k)
    && (forall t :: l.deser(l.ser(t)) == Some(t))
  }

  /** Everything under the store's prefix is an entry of some bucket. */
  ghost predicate WellFormed<K(!new), T(!new)>(l: Layout<K, T>, db: Data)
  {
    forall b :: b in db && l.prefix <= b ==> exists k, t :: b == l.EntryKey(k, t)
  }

  /** `s` is the exact contents of the bucket of `k`. */
  ghost predicate IsBucket<K(!new), T(!new)>(l: Layout<K, T>, db: Data, k: K, s: set<T>)
  {
    forall t :: t in s <==> l.EntryKey(k, t) in db
  }

  /** Entry keys determine bucket and element, because key bytes have one length. */
  lemma EntryKeyInjective<K(!new), T(!new)>(l: Layout<K, T>, j: K, s: T, k: K, t: T)
    requires Sound(l) && l.EntryKey(j, s) == l.EntryKey(k, t)
    ensures j == k && s == t
  {
    var n := |l.prefix|;
    var a, b := l.EntryKey(j, s), l.EntryKey(k, t);
    assert |l.keyBytes(j)| == |l.keyBytes(k)| == l.len;
    assert a[n..n + l.len] == l.keyBytes(j) && b[n..n + l.len] == l.keyBytes(k);
    assert a[n + l.len..] == l.ser(s) && b[n + l.len..] == l.ser(t);
    assert l.deser(l.ser(s)) == Some(s) && l.deser(l.ser(t)) == Some(t);
  }

  /** A bucket scan sees the entries of that bucket and of no other. */
  lemma ScanIsolated<K(!new), T(!new)>(l: Layout<K, T>, db: Data, k: K, b: Bytes)
    requires Sound(l) && WellFormed(l, db) && b in db && l.BucketKey(k) <= b
    ensures l.deser(b[|l.BucketKey(k)|..]).Some?
    ensures var t := l.deser(b[|l.BucketKey(k)|..]).value; b == l.EntryKey(k, t)
  {
    var n := |l.prefix|;
    assert l.prefix <= b by {
      assert l.BucketKey(k)[..n] == l.prefix;
    }
    var j, t :| b == l.EntryKey(j, t);
    assert |l.keyBytes(j)| == |l.keyBytes(k)| == l.len;
    assert b[n..n + l.len] == l.keyBytes(j);
    assert b[n..n + l.len] == l.BucketKey(k)[n..] == l.keyBytes(k);
    assert b[n + l.len..] == l.ser(t);
    assert l.deser(l.ser(t)) == Some(t);
  }

  // ---- The cached set store as a state machine -----------------------------------------------------------

  datatype Op<K, T> =
    | Read(k: K)
    | Write(w: Writer, k: K, t: T)
    | Remove(w: Writer, k: K, t: T)
    | RemoveBucket(w: Writer, k: K)
    | Foreign(w: Writer, op: WriteOp)
    | CommitBatch

  datatype Out<T> = Elements(s: set<T>) | Done

  datatype State<K, T> = State(cache: map<K, set<T>>, db: Data, pending: seq<WriteOp>)

  /** What the database will hold once the pending batch is committed. */
  function Effective<K, T>(s: State<K, T>): (d: Data)
  {
    ApplyAll(s.db, s.pending)
  }

  /** The database operation each store operation issues. */
  function Writes<K, T>(l: Layout<K, T>, op: Op<K, T>): (ops: seq<WriteOp>)
  {
    match op
    case Write(_, k, t) => [Put(l.EntryKey(k, t), [])]
    case Remove(_, k, t) => [Delete(l.EntryKey(k, t))]
    case RemoveBucket(_, k) =>
      (match NextPrefix(l.BucketKey(k)) case Some(to) => [DeleteRange(l.BucketKey(k), to)] case None => [])
    case Foreign(_, o) => [o]
    case _ => []
  }

  predicate IsDirect<K, T>(op: Op<K, T>)
  {
    match op
    case Write(w, _, _) => w.Direct?
    case Remove(w, _, _) => w.Direct?
    case RemoveBucket(w, _) => w.Direct?
    case Foreign(w, _) => w.Direct?
    case _ => true
  }

  /** The uncached store: every write takes effect at once. */
  function NextDb<K, T>(l: Layout<K, T>, db: Data, op: Op<K, T>): (r: Data)
  {
    ApplyAll(db, Writes(l, op))
  }

  /** The most the cache can hold afterwards; `s` is what a scan of the database would collect. */
  function CacheTarget<K, T>(cache: map<K, set<T>>, op: Op<K, T>, s: set<T>): (m: map<K, set<T>>)
  {
    match op
    case Read(k) => if k in cache then cache else cache[k := s]
    case Write(_, k, t) => if k in cache then cache[k := cache[k] + {t}] else cache
    case Remove(_, k, t) => if k in cache then cache[k := cache[k] - {t}] else cache
    case RemoveBucket(_, k) => cache - {k}
    case _ => cache
  }

  /** Writes go to the database or to the batch. */
  ghost predicate Wrote<K(!new), T(!new)>(l: Layout<K, T>, s: State<K, T>, op: Op<K, T>, s': State<K, T>)
  {
    if op.CommitBatch? then s'.db == Effective(s) && s'.pending == []
    else if IsDirect(op) then s'.db == NextDb(l, s.db, op) && s'.pending == s.pending
    else s'.db == s.db && s'.pending == s.pending + Writes(l, op)
  }

  /** One call. A read answers from the cache or from a scan of the database, whose result it may cache. */
  ghost predicate Step<K(!new), T(!new)>(l: Layout<K, T>, s: State<K, T>, op: Op<K, T>, o: Out<T>, s': State<K, T>)
  {
    && Wrote(l, s, op, s')
    && (if op.Read? then
          && o.Elements?
          && (if op.k in s.cache then o.s == s.cache[op.k] else IsBucket(l, s.db, op.k, o.s))
          && SubMap(s'.cache, CacheTarget(s.cache, op, o.s))
        else o == Done && SubMap(s'.cache, CacheTarget(s.cache, op, {})))
  }

  /** What the batch puts under the store's prefix are entries. */
  ghost predicate PutsEntries<K(!new), T(!new)>(l: Layout<K, T>, ops: seq<WriteOp>)
  {
    forall i :: 0 <= i < |ops| && ops[i].Put? && l.prefix <= ops[i].key ==> IsEntry(l, ops[i].key)
  }

  ghost predicate IsEntry<K(!new), T(!new)>(l: Layout<K, T>, b: Bytes)
  {
    exists k, t :: b == l.EntryKey(k, t)
  }

  /** Every cached set is the exact bucket that the database will hold after the pending batch. */
  ghost predicate Coherent<K(!new), T(!new)>(l: Layout<K, T>, s: State<K, T>)
  {
    && WellFormed(l, s.db) && PutsEntries(l, s.pending)
    && forall k :: k in s.cache ==> IsBucket(l, Effective(s), k, s.cache[k])
  }

  /** Other stores keep out of this one's prefix; bucket ranges have an end, as the source's `unwrap` demands. */
  ghost predicate Allowed<K(!new), T(!new)>(l: Layout<K, T>, op: Op<K, T>)
  {
    && (op.Foreign? ==> forall b :: Affects(op.op, b) ==> !(l.prefix <= b))
    && (op.RemoveBucket? ==> NextPrefix(l.BucketKey(op.k)).Some?)
  }

  lemma PrefixOfEntry<K(!new), T(!new)>(l: Layout<K, T>, k: K, t: T)
    ensures l.prefix <= l.EntryKey(k, t) && l.BucketKey(k) <= l.EntryKey(k, t)
  {
    assert l.EntryKey(k, t) == l.prefix + (l.keyBytes(k) + l.ser(t));
  }

  /** Operations that put only entries keep the database well formed. */
  lemma {:induction false} AppliedWellFormed<K(!new), T(!new)>(l: Layout<K, T>, db: Data, ops: seq<WriteOp>)
    requires WellFormed(l, db) && PutsEntries(l, ops)
    ensures WellFormed(l, ApplyAll(db, ops))
  {
    if |ops| != 0 {
      var init, op := ops[..|ops| - 1], ops[|ops| - 1];
      assert forall i :: 0 <= i < |init| ==> init[i] == ops[i];
      AppliedWellFormed(l, db, init);
      var mid := ApplyAll(db, init);
      forall b | b in Apply(mid, op) && l.prefix <= b
        ensures exists k, t :: b == l.EntryKey(k, t)
      {
        if b !in mid {
          assert op == Put(b, op.value) && IsEntry(l, ops[|ops| - 1].key);
        }
      }
    }
  }

  lemma WritesEntries<K(!new), T(!new)>(l: Layout<K, T>, op: Op<K, T>)
    requires Allowed(l, op)
    ensures PutsEntries(l, Writes(l, op))
  {
    if op.Write? {
      assert IsEntry(l, l.EntryKey(op.k, op.t));
    } else if op.Foreign? && op.op.Put? {
      assert Affects(op.op, op.op.key);
    }
  }

  /** How each operation changes the bucket of `j`. */
  lemma BucketAfter<K(!new), T(!new)>(l: Layout<K, T>, db: Data, op: Op<K, T>, j: K, u: T)
    requires Sound(l) && WellFormed(l, db) && Allowed(l, op)
    ensures l.EntryKey(j, u) in NextDb(l, db, op) <==>
            match op
            case Write(_, k, t) => (j == k && u == t) || l.EntryKey(j, u) in db
            case Remove(_, k, t) => !(j == k && u == t) && l.EntryKey(j, u) in db
            case RemoveBucket(_, k) => j != k && l.EntryKey(j, u) in db
            case _ => l.EntryKey(j, u) in db
  {
    var e := l.EntryKey(j, u);
    PrefixOfEntry(l, j, u);
    if |Writes(l, op)| == 1 {
      ApplySnoc(db, [], Writes(l, op)[0]);
      assert [] + [Writes(l, op)[0]] == Writes(l, op);
    }
    match op
    case Write(_, k, t) =>
      if e == l.EntryKey(k, t) {
        EntryKeyInjective(l, j, u, k, t);
      }
    case Remove(_, k, t) =>
      if e == l.EntryKey(k, t) {
        EntryKeyInjective(l, j, u, k, t);
      }
    case RemoveBucket(_, k) => BucketGone(l, db, k, j, u);
    case Foreign(_, o) => assert !Affects(o, e);
    case _ =>
  }

  lemma BucketGone<K(!new), T(!new)>(l: Layout<K, T>, db: Data, k: K, j: K, u: T)
    requires Sound(l) && WellFormed(l, db) && NextPrefix(l.BucketKey(k)).Some?
    ensures l.EntryKey(j, u) in Apply(db, DeleteRange(l.BucketKey(k), NextPrefix(l.BucketKey(k)).value)) <==>
              j != k && l.EntryKey(j, u) in db
  {
    var e := l.EntryKey(j, u);
    PrefixOfEntry(l, j, u);
    PrefixRangeExact(l.BucketKey(k), NextPrefix(l.BucketKey(k)).value, e);
    if e in db && l.BucketKey(k) <= e {
      ScanIsolated(l, db, k, e);
      EntryKeyInjective(l, j, u, k, l.deser(e[|l.BucketKey(k)|..]).value);
    }
  }

  // ---- Reads and direct writes while a batch is pending ----------------------------------------------------

  /** The pending batch leaves every entry of the bucket stored or not stored as it is. */
  ghost predicate BatchKeeps<K(!new), T(!new)>(l: Layout<K, T>, db: Data, pending: seq<WriteOp>, k: K)
  {
    forall t :: EntryKept(db, pending, l.EntryKey(k, t))
  }

  ghost predicate EntryKept(db: Data, pending: seq<WriteOp>, b: Bytes)
  {
    var last := LastAffecting(pending, b);
    last.None? || (last.value.Put? <==> b in db)
  }

  /** A scanned set is the effective bucket, and may be cached, exactly when the pending batch keeps the bucket. */
  lemma MissExactlyWhen<K(!new), T(!new)>(l: Layout<K, T>, s: State<K, T>, k: K, scanned: set<T>)
    requires Coherent(l, s) && k !in s.cache && IsBucket(l, s.db, k, scanned)
    ensures IsBucket(l, Effective(s), k, scanned) <==> BatchKeeps(l, s.db, s.pending, k)
    ensures Coherent(l, State(s.cache[k := scanned], s.db, s.pending)) <==> BatchKeeps(l, s.db, s.pending, k)
  {
    forall t
      ensures (t in scanned <==> l.EntryKey(k, t) in Effective(s)) <==> EntryKept(s.db, s.pending, l.EntryKey(k, t))
    {
      LastDecides(s.db, s.pending, l.EntryKey(k, t));
    }
    var s1 := State(s.cache[k := scanned], s.db, s.pending);
    assert Effective(s1) == Effective(s) && k in s1.cache && s1.cache[k] == scanned;
    assert forall j :: j in s1.cache && j != k ==> j in s.cache && s1.cache[j] == s.cache[j];
  }

  /** Read sets that are cached or kept; write directly only as the batch leaves the entry. */
  ghost predicate Disciplined<K(!new), T(!new)>(l: Layout<K, T>, s: State<K, T>, op: Op<K, T>)
  {
    && (op.Read? ==> op.k in s.cache || BatchKeeps(l, s.db, s.pending, op.k))
    && (IsDirect(op) ==> forall b :: SameLast(Writes(l, op), s.pending, b))
  }

  /** The effective database moves as the uncached one does exactly when direct writes agree with the batch. */
  lemma EffectiveStep<K(!new), T(!new)>(l: Layout<K, T>, s: State<K, T>, op: Op<K, T>, s': State<K, T>)
    requires Wrote(l, s, op, s')
    ensures Effective(s') == NextDb(l, Effective(s), op) <==>
              (IsDirect(op) ==> forall b :: SameLast(Writes(l, op), s.pending, b))
  {
    if op.CommitBatch? {
    } else if IsDirect(op) {
      DirectCommutes(s.db, Writes(l, op), s.pending);
    } else {
      ApplyConcat(s.db, s.pending, Writes(l, op));
    }
  }

  lemma ShapeStep<K(!new), T(!new)>(l: Layout<K, T>, s: State<K, T>, op: Op<K, T>, s': State<K, T>)
    requires WellFormed(l, s.db) && PutsEntries(l, s.pending) && Allowed(l, op) && Wrote(l, s, op, s')
    ensures WellFormed(l, s'.db) && PutsEntries(l, s'.pending)
  {
    WritesEntries(l, op);
    AppliedWellFormed(l, s.db, s.pending);
    AppliedWellFormed(l, s.db, Writes(l, op));
  }

  /** One call of a coherent store behaves like the uncached store exactly when it is disciplined. */
  lemma StepExactly<K(!new), T(!new)>(l: Layout<K, T>, s: State<K, T>, op: Op<K, T>, o: Out<T>, s': State<K, T>)
    requires Coherent(l, s) && Step(l, s, op, o, s')
    ensures Effective(s') == NextDb(l, Effective(s), op) && (op.Read? ==> IsBucket(l, Effective(s), op.k, o.s)) <==>
              Disciplined(l, s, op)
  {
    EffectiveStep(l, s, op, s');
    if op.Read? && op.k !in s.cache {
      MissExactlyWhen(l, s, op.k, o.s);
    }
  }

  lemma CachedAfter<K(!new), T(!new)>(l: Layout<K, T>, cache: map<K, set<T>>, db: Data, op: Op<K, T>, s: set<T>, j: K)
    requires Sound(l) && WellFormed(l, db) && Allowed(l, op)
    requires forall k :: k in cache ==> IsBucket(l, db, k, cache[k])
    requires op.Read? ==> IsBucket(l, db, op.k, s)
    requires j in CacheTarget(cache, op, s)
    ensures IsBucket(l, NextDb(l, db, op), j, CacheTarget(cache, op, s)[j])
  {
    forall u
      ensures u in CacheTarget(cache, op, s)[j] <==> l.EntryKey(j, u) in NextDb(l, db, op)
    {
      BucketAfter(l, db, op, j, u);
    }
  }

  /** One disciplined call keeps every cached set exact. */
  lemma StepCoherent<K(!new), T(!new)>(l: Layout<K, T>, s: State<K, T>, op: Op<K, T>, o: Out<T>, s': State<K, T>)
    requires Sound(l) && Coherent(l, s) && Allowed(l, op) && Disciplined(l, s, op) && Step(l, s, op, o, s')
    ensures Coherent(l, s') && Effective(s') == NextDb(l, Effective(s), op)
    ensures op.Read? ==> o.Elements? && IsBucket(l, Effective(s), op.k, o.s)
  {
    StepExactly(l, s, op, o, s');
    ShapeStep(l, s, op, s');
    AppliedWellFormed(l, s.db, s.pending);
    var scanned := if op.Read? then o.s else {};
    forall j | j in s'.cache
      ensures IsBucket(l, Effective(s'), j, s'.cache[j])
    {
      CachedAfter(l, s.cache, Effective(s), op, scanned, j);
    }
  }

  // ---- Whole runs ------------------------------------------------------------------------------------------

  ghost predicate IsRun<K(!new), T(!new)>(l: Layout<K, T>, ss: seq<State<K, T>>, ops: seq<Op<K, T>>, os: seq<Out<T>>)
  {
    && |ss| == |ops| + 1 && |os| == |ops|
    && (forall i :: 0 <= i < |ops| ==> Step(l, ss[i], ops[i], os[i], ss[i + 1]))
    && (forall i :: 0 <= i < |ops| ==> Allowed(l, ops[i]) && Disciplined(l, ss[i], ops[i]))
  }

  function RefRun<K, T>(l: Layout<K, T>, db: Data, ops: seq<Op<K, T>>): (r: Data)
  {
    if |ops| == 0 then db else NextDb(l, RefRun(l, db, ops[..|ops| - 1]), ops[|ops| - 1])
  }

  lemma {:induction false} RunCoherent<K(!new), T(!new)>(l: Layout<K, T>, ss: seq<State<K, T>>, ops: seq<Op<K, T>>,
                                                         os: seq<Out<T>>, n: nat)
    requires Sound(l) && IsRun(l, ss, ops, os) && Coherent(l, ss[0]) && n <= |ops|
    ensures Coherent(l, ss[n]) && Effective(ss[n]) == RefRun(l, Effective(ss[0]), ops[..n])
  {
    if n != 0 {
      RunCoherent(l, ss, ops, os, n - 1);
      StepCoherent(l, ss[n - 1], ops[n - 1], os[n - 1], ss[n - 1 + 1]);
      assert ops[..n][..n - 1] == ops[..n - 1];
    }
  }

  /**
   * In every disciplined run, under any eviction and however calls use the writers, every cached set is its bucket in
   * the database overlaid by the batch, and every read answers with the exact bucket of the uncached store.
   */
  lemma RunExact<K(!new), T(!new)>(l: Layout<K, T>, ss: seq<State<K, T>>, ops: seq<Op<K, T>>, os: seq<Out<T>>, n: nat)
    requires Sound(l) && IsRun(l, ss, ops, os) && Coherent(l, ss[0]) && n <= |ops|
    ensures Coherent(l, ss[n]) && Effective(ss[n]) == RefRun(l, Effective(ss[0]), ops[..n])
    ensures n < |ops| && ops[n].Read? ==>
              os[n].Elements? && IsBucket(l, RefRun(l, Effective(ss[0]), ops[..n]), ops[n].k, os[n].s)
  {
    RunCoherent(l, ss, ops, os, n);
    if n < |ops| {
      StepCoherent(l, ss[n], ops[n], os[n], ss[n + 1]);
    }
  }

  lemma {:induction false} NothingPending<K(!new), T(!new)>(l: Layout<K, T>, ss: seq<State<K, T>>, ops: seq<Op<K, T>>,
                                                            os: seq<Out<T>>, n: nat)
    requires |ss| == |ops| + 1 && |os| == |ops| && n <= |ops| && ss[0].pending == []
    requires forall i :: 0 <= i < |ops| ==> Step(l, ss[i], ops[i], os[i], ss[i + 1]) && IsDirect(ops[i])
    ensures ss[n].pending == []
  {
    if n != 0 {
      NothingPending(l, ss, ops, os, n - 1);
      assert Step(l, ss[n - 1], ops[n - 1], os[n - 1], ss[n - 1 + 1]);
    }
  }

  /**
   * Every run of direct calls is disciplined: cached sets are buckets of the database, and reads return exact
   * buckets.
   */
  lemma DirectRun<K(!new), T(!new)>(l: Layout<K, T>, ss: seq<State<K, T>>, ops: seq<Op<K, T>>, os: seq<Out<T>>, n: nat)
    requires |ss| == |ops| + 1 && |os| == |ops| && n <= |ops| && ss[0].pending == []
    requires forall i :: 0 <= i < |ops| ==> Step(l, ss[i], ops[i], os[i], ss[i + 1]) && IsDirect(ops[i])
    requires Sound(l) && Coherent(l, ss[0]) && forall i :: 0 <= i < |ops| ==> Allowed(l, ops[i])
    ensures IsRun(l, ss, ops, os) && ss[n].db == RefRun(l, ss[0].db, ops[..n])
    ensures forall k :: k in ss[n].cache ==> IsBucket(l, ss[n].db, k, ss[n].cache[k])
    ensures n < |ops| && ops[n].Read? ==>
              os[n].Elements? && IsBucket(l, RefRun(l, ss[0].db, ops[..n]), ops[n].k, os[n].s)
  {
    forall i | 0 <= i < |ops|
      ensures Disciplined(l, ss[i], ops[i])
    {
      NothingPending(l, ss, ops, os, i);
    }
    NothingPending(l, ss, ops, os, n);
    RunExact(l, ss, ops, os, n);
  }

  /**
   * Add an element to an uncached set through a batch, read the set, commit: the read answers without the element, and
   * after the commit the cached set still lacks it.
   */
  lemma StaleSet<K(!new), T(!new)>(l: Layout<K, T>, db: Data, k: K, t: T, scanned: set<T>)
    requires WellFormed(l, db) && IsBucket(l, db, k, scanned) && t !in scanned
    ensures var put := Put(l.EntryKey(k, t), []);
            var s0: State<K, T> := State(map[], db, []);
            var s1 := State(map[], db, [put]);
            var s2 := State(map[k := scanned], db, [put]);
            var s3 := State(map[k := scanned], Effective(s2), []);
            && Coherent(l, s0)
            && Step(l, s0, Write(Batched, k, t), Done, s1)
            && Step(l, s1, Read(k), Elements(scanned), s2)
            && Step(l, s2, CommitBatch, Done, s3)
            && l.EntryKey(k, t) in s3.db && t !in s3.cache[k] && !Coherent(l, s3)
  {
    var put := Put(l.EntryKey(k, t), []);
    ApplySnoc(db, [], put);
    assert [] + [put] == [put];
    var s3 := State(map[k := scanned], ApplyAll(db, [put]), []);
    assert k in s3.cache && !IsBucket(l, Effective(s3), k, s3.cache[k]) by {
      assert l.EntryKey(k, t) in Effective(s3) && t !in s3.cache[k];
    }
  }

  // ---- Why key bytes need one length -------------------------------------------------------------------------

  /** Exactly which entries of bucket j lie in the range that a scan of bucket k reads. */
  lemma EntryUnderBucket<K(!new), T(!new)>(l: Layout<K, T>, j: K, k: K, t: T)
    ensures l.BucketKey(k) <= l.EntryKey(j, t) <==>
              || l.keyBytes(k) <= l.keyBytes(j)
              || (l.keyBytes(j) <= l.keyBytes(k) && l.keyBytes(k)[|l.keyBytes(j)|..] <= l.ser(t))
  {
    var a, b, c := l.keyBytes(k), l.keyBytes(j), l.ser(t);
    assert l.EntryKey(j, t) == l.prefix + (b + c);
    CommonPrefix(l.prefix, a, b + c);
    if |a| <= |b| {
      assert a <= b + c <==> a <= b;
    } else {
      assert a == a[..|b|] + a[|b|..];
      assert a <= b + c ==> a[..|b|] == b && a[|b|..] == c[..|a| - |b|];
    }
  }

  lemma CommonPrefix(p: Bytes, a: Bytes, b: Bytes)
    ensures p + a <= p + b <==> a <= b
  {
    if p + a <= p + b {
      assert forall i :: 0 <= i < |a| ==> a[i] == (p + a)[|p| + i] == (p + b)[|p| + i] == b[i];
    }
  }

  /**
   * A scan of bucket k can read an entry of bucket j exactly when j's key bytes extend k's, or k's extend j's and some
   * element serializes to bytes that start with the difference.
   */
  lemma BucketsLeakExactly<K(!new), T(!new)>(l: Layout<K, T>, j: K, k: K, any: T)
    ensures (exists t :: l.BucketKey(k) <= l.EntryKey(j, t)) <==>
              || l.keyBytes(k) <= l.keyBytes(j)
              || (l.keyBytes(j) <= l.keyBytes(k) && exists t :: l.keyBytes(k)[|l.keyBytes(j)|..] <= l.ser(t))
  {
    forall t
      ensures l.BucketKey(k) <= l.EntryKey(j, t) <==>
                || l.keyBytes(k) <= l.keyBytes(j)
                || (l.keyBytes(j) <= l.keyBytes(k) && l.keyBytes(k)[|l.keyBytes(j)|..] <= l.ser(t))
    {
      EntryUnderBucket(l, j, k, t);
    }
    if l.keyBytes(k) <= l.keyBytes(j) {
      assert l.BucketKey(k) <= l.EntryKey(j, any);
    } else if l.keyBytes(j) <= l.keyBytes(k) && exists t :: l.keyBytes(k)[|l.keyBytes(j)|..] <= l.ser(t) {
      var t :| l.keyBytes(k)[|l.keyBytes(j)|..] <= l.ser(t);
      assert l.BucketKey(k) <= l.EntryKey(j, t);
    }
  }

  /**
   * What a scan returns, whatever the layout: an error if some key under the bucket does not decode, else the
   * decoded.
   */
  ghost predicate Scanned<K(!new), T(!new)>(l: Layout<K, T>, db: Data, k: K, r: Option<set<T>>)
  {
    var n := |l.BucketKey(k)|;
    && (r.Some? <==> forall b :: b in db && l.BucketKey(k) <= b ==> l.deser(b[n..]).Some?)
    && (r.Some? ==> forall t :: t in r.value <==>
                      exists b :: b in db && l.BucketKey(k) <= b && l.deser(b[n..]) == Some(t))
  }

  /** The layout, the database and the key determine the result of a scan. */
  lemma ScannedUnique<K(!new), T(!new)>(l: Layout<K, T>, db: Data, k: K, r: Option<set<T>>, r': Option<set<T>>)
    requires Scanned(l, db, k, r) && Scanned(l, db, k, r')
    ensures r == r'
  {
    if r.Some? {
      assert forall t :: t in r.value <==> t in r'.value;
      assert r.value == r'.value;
    }
  }

  /**
   * Keys of any length; elements are bytes, decoded from the first byte as a decoder that allows trailing bytes does.
   */
  const BYTE_SETS: Layout<Bytes, byte> :=
    Layout([], 0, (k: Bytes) => k, (t: byte) => [t], (b: Bytes) => if |b| == 0 then None else Some(b[0]))

  /**
   * With keys of different lengths, an element written to one bucket shows up in the scan of another as an element that
   * was never written, or makes the scan of a third fail.
   */
  lemma ScanLeaks(x: byte, y: byte, t: byte)
    ensures var db := NextDb(BYTE_SETS, map[], Write(Direct, [x, y], t));
            && Scanned(BYTE_SETS, db, [x], Some({y})) && IsBucket(BYTE_SETS, db, [x], {})
            && Scanned(BYTE_SETS, db, [x, y, t], None) && IsBucket(BYTE_SETS, db, [x, y, t], {})
  {
    var l := BYTE_SETS;
    var e := [x, y, t];
    assert l.EntryKey([x, y], t) == e;
    var db: Data := map[e := []];
    ApplySnoc(map[], [], Put(e, []));
    assert [] + [Put(e, [])] == Writes(l, Write(Direct, [x, y], t));
    assert NextDb(l, map[], Write(Direct, [x, y], t)) == db;
    assert e in db && l.BucketKey([x]) == [x] && [x] <= e && e[1..] == [y, t];
    assert l.BucketKey(e) == e && e[3..] == [];
    assert l.deser(e[1..]) == Some(y);
    assert l.deser(e[3..]) == None;
  }

  // ---- The store itself --------------------------------------------------------------------------------------

  class CachedDbSetAccess<K(!new, ==), T(!new, ==)> {
    const layout: Layout<K, T>
    const cache: Cache<K, set<T>>
    const db: Db

    constructor (layout: Layout<K, T>, db: Db, policy: CachePolicy, size: set<T> -> nat)
      ensures this.layout == layout && this.db == db && fresh(cache) && cache.Valid() && cache.entries == map[]
    {
      this.layout, this.db := layout, db;
      cache := new Cache(policy, size);
    }

    ghost function St(batch: WriteBatch): (s: State<K, T>)
      reads this, cache, db, batch
    {
      State(cache.entries, db.data, batch.ops)
    }

    /** `bucket_iterator(k).collect()`: the elements under the bucket prefix, or an error if one cannot be decoded. */
    method Scan(k: K) returns (r: Option<set<T>>)
      ensures Scanned(layout, db.data, k, r)
      ensures Sound(layout) && WellFormed(layout, db.data) ==> r.Some? && IsBucket(layout, db.data, k, r.value)
    {
      var dbKey := NewWithBucket(layout.prefix, layout.keyBytes(k), []);
      assert dbKey.path == layout.BucketKey(k);
      var left := set b | b in db.data && dbKey.path <= b;
      ghost var all := left;
      var found := {};
      while left != {}
        invariant left <= all
        invariant all == set b | b in db.data && dbKey.path <= b
        invariant dbKey.path == layout.BucketKey(k) && dbKey.prefixLen == |dbKey.path|
        invariant forall t :: t in found <==>
                    exists b :: b in all - left && layout.deser(b[|layout.BucketKey(k)|..]) == Some(t)
        invariant forall b :: b in all - left ==> layout.deser(b[|layout.BucketKey(k)|..]).Some?
        decreases left
      {
        var b :| b in left;
        match layout.deser(b[dbKey.prefixLen..]) {
          case None =>
            if Sound(layout) && WellFormed(layout, db.data) {
              ScanIsolated(layout, db.data, k, b);
            }
            return None;
          case Some(t) =>
            found := found + {t};
            left := left - {b};
        }
      }
      r := Some(found);
      assert all - left == all;
      if Sound(layout) && WellFormed(layout, db.data) {
        ScanCollects(layout, db.data, k, found);
      }
    }

    method Read(k: K, ghost batch: WriteBatch) returns (r: Option<set<T>>)
      requires cache.Valid()
      modifies cache
      ensures cache.Valid()
      ensures old(k in cache.entries) ==> r == Some(old(cache.entries)[k]) && St(batch) == old(St(batch))
      ensures old(k !in cache.entries) ==> Scanned(layout, db.data, k, r)
      ensures if r.None? then St(batch) == old(St(batch)) else SubMap(cache.entries, old(cache.entries)[k := r.value])
      ensures Sound(layout) && WellFormed(layout, db.data) ==>
                r.Some? && Step(layout, old(St(batch)), Op.Read(k), Elements(r.value), St(batch))
    {
      if k in cache.entries {
        return Some(cache.entries[k]);
      }
      r := Scan(k);
      if r.Some? {
        cache.Insert(k, r.value);
      }
    }

    method Write(w: Writer, batch: WriteBatch, k: K, t: T)
      requires cache.Valid()
      modifies cache, db, batch
      ensures cache.Valid()
      ensures Step(layout, old(St(batch)), Op.Write(w, k, t), Done, St(batch))
    {
      cache.UpdateIfEntryExists(k, s => s + {t});
      var put := Put(layout.EntryKey(k, t), []);
      WriteTo(w, db, batch, put);
      OneWrite(layout, old(St(batch)), Op.Write(w, k, t), w, put, St(batch));
    }

    method Delete(w: Writer, batch: WriteBatch, k: K, t: T)
      requires cache.Valid()
      modifies cache, db, batch
      ensures cache.Valid()
      ensures Step(layout, old(St(batch)), Op.Remove(w, k, t), Done, St(batch))
    {
      cache.UpdateIfEntryExists(k, s => s - {t});
      var delete := WriteOp.Delete(layout.EntryKey(k, t));
      WriteTo(w, db, batch, delete);
      OneWrite(layout, old(St(batch)), Op.Remove(w, k, t), w, delete, St(batch));
    }

    method DeleteBucket(w: Writer, batch: WriteBatch, k: K)
      requires cache.Valid() && NextPrefix(layout.BucketKey(k)).Some?
      modifies cache, db, batch
      ensures cache.Valid()
      ensures Step(layout, old(St(batch)), Op.RemoveBucket(w, k), Done, St(batch))
    {
      cache.Remove(k);
      var from := layout.BucketKey(k);
      var range := DeleteRange(from, NextPrefix(from).value);
      WriteTo(w, db, batch, range);
      OneWrite(layout, old(St(batch)), Op.RemoveBucket(w, k), w, range, St(batch));
    }
  }

  /** A call that issues one database operation through its writer. */
  lemma OneWrite<K(!new), T(!new)>(l: Layout<K, T>, s: State<K, T>, op: Op<K, T>, w: Writer, o: WriteOp,
                                   s': State<K, T>)
    requires Writes(l, op) == [o] && !op.CommitBatch? && (IsDirect(op) <==> w.Direct?)
    requires w.Direct? ==> s'.db == Apply(s.db, o) && s'.pending == s.pending
    requires w.Batched? ==> s'.db == s.db && s'.pending == s.pending + [o]
    ensures Wrote(l, s, op, s')
  {
    ApplySnoc(s.db, [], o);
    assert [] + [o] == [o];
  }

  lemma ScanCollects<K(!new), T(!new)>(l: Layout<K, T>, db: Data, k: K, found: set<T>)
    requires Sound(l) && WellFormed(l, db)
    requires forall t :: t in found <==>
               exists b :: b in (set b | b in db && l.BucketKey(k) <= b) && l.deser(b[|l.BucketKey(k)|..]) == Some(t)
    ensures IsBucket(l, db, k, found)
  {
    forall t
      ensures t in found <==> l.EntryKey(k, t) in db
    {
      PrefixOfEntry(l, k, t);
      var e := l.EntryKey(k, t);
      assert e[|l.BucketKey(k)|..] == l.ser(t);
      if t in found {
        var b :| b in (set b | b in db && l.BucketKey(k) <= b) && l.deser(b[|l.BucketKey(k)|..]) == Some(t);
        ScanIsolated(l, db, k, b);
      }
      if e in db {
        assert e in (set b | b in db && l.BucketKey(k) <= b);
        assert l.deser(l.ser(t)) == Some(t);
      }
    }
  }
}
