/** `CachedDbAccess`: a typed store whose cache must agree with the database, written directly or through a batch. */
module DbAccess {
  import opened Basics
  import opened Database
  import opened CacheStore

  // ---- Keys and values -----------------------------------------------------------------------------

  /** How a store lays out its keys and values: prefix bytes, key bytes, serializer and deserializer. */
  datatype Layout<!K, !V> = Layout(prefix: Bytes, keyBytes: K -> Bytes, ser: V -> Bytes, deser: Bytes -> Option<V>)
  {
    /** `DbKey::new`. */
    function DbKey(k: K): (b: Bytes)
    {
      prefix + keyBytes(k)
    }
  }

  /** Keys are told apart by their bytes, values survive serialization, and the prefix has a range end. */
  ghost predicate Sound<K(!new), V(!new)>(l: Layout<K, V>)
  {
    && (forall j, k :: l.keyBytes(j) == l.keyBytes(k) ==> j == k)
    && (forall v :: l.deser(l.ser(v)) == Some(v))
    && NextPrefix(l.prefix).Some?
  }

  lemma DbKeyInjective<K(!new), V(!new)>(l: Layout<K, V>, j: K, k: K)
    requires Sound(l) && l.DbKey(j) == l.DbKey(k)
    ensures j == k
  {
    assert l.keyBytes(j) == l.DbKey(j)[|l.prefix|..];
    assert l.keyBytes(k) == l.DbKey(k)[|l.prefix|..];
  }

  datatype ReadResult<V> = Found(value: V) | KeyNotFound | Undecodable

  /** Reading the database without any cache. */
  function Fetch<K, V>(l: Layout<K, V>, db: Data, k: K): (r: ReadResult<V>)
  {
    match At(db, l.DbKey(k))
    case None => KeyNotFound
    case Some(bytes) => match l.deser(bytes) { case Some(v) => Found(v) case None => Undecodable }
  }

  // ---- Operations of the store as database operations --------------------------------------------------

  datatype Op<K, V> =
    | Read(k: K)
    | Has(k: K)
    | Write(w: Writer, k: K, v: V)
    | WriteMany(w: Writer, items: seq<(K, V)>)
    | WriteManyWithoutCache(w: Writer, items: seq<(K, V)>)
    | Remove(w: Writer, k: K)
    | RemoveMany(w: Writer, keys: seq<K>)
    | RemoveAll(w: Writer)
    | Foreign(w: Writer, op: WriteOp)
    | CommitBatch

  datatype Out<V> = ReadOut(r: ReadResult<V>) | HasOut(b: bool) | Done

  function PutOps<K, V>(l: Layout<K, V>, items: seq<(K, V)>): (ops: seq<WriteOp>)
    ensures |ops| == |items|
  {
    seq(|items|, i requires 0 <= i < |items| => Put(l.DbKey(items[i].0), l.ser(items[i].1)))
  }

  function DeleteOps<K, V>(l: Layout<K, V>, keys: seq<K>): (ops: seq<WriteOp>)
    ensures |ops| == |keys|
  {
    seq(|keys|, i requires 0 <= i < |keys| => Delete(l.DbKey(keys[i])))
  }

  /** The database operations a store operation issues, in order. */
  function Writes<K, V>(l: Layout<K, V>, op: Op<K, V>): (ops: seq<WriteOp>)
  {
    match op
    case Read(_) => []
    case Has(_) => []
    case Write(_, k, v) => [Put(l.DbKey(k), l.ser(v))]
    case WriteMany(_, items) => PutOps(l, items)
    case WriteManyWithoutCache(_, items) => PutOps(l, items)
    case Remove(_, k) => [Delete(l.DbKey(k))]
    case RemoveMany(_, keys) => DeleteOps(l, keys)
    case RemoveAll(_) => match NextPrefix(l.prefix) { case Some(to) => [DeleteRange(l.prefix, to)] case None => [] }
    case Foreign(_, o) => [o]
    case CommitBatch => []
  }

  predicate IsDirect<K, V>(op: Op<K, V>)
  {
    match op
    case Write(w, _, _) => w.Direct?
    case WriteMany(w, _) => w.Direct?
    case WriteManyWithoutCache(w, _) => w.Direct?
    case Remove(w, _) => w.Direct?
    case RemoveMany(w, _) => w.Direct?
    case RemoveAll(w) => w.Direct?
    case Foreign(w, _) => w.Direct?
    case _ => true
  }

  // ---- The cached store as a state machine ---------------------------------------------------------------

  datatype State<K, V> = State(cache: map<K, V>, db: Data, pending: seq<WriteOp>)

  /** What the database will hold once the pending batch is committed. */
  function Effective<K, V>(s: State<K, V>): (d: Data)
  {
    ApplyAll(s.db, s.pending)
  }

  /** The most the cache can hold afterwards; eviction may leave any part of it. */
  function CacheTarget<K, V>(l: Layout<K, V>, s: State<K, V>, op: Op<K, V>): (m: map<K, V>)
  {
    match op
    case Read(k) =>
      if k in s.cache then s.cache
      else (match Fetch(l, s.db, k) case Found(v) => s.cache[k := v] case _ => s.cache)
    case Write(_, k, v) => s.cache[k := v]
    case WriteMany(_, items) => CacheItems(s.cache, items)
    case WriteManyWithoutCache(_, _) => map[]
    case Remove(_, k) => s.cache - {k}
    case RemoveMany(_, keys) => s.cache - KeySet(keys)
    case RemoveAll(_) => map[]
    case _ => s.cache
  }

  function Output<K, V>(l: Layout<K, V>, s: State<K, V>, op: Op<K, V>): (o: Out<V>)
  {
    match op
    case Read(k) => ReadOut(if k in s.cache then Found(s.cache[k]) else Fetch(l, s.db, k))
    case Has(k) => HasOut(k in s.cache || l.DbKey(k) in s.db)
    case _ => Done
  }

  /** One call: any eviction allowed, writes go to the database or to the batch. */
  ghost predicate Step<K, V>(l: Layout<K, V>, s: State<K, V>, op: Op<K, V>, o: Out<V>, s': State<K, V>)
  {
    && SubMap(s'.cache, CacheTarget(l, s, op))
    && o == Output(l, s, op)
    && (if op.CommitBatch? then s'.db == Effective(s) && s'.pending == []
        else if IsDirect(op) then s'.db == ApplyAll(s.db, Writes(l, op)) && s'.pending == s.pending
        else s'.db == s.db && s'.pending == s.pending + Writes(l, op))
  }

  // ---- The uncached reference ------------------------------------------------------------------------------

  /** A store without cache and without batches: every write takes effect at once. */
  function RefDb<K, V>(l: Layout<K, V>, db: Data, op: Op<K, V>): (r: Data)
  {
    ApplyAll(db, Writes(l, op))
  }

  function RefOut<K, V>(l: Layout<K, V>, db: Data, op: Op<K, V>): (o: Out<V>)
  {
    match op
    case Read(k) => ReadOut(Fetch(l, db, k))
    case Has(k) => HasOut(l.DbKey(k) in db)
    case _ => Done
  }

  // ---- Coherence -------------------------------------------------------------------------------------------

  /** Every cached entry is what the database will hold after the pending batch. */
  ghost predicate Coherent<K(!new), V(!new)>(l: Layout<K, V>, s: State<K, V>)
  {
    forall k :: k in s.cache ==> Fetch(l, Effective(s), k) == Found(s.cache[k])
  }

  /**
   * The pending batch does not change what a read of the key returns: it does not touch the key, it last puts bytes
   * that decode like those already stored, or it last deletes a key that is not stored.
   */
  ghost predicate BatchKeeps<K, V>(l: Layout<K, V>, db: Data, pending: seq<WriteOp>, k: K)
  {
    var b := l.DbKey(k);
    match LastAffecting(pending, b)
    case None => true
    case Some(Put(_, v)) => b in db && l.deser(v) == l.deser(db[b])
    case Some(_) => b !in db
  }

  /** The pending batch leaves the key stored or not stored as it is. */
  ghost predicate BatchKeepsKey<K, V>(l: Layout<K, V>, db: Data, pending: seq<WriteOp>, k: K)
  {
    var last := LastAffecting(pending, l.DbKey(k));
    last.None? || (last.value.Put? <==> l.DbKey(k) in db)
  }

  lemma KeepsExactly<K(!new), V(!new)>(l: Layout<K, V>, s: State<K, V>, k: K)
    ensures Fetch(l, s.db, k) == Fetch(l, Effective(s), k) <==> BatchKeeps(l, s.db, s.pending, k)
    ensures (l.DbKey(k) in s.db <==> l.DbKey(k) in Effective(s)) <==> BatchKeepsKey(l, s.db, s.pending, k)
  {
    LastDecides(s.db, s.pending, l.DbKey(k));
  }

  /** What a caller must respect for its answers while a batch is pending: ask for keys that are cached or kept. */
  ghost predicate AsksKept<K(!new), V(!new)>(l: Layout<K, V>, s: State<K, V>, op: Op<K, V>)
  {
    match op
    case Read(k) => k in s.cache || BatchKeeps(l, s.db, s.pending, k)
    case Has(k) => k in s.cache || BatchKeepsKey(l, s.db, s.pending, k)
    case _ => true
  }

  /** And for the data: what a direct call writes where the batch writes too, it leaves as the batch does. */
  ghost predicate WritesAgree<K(!new), V(!new)>(l: Layout<K, V>, s: State<K, V>, op: Op<K, V>)
  {
    IsDirect(op) ==> forall b :: SameLast(Writes(l, op), s.pending, b)
  }

  ghost predicate Disciplined<K(!new), V(!new)>(l: Layout<K, V>, s: State<K, V>, op: Op<K, V>)
  {
    AsksKept(l, s, op) && WritesAgree(l, s, op)
  }

  /** Other stores stay outside this store's keys. */
  ghost predicate Outside<K(!new), V(!new)>(l: Layout<K, V>, op: Op<K, V>)
  {
    op.Foreign? ==> forall k :: !Affects(op.op, l.DbKey(k))
  }

  /** The effective database moves as the uncached one does exactly when direct writes agree with the batch. */
  lemma EffectiveStep<K(!new), V(!new)>(l: Layout<K, V>, s: State<K, V>, op: Op<K, V>, o: Out<V>, s': State<K, V>)
    requires Step(l, s, op, o, s')
    ensures Effective(s') == RefDb(l, Effective(s), op) <==> WritesAgree(l, s, op)
  {
    if op.CommitBatch? {
    } else if IsDirect(op) {
      DirectCommutes(s.db, Writes(l, op), s.pending);
    } else {
      ApplyConcat(s.db, s.pending, Writes(l, op));
    }
  }

  /** The answer is that of the uncached store exactly when the call asks for what is cached or kept. */
  lemma OutputExact<K(!new), V(!new)>(l: Layout<K, V>, s: State<K, V>, op: Op<K, V>, o: Out<V>, s': State<K, V>)
    requires Step(l, s, op, o, s') && Coherent(l, s)
    ensures o == RefOut(l, Effective(s), op) <==> AsksKept(l, s, op)
  {
    match op
    case Read(k) => KeepsExactly(l, s, k);
    case Has(k) =>
      KeepsExactly(l, s, k);
      if k in s.cache {
        assert Fetch(l, Effective(s), k) == Found(s.cache[k]);
      }
    case _ =>
  }

  /** One call of a coherent store behaves like the uncached store exactly when it is disciplined. */
  lemma StepExactly<K(!new), V(!new)>(l: Layout<K, V>, s: State<K, V>, op: Op<K, V>, o: Out<V>, s': State<K, V>)
    requires Step(l, s, op, o, s') && Coherent(l, s)
    ensures Effective(s') == RefDb(l, Effective(s), op) && o == RefOut(l, Effective(s), op) <==> Disciplined(l, s, op)
  {
    EffectiveStep(l, s, op, o, s');
    OutputExact(l, s, op, o, s');
  }

  // ---- What each operation means -------------------------------------------------------------------------------

  /** The value of the last item for the key. */
  ghost function LastItem<K, V>(items: seq<(K, V)>, j: K): (r: Option<V>)
  {
    if |items| == 0 then None
    else
      var last := items[|items| - 1];
      if last.0 == j then Some(last.1) else LastItem(items[..|items| - 1], j)
  }

  lemma PutMeans<K(!new), V(!new)>(l: Layout<K, V>, db: Data, k: K, v: V, j: K)
    requires Sound(l)
    ensures Fetch(l, Apply(db, Put(l.DbKey(k), l.ser(v))), j) == if j == k then Found(v) else Fetch(l, db, j)
  {
    assert l.deser(l.ser(v)) == Some(v);
    if l.DbKey(j) == l.DbKey(k) {
      DbKeyInjective(l, j, k);
    }
  }

  lemma {:induction false} PutManyMeans<K(!new), V(!new)>(l: Layout<K, V>, db: Data, items: seq<(K, V)>, j: K)
    requires Sound(l)
    ensures Fetch(l, ApplyAll(db, PutOps(l, items)), j) ==
            match LastItem(items, j) case Some(v) => Found(v) case None => Fetch(l, db, j)
  {
    if |items| != 0 {
      var init, last := items[..|items| - 1], items[|items| - 1];
      PutManyMeans(l, db, init, j);
      assert PutOps(l, items)[..|items| - 1] == PutOps(l, init);
      PutMeans(l, ApplyAll(db, PutOps(l, init)), last.0, last.1, j);
    }
  }

  lemma {:induction false} DeleteManyMeans<K(!new), V(!new)>(l: Layout<K, V>, db: Data, keys: seq<K>, j: K)
    requires Sound(l)
    ensures Fetch(l, ApplyAll(db, DeleteOps(l, keys)), j) == if j in keys then KeyNotFound else Fetch(l, db, j)
  {
    if |keys| != 0 {
      var init, last := keys[..|keys| - 1], keys[|keys| - 1];
      DeleteManyMeans(l, db, init, j);
      assert DeleteOps(l, keys)[..|keys| - 1] == DeleteOps(l, init);
      assert keys == init + [last];
      if l.DbKey(j) == l.DbKey(last) {
        DbKeyInjective(l, j, last);
      }
    }
  }

  lemma RemoveAllMeans<K(!new), V(!new)>(l: Layout<K, V>, db: Data, to: Bytes, j: K)
    requires NextPrefix(l.prefix) == Some(to)
    ensures Fetch(l, Apply(db, DeleteRange(l.prefix, to)), j) == KeyNotFound
  {
    PrefixDeleted(db, l.prefix, to);
    assert l.prefix <= l.DbKey(j);
  }

  /** What reads of the uncached store return after each operation, for every key. */
  lemma FetchAfter<K(!new), V(!new)>(l: Layout<K, V>, db: Data, op: Op<K, V>, j: K)
    requires Sound(l) && Outside(l, op)
    ensures Fetch(l, RefDb(l, db, op), j) ==
            match op
            case Write(_, k, v) => if j == k then Found(v) else Fetch(l, db, j)
            case WriteMany(_, items) =>
              (match LastItem(items, j) case Some(v) => Found(v) case None => Fetch(l, db, j))
            case WriteManyWithoutCache(_, items) =>
              (match LastItem(items, j) case Some(v) => Found(v) case None => Fetch(l, db, j))
            case Remove(_, k) => if j == k then KeyNotFound else Fetch(l, db, j)
            case RemoveMany(_, keys) => if j in keys then KeyNotFound else Fetch(l, db, j)
            case RemoveAll(_) => KeyNotFound
            case _ => Fetch(l, db, j)
  {
    match op
    case Write(_, k, v) =>
      PutMeans(l, db, k, v, j);
      ApplySnoc(db, [], Put(l.DbKey(k), l.ser(v)));
    case WriteMany(_, items) => PutManyMeans(l, db, items, j);
    case WriteManyWithoutCache(_, items) => PutManyMeans(l, db, items, j);
    case Remove(_, k) =>
      DeleteManyMeans(l, db, [k], j);
      assert DeleteOps(l, [k]) == Writes(l, op);
    case RemoveMany(_, keys) => DeleteManyMeans(l, db, keys, j);
    case RemoveAll(_) =>
      RemoveAllMeans(l, db, NextPrefix(l.prefix).value, j);
      ApplySnoc(db, [], DeleteRange(l.prefix, NextPrefix(l.prefix).value));
    case Foreign(_, o) => ApplySnoc(db, [], o);
    case _ =>
  }

  /** The store as its caller sees it: a plain map. */
  ghost predicate Models<K(!new), V(!new)>(l: Layout<K, V>, db: Data, m: map<K, V>)
  {
    forall k :: Fetch(l, db, k) == if k in m then Found(m[k]) else KeyNotFound
  }

  ghost function MapAfter<K, V>(m: map<K, V>, op: Op<K, V>): (r: map<K, V>)
  {
    match op
    case Write(_, k, v) => m[k := v]
    case WriteMany(_, items) => CacheItems(m, items)
    case WriteManyWithoutCache(_, items) => CacheItems(m, items)
    case Remove(_, k) => m - {k}
    case RemoveMany(_, keys) => m - KeySet(keys)
    case RemoveAll(_) => map[]
    case _ => m
  }

  lemma {:induction false} ItemsAt<K, V>(m: map<K, V>, items: seq<(K, V)>, j: K)
    ensures var r := CacheItems(m, items);
            match LastItem(items, j)
            case Some(v) => j in r && r[j] == v
            case None => (j in r <==> j in m) && (j in m ==> r[j] == m[j])
  {
    if |items| != 0 {
      ItemsAt(m, items[..|items| - 1], j);
    }
  }

  lemma ModelsStep<K(!new), V(!new)>(l: Layout<K, V>, db: Data, m: map<K, V>, op: Op<K, V>)
    requires Sound(l) && Outside(l, op) && Models(l, db, m)
    ensures Models(l, RefDb(l, db, op), MapAfter(m, op))
  {
    var db', m' := RefDb(l, db, op), MapAfter(m, op);
    forall k
      ensures Fetch(l, db', k) == if k in m' then Found(m'[k]) else KeyNotFound
    {
      FetchAfter(l, db, op, k);
      if op.WriteMany? || op.WriteManyWithoutCache? {
        ItemsAt(m, op.items, k);
      }
    }
  }

  // ---- Each operation keeps coherence ----------------------------------------------------------------------

  ghost predicate CoherentWith<K(!new), V(!new)>(l: Layout<K, V>, cache: map<K, V>, db: Data)
  {
    forall k :: k in cache ==> Fetch(l, db, k) == Found(cache[k])
  }

  lemma PutKeeps<K(!new), V(!new)>(l: Layout<K, V>, cache: map<K, V>, db: Data, k: K, v: V)
    requires Sound(l) && CoherentWith(l, cache, db)
    ensures CoherentWith(l, cache[k := v], Apply(db, Put(l.DbKey(k), l.ser(v))))
  {
    var db' := Apply(db, Put(l.DbKey(k), l.ser(v)));
    forall j | j in cache[k := v]
      ensures Fetch(l, db', j) == Found(cache[k := v][j])
    {
      if j == k {
        assert l.deser(l.ser(v)) == Some(v);
      } else if l.DbKey(j) == l.DbKey(k) {
        DbKeyInjective(l, j, k);
        assert false;
      }
    }
  }

  lemma {:induction false} PutManyKeeps<K(!new), V(!new)>(l: Layout<K, V>, cache: map<K, V>, db: Data,
                                                          items: seq<(K, V)>)
    requires Sound(l) && CoherentWith(l, cache, db)
    ensures CoherentWith(l, CacheItems(cache, items), ApplyAll(db, PutOps(l, items)))
  {
    if |items| != 0 {
      var init, last := items[..|items| - 1], items[|items| - 1];
      PutManyKeeps(l, cache, db, init);
      assert PutOps(l, items)[..|items| - 1] == PutOps(l, init);
      PutKeeps(l, CacheItems(cache, init), ApplyAll(db, PutOps(l, init)), last.0, last.1);
    }
  }

  lemma {:induction false} DeleteManyKeeps<K(!new), V(!new)>(l: Layout<K, V>, cache: map<K, V>, db: Data, keys: seq<K>)
    requires Sound(l) && CoherentWith(l, cache, db)
    ensures CoherentWith(l, cache - KeySet(keys), ApplyAll(db, DeleteOps(l, keys)))
  {
    var cache', ops := cache - KeySet(keys), DeleteOps(l, keys);
    forall j | j in cache'
      ensures Fetch(l, ApplyAll(db, ops), j) == Found(cache'[j])
    {
      if Touches(ops, l.DbKey(j)) {
        var i :| 0 <= i < |ops| && Affects(ops[i], l.DbKey(j));
        DbKeyInjective(l, keys[i], j);
        assert false;
      }
      Untouched(db, ops, l.DbKey(j));
    }
  }

  lemma ForeignKeeps<K(!new), V(!new)>(l: Layout<K, V>, cache: map<K, V>, db: Data, op: WriteOp)
    requires CoherentWith(l, cache, db) && forall k :: !Affects(op, l.DbKey(k))
    ensures CoherentWith(l, cache, Apply(db, op))
  {
    forall j | j in cache
      ensures Fetch(l, Apply(db, op), j) == Found(cache[j])
    {
      assert !Affects(op, l.DbKey(j));
    }
  }

  lemma TargetCoherent<K(!new), V(!new)>(l: Layout<K, V>, s: State<K, V>, op: Op<K, V>)
    requires Sound(l) && AsksKept(l, s, op) && Outside(l, op) && Coherent(l, s)
    ensures CoherentWith(l, CacheTarget(l, s, op), RefDb(l, Effective(s), op))
  {
    var db := Effective(s);
    match op
    case Read(k) =>
      KeepsExactly(l, s, k);
    case Has(_) =>
    case Write(_, k, v) =>
      PutKeeps(l, s.cache, db, k, v);
      ApplySnoc(db, [], Put(l.DbKey(k), l.ser(v)));
    case WriteMany(_, items) => PutManyKeeps(l, s.cache, db, items);
    case WriteManyWithoutCache(_, _) =>
    case Remove(_, k) =>
      DeleteManyKeeps(l, s.cache, db, [k]);
      assert DeleteOps(l, [k]) == Writes(l, op);
      assert KeySet([k]) == {k};
    case RemoveMany(_, keys) => DeleteManyKeeps(l, s.cache, db, keys);
    case RemoveAll(_) =>
    case Foreign(_, o) =>
      ForeignKeeps(l, s.cache, db, o);
      ApplySnoc(db, [], o);
    case CommitBatch =>
  }

  /** One disciplined call: same answer as the uncached store, same effective data, and coherence again. */
  lemma StepCoherent<K(!new), V(!new)>(l: Layout<K, V>, s: State<K, V>, op: Op<K, V>, o: Out<V>, s': State<K, V>)
    requires Sound(l) && Step(l, s, op, o, s') && Disciplined(l, s, op) && Outside(l, op) && Coherent(l, s)
    ensures Coherent(l, s')
    ensures Effective(s') == RefDb(l, Effective(s), op) && o == RefOut(l, Effective(s), op)
  {
    StepExactly(l, s, op, o, s');
    TargetCoherent(l, s, op);
  }

  // ---- Whole runs ------------------------------------------------------------------------------------------

  /** A run: states, the calls between them and their answers, every call disciplined. */
  ghost predicate IsRun<K(!new), V(!new)>(l: Layout<K, V>, ss: seq<State<K, V>>, ops: seq<Op<K, V>>, os: seq<Out<V>>)
  {
    && |ss| == |ops| + 1 && |os| == |ops|
    && (forall i :: 0 <= i < |ops| ==> Step(l, ss[i], ops[i], os[i], ss[i + 1]))
    && (forall i :: 0 <= i < |ops| ==> Disciplined(l, ss[i], ops[i]) && Outside(l, ops[i]))
  }

  function RefRun<K, V>(l: Layout<K, V>, db: Data, ops: seq<Op<K, V>>): (r: Data)
  {
    if |ops| == 0 then db else RefDb(l, RefRun(l, db, ops[..|ops| - 1]), ops[|ops| - 1])
  }

  /**
   * In every disciplined run that starts coherent, whatever is evicted and however calls use the writers, each state is
   * coherent, its effective data is the uncached store's, and each answer is the uncached store's answer.
   */
  lemma {:induction false} RunCoherent<K(!new), V(!new)>(l: Layout<K, V>, ss: seq<State<K, V>>, ops: seq<Op<K, V>>,
                                                         os: seq<Out<V>>, n: nat)
    requires Sound(l) && IsRun(l, ss, ops, os) && Coherent(l, ss[0]) && n <= |ops|
    ensures Coherent(l, ss[n]) && Effective(ss[n]) == RefRun(l, Effective(ss[0]), ops[..n])
    ensures n < |ops| ==> os[n] == RefOut(l, RefRun(l, Effective(ss[0]), ops[..n]), ops[n])
  {
    if n != 0 {
      RunCoherent(l, ss, ops, os, n - 1);
      StepCoherent(l, ss[n - 1], ops[n - 1], os[n - 1], ss[n]);
      assert ops[..n][..n - 1] == ops[..n - 1];
    }
    if n < |ops| {
      OutputExact(l, ss[n], ops[n], os[n], ss[n + 1]);
    }
  }

  /** With no batch pending, discipline asks nothing. */
  lemma DirectNeedsNoDiscipline<K(!new), V(!new)>(l: Layout<K, V>, s: State<K, V>, op: Op<K, V>)
    requires s.pending == []
    ensures Disciplined(l, s, op)
  {
  }

  lemma {:induction false} NothingPending<K(!new), V(!new)>(l: Layout<K, V>, ss: seq<State<K, V>>, ops: seq<Op<K, V>>,
                                                            os: seq<Out<V>>, n: nat)
    requires |ss| == |ops| + 1 && |os| == |ops| && n <= |ops| && ss[0].pending == []
    requires forall i :: 0 <= i < |ops| ==> Step(l, ss[i], ops[i], os[i], ss[i + 1]) && IsDirect(ops[i])
    ensures ss[n].pending == []
  {
    if n != 0 {
      NothingPending(l, ss, ops, os, n - 1);
      assert Step(l, ss[n - 1], ops[n - 1], os[n - 1], ss[n - 1 + 1]);
    }
  }

  /** Every run of direct calls is disciplined; so all its reads and tests answer as the uncached store does. */
  lemma DirectRun<K(!new), V(!new)>(l: Layout<K, V>, ss: seq<State<K, V>>, ops: seq<Op<K, V>>, os: seq<Out<V>>, n: nat)
    requires |ss| == |ops| + 1 && |os| == |ops| && n <= |ops| && ss[0].pending == []
    requires forall i :: 0 <= i < |ops| ==> Step(l, ss[i], ops[i], os[i], ss[i + 1]) && IsDirect(ops[i])
    requires Sound(l) && Coherent(l, ss[0]) && forall i :: 0 <= i < |ops| ==> Outside(l, ops[i])
    ensures IsRun(l, ss, ops, os)
    ensures forall k :: k in ss[n].cache ==> Fetch(l, ss[n].db, k) == Found(ss[n].cache[k])
    ensures ss[n].db == RefRun(l, ss[0].db, ops[..n])
    ensures n < |ops| ==> os[n] == RefOut(l, RefRun(l, ss[0].db, ops[..n]), ops[n])
  {
    forall i | 0 <= i < |ops|
      ensures Disciplined(l, ss[i], ops[i])
    {
      NothingPending(l, ss, ops, os, i);
      DirectNeedsNoDiscipline(l, ss[i], ops[i]);
    }
    NothingPending(l, ss, ops, os, n);
    RunCoherent(l, ss, ops, os, n);
  }

  ghost function MapRun<K, V>(m: map<K, V>, ops: seq<Op<K, V>>): (r: map<K, V>)
  {
    if |ops| == 0 then m else MapAfter(MapRun(m, ops[..|ops| - 1]), ops[|ops| - 1])
  }

  lemma {:induction false} RefRunIsMap<K(!new), V(!new)>(l: Layout<K, V>, db: Data, m: map<K, V>, ops: seq<Op<K, V>>)
    requires Sound(l) && Models(l, db, m) && forall i :: 0 <= i < |ops| ==> Outside(l, ops[i])
    ensures Models(l, RefRun(l, db, ops), MapRun(m, ops))
  {
    if |ops| != 0 {
      var n := |ops| - 1;
      RefRunIsMap(l, db, m, ops[..n]);
      ModelsStep(l, RefRun(l, db, ops[..n]), MapRun(m, ops[..n]), ops[n]);
    }
  }

  /** In every disciplined run, every read and every test answers as a plain map under the same operations would. */
  lemma RunIsMap<K(!new), V(!new)>(l: Layout<K, V>, ss: seq<State<K, V>>, ops: seq<Op<K, V>>, os: seq<Out<V>>,
                                   m: map<K, V>, n: nat)
    requires Sound(l) && IsRun(l, ss, ops, os) && Coherent(l, ss[0]) && Models(l, Effective(ss[0]), m) && n < |ops|
    ensures var now := MapRun(m, ops[..n]);
            match ops[n]
            case Read(k) => os[n] == ReadOut(if k in now then Found(now[k]) else KeyNotFound)
            case Has(k) => os[n] == HasOut(k in now)
            case _ => os[n] == Done
  {
    RunCoherent(l, ss, ops, os, n);
    assert forall i :: 0 <= i < n ==> ops[..n][i] == ops[i];
    RefRunIsMap(l, Effective(ss[0]), m, ops[..n]);
    var now, db := MapRun(m, ops[..n]), RefRun(l, Effective(ss[0]), ops[..n]);
    if ops[n].Has? {
      assert Fetch(l, db, ops[n].k) == if ops[n].k in now then Found(now[ops[n].k]) else KeyNotFound;
    }
  }

  /** Committing the batch leaves the cache in agreement with the database itself. */
  lemma CommitAgrees<K(!new), V(!new)>(l: Layout<K, V>, s: State<K, V>, o: Out<V>, s': State<K, V>)
    requires Sound(l) && Coherent(l, s) && Step(l, s, CommitBatch, o, s')
    ensures forall k :: k in s'.cache ==> Fetch(l, s'.db, k) == Found(s'.cache[k])
  {
    StepCoherent(l, s, CommitBatch, o, s');
  }

  // ---- Why the discipline is needed --------------------------------------------------------------------------

  /**
   * A read that misses is answered as by the uncached store exactly when the pending batch keeps the key. Its result
   * may be cached exactly then, or when there is nothing to cache because no stored bytes decode. A missing test for
   * the key is right exactly when the batch leaves it stored or not stored as it is.
   */
  lemma MissExactlyWhen<K(!new), V(!new)>(l: Layout<K, V>, s: State<K, V>, k: K)
    requires Coherent(l, s) && k !in s.cache
    ensures Output(l, s, Read(k)) == RefOut(l, Effective(s), Read(k)) <==> BatchKeeps(l, s.db, s.pending, k)
    ensures Coherent(l, State(CacheTarget(l, s, Read(k)), s.db, s.pending)) <==>
              BatchKeeps(l, s.db, s.pending, k) || l.DbKey(k) !in s.db || l.deser(s.db[l.DbKey(k)]).None?
    ensures Output(l, s, Has(k)) == RefOut(l, Effective(s), Has(k)) <==> BatchKeepsKey(l, s.db, s.pending, k)
  {
    KeepsExactly(l, s, k);
    var s1 := State(CacheTarget(l, s, Read(k)), s.db, s.pending);
    assert Effective(s1) == Effective(s);
    match Fetch(l, s.db, k) {
      case Found(v) =>
        assert s1.cache[k] == v;
        if Fetch(l, Effective(s), k) == Found(v) {
          forall j | j in s1.cache
            ensures Fetch(l, Effective(s1), j) == Found(s1.cache[j])
          {
            if j != k {
              assert j in s.cache;
            }
          }
        }
      case _ =>
    }
  }

  /**
   * Overwrite a stored value through a batch, lose the cached copy to eviction, read, commit: the read answers with the
   * old value, and after the commit the cache still holds the old value against the new one in the database.
   */
  lemma StaleRead<K(!new), V(!new)>(l: Layout<K, V>, db: Data, k: K, v1: V, v2: V)
    requires Sound(l) && v1 != v2 && Fetch(l, db, k) == Found(v1)
    ensures var s0 := State(map[], db, []);
            var s1 := State(map[], db, [Put(l.DbKey(k), l.ser(v2))]);
            var s2 := State(map[k := v1], db, s1.pending);
            var s3 := State(map[k := v1], Effective(s2), []);
            && Coherent(l, s0)
            && Step(l, s0, Write(Batched, k, v2), Done, s1)
            && Step(l, s1, Read(k), ReadOut(Found(v1)), s2)
            && Step(l, s2, CommitBatch, Done, s3)
            && Fetch(l, s3.db, k) == Found(v2) && s3.cache[k] == v1 && !Coherent(l, s3)
  {
    var put := Put(l.DbKey(k), l.ser(v2));
    var s2 := State(map[k := v1], db, [put]);
    var s3 := State(map[k := v1], Effective(s2), []);
    ApplySnoc(db, [], put);
    assert [] + [put] == [put];
    assert l.deser(l.ser(v2)) == Some(v2);
    assert k in s3.cache && Fetch(l, Effective(s3), k) == Found(v2);
  }

  /**
   * After a direct write past a pending batch, the cached value is what a commit will leave exactly when the batch does
   * not touch the key or last puts bytes that decode to the value.
   */
  lemma DirectWriteExactly<K(!new), V(!new)>(l: Layout<K, V>, s: State<K, V>, k: K, v: V)
    requires Sound(l) && Coherent(l, s)
    ensures Coherent(l, State(s.cache[k := v], Apply(s.db, Put(l.DbKey(k), l.ser(v))), s.pending)) <==>
              match LastAffecting(s.pending, l.DbKey(k))
              case None => true
              case Some(Put(_, w)) => l.deser(w) == Some(v)
              case Some(_) => false
  {
    var put := Put(l.DbKey(k), l.ser(v));
    var s1 := State(s.cache[k := v], Apply(s.db, put), s.pending);
    LastDecides(s1.db, s.pending, l.DbKey(k));
    assert l.deser(l.ser(v)) == Some(v);
    assert k in s1.cache && s1.cache[k] == v;
    forall j | j in s1.cache && j != k
      ensures Fetch(l, Effective(s1), j) == Found(s1.cache[j])
    {
      if l.DbKey(j) == l.DbKey(k) {
        DbKeyInjective(l, j, k);
        assert false;
      }
      assert j in s.cache;
      ApplyAllAt(s1.db, s.db, s.pending, l.DbKey(j));
    }
  }

  /** Write through a batch, write directly, commit: the cache keeps the direct value, the database gets the batch's. */
  lemma StaleWrite<K(!new), V(!new)>(l: Layout<K, V>, db: Data, k: K, v1: V, v2: V)
    requires Sound(l) && v1 != v2
    ensures var batched := Put(l.DbKey(k), l.ser(v1));
            var direct := Put(l.DbKey(k), l.ser(v2));
            var s0 := State(map[], db, []);
            var s1 := State(map[k := v1], db, [batched]);
            var s2 := State(map[k := v2], Apply(db, direct), [batched]);
            var s3 := State(map[k := v2], Effective(s2), []);
            && Coherent(l, s0)
            && Step(l, s0, Write(Batched, k, v1), Done, s1)
            && Step(l, s1, Write(Direct, k, v2), Done, s2)
            && Step(l, s2, CommitBatch, Done, s3)
            && Fetch(l, s3.db, k) == Found(v1) && s3.cache[k] == v2 && !Coherent(l, s3)
  {
    var batched, direct := Put(l.DbKey(k), l.ser(v1)), Put(l.DbKey(k), l.ser(v2));
    var db2 := Apply(db, direct);
    ApplySnoc(db, [], direct);
    ApplySnoc(db2, [], batched);
    assert [] + [batched] == [batched] && [] + [direct] == [direct];
    assert l.deser(l.ser(v1)) == Some(v1);
    var s3 := State(map[k := v2], ApplyAll(db2, [batched]), []);
    assert k in s3.cache && Fetch(l, Effective(s3), k) == Found(v1);
  }

  /** What a writer makes of a sequence of operations. */
  ghost predicate Wrote<K, V>(w: Writer, s: State<K, V>, ops: seq<WriteOp>, s': State<K, V>)
  {
    match w
    case Direct => s'.db == ApplyAll(s.db, ops) && s'.pending == s.pending
    case Batched => s'.db == s.db && s'.pending == s.pending + ops
  }

  lemma RemoveManyStep<K, V>(l: Layout<K, V>, s: State<K, V>, w: Writer, keys: seq<K>, s': State<K, V>)
    requires s'.cache == s.cache - KeySet(keys) && Wrote(w, s, DeleteOps(l, keys), s')
    ensures Step(l, s, Op.RemoveMany(w, keys), Done, s')
  {
  }

  lemma RemoveAllStep<K, V>(l: Layout<K, V>, s: State<K, V>, w: Writer, to: Bytes, s': State<K, V>)
    requires NextPrefix(l.prefix) == Some(to) && s'.cache == map[] && Wrote(w, s, [DeleteRange(l.prefix, to)], s')
    ensures Step(l, s, Op.RemoveAll(w), Done, s')
  {
  }

  // ---- The store itself --------------------------------------------------------------------------------------

  class CachedDbAccess<K(!new, ==), V(!new)> {
    const layout: Layout<K, V>
    const cache: Cache<K, V>
    const db: Db

    constructor (layout: Layout<K, V>, db: Db, policy: CachePolicy, size: V -> nat)
      ensures this.layout == layout && this.db == db && fresh(cache) && cache.Valid()
      ensures forall batch: WriteBatch :: Coherent(layout, St(batch))
    {
      this.layout, this.db := layout, db;
      cache := new Cache(policy, size);
    }

    /** The abstract state, with `batch` as the pending batch. */
    ghost function St(batch: WriteBatch): (s: State<K, V>)
      reads this, cache, db, batch
    {
      State(cache.entries, db.data, batch.ops)
    }

    method Read(k: K, ghost batch: WriteBatch) returns (r: ReadResult<V>)
      requires cache.Valid()
      modifies cache
      ensures cache.Valid()
      ensures Step(layout, old(St(batch)), Op.Read(k), ReadOut(r), St(batch))
    {
      if k in cache.entries {
        return Found(cache.entries[k]);
      }
      var dbKey := layout.DbKey(k);
      if dbKey !in db.data {
        return KeyNotFound;
      }
      match layout.deser(db.data[dbKey]) {
        case None => return Undecodable;
        case Some(v) =>
          cache.Insert(k, v);
          return Found(v);
      }
    }

    method Has(k: K, ghost batch: WriteBatch) returns (b: bool)
      ensures Step(layout, St(batch), Op.Has(k), HasOut(b), St(batch))
    {
      b := k in cache.entries || layout.DbKey(k) in db.data;
    }

    method Write(w: Writer, batch: WriteBatch, k: K, v: V)
      requires cache.Valid()
      modifies cache, db, batch
      ensures cache.Valid()
      ensures Step(layout, old(St(batch)), Op.Write(w, k, v), Done, St(batch))
    {
      cache.Insert(k, v);
      WriteTo(w, db, batch, Put(layout.DbKey(k), layout.ser(v)));
      ApplySnoc(old(db.data), [], Put(layout.DbKey(k), layout.ser(v)));
    }

    /** The loops that hand a sequence of operations to the writer. */
    method WriteAll(w: Writer, batch: WriteBatch, ops: seq<WriteOp>)
      modifies db, batch
      ensures w.Direct? ==> db.data == ApplyAll(old(db.data), ops) && batch.ops == old(batch.ops)
      ensures w.Batched? ==> db.data == old(db.data) && batch.ops == old(batch.ops) + ops
    {
      var i := 0;
      while i < |ops|
        invariant 0 <= i <= |ops|
        invariant w.Direct? ==> db.data == ApplyAll(old(db.data), ops[..i]) && batch.ops == old(batch.ops)
        invariant w.Batched? ==> db.data == old(db.data) && batch.ops == old(batch.ops) + ops[..i]
      {
        assert ops[..i + 1] == ops[..i] + [ops[i]];
        ApplySnoc(old(db.data), ops[..i], ops[i]);
        WriteTo(w, db, batch, ops[i]);
        i := i + 1;
      }
      assert ops[..i] == ops;
    }

    method WriteMany(w: Writer, batch: WriteBatch, items: seq<(K, V)>)
      requires cache.Valid()
      modifies cache, db, batch
      ensures cache.Valid()
      ensures Step(layout, old(St(batch)), Op.WriteMany(w, items), Done, St(batch))
    {
      cache.InsertMany(items);
      WriteAll(w, batch, PutOps(layout, items));
    }

    method WriteManyWithoutCache(w: Writer, batch: WriteBatch, items: seq<(K, V)>)
      requires cache.Valid()
      modifies cache, db, batch
      ensures cache.Valid()
      ensures Step(layout, old(St(batch)), Op.WriteManyWithoutCache(w, items), Done, St(batch))
    {
      WriteAll(w, batch, PutOps(layout, items));
      cache.RemoveAll();
    }

    method Delete(w: Writer, batch: WriteBatch, k: K)
      requires cache.Valid()
      modifies cache, db, batch
      ensures cache.Valid()
      ensures Step(layout, old(St(batch)), Op.Remove(w, k), Done, St(batch))
    {
      cache.Remove(k);
      WriteTo(w, db, batch, WriteOp.Delete(layout.DbKey(k)));
      ApplySnoc(old(db.data), [], WriteOp.Delete(layout.DbKey(k)));
    }

    method DeleteMany(w: Writer, batch: WriteBatch, keys: seq<K>)
      requires cache.Valid()
      modifies cache, db, batch
      ensures cache.Valid()
      ensures Step(layout, old(St(batch)), Op.RemoveMany(w, keys), Done, St(batch))
    {
      cache.RemoveMany(keys);
      WriteAll(w, batch, DeleteOps(layout, keys));
      RemoveManyStep(layout, old(St(batch)), w, keys, St(batch));
    }

    /** `delete_all`: the source unwraps both ends of the prefix range. */
    method DeleteAll(w: Writer, batch: WriteBatch)
      requires cache.Valid() && NextPrefix(layout.prefix).Some?
      modifies cache, db, batch
      ensures cache.Valid()
      ensures Step(layout, old(St(batch)), Op.RemoveAll(w), Done, St(batch))
      ensures w.Direct? ==> forall b :: At(db.data, b) == if layout.prefix <= b then None else At(old(db.data), b)
    {
      cache.RemoveAll();
      var to := NextPrefix(layout.prefix).value;
      WriteTo(w, db, batch, DeleteRange(layout.prefix, to));
      ApplySnoc(old(db.data), [], DeleteRange(layout.prefix, to));
      PrefixDeleted(old(db.data), layout.prefix, to);
      RemoveAllStep(layout, old(St(batch)), w, to, St(batch));
    }
  }
}
