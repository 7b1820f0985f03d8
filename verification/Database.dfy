/**
 * The key-value database under the stores: byte keys in lexicographic order, direct writes, and write batches
 * that take effect when committed.
 */
module Database {
  import opened Basics

  type Bytes = seq<byte>
  type Data = map<Bytes, Bytes>

  // ---- Key order and prefix ranges -----------------------------------------------------------------

  predicate LexLess(a: Bytes, b: Bytes)
  {
    if |b| == 0 then false
    else if |a| == 0 then true
    else a[0] < b[0] || (a[0] == b[0] && LexLess(a[1..], b[1..]))
  }

  predicate InRange(k: Bytes, from: Bytes, to: Bytes)
  {
    !LexLess(k, from) && LexLess(k, to)
  }

  /** The end of a prefix range: the least key above every key with that prefix, if there is one. */
  function NextPrefix(p: Bytes): (r: Option<Bytes>)
  {
    if |p| == 0 then None
    else match NextPrefix(p[1..])
         case Some(t) => Some([p[0]] + t)
         case None => if p[0] < 255 then Some([p[0] + 1]) else None
  }

  /** A prefix range holds exactly the keys with the prefix. */
  lemma {:induction false} PrefixRangeExact(p: Bytes, to: Bytes, k: Bytes)
    requires NextPrefix(p) == Some(to)
    ensures InRange(k, p, to) <==> p <= k
  {
    if |k| == 0 {
      assert p != [];
    } else {
      assert p == [p[0]] + p[1..] && k == [k[0]] + k[1..];
      assert p <= k <==> p[0] == k[0] && p[1..] <= k[1..];
      if NextPrefix(p[1..]).Some? {
        var t := NextPrefix(p[1..]).value;
        assert to[1..] == t;
        PrefixRangeExact(p[1..], t, k[1..]);
      } else {
        assert to == [p[0] + 1] && to[1..] == [];
        AllMax(p[1..], k[1..]);
        assert !LexLess(k[1..], to[1..]);
        assert LexLess(k, to) <==> k[0] <= p[0];
      }
    }
  }

  /** Above a key of all-maximal bytes there are only its extensions. */
  lemma {:induction false} AllMax(p: Bytes, k: Bytes)
    requires NextPrefix(p) == None
    ensures !LexLess(k, p) <==> p <= k
  {
    if |p| != 0 {
      assert p == [p[0]] + p[1..];
      if |k| != 0 {
        assert k == [k[0]] + k[1..];
        AllMax(p[1..], k[1..]);
      }
    }
  }

  // ---- Write operations ----------------------------------------------------------------------------

  datatype WriteOp = Put(key: Bytes, value: Bytes) | Delete(key: Bytes) | DeleteRange(from: Bytes, to: Bytes)

  function Apply(db: Data, op: WriteOp): (r: Data)
  {
    match op
    case Put(k, v) => db[k := v]
    case Delete(k) => db - {k}
    case DeleteRange(from, to) => map k | k in db && !InRange(k, from, to) :: db[k]
  }

  function ApplyAll(db: Data, ops: seq<WriteOp>): (r: Data)
  {
    if |ops| == 0 then db else Apply(ApplyAll(db, ops[..|ops| - 1]), ops[|ops| - 1])
  }

  /** The operation decides what is stored under `b`. */
  predicate Affects(op: WriteOp, b: Bytes)
  {
    match op
    case Put(k, _) => k == b
    case Delete(k) => k == b
    case DeleteRange(from, to) => InRange(b, from, to)
  }

  predicate Touches(ops: seq<WriteOp>, b: Bytes)
  {
    exists i :: 0 <= i < |ops| && Affects(ops[i], b)
  }

  function At(db: Data, b: Bytes): (r: Option<Bytes>)
  {
    if b in db then Some(db[b]) else None
  }

  lemma SameEverywhere(a: Data, b: Data)
    requires forall k :: At(a, k) == At(b, k)
    ensures a == b
  {
    forall k
      ensures k in a <==> k in b
    {
      assert At(a, k) == At(b, k);
    }
    forall k | k in a
      ensures a[k] == b[k]
    {
      assert At(a, k) == At(b, k);
    }
  }

  lemma ApplySnoc(db: Data, ops: seq<WriteOp>, op: WriteOp)
    ensures ApplyAll(db, ops + [op]) == Apply(ApplyAll(db, ops), op)
  {
    assert (ops + [op])[..|ops|] == ops;
  }

  lemma {:induction false} ApplyConcat(db: Data, a: seq<WriteOp>, b: seq<WriteOp>)
    ensures ApplyAll(db, a + b) == ApplyAll(ApplyAll(db, a), b)
    decreases |b|
  {
    if |b| == 0 {
      assert a + b == a;
    } else {
      var b', op := b[..|b| - 1], b[|b| - 1];
      ApplyConcat(db, a, b');
      assert a + b == (a + b') + [op];
      ApplySnoc(db, a + b', op);
    }
  }

  /** Operations leave alone what they do not affect. */
  lemma {:induction false} Untouched(db: Data, ops: seq<WriteOp>, b: Bytes)
    requires !Touches(ops, b)
    ensures At(ApplyAll(db, ops), b) == At(db, b)
  {
    if |ops| != 0 {
      var init, op := ops[..|ops| - 1], ops[|ops| - 1];
      assert !Affects(op, b);
      assert forall i :: 0 <= i < |init| ==> init[i] == ops[i];
      Untouched(db, init, b);
    }
  }

  /** The last operation that decides what is stored under `b`. */
  function LastAffecting(ops: seq<WriteOp>, b: Bytes): (r: Option<WriteOp>)
    ensures r.Some? ==> Affects(r.value, b)
    ensures r.None? <==> !Touches(ops, b)
  {
    if |ops| == 0 then None
    else
      var init, op := ops[..|ops| - 1], ops[|ops| - 1];
      assert forall i :: 0 <= i < |init| ==> init[i] == ops[i];
      if Affects(op, b) then Some(op) else LastAffecting(init, b)
  }

  /** What an operation leaves under the keys it affects. */
  function Left(op: WriteOp): (r: Option<Bytes>)
  {
    match op
    case Put(_, v) => Some(v)
    case _ => None
  }

  /** What a batch leaves under a key: what its last operation there leaves, or what was there before. */
  lemma {:induction false} LastDecides(db: Data, ops: seq<WriteOp>, b: Bytes)
    ensures At(ApplyAll(db, ops), b) == match LastAffecting(ops, b)
                                        case None => At(db, b)
                                        case Some(op) => Left(op)
  {
    if |ops| != 0 {
      LastDecides(db, ops[..|ops| - 1], b);
    }
  }

  /** What one operation leaves under a key depends only on what was there. */
  lemma ApplyAt(a: Data, b: Data, op: WriteOp, k: Bytes)
    requires At(a, k) == At(b, k) || Affects(op, k)
    ensures At(Apply(a, op), k) == At(Apply(b, op), k)
  {
  }

  lemma {:induction false} ApplyAllAt(a: Data, b: Data, ops: seq<WriteOp>, k: Bytes)
    requires At(a, k) == At(b, k)
    ensures At(ApplyAll(a, ops), k) == At(ApplyAll(b, ops), k)
  {
    if |ops| != 0 {
      ApplyAllAt(a, b, ops[..|ops| - 1], k);
      ApplyAt(ApplyAll(a, ops[..|ops| - 1]), ApplyAll(b, ops[..|ops| - 1]), ops[|ops| - 1], k);
    }
  }

  /** If both sequences affect the key, their last operations there leave the same. */
  ghost predicate SameLast(a: seq<WriteOp>, b: seq<WriteOp>, k: Bytes)
  {
    var x, y := LastAffecting(a, k), LastAffecting(b, k);
    x.Some? && y.Some? ==> Left(x.value) == Left(y.value)
  }

  /** Direct writes made before a pending batch is committed may as well have been made after it, exactly then. */
  lemma DirectCommutes(db: Data, ops: seq<WriteOp>, pending: seq<WriteOp>)
    ensures ApplyAll(ApplyAll(db, ops), pending) == ApplyAll(ApplyAll(db, pending), ops) <==>
              forall k :: SameLast(ops, pending, k)
  {
    var l, r := ApplyAll(ApplyAll(db, ops), pending), ApplyAll(ApplyAll(db, pending), ops);
    forall k
      ensures At(l, k) == At(r, k) <==> SameLast(ops, pending, k)
    {
      LastDecides(ApplyAll(db, ops), pending, k);
      LastDecides(db, ops, k);
      LastDecides(ApplyAll(db, pending), ops, k);
      LastDecides(db, pending, k);
    }
    if forall k :: SameLast(ops, pending, k) {
      SameEverywhere(l, r);
    }
  }

  /** Deleting a prefix range deletes the keys with the prefix and no others. */
  lemma PrefixDeleted(db: Data, p: Bytes, to: Bytes)
    requires NextPrefix(p) == Some(to)
    ensures var db' := Apply(db, DeleteRange(p, to));
            forall b :: At(db', b) == if p <= b then None else At(db, b)
  {
    var db' := Apply(db, DeleteRange(p, to));
    forall b
      ensures At(db', b) == if p <= b then None else At(db, b)
    {
      PrefixRangeExact(p, to, b);
    }
  }

  // ---- Objects -------------------------------------------------------------------------------------

  class Db {
    var data: Data
    constructor ()
      ensures data == map[]
    {
      data := map[];
    }
  }

  class WriteBatch {
    var ops: seq<WriteOp>
    constructor ()
      ensures ops == []
    {
      ops := [];
    }
  }

  datatype Writer = Direct | Batched

  /** `DbWriter`: the direct writer changes the database, the batch writer only records the operation. */
  method WriteTo(w: Writer, db: Db, batch: WriteBatch, op: WriteOp)
    modifies db, batch
    ensures w.Direct? ==> db.data == Apply(old(db.data), op) && batch.ops == old(batch.ops)
    ensures w.Batched? ==> db.data == old(db.data) && batch.ops == old(batch.ops) + [op]
  {
    match w {
      case Direct => db.data := Apply(db.data, op);
      case Batched => batch.ops := batch.ops + [op];
    }
  }

  /** `db.write(batch)`: all recorded operations, in order. */
  method Commit(db: Db, batch: WriteBatch)
    modifies db, batch
    ensures db.data == ApplyAll(old(db.data), old(batch.ops)) && batch.ops == []
  {
    var i := 0;
    ghost var d0 := db.data;
    assert batch.ops[..0] == [];
    while i < |batch.ops|
      modifies db
      invariant 0 <= i <= |batch.ops| && batch.ops == old(batch.ops)
      invariant db.data == ApplyAll(d0, batch.ops[..i])
    {
      assert batch.ops[..i + 1] == batch.ops[..i] + [batch.ops[i]];
      ApplySnoc(d0, batch.ops[..i], batch.ops[i]);
      db.data := Apply(db.data, batch.ops[i]);
      i := i + 1;
    }
    assert batch.ops[..i] == batch.ops;
    batch.ops := [];
  }
}
