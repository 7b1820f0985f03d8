/** Mass-bounded chunking of transaction batches in the mining manager. */
module Chunking {
  import opened Basics

  datatype Masses = Masses(compute: nat, transient: nat)

  /** A transaction, as far as chunking looks at it: its masses are unknown until they have been calculated. */
  datatype Tx = Tx(masses: Option<Masses>)

  /** The larger of the two masses, 0 while they are unknown. */
  function MassOf(tx: Tx): (m: nat)
    ensures tx.masses.None? ==> m == 0
    ensures tx.masses.Some? ==> m >= tx.masses.value.compute && m >= tx.masses.value.transient
    ensures tx.masses.Some? ==> m in {tx.masses.value.compute, tx.masses.value.transient}
  {
    match tx.masses
    case None => 0
    case Some(m) => if m.compute >= m.transient then m.compute else m.transient
  }

  function Mass(txs: seq<Tx>): (m: nat)
  {
    if txs == [] then 0 else Mass(txs[..|txs| - 1]) + MassOf(txs[|txs| - 1])
  }

  function Between(txs: seq<Tx>, lower: nat, upper: nat): (m: nat)
    requires lower <= upper <= |txs|
  {
    Mass(txs[lower..upper])
  }

  lemma BetweenGrows(txs: seq<Tx>, lower: nat, upper: nat)
    requires lower <= upper < |txs|
    ensures Between(txs, lower, upper + 1) == Between(txs, lower, upper) + MassOf(txs[upper])
  {
    var s := txs[lower..upper + 1];
    assert s[..|s| - 1] == txs[lower..upper] && s[|s| - 1] == txs[upper];
  }

  lemma {:induction false} BetweenWidens(txs: seq<Tx>, a: nat, lower: nat, upper: nat, b: nat)
    requires a <= lower <= upper <= b <= |txs|
    ensures Between(txs, lower, upper) <= Between(txs, a, b)
    decreases lower - a + (b - upper)
  {
    if upper < b {
      BetweenWidens(txs, a, lower, upper, b - 1);
      BetweenGrows(txs, a, b - 1);
    } else if a < lower {
      FrontWidens(txs, a, lower, b);
    }
  }

  lemma {:induction false} FrontWidens(txs: seq<Tx>, a: nat, lower: nat, b: nat)
    requires a <= lower <= b <= |txs|
    ensures Between(txs, lower, b) <= Between(txs, a, b)
    decreases b - lower
  {
    if lower < b {
      FrontWidens(txs, a, lower, b - 1);
      BetweenGrows(txs, lower, b - 1);
      BetweenGrows(txs, a, b - 1);
    }
  }

  /** A chunk that may be validated at once: below the mass limit, or a single transaction. */
  predicate Admissible(txs: seq<Tx>, limit: nat, lower: nat, upper: nat)
  {
    lower < upper <= |txs| && (Between(txs, lower, upper) < limit || upper == lower + 1)
  }

  /** An admissible chunk that reaches the end of the list or cannot take the next transaction within the limit. */
  predicate Greedy(txs: seq<Tx>, limit: nat, lower: nat, upper: nat)
  {
    Admissible(txs, limit, lower, upper) && (upper < |txs| ==> Between(txs, lower, upper + 1) >= limit)
  }

  /** At most one end makes a chunk greedy. */
  lemma GreedyUnique(txs: seq<Tx>, limit: nat, lower: nat, u: nat, v: nat)
    requires Greedy(txs, limit, lower, u) && Greedy(txs, limit, lower, v)
    ensures u == v
  {
    if u < v {
      BetweenWidens(txs, lower, lower, u + 1, v);
    } else if v < u {
      BetweenWidens(txs, lower, lower, v + 1, u);
    }
  }

  /** `next_transaction_chunk_upper_bound`: a chunk from `lower` while transactions remain. */
  method NextChunkUpperBound(txs: seq<Tx>, lower: nat, limit: nat) returns (r: Option<nat>)
    ensures r.None? <==> lower >= |txs|
    ensures r.Some? ==> Greedy(txs, limit, lower, r.value)
  {
    if lower >= |txs| {
      return None;
    }
    var mass := 0;
    var position := lower;
    while position < |txs|
      invariant lower <= position <= |txs| && mass == Between(txs, lower, position)
      invariant mass < limit || position == lower
    {
      BetweenGrows(txs, lower, position);
      mass := mass + MassOf(txs[position]);
      if mass >= limit {
        if position == lower {
          if lower + 1 < |txs| {
            BetweenGrows(txs, lower, lower + 1);
          }
          return Some(lower + 1);
        }
        return Some(position);
      }
      position := position + 1;
    }
    return Some(|txs|);
  }

  /** Chunk bounds from the start of the list to `end`. */
  ghost predicate Covers(txs: seq<Tx>, limit: nat, bounds: seq<nat>, end: nat, greedy: bool)
  {
    && |bounds| > 0 && bounds[0] == 0 && bounds[|bounds| - 1] == end <= |txs|
    && forall k :: 0 <= k < |bounds| - 1 ==> ChunkOk(txs, limit, bounds[k], bounds[k + 1], greedy)
  }

  ghost predicate ChunkOk(txs: seq<Tx>, limit: nat, lower: nat, upper: nat, greedy: bool)
  {
    if greedy then Greedy(txs, limit, lower, upper) else Admissible(txs, limit, lower, upper)
  }

  /** Position by position, the results of each chunk are the results of validating that chunk. */
  ghost predicate Matches<R>(txs: seq<Tx>, bounds: seq<nat>, validate: seq<Tx> -> seq<R>, results: seq<R>)
  {
    forall k :: 0 <= k < |bounds| - 1 ==> ChunkMatches(txs, bounds[k], bounds[k + 1], validate, results)
  }

  ghost predicate ChunkMatches<R>(txs: seq<Tx>, lower: nat, upper: nat, validate: seq<Tx> -> seq<R>, results: seq<R>)
  {
    lower <= upper <= |txs| && upper <= |results| && results[lower..upper] == validate(txs[lower..upper])
  }

  /** The loop of the three callers: every transaction gets one result, in order, chunk by chunk. */
  method ValidateInChunks<R>(txs: seq<Tx>, limit: nat, validate: seq<Tx> -> seq<R>)
    returns (results: seq<R>, ghost bounds: seq<nat>)
    requires forall s :: |validate(s)| == |s|
    ensures |results| == |txs|
    ensures Covers(txs, limit, bounds, |txs|, true) && Matches(txs, bounds, validate, results)
  {
    var lower := 0;
    results, bounds := [], [0];
    var next := NextChunkUpperBound(txs, lower, limit);
    while next.Some?
      invariant next.None? <==> lower >= |txs|
      invariant next.Some? ==> Greedy(txs, limit, lower, next.value)
      invariant lower == |results| <= |txs|
      invariant Covers(txs, limit, bounds, lower, true) && Matches(txs, bounds, validate, results)
      decreases |txs| - lower
    {
      var upper := next.value;
      assert lower < upper;
      ghost var before := results;
      results := results + validate(txs[lower..upper]);
      Extended(txs, limit, bounds, validate, before, upper);
      bounds := bounds + [upper];
      lower := upper;
      next := NextChunkUpperBound(txs, lower, limit);
    }
  }

  lemma Extended<R>(txs: seq<Tx>, limit: nat, bounds: seq<nat>, validate: seq<Tx> -> seq<R>, results: seq<R>,
                    upper: nat)
    requires Covers(txs, limit, bounds, |results|, true) && Matches(txs, bounds, validate, results)
    requires Greedy(txs, limit, |results|, upper) && |validate(txs[|results|..upper])| == upper - |results|
    ensures var next := results + validate(txs[|results|..upper]);
            Covers(txs, limit, bounds + [upper], upper, true) && Matches(txs, bounds + [upper], validate, next)
  {
    var lower := |results|;
    var next := results + validate(txs[lower..upper]);
    var more := bounds + [upper];
    forall k | 0 <= k < |more| - 1
      ensures ChunkOk(txs, limit, more[k], more[k + 1], true)
      ensures ChunkMatches(txs, more[k], more[k + 1], validate, next)
    {
      if k == |bounds| - 1 {
        assert next[lower..upper] == validate(txs[lower..upper]);
      } else {
        assert more[k] == bounds[k] && more[k + 1] == bounds[k + 1];
        assert ChunkMatches(txs, bounds[k], bounds[k + 1], validate, results);
        assert next[bounds[k]..bounds[k + 1]] == results[bounds[k]..bounds[k + 1]];
      }
    }
  }

  /** Every position lies in exactly one chunk. */
  lemma {:induction false} CoveredOnce(txs: seq<Tx>, limit: nat, bounds: seq<nat>, end: nat, greedy: bool, i: nat)
    returns (k: nat)
    requires Covers(txs, limit, bounds, end, greedy) && i < end
    ensures k + 1 < |bounds| && bounds[k] <= i < bounds[k + 1]
    ensures forall j :: 0 <= j < |bounds| - 1 && bounds[j] <= i < bounds[j + 1] ==> j == k
  {
    k := 0;
    while bounds[k + 1] <= i
      invariant k + 1 < |bounds| && bounds[k] <= i
      decreases |bounds| - k
    {
      assert ChunkOk(txs, limit, bounds[k], bounds[k + 1], greedy);
      k := k + 1;
    }
    forall j | 0 <= j < |bounds| - 1 && bounds[j] <= i < bounds[j + 1]
      ensures j == k
    {
      Increasing(txs, limit, bounds, end, greedy, j, k);
      Increasing(txs, limit, bounds, end, greedy, k, j);
    }
  }

  lemma {:induction false} Increasing(txs: seq<Tx>, limit: nat, bounds: seq<nat>, end: nat, greedy: bool, j: nat,
                                      k: nat)
    requires Covers(txs, limit, bounds, end, greedy) && j < |bounds| - 1 && k < |bounds| - 1
    ensures j < k ==> bounds[j + 1] <= bounds[k]
  {
    if j + 1 < k {
      Increasing(txs, limit, bounds, end, greedy, j, k - 1);
      assert ChunkOk(txs, limit, bounds[k - 1], bounds[k - 1 + 1], greedy);
    }
  }

  // ---- The greedy chunks are the fewest ------------------------------------------------------------------------

  lemma {:induction false} StaysAhead(txs: seq<Tx>, limit: nat, g: seq<nat>, p: seq<nat>, k: nat)
    requires Covers(txs, limit, g, |txs|, true) && Covers(txs, limit, p, |txs|, false) && k < |g| && k < |p|
    ensures p[k] <= g[k]
  {
    if k > 0 {
      var j := k - 1;
      StaysAhead(txs, limit, g, p, j);
      assert ChunkOk(txs, limit, g[j], g[j + 1], true) && ChunkOk(txs, limit, p[j], p[j + 1], false);
      if g[k] < p[k] {
        BetweenWidens(txs, p[j], g[j], g[k] + 1, p[k]);
      }
    }
  }

  /** No way of cutting the list into admissible chunks uses fewer chunks than the loop. */
  lemma FewestChunks(txs: seq<Tx>, limit: nat, g: seq<nat>, p: seq<nat>)
    requires Covers(txs, limit, g, |txs|, true) && Covers(txs, limit, p, |txs|, false)
    ensures |g| <= |p|
  {
    var k := |p| - 1;
    if |g| > |p| {
      assert ChunkOk(txs, limit, g[k], g[k + 1], true);
      StaysAhead(txs, limit, g, p, k);
      assert false;
    }
  }
}
