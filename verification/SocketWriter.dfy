/** The socket writer and reader of a client context, interleaved with disconnection. */
module SocketWriter {
  import opened Basics

  datatype WriteResult = Written | Failed | TimedOut

  /** Where a `write_data` call stands; `a` is its attempt. */
  datatype Phase =
    | Start
    | Try(a: nat)
    | Locked(a: nat)
    | Holding(a: nat)
    | Back(a: nat, r: WriteResult)
    | Unlock(a: nat, r: WriteResult)
    | Empty
    | Decide(a: nat, r: WriteResult)
    | Sleep(a: nat)
    | Report
    | Returned(ok: bool)

  /** Where a `disconnect` call stands; `CloseEnd(true)` is the one that tore down. */
  datatype Stage = CloseStart | CloseWrite | CloseRead | CloseEnd(first: bool)

  /** Where one turn of the listener's loop stands: check the flag, take the read half, await a read, put it back. */
  datatype Turn = TurnStart | TurnTake | TurnReading | TurnEnd

  /**
   * A call in progress. `late` says that the flag was already set when it began; `writes` and `delivered` count the
   * writes it began and those that succeeded.
   */
  datatype Call =
    | Writer(phase: Phase, late: bool, writes: nat, delivered: nat)
    | Closer(stage: Stage)
    | Reader(turn: Turn, late: bool)

  /**
   * The shared fields: the disconnecting flag, the write lock, the write half in its slot and the read half in its
   * own. `closed` and `closedRead` remember whether the teardown found the write half and the read half; `shut` says
   * that the write half was given to shutdown, `dropped` that the read half was dropped.
   */
  datatype State = State(
    disconnecting: bool,
    lock: bool,
    slot: bool,
    readHalf: bool,
    shut: bool,
    closed: Option<bool>,
    dropped: bool,
    closedRead: Option<bool>,
    calls: seq<Call>)

  const INIT := State(false, false, true, true, false, None, false, None, [])

  datatype Event = NewWrite | NewDisconnect | NewTurn | Step(i: nat, r: WriteResult)

  predicate Ended(c: Call)
  {
    match c
    case Writer(phase, _, _, _) => phase.Returned?
    case Closer(stage) => stage.CloseEnd?
    case Reader(turn, _) => turn.TurnEnd?
  }

  predicate Enabled(s: State, e: Event)
  {
    e.Step? ==> e.i < |s.calls| && !Ended(s.calls[e.i])
  }

  /** The call after its next step, given the flag, the lock and the slot it sees and the result of a write. */
  function Moved(w: Call, disconnecting: bool, lock: bool, slot: bool, r: WriteResult): (c: Call)
    requires w.Writer?
  {
    match w.phase
    case Start => w.(phase := if disconnecting then Returned(false) else Try(0))
    case Try(a) => w.(phase := if lock then Sleep(a) else Locked(a))
    case Locked(a) => if slot then w.(phase := Holding(a), writes := w.writes + 1) else w.(phase := Empty)
    case Holding(a) => w.(phase := Back(a, r), delivered := w.delivered + if r == Written then 1 else 0)
    case Back(a, q) => w.(phase := Unlock(a, q))
    case Unlock(a, q) => w.(phase := Decide(a, q))
    case Empty => w.(phase := Returned(false))
    case Decide(a, q) =>
      w.(phase := if q == Written then Returned(true) else if q == TimedOut && a < 2 then Sleep(a) else Report)
    case Sleep(a) => w.(phase := if a < 2 then Try(a + 1) else Returned(false))
    case Report => w.(phase := Returned(false))
    case Returned(_) => w
  }

  /** The compare-and-exchange sets the lock if it is free; both ways out of the critical section clear it. */
  function LockAfter(p: Phase, lock: bool): (b: bool)
  {
    match p
    case Try(_) => true
    case Unlock(_, _) => false
    case Empty => false
    case _ => lock
  }

  /** The write half is taken from its slot before a write and put back after it, whatever the result. */
  function SlotAfter(p: Phase, slot: bool): (b: bool)
  {
    match p
    case Locked(_) => false
    case Back(_, _) => true
    case _ => slot
  }

  function StepWriter(s: State, i: nat, r: WriteResult): (n: State)
    requires i < |s.calls| && s.calls[i].Writer? && !Ended(s.calls[i])
  {
    var w := s.calls[i];
    var calls := s.calls[i := Moved(w, s.disconnecting, s.lock, s.slot, r)];
    s.(lock := LockAfter(w.phase, s.lock), slot := SlotAfter(w.phase, s.slot),
       calls := if w.phase.Report? && !s.disconnecting then calls + [Closer(CloseStart)] else calls)
  }

  function MovedCloser(c: Call, disconnecting: bool): (n: Call)
    requires c.Closer?
  {
    match c.stage
    case CloseStart => Closer(if disconnecting then CloseEnd(false) else CloseWrite)
    case CloseWrite => Closer(CloseRead)
    case CloseRead => Closer(CloseEnd(true))
    case CloseEnd(_) => c
  }

  function StepCloser(s: State, i: nat): (n: State)
    requires i < |s.calls| && s.calls[i].Closer? && !Ended(s.calls[i])
  {
    var t := s.(calls := s.calls[i := MovedCloser(s.calls[i], s.disconnecting)]);
    match s.calls[i].stage
    case CloseStart => t.(disconnecting := true)
    case CloseWrite => t.(slot := false, shut := s.shut || s.slot, closed := Some(s.slot))
    case CloseRead => t.(readHalf := false, dropped := s.dropped || s.readHalf, closedRead := Some(s.readHalf))
  }

  function MovedReader(c: Call, disconnecting: bool, readHalf: bool): (n: Call)
    requires c.Reader?
  {
    match c.turn
    case TurnStart => c.(turn := if disconnecting then TurnEnd else TurnTake)
    case TurnTake => c.(turn := if readHalf then TurnReading else TurnEnd)
    case TurnReading => c.(turn := TurnEnd)
    case TurnEnd => c
  }

  function StepReader(s: State, i: nat): (n: State)
    requires i < |s.calls| && s.calls[i].Reader? && !Ended(s.calls[i])
  {
    var c := s.calls[i];
    s.(readHalf := if c.turn.TurnTake? then false else if c.turn.TurnReading? then true else s.readHalf,
       calls := s.calls[i := MovedReader(c, s.disconnecting, s.readHalf)])
  }

  function Next(s: State, e: Event): (n: State)
    requires Enabled(s, e)
  {
    match e
    case NewWrite => s.(calls := s.calls + [Writer(Start, s.disconnecting, 0, 0)])
    case NewDisconnect => s.(calls := s.calls + [Closer(CloseStart)])
    case NewTurn => s.(calls := s.calls + [Reader(TurnStart, s.disconnecting)])
    case Step(i, r) =>
      match s.calls[i]
      case Writer(_, _, _, _) => StepWriter(s, i, r)
      case Closer(_) => StepCloser(s, i)
      case Reader(_, _) => StepReader(s, i)
  }

  // ---- Invariants --------------------------------------------------------------------------------------------

  datatype Kind = OwnsLock | HoldsHalf | HoldsRead | TearsDown

  /** A call that owns the lock, one that has the write or the read half in its hands, one that won the flag. */
  predicate Has(k: Kind, c: Call)
  {
    match k
    case OwnsLock =>
      c.Writer? && (c.phase.Locked? || c.phase.Holding? || c.phase.Back? || c.phase.Unlock? || c.phase.Empty?)
    case HoldsHalf => c.Writer? && (c.phase.Holding? || c.phase.Back?)
    case HoldsRead => c.Reader? && c.turn.TurnReading?
    case TearsDown => c.Closer? && (c.stage.CloseWrite? || c.stage.CloseRead? || c.stage == CloseEnd(true))
  }

  ghost predicate AtMostOne(calls: seq<Call>, k: Kind)
  {
    forall i, j :: 0 <= i < |calls| && 0 <= j < |calls| && Has(k, calls[i]) && Has(k, calls[j]) ==> i == j
  }

  ghost predicate Any(calls: seq<Call>, k: Kind)
  {
    exists i :: 0 <= i < |calls| && Has(k, calls[i])
  }

  /** Mutual exclusion: the lock is set exactly while one call owns it. */
  ghost predicate LockInv(s: State)
  {
    AtMostOne(s.calls, OwnsLock) && (s.lock <==> Any(s.calls, OwnsLock))
  }

  /** The write half is in exactly one place: its slot, the hands of one call, or shutdown. */
  ghost predicate HalfInv(s: State)
  {
    AtMostOne(s.calls, HoldsHalf) && !(s.slot && s.shut) && (!s.slot && !s.shut <==> Any(s.calls, HoldsHalf))
  }

  /** The read half is in exactly one place: its slot, the hands of one turn of the listener, or dropped. */
  ghost predicate ReadInv(s: State)
  {
    && AtMostOne(s.calls, HoldsRead) && !(s.readHalf && s.dropped)
    && (!s.readHalf && !s.dropped <==> Any(s.calls, HoldsRead))
  }

  /** Teardown runs once, and `closed` and `closedRead` remember what it found. */
  ghost predicate TeardownInv(s: State)
  {
    && AtMostOne(s.calls, TearsDown) && (s.disconnecting <==> Any(s.calls, TearsDown))
    && (forall i :: 0 <= i < |s.calls| && Has(TearsDown, s.calls[i]) ==>
          && (s.closed.None? <==> s.calls[i].stage == CloseWrite)
          && (s.closedRead.None? <==> s.calls[i].stage != CloseEnd(true)))
    && (!s.disconnecting ==> s.closed.None? && s.closedRead.None?)
    && (s.shut <==> s.closed == Some(true)) && (s.dropped <==> s.closedRead == Some(true))
  }

  predicate Succeeded(p: Phase)
  {
    match p
    case Back(_, r) => r == Written
    case Unlock(_, r) => r == Written
    case Decide(_, r) => r == Written
    case Returned(ok) => ok
    case _ => false
  }

  /** The attempts a call has left when it stands at this phase; no phase is reached with a fourth attempt. */
  function Left(p: Phase): (n: int)
  {
    match p
    case Start => 3
    case Try(a) => 3 - a
    case Locked(a) => 3 - a
    case Holding(a) => 2 - a
    case Back(a, _) => 2 - a
    case Unlock(a, _) => 2 - a
    case Decide(a, _) => 2 - a
    case Sleep(a) => 2 - a
    case _ => 0
  }

  /**
   * A call begins at most one write per attempt and three in all, returns success exactly when one write succeeded, and
   * begins none when the flag was set before it started; nor does a turn of the listener begin a read then.
   */
  predicate CallOk(c: Call, disconnecting: bool)
  {
    && (c.Reader? && c.late ==> disconnecting && (c.turn == TurnStart || c.turn == TurnEnd))
    && (c.Writer? ==>
      && 0 <= Left(c.phase) <= 3 && (c.phase.Try? || c.phase.Locked? ==> Left(c.phase) > 0)
      && c.writes + Left(c.phase) <= 3
      && c.delivered == (if Succeeded(c.phase) then 1 else 0)
      && (c.late ==> disconnecting && c.writes == 0 && (c.phase == Start || c.phase == Returned(false))))
  }

  ghost predicate CallsInv(s: State)
  {
    forall i :: 0 <= i < |s.calls| ==> CallOk(s.calls[i], s.disconnecting)
  }

  ghost predicate Inv(s: State)
  {
    LockInv(s) && HalfInv(s) && ReadInv(s) && TeardownInv(s) && CallsInv(s)
  }

  // ---- One call changes ----------------------------------------------------------------------------------

  lemma Unmoved(calls: seq<Call>, i: nat, c: Call, k: Kind)
    requires i < |calls| && (Has(k, c) <==> Has(k, calls[i]))
    ensures AtMostOne(calls[i := c], k) <==> AtMostOne(calls, k)
    ensures Any(calls[i := c], k) <==> Any(calls, k)
  {
    var next := calls[i := c];
    assert forall j :: 0 <= j < |calls| ==> (Has(k, next[j]) <==> Has(k, calls[j]));
  }

  lemma Enters(calls: seq<Call>, i: nat, c: Call, k: Kind)
    requires i < |calls| && !Any(calls, k) && Has(k, c)
    ensures AtMostOne(calls[i := c], k) && Any(calls[i := c], k)
  {
    assert calls[i := c][i] == c;
  }

  lemma Leaves(calls: seq<Call>, i: nat, c: Call, k: Kind)
    requires i < |calls| && AtMostOne(calls, k) && Has(k, calls[i]) && !Has(k, c)
    ensures AtMostOne(calls[i := c], k) && !Any(calls[i := c], k) && Any(calls, k)
  {
  }

  lemma Joins(calls: seq<Call>, c: Call, k: Kind)
    requires !Has(k, c)
    ensures AtMostOne(calls + [c], k) <==> AtMostOne(calls, k)
    ensures Any(calls + [c], k) <==> Any(calls, k)
  {
    var next := calls + [c];
    assert forall j :: 0 <= j < |calls| ==> next[j] == calls[j];
  }

  lemma JoinInv(s: State, c: Call)
    requires Inv(s) && CallOk(c, s.disconnecting) && (forall k :: !Has(k, c))
    ensures Inv(s.(calls := s.calls + [c]))
  {
    Joins(s.calls, c, OwnsLock);
    Joins(s.calls, c, HoldsHalf);
    Joins(s.calls, c, HoldsRead);
    Joins(s.calls, c, TearsDown);
  }

  lemma MovedOk(w: Call, disconnecting: bool, lock: bool, slot: bool, r: WriteResult)
    requires w.Writer? && CallOk(w, disconnecting)
    ensures CallOk(Moved(w, disconnecting, lock, slot, r), disconnecting)
  {
  }

  /** How one step moves a call in and out of the critical section and of possession of the write half. */
  lemma MovedKinds(w: Call, disconnecting: bool, lock: bool, slot: bool, r: WriteResult)
    requires w.Writer?
    ensures var m := Moved(w, disconnecting, lock, slot, r);
            && m.Writer?
            && (Has(OwnsLock, m) <==> if w.phase.Try? then !lock else Has(OwnsLock, w) && LockAfter(w.phase, true))
            && (Has(HoldsHalf, m) <==>
                  if w.phase.Locked? then slot else Has(HoldsHalf, w) && !SlotAfter(w.phase, false))
  {
  }

  lemma WriterLock(s: State, i: nat, c: Call, p: Phase)
    requires LockInv(s) && i < |s.calls| && s.calls[i].Writer? && s.calls[i].phase == p
    requires Has(OwnsLock, c) <==> if p.Try? then !s.lock else Has(OwnsLock, s.calls[i]) && LockAfter(p, true)
    ensures LockInv(s.(lock := LockAfter(p, s.lock), calls := s.calls[i := c]))
  {
    if p.Try? && !s.lock {
      Enters(s.calls, i, c, OwnsLock);
    } else if p.Unlock? || p.Empty? {
      Leaves(s.calls, i, c, OwnsLock);
    } else {
      Unmoved(s.calls, i, c, OwnsLock);
    }
  }

  lemma WriterHalf(s: State, i: nat, c: Call, p: Phase)
    requires HalfInv(s) && i < |s.calls| && s.calls[i].Writer? && s.calls[i].phase == p
    requires Has(HoldsHalf, c) <==> if p.Locked? then s.slot else Has(HoldsHalf, s.calls[i]) && !SlotAfter(p, false)
    ensures HalfInv(s.(slot := SlotAfter(p, s.slot), calls := s.calls[i := c]))
  {
    if p.Locked? && s.slot {
      Enters(s.calls, i, c, HoldsHalf);
    } else if p.Back? {
      Leaves(s.calls, i, c, HoldsHalf);
    } else {
      Unmoved(s.calls, i, c, HoldsHalf);
    }
  }

  lemma WriterTeardown(s: State, i: nat, c: Call, lock: bool, slot: bool)
    requires TeardownInv(s) && i < |s.calls| && s.calls[i].Writer? && c.Writer?
    ensures TeardownInv(s.(lock := lock, slot := slot, calls := s.calls[i := c]))
  {
    Unmoved(s.calls, i, c, TearsDown);
  }

  lemma WriterRead(s: State, i: nat, c: Call, lock: bool, slot: bool)
    requires ReadInv(s) && i < |s.calls| && s.calls[i].Writer? && c.Writer?
    ensures ReadInv(s.(lock := lock, slot := slot, calls := s.calls[i := c]))
  {
    Unmoved(s.calls, i, c, HoldsRead);
  }

  lemma WriterUpdate(s: State, i: nat, c: Call, p: Phase)
    requires Inv(s) && i < |s.calls| && s.calls[i].Writer? && s.calls[i].phase == p
    requires c.Writer? && CallOk(c, s.disconnecting)
    requires Has(OwnsLock, c) <==> if p.Try? then !s.lock else Has(OwnsLock, s.calls[i]) && LockAfter(p, true)
    requires Has(HoldsHalf, c) <==> if p.Locked? then s.slot else Has(HoldsHalf, s.calls[i]) && !SlotAfter(p, false)
    ensures Inv(s.(lock := LockAfter(p, s.lock), slot := SlotAfter(p, s.slot), calls := s.calls[i := c]))
  {
    WriterLock(s, i, c, p);
    WriterHalf(s, i, c, p);
    WriterRead(s, i, c, LockAfter(p, s.lock), SlotAfter(p, s.slot));
    WriterTeardown(s, i, c, LockAfter(p, s.lock), SlotAfter(p, s.slot));
    CallsUpdate(s, i, c);
  }

  lemma WriterInv(s: State, i: nat, r: WriteResult)
    requires Inv(s) && i < |s.calls| && s.calls[i].Writer? && !Ended(s.calls[i])
    ensures Inv(StepWriter(s, i, r))
  {
    var w := s.calls[i];
    var c := Moved(w, s.disconnecting, s.lock, s.slot, r);
    MovedOk(w, s.disconnecting, s.lock, s.slot, r);
    MovedKinds(w, s.disconnecting, s.lock, s.slot, r);
    WriterUpdate(s, i, c, w.phase);
    JoinInv(s.(lock := LockAfter(w.phase, s.lock), slot := SlotAfter(w.phase, s.slot), calls := s.calls[i := c]),
            Closer(CloseStart));
  }

  lemma CloserTeardown(s: State, i: nat)
    requires TeardownInv(s) && HalfInv(s) && i < |s.calls| && s.calls[i].Closer? && !Ended(s.calls[i])
    ensures TeardownInv(StepCloser(s, i))
  {
    var n := StepCloser(s, i);
    if s.calls[i].stage == CloseStart && !s.disconnecting {
      Enters(s.calls, i, n.calls[i], TearsDown);
    } else {
      Unmoved(s.calls, i, n.calls[i], TearsDown);
    }
  }

  lemma CloserWrite(s: State, i: nat)
    requires LockInv(s) && HalfInv(s) && i < |s.calls| && s.calls[i].Closer? && !Ended(s.calls[i])
    ensures LockInv(StepCloser(s, i)) && HalfInv(StepCloser(s, i))
  {
    var c := MovedCloser(s.calls[i], s.disconnecting);
    Unmoved(s.calls, i, c, OwnsLock);
    Unmoved(s.calls, i, c, HoldsHalf);
  }

  lemma CloserRead(s: State, i: nat)
    requires ReadInv(s) && i < |s.calls| && s.calls[i].Closer? && !Ended(s.calls[i])
    ensures ReadInv(StepCloser(s, i))
  {
    Unmoved(s.calls, i, MovedCloser(s.calls[i], s.disconnecting), HoldsRead);
  }

  lemma CloserCalls(s: State, i: nat)
    requires CallsInv(s) && i < |s.calls| && s.calls[i].Closer? && !Ended(s.calls[i])
    ensures CallsInv(StepCloser(s, i))
  {
    forall j | 0 <= j < |s.calls|
      ensures CallOk(StepCloser(s, i).calls[j], StepCloser(s, i).disconnecting)
    {
      StillOk(s.calls[j], s.disconnecting);
    }
  }

  lemma StillOk(c: Call, disconnecting: bool)
    requires CallOk(c, disconnecting)
    ensures CallOk(c, true)
  {
  }

  lemma CloserInv(s: State, i: nat)
    requires Inv(s) && i < |s.calls| && s.calls[i].Closer? && !Ended(s.calls[i])
    ensures Inv(StepCloser(s, i))
  {
    CloserWrite(s, i);
    CloserRead(s, i);
    CloserTeardown(s, i);
    CloserCalls(s, i);
  }

  lemma ReaderRead(s: State, i: nat)
    requires ReadInv(s) && i < |s.calls| && s.calls[i].Reader? && !Ended(s.calls[i])
    ensures ReadInv(StepReader(s, i))
  {
    var c := MovedReader(s.calls[i], s.disconnecting, s.readHalf);
    if s.calls[i].turn.TurnTake? && s.readHalf {
      Enters(s.calls, i, c, HoldsRead);
    } else if s.calls[i].turn.TurnReading? {
      Leaves(s.calls, i, c, HoldsRead);
    } else {
      Unmoved(s.calls, i, c, HoldsRead);
    }
  }

  lemma ReaderRest(s: State, i: nat, c: Call, readHalf: bool)
    requires LockInv(s) && HalfInv(s) && TeardownInv(s) && i < |s.calls| && s.calls[i].Reader? && c.Reader?
    ensures var n := s.(readHalf := readHalf, calls := s.calls[i := c]); LockInv(n) && HalfInv(n) && TeardownInv(n)
  {
    Unmoved(s.calls, i, c, OwnsLock);
    Unmoved(s.calls, i, c, HoldsHalf);
    Unmoved(s.calls, i, c, TearsDown);
  }

  lemma CallsUpdate(s: State, i: nat, c: Call)
    requires CallsInv(s) && i < |s.calls| && CallOk(c, s.disconnecting)
    ensures CallsInv(s.(calls := s.calls[i := c]))
  {
  }

  lemma ReaderInv(s: State, i: nat)
    requires Inv(s) && i < |s.calls| && s.calls[i].Reader? && !Ended(s.calls[i])
    ensures Inv(StepReader(s, i))
  {
    var n := StepReader(s, i);
    var c := MovedReader(s.calls[i], s.disconnecting, s.readHalf);
    ReaderRead(s, i);
    ReaderRest(s, i, c, n.readHalf);
    assert CallOk(s.calls[i], s.disconnecting);
    CallsUpdate(s, i, c);
  }

  /** Every step of every call keeps the invariants. */
  lemma InvStep(s: State, e: Event)
    requires Inv(s) && Enabled(s, e)
    ensures Inv(Next(s, e))
  {
    match e {
      case NewWrite => JoinInv(s, Writer(Start, s.disconnecting, 0, 0));
      case NewDisconnect => JoinInv(s, Closer(CloseStart));
      case NewTurn => JoinInv(s, Reader(TurnStart, s.disconnecting));
      case Step(i, r) =>
        if s.calls[i].Closer? {
          CloserInv(s, i);
        } else if s.calls[i].Reader? {
          ReaderInv(s, i);
        } else {
          WriterInv(s, i, r);
        }
    }
  }

  // ---- The calls after a step ----------------------------------------------------------------------------------

  predicate Begins(c: Call)
  {
    match c
    case Writer(phase, _, writes, _) => phase == Start && writes == 0
    case Closer(stage) => stage == CloseStart
    case Reader(turn, _) => turn == TurnStart
  }

  /** Call i after its next step. */
  function MovedCall(s: State, i: nat, r: WriteResult): (c: Call)
    requires i < |s.calls| && !Ended(s.calls[i])
  {
    match s.calls[i]
    case Writer(_, _, _, _) => Moved(s.calls[i], s.disconnecting, s.lock, s.slot, r)
    case Closer(_) => MovedCloser(s.calls[i], s.disconnecting)
    case Reader(_, _) => MovedReader(s.calls[i], s.disconnecting, s.readHalf)
  }

  /** Only the stepping call changes, and calls that join are at their beginning. */
  ghost predicate CallsMove(s: State, e: Event, after: seq<Call>)
    requires Enabled(s, e)
  {
    && |after| >= |s.calls|
    && (forall k :: 0 <= k < |s.calls| && !(e.Step? && e.i == k) ==> after[k] == s.calls[k])
    && (e.Step? ==> after[e.i] == MovedCall(s, e.i, e.r))
    && (forall k :: |s.calls| <= k < |after| ==> Begins(after[k]))
  }

  lemma NextCalls(s: State, e: Event)
    requires Enabled(s, e)
    ensures CallsMove(s, e, Next(s, e).calls)
  {
    match e {
      case NewWrite => JoinMoves(s, e, Writer(Start, s.disconnecting, 0, 0));
      case NewDisconnect => JoinMoves(s, e, Closer(CloseStart));
      case NewTurn => JoinMoves(s, e, Reader(TurnStart, s.disconnecting));
      case Step(i, r) => StepMoves(s, i, r, Closer(CloseStart));
    }
  }

  lemma JoinMoves(s: State, e: Event, c: Call)
    requires Enabled(s, e) && !e.Step? && Begins(c)
    ensures CallsMove(s, e, s.calls + [c])
  {
  }

  lemma StepMoves(s: State, i: nat, r: WriteResult, c: Call)
    requires i < |s.calls| && !Ended(s.calls[i]) && Begins(c)
    ensures var moved := s.calls[i := MovedCall(s, i, r)];
            CallsMove(s, Step(i, r), moved) && CallsMove(s, Step(i, r), moved + [c])
  {
  }

  // ---- Progress --------------------------------------------------------------------------------------------

  /** An upper bound of the steps a call can still take. */
  function Rank(c: Call): (n: int)
  {
    match c
    case Closer(stage) =>
      (match stage
       case CloseStart => 3
       case CloseWrite => 2
       case CloseRead => 1
       case CloseEnd(_) => 0)
    case Reader(turn, _) =>
      (match turn
       case TurnStart => 3
       case TurnTake => 2
       case TurnReading => 1
       case TurnEnd => 0)
    case Writer(p, _, _, _) =>
      match p
      case Start => 24
      case Try(a) => 23 - 7 * a
      case Locked(a) => 22 - 7 * a
      case Holding(a) => 21 - 7 * a
      case Back(a, _) => 20 - 7 * a
      case Unlock(a, _) => 19 - 7 * a
      case Decide(a, _) => 18 - 7 * a
      case Sleep(a) => 17 - 7 * a
      case Empty => 1
      case Report => 1
      case Returned(_) => 0
  }

  lemma RankMoved(w: Call, disconnecting: bool, lock: bool, slot: bool, r: WriteResult)
    requires w.Writer? && CallOk(w, disconnecting) && !Ended(w)
    ensures 0 <= Rank(Moved(w, disconnecting, lock, slot, r)) < Rank(w) <= 24
  {
  }

  /** A step shortens its own call and leaves the others alone; no state forbids the next step of a call not ended. */
  lemma StepProgress(s: State, i: nat, r: WriteResult)
    requires Inv(s) && Enabled(s, Step(i, r))
    ensures var n := Next(s, Step(i, r));
            && |n.calls| >= |s.calls|
            && 0 <= Rank(n.calls[i]) < Rank(s.calls[i]) <= 24
            && forall j :: 0 <= j < |s.calls| && j != i ==> n.calls[j] == s.calls[j]
  {
    NextCalls(s, Step(i, r));
    RankMovedCall(s, i, r);
  }

  lemma RankMovedCall(s: State, i: nat, r: WriteResult)
    requires CallsInv(s) && i < |s.calls| && !Ended(s.calls[i])
    ensures 0 <= Rank(MovedCall(s, i, r)) < Rank(s.calls[i]) <= 24
  {
    assert CallOk(s.calls[i], s.disconnecting);
    match s.calls[i] {
      case Writer(_, _, _, _) => RankMoved(s.calls[i], s.disconnecting, s.lock, s.slot, r);
      case Closer(_) => RankCloser(s.calls[i], s.disconnecting);
      case Reader(_, _) => RankReader(s.calls[i], s.disconnecting, s.readHalf);
    }
  }

  lemma RankCloser(c: Call, disconnecting: bool)
    requires c.Closer? && !Ended(c)
    ensures 0 <= Rank(MovedCloser(c, disconnecting)) < Rank(c) <= 24
  {
  }

  lemma RankReader(c: Call, disconnecting: bool, readHalf: bool)
    requires c.Reader? && !Ended(c)
    ensures 0 <= Rank(MovedReader(c, disconnecting, readHalf)) < Rank(c) <= 24
  {
  }

  // ---- Runs ------------------------------------------------------------------------------------------------

  ghost predicate Steps(s: State, e: Event, n: State)
  {
    Enabled(s, e) && n == Next(s, e)
  }

  ghost predicate IsRun(ss: seq<State>, es: seq<Event>)
  {
    && |ss| == |es| + 1 && ss[0] == INIT
    && forall i :: 0 <= i < |es| ==> Steps(ss[i], es[i], ss[i + 1])
  }

  lemma {:induction false} RunInv(ss: seq<State>, es: seq<Event>, n: nat)
    requires IsRun(ss, es) && n <= |es|
    ensures Inv(ss[n])
  {
    if n > 0 {
      RunInv(ss, es, n - 1);
      assert Steps(ss[n - 1], es[n - 1], ss[n - 1 + 1]);
      InvStep(ss[n - 1], es[n - 1]);
    }
  }

  ghost predicate AllEnded(calls: seq<Call>)
  {
    forall i :: 0 <= i < |calls| ==> Ended(calls[i])
  }

  lemma EndedIdle(calls: seq<Call>)
    ensures AllEnded(calls) ==> !Any(calls, OwnsLock) && !Any(calls, HoldsHalf) && !Any(calls, HoldsRead)
  {
    assert forall i :: 0 <= i < |calls| && Ended(calls[i]) ==>
        !Has(OwnsLock, calls[i]) && !Has(HoldsHalf, calls[i]) && !Has(HoldsRead, calls[i]);
  }

  /** How many of the first n events are steps of call i. */
  function StepsOf(es: seq<Event>, i: nat, n: nat): (k: nat)
    requires n <= |es|
  {
    if n == 0 then 0 else StepsOf(es, i, n - 1) + if es[n - 1].Step? && es[n - 1].i == i then 1 else 0
  }

  lemma {:induction false} NoStepsYet(ss: seq<State>, es: seq<Event>, i: nat, n: nat)
    requires IsRun(ss, es) && n <= |es| && i >= |ss[n].calls|
    ensures StepsOf(es, i, n) == 0
  {
    if n > 0 {
      assert Steps(ss[n - 1], es[n - 1], ss[n - 1 + 1]);
      NextCalls(ss[n - 1], es[n - 1]);
      NoStepsYet(ss, es, i, n - 1);
    }
  }

  /**
   * In every interleaving, the steps a call has taken and those its rank still allows are at most 24 together; so every
   * write, disconnection and turn of the listener ends after at most 24 steps of its own, whatever the others do.
   */
  lemma {:induction false} RunBounded(ss: seq<State>, es: seq<Event>, i: nat, n: nat)
    requires IsRun(ss, es) && n <= |es| && i < |ss[n].calls|
    ensures Rank(ss[n].calls[i]) >= 0 && StepsOf(es, i, n) + Rank(ss[n].calls[i]) <= 24
    ensures StepsOf(es, i, n) == 24 ==> Ended(ss[n].calls[i])
  {
    if n > 0 {
      var s, e := ss[n - 1], es[n - 1];
      assert Steps(s, e, ss[n - 1 + 1]);
      RunInv(ss, es, n - 1);
      RunInv(ss, es, n);
      assert CallOk(ss[n].calls[i], ss[n].disconnecting);
      if i < |s.calls| {
        RunBounded(ss, es, i, n - 1);
        BoundedStep(s, e, i);
      } else {
        NoStepsYet(ss, es, i, n - 1);
        NextCalls(s, e);
      }
      RankZero(ss[n].calls[i], ss[n].disconnecting);
    }
  }

  lemma BoundedStep(s: State, e: Event, i: nat)
    requires Inv(s) && Enabled(s, e) && i < |s.calls|
    ensures i < |Next(s, e).calls|
    ensures if e.Step? && e.i == i then 0 <= Rank(Next(s, e).calls[i]) < Rank(s.calls[i])
            else Next(s, e).calls[i] == s.calls[i]
  {
    NextCalls(s, e);
    if e.Step? && e.i == i {
      RankMovedCall(s, i, e.r);
    }
  }

  lemma RankZero(c: Call, disconnecting: bool)
    requires CallOk(c, disconnecting)
    ensures Rank(c) >= 0 && (Rank(c) == 0 <==> Ended(c))
  {
  }

  /**
   * In every interleaving: at most one call has the write half, and it owns the lock; the lock is free once every call
   * has returned; teardown ran at most once; and a call that began after the flag was set began no write.
   */
  lemma RunSafe(ss: seq<State>, es: seq<Event>, n: nat, i: nat, j: nat)
    requires IsRun(ss, es) && n <= |es| && i < |ss[n].calls| && j < |ss[n].calls|
    ensures var s := ss[n];
            && (Has(HoldsHalf, s.calls[i]) ==> Has(OwnsLock, s.calls[i]) && s.lock && !s.slot && !s.shut)
            && (Has(OwnsLock, s.calls[i]) && Has(OwnsLock, s.calls[j]) ==> i == j)
            && (Has(TearsDown, s.calls[i]) && Has(TearsDown, s.calls[j]) ==> i == j)
            && (AllEnded(s.calls) ==> !s.lock)
            && (s.calls[i].Reader? && s.calls[i].late ==> !Has(HoldsRead, s.calls[i]))
            && (Has(HoldsRead, s.calls[i]) && Has(HoldsRead, s.calls[j]) ==> i == j)
            && (s.calls[i].Writer? && s.calls[i].late ==> s.calls[i].writes == 0)
            && (s.calls[i].Writer? && s.calls[i].phase.Returned? ==> s.calls[i].phase.ok == (s.calls[i].delivered == 1))
  {
    RunInv(ss, es, n);
    EndedIdle(ss[n].calls);
    assert CallOk(ss[n].calls[i], ss[n].disconnecting);
  }

  /** The teardown shuts the write half exactly when no writer has it in its hands at that step. */
  lemma TakeExactly(s: State, i: nat, r: WriteResult)
    requires Inv(s) && i < |s.calls| && s.calls[i] == Closer(CloseWrite)
    ensures var n := Next(s, Step(i, r)); n.shut <==> !Any(s.calls, HoldsHalf)
    ensures var n := Next(s, Step(i, r)); n.closed == Some(n.shut)
  {
    assert Has(TearsDown, s.calls[i]);
  }

  /** The teardown drops the read half exactly when no turn of the listener has it in its hands at that step. */
  lemma TakeReadExactly(s: State, i: nat, r: WriteResult)
    requires Inv(s) && i < |s.calls| && s.calls[i] == Closer(CloseRead)
    ensures var n := Next(s, Step(i, r)); n.dropped <==> !Any(s.calls, HoldsRead)
    ensures var n := Next(s, Step(i, r)); n.closedRead == Some(n.dropped)
  {
    assert Has(TearsDown, s.calls[i]);
  }

  lemma ClosedStep(s: State, e: Event)
    requires Inv(s) && Enabled(s, e)
    ensures s.closed.Some? ==> Next(s, e).closed == s.closed
    ensures s.closedRead.Some? ==> Next(s, e).closedRead == s.closedRead
  {
    if e.Step? && s.calls[e.i].Closer? {
      FoundOnce(s, e.i);
    }
  }

  lemma FoundOnce(s: State, i: nat)
    requires TeardownInv(s) && i < |s.calls| && s.calls[i].Closer?
    ensures s.calls[i].stage == CloseWrite ==> s.closed.None?
    ensures s.calls[i].stage == CloseRead ==> s.closedRead.None?
  {
    assert s.calls[i].stage == CloseWrite || s.calls[i].stage == CloseRead ==> Has(TearsDown, s.calls[i]);
  }

  function Writes(c: Call): (n: nat)
  {
    if c.Writer? then c.writes else 0
  }

  lemma ShutStep(s: State, e: Event)
    requires Inv(s) && Enabled(s, e) && s.shut
    ensures NoNewWrites(s.calls, Next(s, e).calls)
  {
    NextCalls(s, e);
    if e.Step? {
      SameWrites(s, e.i, e.r);
    }
  }

  lemma SameWrites(s: State, i: nat, r: WriteResult)
    requires i < |s.calls| && !Ended(s.calls[i]) && !s.slot
    ensures Writes(MovedCall(s, i, r)) == Writes(s.calls[i])
  {
  }

  lemma {:induction false} RunFound(ss: seq<State>, es: seq<Event>, m: nat, n: nat)
    requires IsRun(ss, es) && m <= n <= |es|
    ensures ss[m].closed.Some? ==> ss[n].closed == ss[m].closed
    ensures ss[m].closedRead.Some? ==> ss[n].closedRead == ss[m].closedRead
    decreases n
  {
    if m < n {
      RunFound(ss, es, m, n - 1);
      RunInv(ss, es, n - 1);
      assert Steps(ss[n - 1], es[n - 1], ss[n - 1 + 1]);
      ClosedStep(ss[n - 1], es[n - 1]);
    }
  }

  /** The calls of `a` are still there and have begun no write since, nor have those that came later. */
  ghost predicate NoNewWrites(a: seq<Call>, b: seq<Call>)
  {
    && |b| >= |a|
    && (forall k :: 0 <= k < |a| ==> Writes(b[k]) == Writes(a[k]))
    && (forall k :: |a| <= k < |b| ==> Writes(b[k]) == 0)
  }

  lemma NoNewWritesChain(a: seq<Call>, b: seq<Call>, c: seq<Call>)
    requires NoNewWrites(a, b) && NoNewWrites(b, c)
    ensures NoNewWrites(a, c)
  {
  }

  lemma StaysShut(ss: seq<State>, es: seq<Event>, m: nat, n: nat)
    requires IsRun(ss, es) && m <= n <= |es| && ss[m].shut
    ensures Inv(ss[n]) && ss[n].shut
  {
    RunInv(ss, es, m);
    RunInv(ss, es, n);
    RunFound(ss, es, m, n);
  }

  lemma ShutSteps(s: State, e: Event, n: State)
    requires Inv(s) && s.shut && Steps(s, e, n)
    ensures NoNewWrites(s.calls, n.calls)
  {
    ShutStep(s, e);
  }

  lemma ShutRunStep(ss: seq<State>, es: seq<Event>, m: nat, n: nat)
    requires IsRun(ss, es) && m <= n < |es| && ss[m].shut
    ensures NoNewWrites(ss[n].calls, ss[n + 1].calls)
  {
    StaysShut(ss, es, m, n);
    ShutSteps(ss[n], es[n], ss[n + 1]);
  }

  lemma {:induction false} RunShut(ss: seq<State>, es: seq<Event>, m: nat, n: nat)
    requires IsRun(ss, es) && m <= n <= |es| && ss[m].shut
    ensures NoNewWrites(ss[m].calls, ss[n].calls)
    decreases n
  {
    if m < n {
      RunShut(ss, es, m, n - 1);
      ShutRunStep(ss, es, m, n - 1);
      NoNewWritesChain(ss[m].calls, ss[n - 1].calls, ss[n].calls);
    }
  }

  /** What the teardown found is settled; once it has shut the write half, no call ever begins another write. */
  lemma RunAfterTeardown(ss: seq<State>, es: seq<Event>, m: nat, n: nat)
    requires IsRun(ss, es) && m <= n <= |es|
    ensures ss[m].closed.Some? ==> ss[n].closed == ss[m].closed
    ensures ss[m].closedRead.Some? ==> ss[n].closedRead == ss[m].closedRead
    ensures ss[m].shut ==> NoNewWrites(ss[m].calls, ss[n].calls)
  {
    RunFound(ss, es, m, n);
    if ss[m].shut {
      RunShut(ss, es, m, n);
    }
  }

  /** When all calls have ended after a teardown, each half is gone if the teardown found it and in its slot if not. */
  lemma RunSettled(ss: seq<State>, es: seq<Event>, n: nat)
    requires IsRun(ss, es) && n <= |es| && ss[n].disconnecting
    requires AllEnded(ss[n].calls)
    ensures ss[n].closed.Some? && ss[n].shut == ss[n].closed.value && ss[n].slot == !ss[n].shut
    ensures ss[n].closedRead.Some? && ss[n].dropped == ss[n].closedRead.value && ss[n].readHalf == !ss[n].dropped
  {
    RunInv(ss, es, n);
    var s := ss[n];
    var i :| 0 <= i < |s.calls| && Has(TearsDown, s.calls[i]);
    assert Ended(s.calls[i]);
    EndedIdle(s.calls);
  }

  // ---- Why a write fails ---------------------------------------------------------------------------------------

  /**
   * What a call has met in a run: the flag at its start, an empty slot, a taken lock, writes that timed out, failed and
   * succeeded, and how often it reported; `lastTimedOut` says how its last finished attempt ended.
   */
  datatype Tally = Tally(
    refused: nat,
    empty: nat,
    blocked: nat,
    timedOut: nat,
    failed: nat,
    written: nat,
    reported: nat,
    lastTimedOut: bool)

  const NOTHING := Tally(0, 0, 0, 0, 0, 0, 0, false)

  /** What a step of a writer meets, told from what it finds and not from what it does. */
  function Met(t: Tally, p: Phase, disconnecting: bool, lock: bool, slot: bool, r: WriteResult): (n: Tally)
  {
    match p
    case Start => if disconnecting then t.(refused := t.refused + 1) else t
    case Try(_) => if lock then t.(blocked := t.blocked + 1, lastTimedOut := false) else t
    case Locked(_) => if slot then t else t.(empty := t.empty + 1)
    case Holding(_) =>
      (match r
       case Written => t.(written := t.written + 1)
       case Failed => t.(failed := t.failed + 1)
       case TimedOut => t.(timedOut := t.timedOut + 1, lastTimedOut := true))
    case Report => t.(reported := t.reported + 1)
    case _ => t
  }

  function TallyOf(ss: seq<State>, es: seq<Event>, i: nat, n: nat): (t: Tally)
    requires |ss| == |es| + 1 && n <= |es|
  {
    if n == 0 then NOTHING
    else
      var t := TallyOf(ss, es, i, n - 1);
      var s, e := ss[n - 1], es[n - 1];
      if e.Step? && e.i == i && i < |s.calls| && s.calls[i].Writer? then
        Met(t, s.calls[i].phase, s.disconnecting, s.lock, s.slot, e.r)
      else t
  }

  /** Attempts that found the lock taken or timed out. */
  function Spent(t: Tally): (n: nat)
  {
    t.blocked + t.timedOut
  }

  /** The tally of a call with nothing in it but spent attempts. */
  predicate OnlySpent(t: Tally)
  {
    t.refused == 0 && t.empty == 0 && t.failed == 0 && t.written == 0 && t.reported == 0
  }

  /** How the tally of a call goes with where the call stands. */
  predicate Accounts(p: Phase, t: Tally)
  {
    match p
    case Start => t == NOTHING
    case Try(a) => OnlySpent(t) && Spent(t) == a < 3
    case Locked(a) => OnlySpent(t) && Spent(t) == a < 3
    case Holding(a) => OnlySpent(t) && Spent(t) == a < 3
    case Back(a, r) => AfterWrite(a, r, t)
    case Unlock(a, r) => AfterWrite(a, r, t)
    case Decide(a, r) => AfterWrite(a, r, t)
    case Sleep(a) => OnlySpent(t) && Spent(t) == a + 1 <= 3 && (a == 2 ==> !t.lastTimedOut)
    case Empty => OnlySpent(t.(empty := 0)) && t.empty == 1 && Spent(t) < 3
    case Report => Reports(t) && t.reported == 0
    case Returned(ok) =>
      if ok then OnlySpent(t.(written := 0)) && t.written == 1 && Spent(t) < 3
      else if t.reported > 0 then Reports(t.(reported := 0)) && t.reported == 1
      else if t.refused > 0 then t == NOTHING.(refused := 1)
      else if t.empty > 0 then OnlySpent(t.(empty := 0)) && t.empty == 1 && Spent(t) < 3
      else OnlySpent(t) && Spent(t) == 3 && !t.lastTimedOut
  }

  predicate AfterWrite(a: nat, r: WriteResult, t: Tally)
  {
    match r
    case Written => OnlySpent(t.(written := 0)) && t.written == 1 && Spent(t) == a < 3
    case Failed => OnlySpent(t.(failed := 0)) && t.failed == 1 && Spent(t) == a < 3
    case TimedOut => OnlySpent(t) && Spent(t) == a + 1 <= 3 && t.lastTimedOut
  }

  /** A write failed, or the third attempt timed out. */
  predicate Reports(t: Tally)
  {
    || (OnlySpent(t.(failed := 0)) && t.failed == 1 && Spent(t) < 3)
    || (OnlySpent(t) && Spent(t) == 3 && t.lastTimedOut)
  }

  lemma MetBefore(w: Call, disconnecting: bool, lock: bool, slot: bool, r: WriteResult, t: Tally)
    requires w.Writer? && Accounts(w.phase, t)
    requires w.phase.Start? || w.phase.Try? || w.phase.Locked? || w.phase.Sleep?
    ensures Accounts(Moved(w, disconnecting, lock, slot, r).phase, Met(t, w.phase, disconnecting, lock, slot, r))
  {
  }

  lemma MetWrite(w: Call, disconnecting: bool, lock: bool, slot: bool, r: WriteResult, t: Tally)
    requires w.Writer? && Accounts(w.phase, t)
    requires w.phase.Holding? || w.phase.Back? || w.phase.Unlock?
    ensures Accounts(Moved(w, disconnecting, lock, slot, r).phase, Met(t, w.phase, disconnecting, lock, slot, r))
  {
  }

  lemma MetAfter(w: Call, disconnecting: bool, lock: bool, slot: bool, r: WriteResult, t: Tally)
    requires w.Writer? && Accounts(w.phase, t)
    requires w.phase.Decide? || w.phase.Empty? || w.phase.Report?
    ensures Accounts(Moved(w, disconnecting, lock, slot, r).phase, Met(t, w.phase, disconnecting, lock, slot, r))
  {
  }

  lemma MetAccounts(w: Call, disconnecting: bool, lock: bool, slot: bool, r: WriteResult, t: Tally)
    requires w.Writer? && !Ended(w) && Accounts(w.phase, t)
    ensures Accounts(Moved(w, disconnecting, lock, slot, r).phase, Met(t, w.phase, disconnecting, lock, slot, r))
  {
    if w.phase.Start? || w.phase.Try? || w.phase.Locked? || w.phase.Sleep? {
      MetBefore(w, disconnecting, lock, slot, r, t);
    } else if w.phase.Holding? || w.phase.Back? || w.phase.Unlock? {
      MetWrite(w, disconnecting, lock, slot, r, t);
    } else {
      MetAfter(w, disconnecting, lock, slot, r, t);
    }
  }

  lemma {:induction false} NothingYet(ss: seq<State>, es: seq<Event>, i: nat, n: nat)
    requires IsRun(ss, es) && n <= |es| && i >= |ss[n].calls|
    ensures TallyOf(ss, es, i, n) == NOTHING
  {
    if n > 0 {
      assert Steps(ss[n - 1], es[n - 1], ss[n - 1 + 1]);
      NextCalls(ss[n - 1], es[n - 1]);
      NothingYet(ss, es, i, n - 1);
    }
  }

  lemma AccountsStep(s: State, e: Event, i: nat, t: Tally)
    requires Enabled(s, e) && i < |s.calls| && s.calls[i].Writer? && Accounts(s.calls[i].phase, t)
    ensures i < |Next(s, e).calls| && Next(s, e).calls[i].Writer?
    ensures Accounts(Next(s, e).calls[i].phase,
                     if e.Step? && e.i == i then Met(t, s.calls[i].phase, s.disconnecting, s.lock, s.slot, e.r) else t)
  {
    NextCalls(s, e);
    if e.Step? && e.i == i {
      MetAccounts(s.calls[i], s.disconnecting, s.lock, s.slot, e.r, t);
    }
  }

  lemma SameKind(s: State, e: Event, i: nat)
    requires Enabled(s, e) && i < |s.calls|
    ensures i < |Next(s, e).calls| && (Next(s, e).calls[i].Writer? <==> s.calls[i].Writer?)
  {
    NextCalls(s, e);
  }

  lemma {:induction false} RunAccounts(ss: seq<State>, es: seq<Event>, i: nat, n: nat)
    requires IsRun(ss, es) && n <= |es| && i < |ss[n].calls| && ss[n].calls[i].Writer?
    ensures Accounts(ss[n].calls[i].phase, TallyOf(ss, es, i, n))
  {
    if n > 0 {
      var s, e := ss[n - 1], es[n - 1];
      assert Steps(s, e, ss[n - 1 + 1]);
      if i < |s.calls| {
        SameKind(s, e, i);
        RunAccounts(ss, es, i, n - 1);
        AccountsStep(s, e, i, TallyOf(ss, es, i, n - 1));
      } else {
        NextCalls(s, e);
        NothingYet(ss, es, i, n - 1);
      }
    }
  }

  /**
   * In every interleaving, a call that has returned succeeded exactly when a write of it succeeded, and failed
   * exactly when it met the flag at its start, or an empty slot under the lock, or had a write fail, or spent three
   * attempts that each found the lock taken or timed out. It reported exactly when a write failed or its third
   * attempt timed out.
   */
  lemma RunReasons(ss: seq<State>, es: seq<Event>, i: nat, n: nat)
    requires IsRun(ss, es) && n <= |es| && i < |ss[n].calls| && ss[n].calls[i].Writer? && Ended(ss[n].calls[i])
    ensures var ok, t := ss[n].calls[i].phase.ok, TallyOf(ss, es, i, n);
            && (ok <==> t.written == 1)
            && (!ok <==> t.refused == 1 || t.empty == 1 || t.failed == 1 || Spent(t) == 3)
            && (t.reported == 1 <==> t.failed == 1 || (Spent(t) == 3 && t.lastTimedOut))
            && t.reported <= 1 && Spent(t) <= 3
  {
    RunAccounts(ss, es, i, n);
  }

  // ---- Who starts a disconnection --------------------------------------------------------------------------------

  function Closers(calls: seq<Call>): (n: nat)
  {
    if calls == [] then 0 else Closers(calls[..|calls| - 1]) + if calls[|calls| - 1].Closer? then 1 else 0
  }

  lemma ClosersAppend(calls: seq<Call>, c: Call)
    ensures Closers(calls + [c]) == Closers(calls) + if c.Closer? then 1 else 0
  {
    assert (calls + [c])[..|calls|] == calls;
  }

  lemma {:induction false} ClosersUpdate(calls: seq<Call>, i: nat, c: Call)
    requires i < |calls| && (c.Closer? <==> calls[i].Closer?)
    ensures Closers(calls[i := c]) == Closers(calls)
  {
    var n := |calls| - 1;
    if i == n {
      assert calls[i := c][..n] == calls[..n];
    } else {
      assert calls[i := c][..n] == calls[..n][i := c];
      ClosersUpdate(calls[..n], i, c);
    }
  }

  /** The event starts a disconnection: one is called, or a write call reports while the flag is clear. */
  predicate Starts(s: State, e: Event)
  {
    e.NewDisconnect? ||
    (e.Step? && e.i < |s.calls| && s.calls[e.i].Writer? && s.calls[e.i].phase.Report? && !s.disconnecting)
  }

  function StartsBefore(ss: seq<State>, es: seq<Event>, n: nat): (k: nat)
    requires |ss| == |es| + 1 && n <= |es|
  {
    if n == 0 then 0 else StartsBefore(ss, es, n - 1) + if Starts(ss[n - 1], es[n - 1]) then 1 else 0
  }

  lemma StartStep(s: State, e: Event)
    requires Enabled(s, e)
    ensures Closers(Next(s, e).calls) == Closers(s.calls) + if Starts(s, e) then 1 else 0
  {
    match e {
      case NewWrite => ClosersAppend(s.calls, Writer(Start, s.disconnecting, 0, 0));
      case NewDisconnect => ClosersAppend(s.calls, Closer(CloseStart));
      case NewTurn => ClosersAppend(s.calls, Reader(TurnStart, s.disconnecting));
      case Step(i, r) => StartMove(s, i, r);
    }
  }

  /** The calls after a step: the call has moved, and a disconnection has joined if the step starts one. */
  lemma StepCalls(s: State, i: nat, r: WriteResult)
    requires i < |s.calls| && !Ended(s.calls[i])
    ensures var moved := s.calls[i := MovedCall(s, i, r)];
            Next(s, Step(i, r)).calls == if Starts(s, Step(i, r)) then moved + [Closer(CloseStart)] else moved
  {
  }

  lemma MovedKind(s: State, i: nat, r: WriteResult)
    requires i < |s.calls| && !Ended(s.calls[i])
    ensures MovedCall(s, i, r).Closer? <==> s.calls[i].Closer?
  {
  }

  lemma StartMove(s: State, i: nat, r: WriteResult)
    requires i < |s.calls| && !Ended(s.calls[i])
    ensures Closers(Next(s, Step(i, r)).calls) == Closers(s.calls) + if Starts(s, Step(i, r)) then 1 else 0
  {
    StepCalls(s, i, r);
    MovedKind(s, i, r);
    OneMoved(s.calls, i, MovedCall(s, i, r));
  }

  lemma OneMoved(calls: seq<Call>, i: nat, c: Call)
    requires i < |calls| && (c.Closer? <==> calls[i].Closer?)
    ensures Closers(calls[i := c]) == Closers(calls)
    ensures Closers(calls[i := c] + [Closer(CloseStart)]) == Closers(calls) + 1
  {
    ClosersUpdate(calls, i, c);
    ClosersAppend(calls[i := c], Closer(CloseStart));
  }

  /** In every interleaving there is one disconnection for each call of it and each report while the flag was clear. */
  lemma {:induction false} RunStarts(ss: seq<State>, es: seq<Event>, n: nat)
    requires IsRun(ss, es) && n <= |es|
    ensures Closers(ss[n].calls) == StartsBefore(ss, es, n)
  {
    if n > 0 {
      RunStarts(ss, es, n - 1);
      assert Steps(ss[n - 1], es[n - 1], ss[n - 1 + 1]);
      StartStep(ss[n - 1], es[n - 1]);
    }
  }

  // ---- A teardown that misses the write half -------------------------------------------------------------------

  lemma Extend(ss: seq<State>, es: seq<Event>, e: Event, n: State) returns (tt: seq<State>, fs: seq<Event>)
    requires IsRun(ss, es) && Steps(ss[|es|], e, n)
    ensures IsRun(tt, fs) && tt[|fs|] == n
    ensures ss <= tt && |tt| == |ss| + 1
  {
    tt, fs := ss + [n], es + [e];
    forall i | 0 <= i < |fs|
      ensures Steps(tt[i], fs[i], tt[i + 1])
    {
      if i < |es| {
        assert tt[i] == ss[i] && tt[i + 1] == ss[i + 1] && fs[i] == es[i];
      }
    }
  }

  /** The state of two writers and a disconnection that has found no write half. */
  function Three(disconnecting: bool, lock: bool, slot: bool, readHalf: bool, closed: Option<bool>,
                 a: Call, b: Call, c: Call): (s: State)
  {
    State(disconnecting, lock, slot, readHalf, false, closed, !readHalf, if readHalf then None else Some(true),
          [a, b, c])
  }

  lemma Put(a: Call, b: Call, c: Call, d: Call)
    ensures [a, b, c][0 := d] == [d, b, c] && [a, b, c][1 := d] == [a, d, c] && [a, b, c][2 := d] == [a, b, d]
  {
  }

  /** The first writer takes the half while the second is past its check of the flag. */
  lemma MissSetup() returns (ss: seq<State>, es: seq<Event>)
    ensures IsRun(ss, es)
    ensures ss[|es|] == Three(false, true, false, true, None, Writer(Holding(0), false, 1, 0),
                              Writer(Try(0), false, 0, 0), Closer(CloseStart))
  {
    var w, d := Writer(Start, false, 0, 0), Closer(CloseStart);
    ss, es := [INIT], [];
    ss, es := Extend(ss, es, NewWrite, INIT.(calls := [w]));
    ss, es := Extend(ss, es, NewWrite, INIT.(calls := [w, w]));
    ss, es := Extend(ss, es, NewDisconnect, INIT.(calls := [w, w, d]));
    var w1 := Writer(Try(0), false, 0, 0);
    Put(w, w, d, w1);
    ss, es := Extend(ss, es, Step(1, Written), Three(false, false, true, true, None, w, w1, d));
    Put(w, w1, d, w1);
    ss, es := Extend(ss, es, Step(0, Written), Three(false, false, true, true, None, w1, w1, d));
    var w2 := Writer(Locked(0), false, 0, 0);
    Put(w1, w1, d, w2);
    ss, es := Extend(ss, es, Step(0, Written), Three(false, true, true, true, None, w2, w1, d));
    var w3 := Writer(Holding(0), false, 1, 0);
    Put(w2, w1, d, w3);
    ss, es := Extend(ss, es, Step(0, Written), Three(false, true, false, true, None, w3, w1, d));
  }

  /** The teardown runs to its end and finds no write half. */
  lemma MissTeardown() returns (ss: seq<State>, es: seq<Event>)
    ensures IsRun(ss, es)
    ensures ss[|es|] == Three(true, true, false, false, Some(false), Writer(Holding(0), false, 1, 0),
                              Writer(Try(0), false, 0, 0), Closer(CloseEnd(true)))
  {
    ss, es := MissSetup();
    var a, b := Writer(Holding(0), false, 1, 0), Writer(Try(0), false, 0, 0);
    Put(a, b, Closer(CloseStart), Closer(CloseWrite));
    ss, es := Extend(ss, es, Step(2, Written), Three(true, true, false, true, None, a, b, Closer(CloseWrite)));
    Put(a, b, Closer(CloseWrite), Closer(CloseRead));
    ss, es := Extend(ss, es, Step(2, Written), Three(true, true, false, true, Some(false), a, b, Closer(CloseRead)));
    Put(a, b, Closer(CloseRead), Closer(CloseEnd(true)));
    var d := Closer(CloseEnd(true));
    ss, es := Extend(ss, es, Step(2, Written), Three(true, true, false, false, Some(false), a, b, d));
  }

  /** The first writer puts the half back and releases the lock. */
  lemma MissReturn() returns (ss: seq<State>, es: seq<Event>, m: nat)
    ensures IsRun(ss, es) && m <= |es|
    ensures ss[m] == Three(true, true, false, false, Some(false), Writer(Holding(0), false, 1, 0),
                           Writer(Try(0), false, 0, 0), Closer(CloseEnd(true)))
    ensures ss[|es|] == Three(true, false, true, false, Some(false), Writer(Decide(0, Written), false, 1, 1),
                              Writer(Try(0), false, 0, 0), Closer(CloseEnd(true)))
  {
    ss, es := MissTeardown();
    m := |es|;
    var torn := ss[m];
    var b, d := Writer(Try(0), false, 0, 0), Closer(CloseEnd(true));
    var a, a1 := Writer(Holding(0), false, 1, 0), Writer(Back(0, Written), false, 1, 1);
    Put(a, b, d, a1);
    ss, es := Extend(ss, es, Step(0, Written), Three(true, true, false, false, Some(false), a1, b, d));
    var a2 := Writer(Unlock(0, Written), false, 1, 1);
    Put(a1, b, d, a2);
    ss, es := Extend(ss, es, Step(0, Written), Three(true, true, true, false, Some(false), a2, b, d));
    var a3 := Writer(Decide(0, Written), false, 1, 1);
    Put(a2, b, d, a3);
    ss, es := Extend(ss, es, Step(0, Written), Three(true, false, true, false, Some(false), a3, b, d));
    assert ss[m] == torn;
  }

  /** A run in which a write begins after the teardown has ended, because the teardown did not find the half. */
  lemma WriteAfterTeardown() returns (ss: seq<State>, es: seq<Event>, m: nat)
    ensures IsRun(ss, es) && m <= |es|
    ensures |ss[m].calls| == |ss[|es|].calls| == 3 && ss[m].calls[2] == Closer(CloseEnd(true))
    ensures Writes(ss[m].calls[1]) == 0 && Writes(ss[|es|].calls[1]) == 1 && Has(HoldsHalf, ss[|es|].calls[1])
  {
    ss, es, m := MissReturn();
    var torn := ss[m];
    var a, b, d := Writer(Decide(0, Written), false, 1, 1), Writer(Try(0), false, 0, 0), Closer(CloseEnd(true));
    var b1 := Writer(Locked(0), false, 0, 0);
    Put(a, b, d, b1);
    ss, es := Extend(ss, es, Step(1, Written), Three(true, true, true, false, Some(false), a, b1, d));
    var b2 := Writer(Holding(0), false, 1, 0);
    Put(a, b1, d, b2);
    ss, es := Extend(ss, es, Step(1, Written), Three(true, true, false, false, Some(false), a, b2, d));
    assert ss[m] == torn;
  }

  /**
   * A run in which the read half is back in its slot after the teardown, because the listener was reading meanwhile.
   */
  lemma ReadHalfSurvives() returns (ss: seq<State>, es: seq<Event>)
    ensures IsRun(ss, es)
    ensures var s := ss[|es|]; AllEnded(s.calls) && s.disconnecting && s.readHalf && !s.dropped
  {
    var r0, r1 := Reader(TurnStart, false), Reader(TurnTake, false);
    var r2, r3 := Reader(TurnReading, false), Reader(TurnEnd, false);
    var d0, d1, d2, d3 := Closer(CloseStart), Closer(CloseWrite), Closer(CloseRead), Closer(CloseEnd(true));
    ss, es := [INIT], [];
    ss, es := Extend(ss, es, NewTurn, INIT.(calls := [r0]));
    ss, es := Extend(ss, es, NewDisconnect, INIT.(calls := [r0, d0]));
    Put2(r0, d0, r1);
    ss, es := Extend(ss, es, Step(0, Written), INIT.(calls := [r1, d0]));
    Put2(r1, d0, r2);
    var s := INIT.(readHalf := false, calls := [r2, d0]);
    ss, es := Extend(ss, es, Step(0, Written), s);
    Put2(r2, d0, d1);
    s := s.(disconnecting := true, calls := [r2, d1]);
    ss, es := Extend(ss, es, Step(1, Written), s);
    Put2(r2, d1, d2);
    s := s.(slot := false, shut := true, closed := Some(true), calls := [r2, d2]);
    ss, es := Extend(ss, es, Step(1, Written), s);
    Put2(r2, d2, d3);
    s := s.(closedRead := Some(false), calls := [r2, d3]);
    ss, es := Extend(ss, es, Step(1, Written), s);
    Put2(r2, d3, r3);
    s := s.(readHalf := true, calls := [r3, d3]);
    ss, es := Extend(ss, es, Step(0, Written), s);
  }

  lemma Put2(a: Call, b: Call, c: Call)
    ensures [a, b][0 := c] == [c, b] && [a, b][1 := c] == [a, c]
  {
  }
}
