/** Many workers appending to one audit_log table. Each reads the head in one step and inserts in
    another, so the head it inserts on may be stale; only the unique index on chain_seq and a
    bounded retry loop stand between them. */
module AppendProtocol {
  import opened Texts
  import opened AuditRows
  import opened OnlineVerifier
  import opened AuditTable

  const MAX_RETRIES: nat := 5

  /** Where a worker stands with the batch it is appending; a per-row writer has a batch of one.
      since and readAt are history: how many commits the table had seen when the worker started
      on the batch and when it last read the head. */
  datatype Worker =
    | Idle
    | Starting(batch: seq<Event>, attempt: nat, since: nat)
    | Holding(batch: seq<Event>, attempt: nat, since: nat, head: Head, readAt: nat)
    | Exhausted(batch: seq<Event>, since: nat)

  datatype Commit = Commit(worker: nat, events: seq<Event>)

  datatype State = State(table: seq<Row>, workers: map<nat, Worker>, log: seq<Commit>)

  datatype Step =
    | Begin(worker: nat, batch: seq<Event>)
    | FetchHead(worker: nat)
    | TryInsert(worker: nat)
    | Crash(worker: nat)

  function WorkerAt(s: State, w: nat): Worker {
    if w in s.workers then s.workers[w] else Idle
  }

  function Put(s: State, w: nat, x: Worker): State {
    s.(workers := s.workers[w := x])
  }

  /** One step of one worker; a step that is not enabled changes nothing. */
  function Apply(seal: Seal, s: State, step: Step): State {
    var w := step.worker;
    match (step, WorkerAt(s, w))
    case (Begin(_, batch), Idle) =>
      if batch == [] then s else Put(s, w, Starting(batch, 0, |s.log|))
    case (Begin(_, batch), Exhausted(_, _)) =>
      if batch == [] then s else Put(s, w, Starting(batch, 0, |s.log|))
    case (FetchHead(_), Starting(batch, attempt, since)) =>
      Put(s, w, Holding(batch, attempt, since, ReadHead(s.table), |s.log|))
    case (TryInsert(_), Holding(batch, attempt, since, head, _)) =>
      (match Insert(s.table, Build(seal, head, batch))
       case Some(table') => State(table', s.workers[w := Idle], s.log + [Commit(w, batch)])
       case None =>
         Put(s, w, if attempt + 1 == MAX_RETRIES then Exhausted(batch, since) else Starting(batch, attempt + 1, since)))
    case (Crash(_), _) => Put(s, w, Idle)
    case _ => s
  }

  function Run(seal: Seal, s: State, steps: seq<Step>): State {
    if steps == [] then s else Apply(seal, Run(seal, s, steps[..|steps| - 1]), steps[|steps| - 1])
  }

  /** Everything committed, in commit order. */
  function Committed(log: seq<Commit>): seq<Event> {
    if log == [] then [] else Committed(log[..|log| - 1]) + log[|log| - 1].events
  }

  // ---------------------------------------------------------------- the invariant

  /** The table is the starting table plus the committed events appended in commit order. */
  ghost predicate Serialized(seal: Seal, start: seq<Row>, s: State) {
    && s.table == start + Build(seal, ReadHead(start), Committed(s.log))
    && forall i :: 0 <= i < |s.log| ==> s.log[i].events != []
  }

  /** No commit by w from position since on. */
  ghost predicate OthersOnly(log: seq<Commit>, since: nat, w: nat) {
    since <= |log| && forall i :: since <= i < |log| ==> log[i].worker != w
  }

  /** Each failed attempt of the worker has seen at least one commit by somebody else, and a head
      in hand is the head the table had when it was read. */
  ghost predicate WorkerOk(seal: Seal, start: seq<Row>, s: State, w: nat) {
    match WorkerAt(s, w)
    case Idle => true
    case Starting(batch, attempt, since) =>
      && batch != [] && attempt < MAX_RETRIES
      && since + attempt <= |s.log| && OthersOnly(s.log, since, w)
    case Holding(batch, attempt, since, head, readAt) =>
      && batch != [] && attempt < MAX_RETRIES
      && since + attempt <= readAt <= |s.log| && OthersOnly(s.log, since, w)
      && head == After(seal, ReadHead(start), Committed(s.log[..readAt]))
    case Exhausted(batch, since) =>
      since + MAX_RETRIES <= |s.log| && OthersOnly(s.log, since, w)
  }

  ghost predicate Inv(seal: Seal, start: seq<Row>, s: State) {
    && Serialized(seal, start, s)
    && forall w :: WorkerOk(seal, start, s, w)
  }

  lemma {:induction false} CommittedAppend(a: seq<Commit>, b: seq<Commit>)
    ensures Committed(a + b) == Committed(a) + Committed(b)
  {
    if b == [] {
      assert a + b == a;
    } else {
      CommittedAppend(a, b[..|b| - 1]);
      assert (a + b)[..|a + b| - 1] == a + b[..|b| - 1];
      Regroup(Committed(a), Committed(b[..|b| - 1]), b[|b| - 1].events);
    }
  }

  /** The current head, in terms of the commit log. */
  lemma HeadIsAfterLog(seal: Seal, start: seq<Row>, s: State)
    requires Serialized(seal, start, s)
    ensures ReadHead(s.table) == After(seal, ReadHead(start), Committed(s.log))
  {
    HeadAfterInsert(seal, start, Committed(s.log));
  }

  lemma {:induction false} CommitsAreNonEmpty(log: seq<Commit>, i: nat)
    requires i < |log| && log[i].events != []
    ensures |Committed(log)| > |Committed(log[..i])|
    decreases |log|
  {
    assert log == log[..i] + log[i..];
    CommittedAppend(log[..i], log[i..]);
    var tail := log[i..];
    assert tail == [log[i]] + tail[1..];
    CommittedAppend([log[i]], tail[1..]);
    assert [log[i]][..0] == [];
    assert Committed([log[i]]) == Committed([]) + log[i].events;
  }

  // ---------------------------------------------------------------- stale heads

  /** A stale head can never commit: the insert goes through exactly when nobody has committed
      since the head was read. */
  lemma InsertIffFresh(seal: Seal, start: seq<Row>, s: State, w: nat)
    requires Inv(seal, start, s) && WorkerAt(s, w).Holding?
    ensures var x := WorkerAt(s, w);
            Insert(s.table, Build(seal, x.head, x.batch)).Some? <==> x.readAt == |s.log|
    ensures var x := WorkerAt(s, w);
            x.readAt == |s.log| ==> x.head == ReadHead(s.table)
  {
    var x := WorkerAt(s, w);
    assert WorkerOk(seal, start, s, w);
    HeadIsAfterLog(seal, start, s);
    if x.readAt == |s.log| {
      assert s.log[..x.readAt] == s.log;
      FreshHeadInserts(seal, s.table, x.batch);
    } else {
      StaleConflicts(seal, start, s, x);
    }
  }

  lemma StaleConflicts(seal: Seal, start: seq<Row>, s: State, x: Worker)
    requires Serialized(seal, start, s) && x.Holding? && x.batch != [] && x.readAt < |s.log|
    requires x.head == After(seal, ReadHead(start), Committed(s.log[..x.readAt]))
    ensures Conflicts(s.table, Build(seal, x.head, x.batch))
  {
    var seen, now := Committed(s.log[..x.readAt]), Committed(s.log);
    CommitsAreNonEmpty(s.log, x.readAt);
    BuildNumbers(seal, ReadHead(start), seen);
    BuildNumbers(seal, ReadHead(start), now);
    BuildNumbers(seal, x.head, x.batch);
    var i := |start| + |seen|;
    assert s.table[i] == Build(seal, ReadHead(start), now)[|seen|];
    assert s.table[i].chainSeq == Build(seal, x.head, x.batch)[0].chainSeq;
  }

  // ---------------------------------------------------------------- every step keeps the invariant

  lemma InsertKeepsInv(seal: Seal, start: seq<Row>, s: State, w: nat)
    requires Inv(seal, start, s) && WorkerAt(s, w).Holding? && WorkerAt(s, w).readAt == |s.log|
    ensures Inv(seal, start, Apply(seal, s, TryInsert(w)))
  {
    var x := WorkerAt(s, w);
    var s' := Apply(seal, s, TryInsert(w));
    InsertIffFresh(seal, start, s, w);
    HeadIsAfterLog(seal, start, s);
    assert WorkerOk(seal, start, s, w);
    assert s'.log[..|s.log|] == s.log;
    BuildAppend(seal, ReadHead(start), Committed(s.log), x.batch);
    Regroup(start, Build(seal, ReadHead(start), Committed(s.log)), Build(seal, x.head, x.batch));
    forall v ensures WorkerOk(seal, start, s', v) {
      assert WorkerOk(seal, start, s, v);
      if v != w && WorkerAt(s, v).Holding? {
        assert s'.log[..WorkerAt(s, v).readAt] == s.log[..WorkerAt(s, v).readAt];
      }
    }
  }

  lemma ConflictKeepsInv(seal: Seal, start: seq<Row>, s: State, w: nat)
    requires Inv(seal, start, s) && WorkerAt(s, w).Holding? && WorkerAt(s, w).readAt < |s.log|
    ensures Inv(seal, start, Apply(seal, s, TryInsert(w)))
  {
    var s' := Apply(seal, s, TryInsert(w));
    InsertIffFresh(seal, start, s, w);
    forall v ensures WorkerOk(seal, start, s', v) {
      assert WorkerOk(seal, start, s, v);
    }
  }

  lemma StepKeepsInv(seal: Seal, start: seq<Row>, s: State, step: Step)
    requires Inv(seal, start, s)
    ensures Inv(seal, start, Apply(seal, s, step))
  {
    var w := step.worker;
    assert WorkerOk(seal, start, s, w);
    if step.TryInsert? && WorkerAt(s, w).Holding? {
      if WorkerAt(s, w).readAt == |s.log| {
        InsertKeepsInv(seal, start, s, w);
      } else {
        ConflictKeepsInv(seal, start, s, w);
      }
    } else {
      var s' := Apply(seal, s, step);
      HeadIsAfterLog(seal, start, s);
      assert s.log[..|s.log|] == s.log;
      forall v ensures WorkerOk(seal, start, s', v) {
        assert WorkerOk(seal, start, s, v);
      }
    }
  }

  /** The state before anybody has started. */
  function Fresh(table: seq<Row>): State {
    State(table, map[], [])
  }

  lemma {:induction false} RunKeepsInv(seal: Seal, start: seq<Row>, steps: seq<Step>)
    ensures Inv(seal, start, Run(seal, Fresh(start), steps))
  {
    if steps == [] {
      assert start + [] == start;
    } else {
      RunKeepsInv(seal, start, steps[..|steps| - 1]);
      StepKeepsInv(seal, start, Run(seal, Fresh(start), steps[..|steps| - 1]), steps[|steps| - 1]);
    }
  }

  // ---------------------------------------------------------------- what holds in every run

  /** Serializability: whatever the interleaving, the table is what appending the committed
      batches one row at a time, in commit order, would have produced. Nothing is ever lost,
      reordered or overwritten. Holds from any starting table. */
  lemma EveryRunIsSerial(seal: Seal, start: seq<Row>, steps: seq<Step>)
    ensures var s := Run(seal, Fresh(start), steps);
            LogEach(seal, start, Committed(s.log)) == Some(s.table) && start <= s.table
  {
    var s := Run(seal, Fresh(start), steps);
    RunKeepsInv(seal, start, steps);
    BatchIsRowByRow(seal, start, Committed(s.log));
    FreshHeadInserts(seal, start, Committed(s.log));
  }

  /** From a table holding a genuine chain, every run keeps it genuine: the chained rows carry
      exactly the numbers 1..m, each names the hash of the one before, and the online verifier
      accepts. */
  lemma EveryRunVerifies(seal: Seal, start: seq<Row>, steps: seq<Step>)
    requires ChainOk(seal, start)
    ensures var s := Run(seal, Fresh(start), steps);
            && ChainOk(seal, s.table)
            && |ChainPart(s.table)| == |ChainPart(start)| + |Committed(s.log)|
            && OnlineVerdict(seal, s.table, 1, None) == Intact
  {
    var s := Run(seal, Fresh(start), steps);
    RunKeepsInv(seal, start, steps);
    AppendKeepsChain(seal, start, Committed(s.log));
    ChainOkAccepted(seal, s.table);
  }

  /** A worker that used up its retries has watched at least that many commits by other workers,
      and none of its own, since it started on the batch. */
  lemma ExhaustionNeedsRivals(seal: Seal, start: seq<Row>, steps: seq<Step>, w: nat)
    requires WorkerAt(Run(seal, Fresh(start), steps), w).Exhausted?
    ensures var s := Run(seal, Fresh(start), steps);
            var since := WorkerAt(s, w).since;
            && since + 5 <= |s.log|
            && forall i :: since <= i < |s.log| ==> s.log[i].worker != w
  {
    RunKeepsInv(seal, start, steps);
    assert WorkerOk(seal, start, Run(seal, Fresh(start), steps), w);
  }

  /** Every failed attempt implies the chain grew after that attempt's head read. */
  lemma FailureMeansGrowth(seal: Seal, start: seq<Row>, steps: seq<Step>, w: nat)
    requires var s := Run(seal, Fresh(start), steps);
             WorkerAt(s, w).Holding? && Apply(seal, s, TryInsert(w)).log == s.log
    ensures var s := Run(seal, Fresh(start), steps);
            ReadHead(s.table).seqNo > WorkerAt(s, w).head.seqNo && WorkerAt(s, w).readAt < |s.log|
  {
    var s := Run(seal, Fresh(start), steps);
    var x := WorkerAt(s, w);
    RunKeepsInv(seal, start, steps);
    InsertIffFresh(seal, start, s, w);
    assert WorkerOk(seal, start, s, w);
    HeadIsAfterLog(seal, start, s);
    CommitsAreNonEmpty(s.log, x.readAt);
    BuildNumbers(seal, ReadHead(start), Committed(s.log));
    BuildNumbers(seal, ReadHead(start), Committed(s.log[..x.readAt]));
  }

  // ---------------------------------------------------------------- progress

  /** A longer run is the shorter one followed by the rest. */
  lemma {:induction false} RunAppend(seal: Seal, s: State, a: seq<Step>, b: seq<Step>)
    ensures Run(seal, s, a + b) == Run(seal, Run(seal, s, a), b)
  {
    if b == [] {
      assert a + b == a;
    } else {
      RunAppend(seal, s, a, b[..|b| - 1]);
      assert (a + b)[..|a + b| - 1] == a + b[..|b| - 1];
    }
  }

  lemma RunTwo(seal: Seal, s: State, x: Step, y: Step)
    ensures Run(seal, s, [x, y]) == Apply(seal, Apply(seal, s, x), y)
  {
    assert [x, y][..1] == [x] && [x][..0] == [];
    assert Run(seal, s, [x]) == Apply(seal, Run(seal, s, []), x);
  }

  lemma RunThree(seal: Seal, s: State, x: Step, y: Step, z: Step)
    ensures Run(seal, s, [x, y, z]) == Apply(seal, Apply(seal, Apply(seal, s, x), y), z)
  {
    RunTwo(seal, s, x, y);
    assert [x, y, z][..2] == [x, y];
  }

  /** Worker w has committed the batch on top of what was there; everybody else is where they were. */
  ghost predicate CommittedOnTop(seal: Seal, s: State, s': State, w: nat, batch: seq<Event>) {
    && s'.table == s.table + Build(seal, ReadHead(s.table), batch)
    && s'.log == s.log + [Commit(w, batch)]
    && WorkerAt(s', w) == Idle
    && forall v :: v != w ==> WorkerAt(s', v) == WorkerAt(s, v)
  }

  /** Reading the head and inserting with nobody in between commits, at whatever attempt. */
  lemma QuietRoundCommits(seal: Seal, s: State, w: nat)
    requires WorkerAt(s, w).Starting?
    ensures CommittedOnTop(seal, s, Run(seal, s, [FetchHead(w), TryInsert(w)]), w, WorkerAt(s, w).batch)
  {
    RunTwo(seal, s, FetchHead(w), TryInsert(w));
    FreshHeadInserts(seal, s.table, WorkerAt(s, w).batch);
  }

  /** Progress: after any run, a worker with nothing in hand that is given a batch, and a worker about
      to try again after any number of conflicts, commits it by one undisturbed head read and insert. */
  lemma {:induction false} UndisturbedWorkerCommits(seal: Seal, start: seq<Row>, steps: seq<Step>, w: nat, batch: seq<Event>)
    requires batch != []
    ensures var s := Run(seal, Fresh(start), steps);
            && (WorkerAt(s, w).Idle? || WorkerAt(s, w).Exhausted? ==>
                  CommittedOnTop(seal, s, Run(seal, Fresh(start), steps + [Begin(w, batch), FetchHead(w), TryInsert(w)]), w, batch))
            && (WorkerAt(s, w).Starting? ==>
                  CommittedOnTop(seal, s, Run(seal, Fresh(start), steps + [FetchHead(w), TryInsert(w)]), w, WorkerAt(s, w).batch))
  {
    var s := Run(seal, Fresh(start), steps);
    RunAppend(seal, Fresh(start), steps, [Begin(w, batch), FetchHead(w), TryInsert(w)]);
    RunAppend(seal, Fresh(start), steps, [FetchHead(w), TryInsert(w)]);
    if WorkerAt(s, w).Starting? {
      QuietRoundCommits(seal, s, w);
    } else if WorkerAt(s, w).Idle? || WorkerAt(s, w).Exhausted? {
      var s1 := Apply(seal, s, Begin(w, batch));
      RunThree(seal, s, Begin(w, batch), FetchHead(w), TryInsert(w));
      RunTwo(seal, s1, FetchHead(w), TryInsert(w));
      QuietRoundCommits(seal, s1, w);
    }
  }

  /** How an attempt ends, in every run: the insert commits if nobody has committed since the head was
      read; otherwise the worker starts over, and gives up after the fifth attempt. */
  lemma {:induction false} AttemptOutcome(seal: Seal, start: seq<Row>, steps: seq<Step>, w: nat)
    requires WorkerAt(Run(seal, Fresh(start), steps), w).Holding?
    ensures var s := Run(seal, Fresh(start), steps);
            var s' := Run(seal, Fresh(start), steps + [TryInsert(w)]);
            var x := WorkerAt(s, w);
            && (x.readAt == |s.log| ==> CommittedOnTop(seal, s, s', w, x.batch))
            && (x.readAt != |s.log| ==>
                  && s'.table == s.table && s'.log == s.log
                  && WorkerAt(s', w) == (if x.attempt == 4 then Exhausted(x.batch, x.since) else Starting(x.batch, x.attempt + 1, x.since))
                  && forall v :: v != w ==> WorkerAt(s', v) == WorkerAt(s, v))
  {
    var s := Run(seal, Fresh(start), steps);
    RunKeepsInv(seal, start, steps);
    InsertIffFresh(seal, start, s, w);
    assert WorkerOk(seal, start, s, w);
    assert (steps + [TryInsert(w)])[..|steps|] == steps;
  }

  /** A crash forgets the batch in hand and nothing else; and no step but an insert touches the table. */
  lemma OnlyInsertsWrite(seal: Seal, s: State, step: Step)
    requires !step.TryInsert?
    ensures var s' := Apply(seal, s, step);
            && s'.table == s.table && s'.log == s.log
            && (forall v :: v != step.worker ==> WorkerAt(s', v) == WorkerAt(s, v))
            && (step.Crash? ==> WorkerAt(s', step.worker) == Idle)
  {
  }

  /** The rounds lost to a rival add up: one round in which v commits between w's head read and w's
      insert. */
  function LostRound(w: nat, v: nat, e: Event): seq<Step> {
    [FetchHead(w), Begin(v, [e]), FetchHead(v), TryInsert(v), TryInsert(w)]
  }

  function LostRounds(w: nat, v: nat, e: Event, n: nat): seq<Step> {
    if n == 0 then [] else LostRounds(w, v, e, n - 1) + LostRound(w, v, e)
  }

  lemma {:induction false} RoundIsLost(seal: Seal, s: State, w: nat, v: nat, e: Event)
    requires v != w && WorkerAt(s, w).Starting? && WorkerAt(s, w).batch != [] && WorkerAt(s, v).Idle?
    ensures var x := WorkerAt(s, w);
            var s' := Run(seal, s, LostRound(w, v, e));
            && s'.log == s.log + [Commit(v, [e])]
            && WorkerAt(s', v).Idle?
            && WorkerAt(s', w) == if x.attempt == 4 then Exhausted(x.batch, x.since) else Starting(x.batch, x.attempt + 1, x.since)
  {
    var x := WorkerAt(s, w);
    var s1 := Apply(seal, s, FetchHead(w));
    var s4 := Run(seal, s1, [Begin(v, [e]), FetchHead(v), TryInsert(v)]);
    RivalCommits(seal, s1, v, e);
    assert [FetchHead(w)][..0] == [];
    assert Run(seal, s, [FetchHead(w)]) == Apply(seal, Run(seal, s, []), FetchHead(w));
    RunAppend(seal, s, [FetchHead(w)], [Begin(v, [e]), FetchHead(v), TryInsert(v)]);
    assert LostRound(w, v, e)[..4] == [FetchHead(w)] + [Begin(v, [e]), FetchHead(v), TryInsert(v)];
    assert Run(seal, s, LostRound(w, v, e)) == Apply(seal, s4, TryInsert(w));
    HeldHeadConflicts(seal, s.table, [e], x.batch);
  }

  lemma {:induction false} RivalCommits(seal: Seal, s: State, v: nat, e: Event)
    requires WorkerAt(s, v).Idle?
    ensures CommittedOnTop(seal, s, Run(seal, s, [Begin(v, [e]), FetchHead(v), TryInsert(v)]), v, [e])
  {
    var s1 := Apply(seal, s, Begin(v, [e]));
    RunThree(seal, s, Begin(v, [e]), FetchHead(v), TryInsert(v));
    RunTwo(seal, s1, FetchHead(v), TryInsert(v));
    QuietRoundCommits(seal, s1, v);
  }

  /** Rows built on a head do not go in once anything has been added above that head. */
  lemma HeldHeadConflicts(seal: Seal, table: seq<Row>, added: seq<Event>, batch: seq<Event>)
    requires added != [] && batch != []
    ensures Conflicts(table + Build(seal, ReadHead(table), added), Build(seal, ReadHead(table), batch))
  {
    BuildNumbers(seal, ReadHead(table), added);
    BuildNumbers(seal, ReadHead(table), batch);
    var grown, rows := table + Build(seal, ReadHead(table), added), Build(seal, ReadHead(table), batch);
    assert grown[|table|].chainSeq == rows[0].chainSeq;
  }

  /** The bound on retries is reached, and not before: from any table, a worker whose head reads are
      each followed by a rival's commit is still trying after four such rounds and has given up after
      the fifth. */
  lemma {:induction false} FiveLostRoundsExhaust(seal: Seal, start: seq<Row>, w: nat, v: nat, batch: seq<Event>, e: Event, n: nat)
    requires v != w && batch != [] && n <= 5
    ensures var s := Run(seal, Fresh(start), [Begin(w, batch)] + LostRounds(w, v, e, n));
            && |s.log| == n && WorkerAt(s, v).Idle?
            && WorkerAt(s, w) == if n == 5 then Exhausted(batch, 0) else Starting(batch, n, 0)
    decreases n
  {
    if n == 0 {
      assert [Begin(w, batch)] + [] == [Begin(w, batch)];
      assert [Begin(w, batch)][..0] == [];
      assert Run(seal, Fresh(start), [Begin(w, batch)]) == Apply(seal, Run(seal, Fresh(start), []), Begin(w, batch));
    } else {
      FiveLostRoundsExhaust(seal, start, w, v, batch, e, n - 1);
      var before := [Begin(w, batch)] + LostRounds(w, v, e, n - 1);
      assert [Begin(w, batch)] + LostRounds(w, v, e, n) == before + LostRound(w, v, e);
      RunAppend(seal, Fresh(start), before, LostRound(w, v, e));
      RoundIsLost(seal, Run(seal, Fresh(start), before), w, v, e);
    }
  }
}
