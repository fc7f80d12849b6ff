/** BatchedAuditChain: an in-memory queue of events that is flushed to the audit_log table in
    batches, with retries when another worker gets in between, and the per-row path beside it.
    Each method runs under the instance's lock; what other workers and the database do meanwhile
    is a parameter. */
module BatchedChain {
  import opened Texts
  import opened AuditRows
  import opened AuditTable
  import opened AppendProtocol

  // ---------------------------------------------------------------- the world around a flush

  /** What happens around one insert attempt: the events other workers commit before this attempt
      reads the head, those they commit between the head read and the insert, and whether the
      database fails with something other than a uniqueness conflict (a lost connection, or the
      task being cancelled). */
  datatype Attempt = Attempt(before: seq<Event>, between: seq<Event>, fault: bool)

  type World = nat -> Attempt

  /** The first attempt from k on that is not merely lost to a rival, or MAX_RETRIES. */
  function LastAttempt(world: World, k: nat): (n: nat)
    requires k <= MAX_RETRIES
    ensures k <= n <= MAX_RETRIES
    decreases MAX_RETRIES - k
  {
    if k == MAX_RETRIES || world(k).fault || world(k).between == [] then k else LastAttempt(world, k + 1)
  }

  datatype Ending = Landed | Contended | Faulted

  function EndingOf(world: World): Ending {
    var k := LastAttempt(world, 0);
    if k == MAX_RETRIES then Contended else if world(k).fault then Faulted else Landed
  }

  /** What other workers commit during the first k attempts. */
  function Rivals(world: World, k: nat): seq<Event> {
    if k == 0 then [] else Rivals(world, k - 1) + world(k - 1).before + world(k - 1).between
  }

  /** What other workers commit over the whole call, up to its own insert if there is one. */
  function Meanwhile(world: World): seq<Event> {
    var k := LastAttempt(world, 0);
    if k == MAX_RETRIES then Rivals(world, k) else Rivals(world, k + 1)
  }

  /** Everything that reaches the table during the call, in order. */
  function Traffic(world: World, batch: seq<Event>): seq<Event> {
    Meanwhile(world) + if EndingOf(world) == Landed then batch else []
  }

  lemma {:induction false} LastAttemptIsFirstStop(world: World, k: nat)
    requires k <= MAX_RETRIES
    ensures var n := LastAttempt(world, k);
            && (forall i :: k <= i < n ==> !world(i).fault && world(i).between != [])
            && (n < MAX_RETRIES ==> world(n).fault || world(n).between == [])
    decreases MAX_RETRIES - k
  {
    if k < MAX_RETRIES && !world(k).fault && world(k).between != [] {
      LastAttemptIsFirstStop(world, k + 1);
    }
  }

  /** A batch lands exactly when, within the retry budget, some attempt runs from head read to
      insert without a rival commit, and no earlier attempt hit a database fault. */
  lemma LandsIffQuietAttempt(world: World)
    ensures EndingOf(world) == Landed
       <==> exists k :: 0 <= k < 5 && world(k).between == [] && !world(k).fault
                        && forall i :: 0 <= i < k ==> !world(i).fault
  {
    LastAttemptIsFirstStop(world, 0);
    var n := LastAttempt(world, 0);
    if EndingOf(world) == Landed {
      assert world(n).between == [];
    }
    forall k | 0 <= k < MAX_RETRIES && world(k).between == [] && !world(k).fault
               && forall i :: 0 <= i < k ==> !world(i).fault
      ensures EndingOf(world) == Landed
    {
      assert n <= k;
    }
  }

  // ---------------------------------------------------------------- the shared database

  class Database {
    var rows: seq<Row>

    constructor (rows: seq<Row>)
      ensures this.rows == rows
    {
      this.rows := rows;
    }

    /** Other workers commit these events. */
    method OthersCommit(seal: Seal, events: seq<Event>)
      modifies this
      ensures rows == old(rows) + Build(seal, ReadHead(old(rows)), events)
    {
      rows := rows + Build(seal, ReadHead(rows), events);
    }

    /** The loop that gives every row of a batch its number, predecessor and hash. */
    method ChainParams(seal: Seal, head: Head, batch: seq<Event>) returns (params: seq<Row>)
      ensures params == Build(seal, head, batch)
    {
      params := [];
      var runningPrev := head.hash;
      for i := 0 to |batch|
        invariant params == Build(seal, head, batch[..i])
        invariant After(seal, head, batch[..i]) == Head(head.seqNo + i, runningPrev)
      {
        var chainSeq := head.seqNo + i + 1;
        var rowHash := seal(chainSeq, batch[i], Some("v2"), runningPrev);
        var row := Row(Some(chainSeq), Some(runningPrev), Some(rowHash), batch[i], Some("v2"));
        assert batch[..i + 1] == batch[..i] + [batch[i]];
        BuildAppend(seal, head, batch[..i], [batch[i]]);
        AfterAppend(seal, head, batch[..i], [batch[i]]);
        BuildOne(seal, Head(head.seqNo + i, runningPrev), batch[i]);
        params := params + [row];
        runningPrev := rowHash;
      }
      assert batch[..|batch|] == batch;
    }

    /** One attempt: read the head, chain the batch onto it, insert. A rival commit in between makes
        the insert fail and is the only thing that does. */
    method TryOnce(seal: Seal, batch: seq<Event>, now: Attempt) returns (ending: Option<Ending>)
      requires batch != []
      modifies this
      ensures ending == if now.fault then Some(Faulted) else if now.between == [] then Some(Landed) else None
      ensures rows == old(rows) + Build(seal, ReadHead(old(rows)),
                                        now.before + now.between + OwnPart(now, batch))
    {
      OthersCommit(seal, now.before);
      var head := ReadHead(rows);
      var params := ChainParams(seal, head, batch);
      ghost var seen := rows;
      OthersCommit(seal, now.between);
      Stacked(seal, old(rows), now.before, now.between);
      if now.fault {
        assert now.before + now.between + [] == now.before + now.between;
        return Some(Faulted);
      }
      if now.between == [] {
        assert rows == seen;
        FreshHeadInserts(seal, rows, batch);
        Stacked(seal, old(rows), now.before + now.between, batch);
      } else {
        HeldHeadConflicts(seal, seen, now.between, batch);
        assert now.before + now.between + [] == now.before + now.between;
      }
      match Insert(rows, params) {
        case Some(rows') =>
          rows := rows';
          ending := Some(Landed);
        case None =>
          ending := None;
      }
    }

    /** The retry loop shared by the batched flush and the per-row path: start over on a uniqueness
        conflict, up to MAX_RETRIES times. */
    method AppendWithRetries(seal: Seal, batch: seq<Event>, world: World) returns (ending: Ending)
      requires batch != []
      modifies this
      ensures ending == EndingOf(world)
      ensures rows == old(rows) + Build(seal, ReadHead(old(rows)), Traffic(world, batch))
    {
      ghost var head0 := ReadHead(rows);
      assert old(rows) + [] == old(rows);
      for attempt := 0 to MAX_RETRIES
        invariant LastAttempt(world, 0) == LastAttempt(world, attempt)
        invariant rows == old(rows) + Build(seal, head0, Rivals(world, attempt))
      {
        AttemptStacks(seal, old(rows), batch, world, attempt);
        AttemptEnds(batch, world, attempt);
        var r := TryOnce(seal, batch, world(attempt));
        if r.Some? {
          return r.value;
        }
      }
      assert Traffic(world, batch) == Rivals(world, MAX_RETRIES);
      return Contended;
    }
  }

  /** What the caller itself writes in an attempt. */
  function OwnPart(now: Attempt, batch: seq<Event>): seq<Event> {
    if !now.fault && now.between == [] then batch else []
  }

  /** An attempt adds its events on top of the earlier ones. */
  lemma AttemptStacks(seal: Seal, table: seq<Row>, batch: seq<Event>, world: World, k: nat)
    ensures var t := table + Build(seal, ReadHead(table), Rivals(world, k));
            var now := world(k);
            t + Build(seal, ReadHead(t), now.before + now.between + OwnPart(now, batch))
            == table + Build(seal, ReadHead(table), Rivals(world, k + 1) + OwnPart(now, batch))
  {
    var now := world(k);
    Stacked(seal, table, Rivals(world, k), now.before + now.between + OwnPart(now, batch));
    assert Rivals(world, k) + (now.before + now.between + OwnPart(now, batch)) == Rivals(world, k + 1) + OwnPart(now, batch);
  }

  /** An attempt that is not lost to a rival is the last one. */
  lemma AttemptEnds(batch: seq<Event>, world: World, k: nat)
    requires k < MAX_RETRIES && LastAttempt(world, 0) == LastAttempt(world, k)
    ensures var now := world(k);
            if now.fault then EndingOf(world) == Faulted && Traffic(world, batch) == Rivals(world, k + 1) + OwnPart(now, batch)
            else if now.between == [] then EndingOf(world) == Landed && Traffic(world, batch) == Rivals(world, k + 1) + OwnPart(now, batch)
            else LastAttempt(world, 0) == LastAttempt(world, k + 1) && Rivals(world, k + 1) + OwnPart(now, batch) == Rivals(world, k + 1)
  {
  }

  lemma BuildOne(seal: Seal, head: Head, e: Event)
    ensures Build(seal, head, [e]) == [NewRow(seal, head, e)]
    ensures After(seal, head, [e]) == HeadOf(NewRow(seal, head, e))
  {
    assert [e][1..] == [];
  }

  /** Two appends in a row are one append of the concatenation. */
  lemma Stacked(seal: Seal, table: seq<Row>, a: seq<Event>, b: seq<Event>)
    ensures var t := table + Build(seal, ReadHead(table), a);
            t + Build(seal, ReadHead(t), b) == table + Build(seal, ReadHead(table), a + b)
  {
    HeadAfterInsert(seal, table, a);
    BuildAppend(seal, ReadHead(table), a, b);
    Regroup(table, Build(seal, ReadHead(table), a), Build(seal, After(seal, ReadHead(table), a), b));
  }

  // ---------------------------------------------------------------- the per-row path

  datatype LogResult = Logged | LogRaised

  /** log_audit without a batched chain: one event, the same retry loop, and the fail-deny
      setting deciding whether a used-up retry budget raises. */
  method LogAudit(db: Database, seal: Seal, e: Event, failDeny: bool, world: World) returns (r: LogResult)
    modifies db
    ensures db.rows == old(db.rows) + Build(seal, ReadHead(old(db.rows)), Traffic(world, [e]))
    ensures r == Logged <==> EndingOf(world) == Landed || (EndingOf(world) == Contended && !failDeny)
  {
    var ending := db.AppendWithRetries(seal, [e], world);
    match ending {
      case Landed => r := Logged;
      case Faulted => r := LogRaised;
      case Contended => r := if failDeny then LogRaised else Logged;
    }
  }

  // ---------------------------------------------------------------- the batched chain

  /** How a batch that missed the table was accounted for. */
  datatype Cause = RaisedToCaller | MarkedUnhealthy | FailOpen | DatabaseFault

  datatype FlushResult = Wrote(n: nat) | RaisedExhausted | RaisedFault

  /** What the flush of a batch answered, and whether anybody was listening: the periodic loop
      swallows whatever its flush raises. */
  datatype Answer = Answer(heard: bool, reply: FlushResult)

  /** A batch that left the queue. */
  datatype Settled =
    | Persisted(batch: seq<Event>, answer: Answer)
    | Dropped(batch: seq<Event>, cause: Cause, answer: Answer)

  function RaiseOf(r: FlushResult): seq<FlushResult> {
    if r.Wrote? then [] else [r]
  }

  /** The exceptions callers got, batch by batch. */
  ghost function HeardRaises(settled: seq<Settled>): seq<FlushResult> {
    if settled == [] then []
    else
      var last := settled[|settled| - 1].answer;
      HeardRaises(settled[..|settled| - 1]) + if last.heard then RaiseOf(last.reply) else []
  }

  /** Every event that left the queue, in order. */
  ghost function Departed(settled: seq<Settled>): seq<Event> {
    if settled == [] then [] else Departed(settled[..|settled| - 1]) + settled[|settled| - 1].batch
  }

  /** Those that were written. */
  ghost function Written(settled: seq<Settled>): seq<Event> {
    if settled == [] then []
    else
      var last := settled[|settled| - 1];
      Written(settled[..|settled| - 1]) + if last.Persisted? then last.batch else []
  }

  /** The events of the rows marked as ours, in table order. */
  ghost function Ours(rows: seq<Row>, mine: seq<bool>): seq<Event>
    requires |rows| == |mine|
  {
    if rows == [] then []
    else
      var k := |rows| - 1;
      Ours(rows[..k], mine[..k]) + if mine[k] then [rows[k].event] else []
  }

  ghost function Marks(n: nat, b: bool): seq<bool> {
    seq(n, _ => b)
  }

  lemma {:induction false} OursAppend(r: seq<Row>, m: seq<bool>, r': seq<Row>, m': seq<bool>)
    requires |r| == |m| && |r'| == |m'|
    ensures Ours(r + r', m + m') == Ours(r, m) + Ours(r', m')
  {
    if r' == [] {
      assert r + r' == r && m + m' == m;
    } else {
      var k := |r'| - 1;
      OursAppend(r, m, r'[..k], m'[..k]);
      assert (r + r')[..|r| + k] == r + r'[..k] && (m + m')[..|r| + k] == m + m'[..k];
      Regroup(Ours(r, m), Ours(r'[..k], m'[..k]), if m'[k] then [r'[k].event] else []);
    }
  }

  lemma {:induction false} OursNone(r: seq<Row>)
    ensures Ours(r, Marks(|r|, false)) == []
  {
    if r != [] {
      var k := |r| - 1;
      OursNone(r[..k]);
      assert Marks(|r|, false)[..k] == Marks(k, false);
    }
  }

  lemma {:induction false} OursAll(r: seq<Row>, events: seq<Event>)
    requires |r| == |events| && forall i :: 0 <= i < |r| ==> r[i].event == events[i]
    ensures Ours(r, Marks(|r|, true)) == events
  {
    if r != [] {
      var k := |r| - 1;
      OursAll(r[..k], events[..k]);
      assert Marks(|r|, true)[..k] == Marks(k, true);
      assert events == events[..k] + [events[k]];
    }
  }

  /** Which rows are ours after others and then we have written. */
  ghost function MarksAfter(mine: seq<bool>, others: seq<Event>, own: seq<Event>): seq<bool> {
    mine + (Marks(|others|, false) + Marks(|own|, true))
  }

  lemma OursAfterTraffic(seal: Seal, rows: seq<Row>, mine: seq<bool>, others: seq<Event>, own: seq<Event>)
    requires |rows| == |mine|
    ensures var rows' := rows + Build(seal, ReadHead(rows), others + own);
            |rows'| == |MarksAfter(mine, others, own)|
            && Ours(rows', MarksAfter(mine, others, own)) == Ours(rows, mine) + own
  {
    var head := ReadHead(rows);
    BuildAppend(seal, head, others, own);
    BuildNumbers(seal, head, others);
    BuildNumbers(seal, After(seal, head, others), own);
    var x, y := Build(seal, head, others), Build(seal, After(seal, head, others), own);
    OursOfBlocks(x, y, own);
    OursAppend(rows, mine, x + y, Marks(|x|, false) + Marks(|y|, true));
  }

  lemma OursOfBlocks(x: seq<Row>, y: seq<Row>, own: seq<Event>)
    requires |y| == |own| && forall i :: 0 <= i < |y| ==> y[i].event == own[i]
    ensures Ours(x + y, Marks(|x|, false) + Marks(|y|, true)) == own
  {
    OursNone(x);
    OursAll(y, own);
    OursAppend(x, Marks(|x|, false), y, Marks(|y|, true));
  }

  lemma SettledAppend(settled: seq<Settled>, s: Settled)
    ensures Departed(settled + [s]) == Departed(settled) + s.batch
    ensures Written(settled + [s]) == Written(settled) + if s.Persisted? then s.batch else []
  {
    assert (settled + [s])[..|settled|] == settled;
  }

  lemma RaisesAppend(settled: seq<Settled>, s: Settled)
    ensures HeardRaises(settled + [s]) == HeardRaises(settled) + if s.answer.heard then RaiseOf(s.answer.reply) else []
  {
    assert (settled + [s])[..|settled|] == settled;
  }

  /** The process-wide unhealthy flag behind /readyz. */
  class ProcessHealth {
    var unhealthy: bool

    constructor ()
      ensures !unhealthy
    {
      unhealthy := false;
    }
  }

  /** Conservation. Every queued event is in exactly one place, in queueing order: still pending,
      or in one settled batch; the rows of ours in the table are exactly the persisted batches,
      once each and in order. A batch lost to contention was raised to a caller that heard it, or set
      the unhealthy flag, or was dropped under the fail-open setting; one lost to a database fault
      made its flush raise, heard or not. */
  ghost predicate Books(queued: seq<Event>, pending: seq<Event>, settled: seq<Settled>,
                        rows: seq<Row>, mine: seq<bool>, failDeny: bool, unhealthy: bool)
  {
    && Departed(settled) + pending == queued
    && |mine| == |rows|
    && Ours(rows, mine) == Written(settled)
    && forall i :: 0 <= i < |settled| ==> Excused(settled[i], failDeny, unhealthy)
  }

  ghost predicate Excused(s: Settled, failDeny: bool, unhealthy: bool) {
    && s.batch != []
    && match s
       case Persisted(batch, answer) => answer.reply == Wrote(|batch|)
       case Dropped(_, RaisedToCaller, answer) => answer == Answer(true, RaisedExhausted)
       case Dropped(_, MarkedUnhealthy, answer) => failDeny && unhealthy && answer.reply == Wrote(0)
       case Dropped(_, FailOpen, answer) => !failDeny && answer.reply == Wrote(0)
       case Dropped(_, DatabaseFault, answer) => answer.reply == RaisedFault
  }

  /** How a flush of a non-empty batch is settled. */
  ghost function Settlement(batch: seq<Event>, propagate: bool, heard: bool, failDeny: bool, world: World): Settled {
    var answer := Answer(heard, Reply(batch, propagate, world));
    match EndingOf(world)
    case Landed => Persisted(batch, answer)
    case Faulted => Dropped(batch, DatabaseFault, answer)
    case Contended =>
      Dropped(batch, if propagate then RaisedToCaller else if failDeny then MarkedUnhealthy else FailOpen, answer)
  }

  /** What a caller of a flush sees. */
  function Reply(batch: seq<Event>, propagate: bool, world: World): FlushResult {
    match EndingOf(world)
    case Landed => Wrote(|batch|)
    case Faulted => RaisedFault
    case Contended => if propagate then RaisedExhausted else Wrote(0)
  }

  /** Whether a flush raises the unhealthy flag. */
  predicate Alarms(propagate: bool, failDeny: bool, world: World) {
    EndingOf(world) == Contended && !propagate && failDeny
  }

  /** A flush keeps the books, however it ends. */
  lemma FlushKeepsBooks(seal: Seal, queued: seq<Event>, batch: seq<Event>, settled: seq<Settled>, rows: seq<Row>,
                        mine: seq<bool>, failDeny: bool, unhealthy: bool, propagate: bool, heard: bool, world: World)
    requires propagate ==> heard
    requires batch != [] && Books(queued, batch, settled, rows, mine, failDeny, unhealthy)
    ensures var own := if EndingOf(world) == Landed then batch else [];
            Books(queued, [], settled + [Settlement(batch, propagate, heard, failDeny, world)],
                  rows + Build(seal, ReadHead(rows), Traffic(world, batch)),
                  MarksAfter(mine, Meanwhile(world), own),
                  failDeny, unhealthy || Alarms(propagate, failDeny, world))
  {
    var own := if EndingOf(world) == Landed then batch else [];
    var s := Settlement(batch, propagate, heard, failDeny, world);
    OursAfterTraffic(seal, rows, mine, Meanwhile(world), own);
    SettledAppend(settled, s);
    assert Departed(settled + [s]) + [] == queued;
    var unhealthy' := unhealthy || Alarms(propagate, failDeny, world);
    forall i | 0 <= i < |settled + [s]| ensures Excused((settled + [s])[i], failDeny, unhealthy') {
      assert i < |settled| ==> Excused(settled[i], failDeny, unhealthy);
    }
  }

  /** The periodic loop's documentation says the next tick retries after a database fault. The batch
      has left the queue by then. With background fail-deny on, a batch of the periodic loop is lost
      with nobody hearing a raise and no flag set exactly when an attempt meets a database fault before
      any attempt ran undisturbed; with it off, also when every attempt is lost to a rival. */
  lemma SilentLossIff(batch: seq<Event>, failDeny: bool, world: World)
    ensures && Settlement(batch, false, false, failDeny, world).Dropped?
            && !Alarms(false, failDeny, world)
       <==> || (exists k :: 0 <= k < 5 && world(k).fault
                            && forall i :: 0 <= i < k ==> !world(i).fault && world(i).between != [])
            || (!failDeny && forall i :: 0 <= i < 5 ==> !world(i).fault && world(i).between != [])
    ensures HeardRaises([Settlement(batch, false, false, failDeny, world)]) == []
  {
    FaultedIff(world);
    ContendedIff(world);
    RaisesAppend([], Settlement(batch, false, false, failDeny, world));
  }

  lemma FaultedIff(world: World)
    ensures EndingOf(world) == Faulted
       <==> exists k :: 0 <= k < MAX_RETRIES && world(k).fault
                        && forall i :: 0 <= i < k ==> !world(i).fault && world(i).between != []
  {
    LastAttemptIsFirstStop(world, 0);
    var n := LastAttempt(world, 0);
    if EndingOf(world) == Faulted {
      assert world(n).fault;
    }
    forall k | 0 <= k < MAX_RETRIES && world(k).fault && forall i :: 0 <= i < k ==> !world(i).fault && world(i).between != []
      ensures EndingOf(world) == Faulted
    {
      assert n == k;
    }
  }

  lemma ContendedIff(world: World)
    ensures EndingOf(world) == Contended <==> forall i :: 0 <= i < MAX_RETRIES ==> !world(i).fault && world(i).between != []
  {
    LastAttemptIsFirstStop(world, 0);
  }

  class BatchedAuditChain {
    const seal: Seal
    const batchSize: nat
    const backgroundFailDeny: bool
    const db: Database
    const health: ProcessHealth
    var pending: seq<Event>
    var stopped: bool
    var ticking: bool
    /** History: what was ever queued, what became of each batch, which table rows are ours. */
    ghost var queued: seq<Event>
    ghost var settled: seq<Settled>
    ghost var mine: seq<bool>

    ghost predicate Accounted()
      reads this, db, health
    {
      && batchSize >= 1
      && Books(queued, pending, settled, db.rows, mine, backgroundFailDeny, health.unhealthy)
    }

    /** What holds whenever the lock is free. */
    ghost predicate Valid()
      reads this, db, health
    {
      Accounted() && |pending| < batchSize
    }

    constructor (seal: Seal, batchSize: nat, backgroundFailDeny: bool, db: Database, health: ProcessHealth)
      requires batchSize >= 1
      ensures Valid() && pending == [] && queued == [] && settled == []
      ensures this.seal == seal && this.batchSize == batchSize && this.backgroundFailDeny == backgroundFailDeny
      ensures this.db == db && this.health == health && !stopped && !ticking
    {
      this.seal, this.batchSize, this.backgroundFailDeny := seal, batchSize, backgroundFailDeny;
      this.db, this.health := db, health;
      pending, stopped, ticking := [], false, false;
      queued, settled := [], [];
      mine := Marks(|db.rows|, false);
      new;
      OursNone(db.rows);
    }

    /** Bookkeeping after a flush: how the detached batch was settled and which rows are ours. */
    ghost method Settle(batch: seq<Event>, propagate: bool, heard: bool, world: World, before: seq<Row>)
      requires batch != [] && (propagate ==> heard)
      requires Books(queued, batch, settled, before, mine, backgroundFailDeny, health.unhealthy)
      requires db.rows == before + Build(seal, ReadHead(before), Traffic(world, batch))
      modifies this`settled, this`mine
      ensures settled == old(settled) + [Settlement(batch, propagate, heard, backgroundFailDeny, world)]
      ensures HeardRaises(settled) == old(HeardRaises(settled)) + if heard then RaiseOf(Reply(batch, propagate, world)) else []
      ensures Books(queued, [], settled, db.rows, mine, backgroundFailDeny,
                    health.unhealthy || Alarms(propagate, backgroundFailDeny, world))
    {
      FlushKeepsBooks(seal, queued, batch, settled, before, mine, backgroundFailDeny, health.unhealthy,
                      propagate, heard, world);
      RaisesAppend(settled, Settlement(batch, propagate, heard, backgroundFailDeny, world));
      mine := MarksAfter(mine, Meanwhile(world), if EndingOf(world) == Landed then batch else []);
      settled := settled + [Settlement(batch, propagate, heard, backgroundFailDeny, world)];
    }

    /** _flush_locked: detach the queue, then append it with retries. */
    method FlushLocked(propagate: bool, ghost heard: bool, world: World) returns (r: FlushResult)
      requires Accounted() && (propagate ==> heard)
      modifies this`pending, this`settled, this`mine, db, health
      ensures Accounted() && pending == [] && old(settled) <= settled
      ensures HeardRaises(settled) == old(HeardRaises(settled)) + if heard then RaiseOf(r) else []
      ensures old(pending) == [] ==>
                r == Wrote(0) && db.rows == old(db.rows) && settled == old(settled) && health.unhealthy == old(health.unhealthy)
      ensures old(pending) != [] ==>
                && r == Reply(old(pending), propagate, world)
                && settled == old(settled) + [Settlement(old(pending), propagate, heard, backgroundFailDeny, world)]
                && db.rows == old(db.rows) + Build(seal, ReadHead(old(db.rows)), Traffic(world, old(pending)))
                && health.unhealthy == (old(health.unhealthy) || Alarms(propagate, backgroundFailDeny, world))
    {
      if pending == [] {
        return Wrote(0);
      }
      var batch := pending;
      pending := [];
      ghost var rows := db.rows;
      var ending := db.AppendWithRetries(seal, batch, world);
      Settle(batch, propagate, heard, world, rows);
      match ending {
        case Landed => r := Wrote(|batch|);
        case Faulted => r := RaisedFault;
        case Contended =>
          if propagate {
            r := RaisedExhausted;
          } else {
            if backgroundFailDeny {
              health.unhealthy := true;
            }
            r := Wrote(0);
          }
      }
    }

    /** append: queue the event, flush synchronously once the size threshold is reached. */
    method Append(e: Event, world: World) returns (r: FlushResult)
      requires Valid()
      modifies this`pending, this`settled, this`mine, this`queued, db, health
      ensures Valid() && queued == old(queued) + [e] && old(settled) <= settled
      ensures HeardRaises(settled) == old(HeardRaises(settled)) + RaiseOf(r)
      ensures |old(pending)| + 1 < batchSize ==>
                r == Wrote(0) && pending == old(pending) + [e] && settled == old(settled)
                && db.rows == old(db.rows) && health.unhealthy == old(health.unhealthy)
      ensures |old(pending)| + 1 == batchSize ==>
                && r == Reply(old(pending) + [e], true, world) && pending == []
                && settled == old(settled) + [Settlement(old(pending) + [e], true, true, backgroundFailDeny, world)]
                && db.rows == old(db.rows) + Build(seal, ReadHead(old(db.rows)), Traffic(world, old(pending) + [e]))
                && health.unhealthy == old(health.unhealthy)
    {
      Regroup(Departed(settled), pending, [e]);
      pending := pending + [e];
      queued := queued + [e];
      r := Wrote(0);
      if |pending| >= batchSize {
        r := FlushLocked(true, true, world);
      }
    }

    /** flush_now; heard is false for the periodic loop only. */
    method FlushNow(propagate: bool, ghost heard: bool, world: World) returns (r: FlushResult)
      requires Valid() && (propagate ==> heard)
      modifies this`pending, this`settled, this`mine, db, health
      ensures Valid() && pending == [] && old(settled) <= settled
      ensures HeardRaises(settled) == old(HeardRaises(settled)) + if heard then RaiseOf(r) else []
      ensures old(pending) == [] ==>
                r == Wrote(0) && settled == old(settled) && db.rows == old(db.rows) && health.unhealthy == old(health.unhealthy)
      ensures old(pending) != [] ==>
                && r == Reply(old(pending), propagate, world)
                && settled == old(settled) + [Settlement(old(pending), propagate, heard, backgroundFailDeny, world)]
                && db.rows == old(db.rows) + Build(seal, ReadHead(old(db.rows)), Traffic(world, old(pending)))
                && health.unhealthy == (old(health.unhealthy) || Alarms(propagate, backgroundFailDeny, world))
    {
      r := FlushLocked(propagate, heard, world);
    }

    /** start */
    method Start()
      requires Valid()
      modifies this`stopped, this`ticking
      ensures Valid() && ticking && stopped == (if old(ticking) then old(stopped) else false)
    {
      if ticking {
        return;
      }
      stopped := false;
      ticking := true;
    }

    /** One wake-up of the periodic loop; whatever the flush raises is swallowed. A flush cancelled
        by stop while it waits for the database is a wake-up whose attempt faults. */
    method Tick(world: World)
      requires Valid()
      modifies this`pending, this`settled, this`mine, db, health
      ensures Valid() && old(settled) <= settled && HeardRaises(settled) == old(HeardRaises(settled))
      ensures !ticking || stopped || old(pending) == [] ==>
                pending == old(pending) && settled == old(settled) && db.rows == old(db.rows)
                && health.unhealthy == old(health.unhealthy)
      ensures ticking && !stopped && old(pending) != [] ==>
                && pending == []
                && settled == old(settled) + [Settlement(old(pending), false, false, backgroundFailDeny, world)]
                && db.rows == old(db.rows) + Build(seal, ReadHead(old(db.rows)), Traffic(world, old(pending)))
                && health.unhealthy == (old(health.unhealthy) || Alarms(false, backgroundFailDeny, world))
    {
      if ticking && !stopped {
        var r := FlushNow(false, false, world);
        assert old(HeardRaises(settled)) + [] == old(HeardRaises(settled));
      }
    }

    /** stop: end the periodic task, then drain. */
    method Stop(world: World) returns (r: FlushResult)
      requires Valid()
      modifies this`pending, this`settled, this`mine, this`stopped, this`ticking, db, health
      ensures Valid() && stopped && !ticking && pending == [] && old(settled) <= settled
      ensures HeardRaises(settled) == old(HeardRaises(settled)) + RaiseOf(r)
      ensures old(pending) == [] ==>
                r == Wrote(0) && settled == old(settled) && db.rows == old(db.rows) && health.unhealthy == old(health.unhealthy)
      ensures old(pending) != [] ==>
                && r == Reply(old(pending), false, world)
                && settled == old(settled) + [Settlement(old(pending), false, true, backgroundFailDeny, world)]
                && db.rows == old(db.rows) + Build(seal, ReadHead(old(db.rows)), Traffic(world, old(pending)))
                && health.unhealthy == (old(health.unhealthy) || Alarms(false, backgroundFailDeny, world))
    {
      stopped := true;
      ticking := false;
      r := FlushNow(false, true, world);
    }

    /** Any sequence of calls, under any behaviour of the rest of the world, keeps the books: what
        was queued is what the appends brought in, and Valid says where each event went. The
        exceptions on record as heard are exactly those the calls raised, in order. The unhealthy flag
        is never taken back, and no settled batch is ever revised. */
    method Serve(ops: seq<Op>) returns (replies: seq<Option<FlushResult>>)
      requires Valid()
      modifies this, db, health
      ensures Valid() && |replies| == |ops|
      ensures queued == old(queued) + Brought(ops)
      ensures HeardRaises(settled) == old(HeardRaises(settled)) + Raised(replies)
      ensures old(settled) <= settled
      ensures old(health.unhealthy) ==> health.unhealthy
    {
      replies := [];
      ghost var heard0 := HeardRaises(settled);
      assert heard0 + [] == heard0;
      for i := 0 to |ops|
        invariant Valid() && |replies| == i
        invariant queued == old(queued) + Brought(ops[..i])
        invariant HeardRaises(settled) == heard0 + Raised(replies)
        invariant old(settled) <= settled
        invariant old(health.unhealthy) ==> health.unhealthy
      {
        assert ops[..i + 1][..i] == ops[..i];
        Regroup(old(queued), Brought(ops[..i]), BroughtBy(ops[i]));
        var reply := Perform(ops[i]);
        RaisedAppend(heard0, replies, reply);
        replies := replies + [reply];
      }
      assert ops[..|ops|] == ops;
    }

    /** One call. */
    method Perform(op: Op) returns (reply: Option<FlushResult>)
      requires Valid()
      modifies this, db, health
      ensures Valid() && queued == old(queued) + BroughtBy(op) && old(settled) <= settled
      ensures HeardRaises(settled) == old(HeardRaises(settled)) + RaisedBy(reply)
      ensures old(health.unhealthy) ==> health.unhealthy
    {
      assert queued + [] == queued && HeardRaises(settled) + [] == HeardRaises(settled);
      reply := None;
      match op {
        case DoAppend(e, world) =>
          var r := Append(e, world);
          reply := Some(r);
        case DoFlush(propagate, world) =>
          var r := FlushNow(propagate, true, world);
          reply := Some(r);
        case DoStart => Start();
        case DoTick(world) => Tick(world);
        case DoStop(world) =>
          var r := Stop(world);
          reply := Some(r);
      }
    }
  }

  /** Construction with the checks the initializer makes. */
  method NewBatchedChain(seal: Seal, batchSize: int, flushIntervalS: real, backgroundFailDeny: bool,
                         db: Database, health: ProcessHealth) returns (r: Option<BatchedAuditChain>)
    ensures r.None? <==> batchSize < 1 || flushIntervalS <= 0.0
    ensures r.Some? ==> fresh(r.value) && r.value.Valid() && r.value.db == db && r.value.health == health
                        && r.value.batchSize == batchSize && r.value.queued == []
  {
    if batchSize < 1 || flushIntervalS <= 0.0 {
      return None;
    }
    var chain := new BatchedAuditChain(seal, batchSize, backgroundFailDeny, db, health);
    r := Some(chain);
  }

  datatype Op =
    | DoAppend(event: Event, world: World)
    | DoFlush(propagate: bool, world: World)
    | DoStart
    | DoTick(world: World)
    | DoStop(world: World)

  /** The exceptions among the replies; starting and waking up reply nothing. */
  ghost function Raised(replies: seq<Option<FlushResult>>): seq<FlushResult> {
    if replies == [] then []
    else
      var last := replies[|replies| - 1];
      Raised(replies[..|replies| - 1]) + RaisedBy(last)
  }

  function RaisedBy(reply: Option<FlushResult>): seq<FlushResult> {
    if reply.Some? then RaiseOf(reply.value) else []
  }

  lemma RaisedAppend(before: seq<FlushResult>, replies: seq<Option<FlushResult>>, reply: Option<FlushResult>)
    ensures before + Raised(replies + [reply]) == before + Raised(replies) + RaisedBy(reply)
  {
    assert (replies + [reply])[..|replies|] == replies;
    Regroup(before, Raised(replies), RaisedBy(reply));
  }

  ghost function BroughtBy(op: Op): seq<Event> {
    if op.DoAppend? then [op.event] else []
  }

  ghost function Brought(ops: seq<Op>): seq<Event> {
    if ops == [] then []
    else
      var last := ops[|ops| - 1];
      Brought(ops[..|ops| - 1]) + BroughtBy(last)
  }
}
