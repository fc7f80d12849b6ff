/** The audit_log table as its writers see it: reading the chain head, building chained rows from
    a head, and inserting them under the unique index on chain_seq. */
module AuditTable {
  import opened Texts
  import opened AuditRows
  import opened Sorting
  import opened OnlineVerifier

  /** (last_chain_seq, last_row_hash) */
  datatype Head = Head(seqNo: int, hash: string)

  // ---------------------------------------------------------------- the head

  function MaxChained(table: seq<Row>): Option<Row> {
    if table == [] then None
    else
      var last := table[|table| - 1];
      var rest := MaxChained(table[..|table| - 1]);
      if last.chainSeq.Some? && (rest.None? || SeqOf(last) > SeqOf(rest.value)) then Some(last) else rest
  }

  /** _audit_chain_head: the chained row with the greatest number, or (0, genesis). */
  function ReadHead(table: seq<Row>): Head {
    match MaxChained(table)
    case None => Head(0, GENESIS)
    case Some(r) => Head(SeqOf(r), Str(r.rowHash))
  }

  /** The head is one of the chained rows and no chained row is numbered higher. */
  lemma {:induction false} MaxChainedIsGreatest(table: seq<Row>)
    ensures MaxChained(table).None? <==> forall r :: r in table ==> r.chainSeq.None?
    ensures MaxChained(table).Some? ==> MaxChained(table).value in table && MaxChained(table).value.chainSeq.Some?
    ensures forall r :: r in table && r.chainSeq.Some? ==>
              MaxChained(table).Some? && SeqOf(r) <= SeqOf(MaxChained(table).value)
  {
    if table != [] {
      var init, last := table[..|table| - 1], table[|table| - 1];
      MaxChainedIsGreatest(init);
      assert table == init + [last];
    }
  }

  // ---------------------------------------------------------------- building rows

  /** One chained row on top of a head. New rows are always v2. */
  function NewRow(seal: Seal, head: Head, e: Event): Row {
    var n := head.seqNo + 1;
    Row(Some(n), Some(head.hash), Some(seal(n, e, Some("v2"), head.hash)), e, Some("v2"))
  }

  function HeadOf(r: Row): Head {
    Head(SeqOf(r), Str(r.rowHash))
  }

  /** The chained rows for a batch of events on top of a head. */
  function Build(seal: Seal, head: Head, events: seq<Event>): seq<Row>
    decreases |events|
  {
    if events == [] then []
    else
      var row := NewRow(seal, head, events[0]);
      [row] + Build(seal, HeadOf(row), events[1..])
  }

  /** The head once the batch is in. */
  function After(seal: Seal, head: Head, events: seq<Event>): Head
    decreases |events|
  {
    if events == [] then head else After(seal, HeadOf(NewRow(seal, head, events[0])), events[1..])
  }

  lemma {:induction false} BuildNumbers(seal: Seal, head: Head, events: seq<Event>)
    ensures |Build(seal, head, events)| == |events|
    ensures forall i :: 0 <= i < |events| ==>
              Build(seal, head, events)[i].chainSeq == Some(head.seqNo + 1 + i) && Build(seal, head, events)[i].event == events[i]
    ensures After(seal, head, events).seqNo == head.seqNo + |events|
    decreases |events|
  {
    if events != [] {
      var row := NewRow(seal, head, events[0]);
      BuildNumbers(seal, HeadOf(row), events[1..]);
      var rest := Build(seal, HeadOf(row), events[1..]);
      forall i | 0 <= i < |events|
        ensures Build(seal, head, events)[i].chainSeq == Some(head.seqNo + 1 + i) && Build(seal, head, events)[i].event == events[i]
      {
        if i > 0 {
          assert Build(seal, head, events)[i] == rest[i - 1];
          assert events[i] == events[1..][i - 1];
        }
      }
    }
  }

  lemma {:induction false} AfterAppend(seal: Seal, head: Head, a: seq<Event>, b: seq<Event>)
    ensures After(seal, head, a + b) == After(seal, After(seal, head, a), b)
    decreases |a|
  {
    if a == [] {
      assert a + b == b;
    } else {
      AfterAppend(seal, HeadOf(NewRow(seal, head, a[0])), a[1..], b);
      assert (a + b)[1..] == a[1..] + b && (a + b)[0] == a[0];
    }
  }

  lemma {:induction false} BuildAppend(seal: Seal, head: Head, a: seq<Event>, b: seq<Event>)
    ensures Build(seal, head, a + b) == Build(seal, head, a) + Build(seal, After(seal, head, a), b)
    decreases |a|
  {
    if a == [] {
      assert a + b == b;
    } else {
      var row := NewRow(seal, head, a[0]);
      BuildAppend(seal, HeadOf(row), a[1..], b);
      assert (a + b)[1..] == a[1..] + b && (a + b)[0] == a[0];
      Regroup([row], Build(seal, HeadOf(row), a[1..]), Build(seal, After(seal, head, a), b));
    }
  }

  // ---------------------------------------------------------------- inserting rows

  /** The unique index on chain_seq refuses any of the rows. */
  predicate Conflicts(table: seq<Row>, rows: seq<Row>) {
    exists i, j :: 0 <= i < |table| && 0 <= j < |rows| && table[i].chainSeq.Some? && table[i].chainSeq == rows[j].chainSeq
  }

  /** INSERT of a whole batch in one transaction: all rows or an IntegrityError. */
  function Insert(table: seq<Row>, rows: seq<Row>): Option<seq<Row>> {
    if Conflicts(table, rows) then None else Some(table + rows)
  }

  /** Rows built on the current head always go in, whatever the table holds. */
  lemma FreshHeadInserts(seal: Seal, table: seq<Row>, events: seq<Event>)
    ensures Insert(table, Build(seal, ReadHead(table), events)) == Some(table + Build(seal, ReadHead(table), events))
  {
    var rows := Build(seal, ReadHead(table), events);
    MaxChainedIsGreatest(table);
    BuildNumbers(seal, ReadHead(table), events);
    forall i, j | 0 <= i < |table| && 0 <= j < |rows| && table[i].chainSeq.Some?
      ensures table[i].chainSeq != rows[j].chainSeq
    {
      assert table[i] in table;
    }
  }

  /** One row on the current head goes in and becomes the head. */
  lemma OneRowInserts(seal: Seal, table: seq<Row>, e: Event)
    ensures var row := NewRow(seal, ReadHead(table), e);
            Insert(table, [row]) == Some(table + [row]) && ReadHead(table + [row]) == HeadOf(row)
  {
    var row := NewRow(seal, ReadHead(table), e);
    MaxChainedIsGreatest(table);
    forall i | 0 <= i < |table| && table[i].chainSeq.Some? ensures table[i].chainSeq != row.chainSeq {
      assert table[i] in table;
    }
    assert (table + [row])[..|table|] == table;
  }

  /** Building a batch is building its first row and then the rest on top of it. */
  lemma BuildStep(seal: Seal, table: seq<Row>, head: Head, events: seq<Event>)
    requires events != []
    ensures var row := NewRow(seal, head, events[0]);
            table + Build(seal, head, events) == (table + [row]) + Build(seal, HeadOf(row), events[1..])
  {
  }

  /** After such an insert the head is the last inserted row. */
  lemma {:induction false} HeadAfterInsert(seal: Seal, table: seq<Row>, events: seq<Event>)
    ensures ReadHead(table + Build(seal, ReadHead(table), events)) == After(seal, ReadHead(table), events)
    decreases |events|
  {
    if events == [] {
      assert table + [] == table;
    } else {
      OneRowInserts(seal, table, events[0]);
      BuildStep(seal, table, ReadHead(table), events);
      HeadAfterInsert(seal, table + [NewRow(seal, ReadHead(table), events[0])], events[1..]);
    }
  }

  /** The per-row path: one head read and one insert for each event. */
  function LogEach(seal: Seal, table: seq<Row>, events: seq<Event>): Option<seq<Row>>
    decreases |events|
  {
    if events == [] then Some(table)
    else
      match Insert(table, [NewRow(seal, ReadHead(table), events[0])])
      case None => None
      case Some(table') => LogEach(seal, table', events[1..])
  }

  /** A batch reaches exactly the table the same events reach one at a time, from any table. */
  lemma {:induction false} BatchIsRowByRow(seal: Seal, table: seq<Row>, events: seq<Event>)
    ensures Insert(table, Build(seal, ReadHead(table), events)) == LogEach(seal, table, events)
    decreases |events|
  {
    FreshHeadInserts(seal, table, events);
    if events == [] {
      assert table + [] == table;
    } else {
      var table' := table + [NewRow(seal, ReadHead(table), events[0])];
      OneRowInserts(seal, table, events[0]);
      BuildStep(seal, table, ReadHead(table), events);
      FreshHeadInserts(seal, table', events[1..]);
      BatchIsRowByRow(seal, table', events[1..]);
    }
  }

  // ---------------------------------------------------------------- tables that hold a genuine chain

  /** The rows that take part in the chain, in table order. */
  function ChainPart(table: seq<Row>): seq<Row> {
    if table == [] then []
    else
      var rest := ChainPart(table[..|table| - 1]);
      var last := table[|table| - 1];
      if last.chainSeq.Some? then rest + [last] else rest
  }

  ghost predicate ChainOk(seal: Seal, table: seq<Row>) {
    GenesisChain(seal, ChainPart(table))
  }

  lemma {:induction false} HeadOfChain(seal: Seal, table: seq<Row>)
    requires ChainOk(seal, table)
    ensures var c := ChainPart(table); ReadHead(table) == Head(|c|, HashBefore(c, |c|))
  {
    if table != [] {
      var init, last := table[..|table| - 1], table[|table| - 1];
      var c, c' := ChainPart(init), ChainPart(table);
      assert forall i :: 0 <= i < |c| ==> ChainedAt(seal, c', i) && c'[i] == c[i];
      assert forall i :: 0 <= i < |c| ==> ChainedAt(seal, c, i);
      HeadOfChain(seal, init);
      MaxChainedIsGreatest(init);
      if last.chainSeq.Some? {
        assert ChainedAt(seal, c', |c|);
      }
    }
  }

  lemma GenesisChainGrows(seal: Seal, c: seq<Row>, e: Event)
    requires GenesisChain(seal, c)
    ensures GenesisChain(seal, c + [NewRow(seal, Head(|c|, HashBefore(c, |c|)), e)])
  {
    var c' := c + [NewRow(seal, Head(|c|, HashBefore(c, |c|)), e)];
    forall i | 0 <= i < |c'| ensures ChainedAt(seal, c', i) {
      assert HashBefore(c', i) == HashBefore(c, i);
      assert i < |c| ==> ChainedAt(seal, c, i);
    }
  }

  /** Appending on the current head keeps the chain genuine. */
  lemma {:induction false} AppendKeepsChain(seal: Seal, table: seq<Row>, events: seq<Event>)
    requires ChainOk(seal, table)
    ensures ChainOk(seal, table + Build(seal, ReadHead(table), events))
    ensures |ChainPart(table + Build(seal, ReadHead(table), events))| == |ChainPart(table)| + |events|
    decreases |events|
  {
    if events == [] {
      assert table + [] == table;
    } else {
      var row := NewRow(seal, ReadHead(table), events[0]);
      var table' := table + [row];
      HeadOfChain(seal, table);
      GenesisChainGrows(seal, ChainPart(table), events[0]);
      assert table'[..|table|] == table;
      assert ChainPart(table') == ChainPart(table) + [row];
      OneRowInserts(seal, table, events[0]);
      BuildStep(seal, table, ReadHead(table), events);
      AppendKeepsChain(seal, table', events[1..]);
    }
  }

  /** A genuine chain is walked in table order and accepted online. */
  lemma ChainOkAccepted(seal: Seal, table: seq<Row>)
    requires ChainOk(seal, table)
    ensures Walked(table, 1) == ChainPart(table)
    ensures OnlineVerdict(seal, table, 1, None) == Intact
  {
    var c := ChainPart(table);
    forall i | 0 <= i < |c| ensures SeqOf(c[i]) == i + 1 {
      assert ChainedAt(seal, c, i);
    }
    SelectsChainPart(table);
    SortFixes(SeqOf, c);
    GenesisChainFaultless(seal, c);
    WalkReportsFirstFault(seal, c, 1, 0);
  }

  /** Selecting a table is selecting its parts. */
  lemma {:induction false} SelectAppend(a: seq<Row>, b: seq<Row>, start: int)
    ensures ChainedFrom(a + b, start) == ChainedFrom(a, start) + ChainedFrom(b, start)
  {
    if a == [] {
      assert a + b == b;
    } else {
      SelectAppend(a[1..], b, start);
      assert (a + b)[1..] == a[1..] + b && (a + b)[0] == a[0];
      var x, y := ChainedFrom(a[1..], start), ChainedFrom(b, start);
      Regroup([a[0]], x, y);
    }
  }

  lemma {:induction false} SelectsChainPart(table: seq<Row>)
    requires forall i :: 0 <= i < |ChainPart(table)| ==> SeqOf(ChainPart(table)[i]) >= 1
    ensures ChainedFrom(table, 1) == ChainPart(table)
  {
    if table != [] {
      var init, last := table[..|table| - 1], table[|table| - 1];
      assert forall i :: 0 <= i < |ChainPart(init)| ==> ChainPart(table)[i] == ChainPart(init)[i];
      SelectsChainPart(init);
      SelectAppend(init, [last], 1);
      assert table == init + [last];
      if last.chainSeq.Some? {
        assert ChainPart(table)[|ChainPart(init)|] == last;
      }
    }
  }
}
