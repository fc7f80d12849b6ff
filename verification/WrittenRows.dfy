/** What the writers put into the table, down to the text each new row's hash is taken over, and what
    that binds: the two attribution columns above all, which the older format left out. */
module WrittenRows {
  import opened Texts
  import opened AuditRows
  import opened Sorting
  import opened OnlineVerifier
  import opened AuditTable
  import opened AppendProtocol

  /** The text of a new row, spelled out. */
  function RowText(n: int, e: Event, prev: string): string {
    "v2|" + Decimal(n) + "|" + e.timestamp + "|" + e.agentId + "|" + e.action + "|"
    + OrEmpty(e.toolName) + "|" + e.status + "|" + OrEmpty(e.detail) + "|"
    + OrEmpty(e.requestId) + "|" + OrEmpty(e.dpopJkt) + "|" + OrEmpty(e.onBehalfOf) + "|" + prev
  }

  lemma {:induction false} SealOfText(h: Hash, n: int, e: Event, prev: string)
    ensures RowSeal(h)(n, e, Some("v2"), prev) == h(RowText(n, e, prev))
  {
    OrEmptyRenders(e.toolName, OrEmpty(e.toolName));
    OrEmptyRenders(e.detail, OrEmpty(e.detail));
    OrEmptyRenders(e.requestId, OrEmpty(e.requestId));
    OrEmptyRenders(e.dpopJkt, OrEmpty(e.dpopJkt));
    OrEmptyRenders(e.onBehalfOf, OrEmpty(e.onBehalfOf));
    V2Text(n, e, Some("v2"), OrEmpty(e.toolName), OrEmpty(e.detail), OrEmpty(e.requestId),
           OrEmpty(e.dpopJkt), OrEmpty(e.onBehalfOf), prev);
  }

  /** The row for event e at number n after the row with hash prev. */
  function WrittenRow(h: Hash, n: int, e: Event, prev: string): Row {
    Row(Some(n), Some(prev), Some(h(RowText(n, e, prev))), e, Some("v2"))
  }

  /** The hash that row i of a batch names as its predecessor's. */
  function PrevIn(rows: seq<Row>, head: Head, i: nat): string
    requires i <= |rows|
  {
    if i == 0 then head.hash else Str(rows[i - 1].rowHash)
  }

  /** Every row of a batch, in full. */
  lemma {:induction false} BatchRows(h: Hash, head: Head, events: seq<Event>, i: nat)
    requires i < |events|
    ensures var rows := Build(RowSeal(h), head, events);
            && |rows| == |events|
            && rows[i] == WrittenRow(h, head.seqNo + 1 + i, events[i], PrevIn(rows, head, i))
    decreases i
  {
    var seal := RowSeal(h);
    var row := NewRow(seal, head, events[0]);
    BuildNumbers(seal, head, events);
    SealOfText(h, head.seqNo + 1, events[0], head.hash);
    if i > 0 {
      BatchRows(h, HeadOf(row), events[1..], i - 1);
      var rest := Build(seal, HeadOf(row), events[1..]);
      assert Build(seal, head, events) == [row] + rest;
      assert PrevIn([row] + rest, head, i) == PrevIn(rest, HeadOf(row), i - 1);
    }
  }

  /** Over every run, from any table: each row added is numbered on from the head, names the hash of
      the row before it, and carries the hash of its spelled-out text. */
  lemma {:induction false} EveryRunWrites(h: Hash, start: seq<Row>, steps: seq<Step>, i: nat)
    requires |start| <= i < |Run(RowSeal(h), Fresh(start), steps).table|
    ensures var table := Run(RowSeal(h), Fresh(start), steps).table;
            var prev := if i == |start| then ReadHead(start).hash else Str(table[i - 1].rowHash);
            table[i] == WrittenRow(h, ReadHead(start).seqNo + 1 + (i - |start|), table[i].event, prev)
  {
    var s := Run(RowSeal(h), Fresh(start), steps);
    RunKeepsInv(RowSeal(h), start, steps);
    var events := Committed(s.log);
    BuildNumbers(RowSeal(h), ReadHead(start), events);
    BatchRows(h, ReadHead(start), events, i - |start|);
  }

  /** The very first row. */
  lemma {:induction false} FirstRowWritten(h: Hash, steps: seq<Step>)
    requires Run(RowSeal(h), Fresh([]), steps).table != []
    ensures var first := Run(RowSeal(h), Fresh([]), steps).table[0];
            first == WrittenRow(h, 1, first.event, "genesis")
  {
    EveryRunWrites(h, [], steps, 0);
  }

  // ---------------------------------------------------------------- what a written row binds

  /** The two events are attributed differently, NULL and "" being one value. */
  predicate AttributedApart(x: Event, y: Event) {
    OrEmpty(x.dpopJkt) != OrEmpty(y.dpopJkt) || OrEmpty(x.onBehalfOf) != OrEmpty(y.onBehalfOf)
  }

  lemma {:induction false} ApartInContent(x: Event, y: Event)
    requires AttributedApart(x, y)
    ensures BoundContent(x, Some("v2")) != BoundContent(y, Some("v2"))
  {
  }

  /** Rows written for differently attributed events never share a hash, wherever in whatever batches
      they stand, if the fields of one of the events hold no pipe. One-event batches are the per-row
      path. */
  lemma {:induction false} WrittenApart(h: Hash, head: Head, xs: seq<Event>, i: nat, head': Head, ys: seq<Event>, j: nat)
    requires CollisionFree(h) && HexText(h) && i < |xs| && j < |ys|
    requires '|' !in head.hash && PipeFree(Hashed(xs[i], Some("v2"))) && AttributedApart(xs[i], ys[j])
    ensures |Build(RowSeal(h), head, xs)| == |xs| && |Build(RowSeal(h), head', ys)| == |ys|
    ensures Build(RowSeal(h), head, xs)[i].rowHash != Build(RowSeal(h), head', ys)[j].rowHash
  {
    var a, b := Build(RowSeal(h), head, xs), Build(RowSeal(h), head', ys);
    BatchRows(h, head, xs, i);
    BatchRows(h, head', ys, j);
    if i > 0 {
      BatchRows(h, head, xs, i - 1);
    }
    var p, q := PrevIn(a, head, i), PrevIn(b, head', j);
    TextsApart(h, head.seqNo + 1 + i, xs[i], p, head'.seqNo + 1 + j, ys[j], q);
  }

  lemma {:induction false} TextsApart(h: Hash, m: int, x: Event, p: string, n: int, y: Event, q: string)
    requires CollisionFree(h) && '|' !in p && PipeFree(Hashed(x, Some("v2"))) && AttributedApart(x, y)
    ensures h(RowText(m, x, p)) != h(RowText(n, y, q))
  {
    var f := Some("v2");
    SealOfText(h, m, x, p);
    SealOfText(h, n, y, q);
    ApartInContent(x, y);
    if Canonical(Decimal(m), x, f, p) == Canonical(Decimal(n), y, f, q) {
      SameHead(m, x, f, p, n, y, f, q);
      JoinBindsPipeFree(Hashed(x, f) + [p], Hashed(y, f) + [q]);
      CanonicalBinds(m, x, f, p, n, y, f, q);
    }
  }

  /** The first event with the attribution of the second. */
  function Reattributed(x: Event, y: Event): Event {
    x.(dpopJkt := y.dpopJkt, onBehalfOf := y.onBehalfOf)
  }

  /** Changing one of the two columns and nothing else always changes the hash, whatever the fields
      hold; changing both does if the fields hold no pipe. */
  lemma {:induction false} ReattributionShows(h: Hash, n: int, x: Event, y: Event, p: string)
    requires CollisionFree(h) && AttributedApart(x, y)
    requires || OrEmpty(x.dpopJkt) == OrEmpty(y.dpopJkt)
             || OrEmpty(x.onBehalfOf) == OrEmpty(y.onBehalfOf)
             || PipeFree(Hashed(x, Some("v2")))
    ensures h(RowText(n, Reattributed(x, y), p)) != h(RowText(n, x, p))
  {
    var y' := Reattributed(x, y);
    var f := Some("v2");
    SealOfText(h, n, x, p);
    SealOfText(h, n, y', p);
    ApartInContent(x, y');
    if PipeFree(Hashed(x, f)) {
      ChangeShowsIff(n, x, f, p);
    } else {
      var front := "v2|" + Decimal(n) + "|" + x.timestamp + "|" + x.agentId + "|" + x.action + "|"
                   + OrEmpty(x.toolName) + "|" + x.status + "|" + OrEmpty(x.detail) + "|" + OrEmpty(x.requestId) + "|";
      if RowText(n, y', p) == RowText(n, x, p) {
        OneMiddle(front, OrEmpty(x.dpopJkt), OrEmpty(x.onBehalfOf), OrEmpty(y.dpopJkt), OrEmpty(y.onBehalfOf), p);
      }
    }
  }

  lemma {:induction false} OneMiddle(front: string, a: string, b: string, c: string, d: string, p: string)
    requires front + a + "|" + b + "|" + p == front + c + "|" + d + "|" + p && (a == c || b == d)
    ensures a == c && b == d
  {
    Regroup(front + a + "|" + b, "|", p);
    Regroup(front + c + "|" + d, "|", p);
    SameEnding(front + a + "|" + b, front + c + "|" + d, "|" + p);
    if a == c {
      SameStart(front + a + "|", b, d);
    } else {
      Regroup(front + a, "|", b);
      Regroup(front + c, "|", b);
      SameEnding(front + a, front + c, "|" + b);
      SameStart(front, a, c);
    }
  }

  lemma {:induction false} SameStart(front: string, a: string, b: string)
    requires front + a == front + b
    ensures a == b
  {
    assert (front + a)[|front|..] == a && (front + b)[|front|..] == b;
  }

  /** Over every run, from any table: give a row that was added another attribution, and the online
      walk over it reports a break, from wherever it starts. */
  lemma {:induction false} ReattributionReported(h: Hash, start: seq<Row>, steps: seq<Step>, i: nat, y: Event, lo: int)
    requires CollisionFree(h) && HexText(h)
    requires var table := Run(RowSeal(h), Fresh(start), steps).table;
             && |start| <= i < |table| && SeqOf(table[i]) >= lo && AttributedApart(table[i].event, y)
             && (|| OrEmpty(table[i].event.dpopJkt) == OrEmpty(y.dpopJkt)
                 || OrEmpty(table[i].event.onBehalfOf) == OrEmpty(y.onBehalfOf)
                 || PipeFree(Hashed(table[i].event, Some("v2"))))
    ensures var table := Run(RowSeal(h), Fresh(start), steps).table;
            OnlineVerdict(RowSeal(h), table[i := table[i].(event := Reattributed(table[i].event, y))], lo, None) != Intact
  {
    var table := Run(RowSeal(h), Fresh(start), steps).table;
    var r := table[i];
    var r' := r.(event := Reattributed(r.event, y));
    EveryRunWrites(h, start, steps, i);
    var n, p := r.chainSeq.value, r.prevHash.value;
    ReattributionShows(h, n, r.event, y, p);
    SealOfText(h, n, r'.event, p);
    WrongHashReported(RowSeal(h), table[i := r'], i, lo);
  }

  lemma {:induction false} WrongHashReported(seal: Seal, table: seq<Row>, i: nat, lo: int)
    requires i < |table| && Selected(table[i], lo) && Recomputed(seal, table[i]) != Str(table[i].rowHash)
    ensures OnlineVerdict(seal, table, lo, None) != Intact
  {
    var rows := Walked(table, lo);
    ChainedFromMembers(table, lo);
    SortSorts(SeqOf, ChainedFrom(table, lo));
    assert table[i] in table;
    assert table[i] in multiset(rows);
    var k :| 0 <= k < |rows| && rows[k] == table[i];
    WalkReportsFirstFault(seal, rows, lo, 0);
    assert Fault(seal, rows, lo, k).Some?;
  }
}
