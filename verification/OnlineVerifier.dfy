/** verify_audit_chain: walk a window of the audit_log table and report the first break. */
module OnlineVerifier {
  import opened Texts
  import opened AuditRows
  import opened Sorting

  datatype Reason = NotGenesis | SeqGap(expected: int) | PrevMismatch | HashMismatch
  datatype Verdict = Intact | Broken(seqNo: int, why: Reason)

  function SeqOf(r: Row): int {
    if r.chainSeq.Some? then r.chainSeq.value else 0
  }

  /** Python's str() of a nullable text column. */
  function Str(o: Option<string>): string {
    match o
    case None => "None"
    case Some(s) => s
  }

  predicate Selected(r: Row, start: int) {
    r.chainSeq.Some? && r.chainSeq.value >= start
  }

  /** WHERE chain_seq IS NOT NULL AND chain_seq >= start */
  function ChainedFrom(table: seq<Row>, start: int): seq<Row> {
    if table == [] then []
    else if Selected(table[0], start) then [table[0]] + ChainedFrom(table[1..], start)
    else ChainedFrom(table[1..], start)
  }

  lemma {:induction false} ChainedFromMembers(table: seq<Row>, start: int)
    ensures forall r :: r in ChainedFrom(table, start) <==> r in table && Selected(r, start)
  {
    if table != [] {
      ChainedFromMembers(table[1..], start);
    }
  }

  /** ORDER BY chain_seq ASC */
  function Walked(table: seq<Row>, start: int): seq<Row> {
    SortBy(SeqOf, ChainedFrom(table, start))
  }

  /** LIMIT */
  function Limited(rows: seq<Row>, limit: Option<nat>): seq<Row> {
    if limit.Some? && limit.value < |rows| then rows[..limit.value] else rows
  }

  function Recomputed(seal: Seal, r: Row): string {
    seal(SeqOf(r), r.event, r.hashFormat, Str(r.prevHash))
  }

  /** What is wrong with the i-th walked row, if anything. */
  function Fault(seal: Seal, rows: seq<Row>, start: int, i: nat): Option<Reason>
    requires i < |rows|
  {
    var r := rows[i];
    if i == 0 && start == 1 && SeqOf(r) == 1 && Str(r.prevHash) != GENESIS then Some(NotGenesis)
    else if i > 0 && SeqOf(r) != SeqOf(rows[i - 1]) + 1 then Some(SeqGap(SeqOf(rows[i - 1]) + 1))
    else if i > 0 && Str(r.prevHash) != Str(rows[i - 1].rowHash) then Some(PrevMismatch)
    else if Recomputed(seal, r) != Str(r.rowHash) then Some(HashMismatch)
    else None
  }

  function WalkFrom(seal: Seal, rows: seq<Row>, start: int, i: nat): Verdict
    requires i <= |rows|
    decreases |rows| - i
  {
    if i == |rows| then Intact
    else match Fault(seal, rows, start, i)
      case Some(why) => Broken(SeqOf(rows[i]), why)
      case None => WalkFrom(seal, rows, start, i + 1)
  }

  function OnlineVerdict(seal: Seal, table: seq<Row>, start: int, limit: Option<nat>): Verdict {
    WalkFrom(seal, Limited(Walked(table, start), limit), start, 0)
  }

  /** The verdict names the first faulty row, and is Intact exactly when there is none. */
  lemma {:induction false} WalkReportsFirstFault(seal: Seal, rows: seq<Row>, start: int, i: nat)
    requires i <= |rows|
    ensures WalkFrom(seal, rows, start, i).Intact?
       <==> forall k :: i <= k < |rows| ==> Fault(seal, rows, start, k).None?
    ensures forall n, why :: WalkFrom(seal, rows, start, i) == Broken(n, why) ==>
              exists k :: i <= k < |rows| && SeqOf(rows[k]) == n && Fault(seal, rows, start, k) == Some(why)
                          && forall j :: i <= j < k ==> Fault(seal, rows, start, j).None?
    decreases |rows| - i
  {
    if i < |rows| {
      WalkReportsFirstFault(seal, rows, start, i + 1);
      if Fault(seal, rows, start, i).None? {
        assert WalkFrom(seal, rows, start, i) == WalkFrom(seal, rows, start, i + 1);
      } else {
        assert WalkFrom(seal, rows, start, i).Broken?;
      }
    }
  }

  /** How a nullable column reads after str(). */
  predicate Shows(o: Option<string>, s: string) {
    o == Some(s) || (o == None && s == "None")
  }

  /** What each reason reports about the i-th walked row, given its two hash columns and the hash of
      the row before it: a number that does not follow, then a predecessor hash that is not that row's,
      then a hash that is not that of the content; for row 1 a chain that does not begin at genesis. */
  lemma ReasonsMean(seal: Seal, rows: seq<Row>, start: int, i: nat, before: string, prev: string, hash: string)
    requires i < |rows| && Shows(rows[i].prevHash, prev) && Shows(rows[i].rowHash, hash)
    requires i > 0 ==> Shows(rows[i - 1].rowHash, before)
    ensures var n, why := SeqOf(rows[i]), Fault(seal, rows, start, i);
            var follows := i > 0 ==> n == SeqOf(rows[i - 1]) + 1;
            var linked := if i > 0 then prev == before else start != 1 || n != 1 || prev == "genesis";
            var sealed := hash == seal(n, rows[i].event, rows[i].hashFormat, prev);
            && (why == None <==> follows && linked && sealed)
            && (forall k :: why == Some(SeqGap(k)) <==> !follows && k == SeqOf(rows[i - 1]) + 1)
            && (why == Some(PrevMismatch) <==> i > 0 && follows && !linked)
            && (why == Some(NotGenesis) <==> i == 0 && !linked)
            && (why == Some(HashMismatch) <==> follows && linked && !sealed)
  {
  }

  /** The loop of verify_audit_chain over the selected rows. */
  method VerifyAuditChain(seal: Seal, table: seq<Row>, start: int, limit: Option<nat>) returns (v: Verdict)
    ensures v == OnlineVerdict(seal, table, start, limit)
  {
    var rows := Limited(Walked(table, start), limit);
    var expectedPrev: Option<string> := None;
    var expectedSeq: Option<int> := None;
    for i := 0 to |rows|
      invariant WalkFrom(seal, rows, start, i) == OnlineVerdict(seal, table, start, limit)
      invariant expectedSeq == if i == 0 then None else Some(SeqOf(rows[i - 1]) + 1)
      invariant expectedPrev == if i == 0 then None else Some(Str(rows[i - 1].rowHash))
    {
      var chainSeq := SeqOf(rows[i]);
      var prevHash := Str(rows[i].prevHash);
      var storedHash := Str(rows[i].rowHash);
      if expectedSeq.None? {
        if start == 1 && chainSeq == 1 && prevHash != GENESIS {
          return Broken(chainSeq, NotGenesis);
        }
      } else {
        if chainSeq != expectedSeq.value {
          return Broken(chainSeq, SeqGap(expectedSeq.value));
        }
        if expectedPrev.Some? && prevHash != expectedPrev.value {
          return Broken(chainSeq, PrevMismatch);
        }
      }
      var recomputed := seal(chainSeq, rows[i].event, rows[i].hashFormat, prevHash);
      if recomputed != storedHash {
        return Broken(chainSeq, HashMismatch);
      }
      expectedPrev := Some(storedHash);
      expectedSeq := Some(chainSeq + 1);
    }
    v := Intact;
  }

  // ---------------------------------------------------------------- genuine chains

  /** A chain from genesis: numbered 1, 2, 3, ..., each row naming the hash of the row before it
      and carrying the hash of its own content. */
  ghost predicate GenesisChain(seal: Seal, rows: seq<Row>) {
    forall i :: 0 <= i < |rows| ==> ChainedAt(seal, rows, i)
  }

  ghost predicate ChainedAt(seal: Seal, rows: seq<Row>, i: nat)
    requires i < |rows|
  {
    && rows[i].chainSeq == Some(i + 1)
    && rows[i].prevHash == Some(HashBefore(rows, i))
    && rows[i].rowHash == Some(seal(i + 1, rows[i].event, rows[i].hashFormat, HashBefore(rows, i)))
  }

  function HashBefore(rows: seq<Row>, i: nat): string
    requires i <= |rows|
  {
    if i == 0 then GENESIS else Str(rows[i - 1].rowHash)
  }

  /** The walk from 1 accepts and reaches back to row 1 exactly when the table holds a genuine
      chain. NULL hash columns are never accepted. */
  lemma AcceptedIffGenesisChain(seal: Seal, table: seq<Row>)
    requires DigestText(seal)
    ensures && OnlineVerdict(seal, table, 1, None) == Intact
            && (Walked(table, 1) != [] ==> SeqOf(Walked(table, 1)[0]) == 1)
       <==> GenesisChain(seal, Walked(table, 1))
  {
    var rows := Walked(table, 1);
    WalkReportsFirstFault(seal, rows, 1, 0);
    AllChained(table, 1);
    if Faultless(seal, rows, 1) && (rows != [] ==> SeqOf(rows[0]) == 1) {
      NoFaultNumbers(seal, rows, |rows|);
      forall i | 0 <= i < |rows| ensures ChainedAt(seal, rows, i) {
        assert Fault(seal, rows, 1, i).None?;
        assert i > 0 ==> Fault(seal, rows, 1, i - 1).None?;
      }
    }
    if GenesisChain(seal, rows) {
      GenesisChainFaultless(seal, rows);
      assert rows != [] ==> ChainedAt(seal, rows, 0);
    }
  }

  lemma GenesisChainFaultless(seal: Seal, rows: seq<Row>)
    requires GenesisChain(seal, rows)
    ensures Faultless(seal, rows, 1)
  {
    forall k | 0 <= k < |rows| ensures Fault(seal, rows, 1, k).None? {
      assert ChainedAt(seal, rows, k);
      assert k > 0 ==> ChainedAt(seal, rows, k - 1);
    }
  }

  lemma AllChained(table: seq<Row>, start: int)
    ensures forall i :: 0 <= i < |Walked(table, start)| ==>
              Walked(table, start)[i].chainSeq.Some? && SeqOf(Walked(table, start)[i]) >= start
  {
    var rows := Walked(table, start);
    SortSorts(SeqOf, ChainedFrom(table, start));
    ChainedFromMembers(table, start);
    forall i | 0 <= i < |rows| ensures rows[i].chainSeq.Some? && SeqOf(rows[i]) >= start {
      assert rows[i] in multiset(rows);
      assert rows[i] in ChainedFrom(table, start);
    }
  }

  lemma {:induction false} NoFaultNumbers(seal: Seal, rows: seq<Row>, n: nat)
    requires n <= |rows| && (rows != [] ==> SeqOf(rows[0]) == 1)
    requires forall k :: 0 <= k < |rows| ==> Fault(seal, rows, 1, k).None?
    ensures forall i :: 0 <= i < n ==> SeqOf(rows[i]) == i + 1
  {
    if n > 0 {
      NoFaultNumbers(seal, rows, n - 1);
      assert Fault(seal, rows, 1, n - 1).None?;
    }
  }

  // ---------------------------------------------------------------- windows

  lemma FaultInEarlyWindow(seal: Seal, rows: seq<Row>, start: int, j: nat, i: nat)
    requires i < j <= |rows|
    ensures Fault(seal, rows[..j], start, i) == Fault(seal, rows, start, i)
  {
  }

  lemma FaultInLateWindow(seal: Seal, rows: seq<Row>, start: int, m: nat, low: int, i: nat)
    requires 0 < i && m + i < |rows|
    ensures Fault(seal, rows[m..], low, i) == Fault(seal, rows, start, m + i)
  {
    assert rows[m..][i] == rows[m + i] && rows[m..][i - 1] == rows[m + i - 1];
  }

  lemma {:induction false} ReselectFrom(table: seq<Row>, start: int, low: int)
    requires start <= low
    ensures ChainedFrom(table, low) == KeepFrom(SeqOf, ChainedFrom(table, start), low)
  {
    if table != [] {
      ReselectFrom(table[1..], start, low);
      var rest := ChainedFrom(table[1..], start);
      assert ([table[0]] + rest)[1..] == rest;
    }
  }

  /** Starting the selection at the m-th walked row drops exactly the rows before it. */
  lemma WalkedSuffix(table: seq<Row>, start: int, m: nat)
    requires m < |Walked(table, start)|
    requires DistinctKeys(SeqOf, ChainedFrom(table, start))
    ensures Walked(table, SeqOf(Walked(table, start)[m])) == Walked(table, start)[m..]
    ensures SeqOf(Walked(table, start)[m]) >= start + m
  {
    var rows := Walked(table, start);
    var low := SeqOf(rows[m]);
    AllChained(table, start);
    SortSorts(SeqOf, ChainedFrom(table, start));
    SortKeepsDistinct(SeqOf, ChainedFrom(table, start));
    ReselectFrom(table, start, low);
    KeepSorted(SeqOf, ChainedFrom(table, start), low);
    KeepSuffix(SeqOf, rows, m);
    StrictlyUp(rows, start, m);
  }

  lemma {:induction false} StrictlyUp(rows: seq<Row>, start: int, m: nat)
    requires Ascending(SeqOf, rows) && DistinctKeys(SeqOf, rows) && m < |rows| && SeqOf(rows[0]) >= start
    ensures SeqOf(rows[m]) >= start + m
  {
    if m > 0 {
      StrictlyUp(rows, start, m - 1);
      assert SeqOf(rows[m - 1]) != SeqOf(rows[m]);
    }
  }

  ghost predicate Faultless(seal: Seal, rows: seq<Row>, start: int) {
    forall i :: 0 <= i < |rows| ==> Fault(seal, rows, start, i).None?
  }

  lemma FaultlessParts(seal: Seal, rows: seq<Row>, start: int, m: nat, low: int)
    requires m < |rows| && Faultless(seal, rows, start)
    requires low == 1 ==> Str(rows[m].prevHash) == GENESIS
    ensures Faultless(seal, rows[..m + 1], start) && Faultless(seal, rows[m..], low)
  {
    var early := rows[..m + 1];
    forall i | 0 <= i < |early| ensures Fault(seal, early, start, i).None? {
      FaultInEarlyWindow(seal, rows, start, m + 1, i);
    }
    forall i | 0 <= i < |rows| - m ensures Fault(seal, rows[m..], low, i).None? {
      assert Fault(seal, rows, start, m + i).None?;
      if i > 0 {
        FaultInLateWindow(seal, rows, start, m, low, i);
      }
    }
  }

  lemma FaultlessWhole(seal: Seal, rows: seq<Row>, start: int, m: nat, low: int)
    requires m < |rows|
    requires Faultless(seal, rows[..m + 1], start) && Faultless(seal, rows[m..], low)
    ensures Faultless(seal, rows, start)
  {
    forall i | 0 <= i < |rows| ensures Fault(seal, rows, start, i).None? {
      if i <= m {
        FaultInEarlyWindow(seal, rows, start, m + 1, i);
        assert Fault(seal, rows[..m + 1], start, i).None?;
      } else {
        FaultInLateWindow(seal, rows, start, m, low, i - m);
        assert Fault(seal, rows[m..], low, i - m).None?;
      }
    }
  }

  /** Verification composes over windows that share one row: the walk from start accepts exactly
      when the walk limited to its first m + 1 rows and the walk starting at the m-th row's
      sequence number both accept. The one-row overlap carries the link. (A window that starts
      at 1 also insists on genesis, which a walk from 0 or below does not.) */
  lemma WindowsCompose(seal: Seal, table: seq<Row>, start: int, m: nat)
    requires m < |Walked(table, start)|
    requires DistinctKeys(SeqOf, ChainedFrom(table, start))
    ensures && OnlineVerdict(seal, table, start, None) == Intact
            && (start < 1 && SeqOf(Walked(table, start)[m]) == 1 ==>
                  Str(Walked(table, start)[m].prevHash) == GENESIS)
       <==> && OnlineVerdict(seal, table, start, Some(m + 1)) == Intact
            && OnlineVerdict(seal, table, SeqOf(Walked(table, start)[m]), None) == Intact
  {
    var rows := Walked(table, start);
    var low := SeqOf(rows[m]);
    WalkedSuffix(table, start, m);
    assert Limited(rows, Some(m + 1)) == rows[..m + 1];
    WalkReportsFirstFault(seal, rows, start, 0);
    WalkReportsFirstFault(seal, rows[..m + 1], start, 0);
    WalkReportsFirstFault(seal, rows[m..], low, 0);
    if Faultless(seal, rows, start) && (low == 1 ==> Str(rows[m].prevHash) == GENESIS) {
      FaultlessParts(seal, rows, start, m, low);
    } else if Faultless(seal, rows, start) {
      assert Fault(seal, rows, start, 0).None?;
      assert Fault(seal, rows[m..], 1, 0).Some?;
    } else if Faultless(seal, rows[..m + 1], start) && Faultless(seal, rows[m..], low) {
      FaultlessWhole(seal, rows, start, m, low);
    }
  }
}
