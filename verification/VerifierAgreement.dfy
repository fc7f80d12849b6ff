/** When the online walk over the table and the offline inspection of its export agree. */
module VerifierAgreement {
  import opened Texts
  import opened AuditRows
  import opened Sorting
  import opened OnlineVerifier
  import opened OfflineVerifier

  function Exported(table: seq<Row>): seq<Line> {
    seq(|table|, i requires 0 <= i < |table| => Line(table[i]))
  }

  /** Both accept, or both reject and name the same row. */
  ghost predicate SameVerdict(v: Verdict, o: Outcome) {
    || (v.Intact? && o.Verified?)
    || (v.Broken? && o.Tampered? && v.seqNo == o.seqNo)
  }

  /** An export that starts past row 1 with an empty predecessor hash: the online walk hashes the
      column as it reads it, the offline inspection substitutes genesis. The row's stored hash
      fits one of the two readings. */
  ghost predicate AmbiguousStart(seal: Seal, rows: seq<Row>) {
    && rows != []
    && SeqOf(rows[0]) != 1
    && OrEmpty(rows[0].prevHash) == ""
    && (|| rows[0].rowHash == Some(Recomputed(seal, rows[0]))
        || rows[0].rowHash == Some(seal(SeqOf(rows[0]), rows[0].event, rows[0].hashFormat, GENESIS)))
  }

  /** After row 0 the two checks are the same check. */
  lemma SameLaterFaults(seal: Seal, rows: seq<Row>, i: nat)
    requires DigestText(seal) && 0 < i < |rows|
    requires Fault(seal, rows, 1, i - 1).None?
    ensures Fault(seal, rows, 1, i).None? <==> Complain(seal, rows, i).None?
  {
    var prev := rows[i - 1];
    assert Str(prev.rowHash) == Recomputed(seal, prev);
    assert Str(prev.rowHash) != "" && Str(prev.rowHash) != "None";
    assert Recomputed(seal, rows[i]) != "None";
  }

  lemma SameFirstFault(seal: Seal, rows: seq<Row>)
    requires DigestText(seal) && BindsPrev(seal) && rows != []
    ensures (Fault(seal, rows, 1, 0).None? <==> Complain(seal, rows, 0).None?) <==> !AmbiguousStart(seal, rows)
  {
    var r := rows[0];
    assert Recomputed(seal, r) != "None";
    if SeqOf(r) != 1 && OrEmpty(r.prevHash) == "" {
      assert Recomputed(seal, r) != seal(SeqOf(r), r.event, r.hashFormat, GENESIS);
    }
  }

  /** Once row 0 is judged alike, so is everything after it. */
  lemma {:induction false} SameWalk(seal: Seal, rows: seq<Row>, i: nat)
    requires DigestText(seal) && i <= |rows|
    requires i == 0 && rows != [] ==> (Fault(seal, rows, 1, 0).None? <==> Complain(seal, rows, 0).None?)
    requires i > 0 ==> Fault(seal, rows, 1, i - 1).None?
    ensures WalkFrom(seal, rows, 1, i).Intact? <==> InspectFrom(seal, rows, i).None?
    ensures WalkFrom(seal, rows, 1, i).Broken? ==> WalkFrom(seal, rows, 1, i).seqNo == InspectFrom(seal, rows, i).value.0
    decreases |rows| - i
  {
    if i < |rows| {
      if i > 0 {
        SameLaterFaults(seal, rows, i);
      }
      if Fault(seal, rows, 1, i).None? {
        SameWalk(seal, rows, i + 1);
      }
    }
  }

  /** If only one of them stops at row 0, the other cannot name row 0. */
  lemma DifferentWalk(seal: Seal, rows: seq<Row>)
    requires rows != [] && DistinctKeys(SeqOf, rows)
    requires Fault(seal, rows, 1, 0).None? <==> Complain(seal, rows, 0).Some?
    ensures var v, o := WalkFrom(seal, rows, 1, 0), InspectFrom(seal, rows, 0);
            !(v.Intact? && o.None?) && !(v.Broken? && o.Some? && v.seqNo == o.value.0)
  {
    WalkReportsFirstFault(seal, rows, 1, 1);
    InspectFindsFirst(seal, rows, 1);
  }

  lemma {:induction false} ExportedNumbered(table: seq<Row>)
    requires forall r :: r in table && r.chainSeq.Some? ==> r.chainSeq.value >= 1
    ensures Numbered(Exported(table)) == ChainedFrom(table, 1)
    ensures UnreadableSeq !in Exported(table)
  {
    if table != [] {
      assert table[0] in table;
      ExportedNumbered(table[1..]);
      assert Exported(table)[1..] == Exported(table[1..]);
    }
  }

  /** For every table with distinct numbers from 1 up, exported in any order: the two verifiers
      give the same verdict and name the same first failing row, exactly when the lowest row is
      not ambiguous. */
  lemma VerifiersAgreeIff(seal: Seal, table: seq<Row>, lines: seq<Line>)
    requires DigestText(seal) && BindsPrev(seal)
    requires forall r :: r in table && r.chainSeq.Some? ==> r.chainSeq.value >= 1
    requires DistinctKeys(SeqOf, ChainedFrom(table, 1))
    requires multiset(lines) == multiset(Exported(table))
    ensures SameVerdict(OnlineVerdict(seal, table, 1, None), OfflineOutcome(seal, lines))
       <==> !AmbiguousStart(seal, Walked(table, 1))
  {
    var rows := Walked(table, 1);
    ExportedNumbered(table);
    SortKeepsDistinct(SeqOf, ChainedFrom(table, 1));
    LineOrderIrrelevant(seal, Exported(table), lines);
    assert OfflineOutcome(seal, lines) == OfflineOutcome(seal, Exported(table));
    if rows != [] {
      SameFirstFault(seal, rows);
    }
    if AmbiguousStart(seal, rows) {
      DifferentWalk(seal, rows);
    } else {
      SameWalk(seal, rows, 0);
    }
  }

  /** In particular, for the hash the service uses, they agree whenever every stored predecessor
      hash is non-empty. */
  lemma VerifiersAgree(h: Hash, table: seq<Row>, lines: seq<Line>)
    requires CollisionFree(h) && HexText(h)
    requires forall r :: r in table && r.chainSeq.Some? ==> r.chainSeq.value >= 1 && OrEmpty(r.prevHash) != ""
    requires DistinctKeys(SeqOf, ChainedFrom(table, 1))
    requires multiset(lines) == multiset(Exported(table))
    ensures SameVerdict(OnlineVerdict(RowSeal(h), table, 1, None), OfflineOutcome(RowSeal(h), lines))
  {
    RowSealDigest(h);
    RowSealBindsPrev(h);
    VerifiersAgreeIff(RowSeal(h), table, lines);
    var rows := Walked(table, 1);
    if rows != [] {
      SortSorts(SeqOf, ChainedFrom(table, 1));
      ChainedFromMembers(table, 1);
      assert rows[0] in multiset(rows);
      assert rows[0] in ChainedFrom(table, 1);
    }
  }

  /** A partial export whose lowest row names no predecessor: accepted online, rejected offline. */
  lemma AmbiguousExample(seal: Seal, e: Event)
    requires DigestText(seal) && BindsPrev(seal)
    ensures var r := Row(Some(2), Some(""), Some(seal(2, e, Some("v2"), "")), e, Some("v2"));
            OnlineVerdict(seal, [r], 1, None) == Intact && OfflineOutcome(seal, [Line(r)]) == Tampered(2, WrongHash)
  {
    var r := Row(Some(2), Some(""), Some(seal(2, e, Some("v2"), "")), e, Some("v2"));
    assert ChainedFrom([r], 1) == [r];
    assert Numbered([Line(r)]) == [r] + Numbered([]) == [r];
    assert SortBy(SeqOf, [r]) == [r];
    SameFirstFault(seal, [r]);
    assert AmbiguousStart(seal, [r]);
    assert Fault(seal, [r], 1, 0).None?;
    assert WalkFrom(seal, [r], 1, 0) == WalkFrom(seal, [r], 1, 1) == Intact;
  }
}
