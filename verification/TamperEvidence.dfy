/** What an accepted chain proves about its own past, and what one matching anchor adds. */
module TamperEvidence {
  import opened Texts
  import opened AuditRows
  import opened Sorting
  import opened OnlineVerifier
  import opened OfflineVerifier

  function ContentOf(r: Row): Bound {
    BoundContent(r.event, r.hashFormat)
  }

  /** The hashed fields of a row hold no pipe, detail included. */
  ghost predicate Clean(r: Row) {
    PipeFree(Hashed(r.event, r.hashFormat))
  }

  /** The first n rows agree on both hashes and on the text their hashes are taken over. */
  ghost predicate SameTexts(xs: seq<Row>, ys: seq<Row>, n: nat)
    requires n <= |xs| && n <= |ys|
  {
    forall k :: 0 <= k < n ==>
      && xs[k].rowHash == ys[k].rowHash
      && xs[k].prevHash == ys[k].prevHash
      && TextOf(xs[k].event, xs[k].hashFormat) == TextOf(ys[k].event, ys[k].hashFormat)
  }

  /** Two rows hold the same content exactly when their pipes are spread alike, so in particular if
      either of them is clean, or if both have pipes in detail only. */
  ghost predicate Pinned(r: Row, s: Row) {
    && (ContentOf(r) == ContentOf(s) <==> PipesPer(Hashed(r.event, r.hashFormat)) == PipesPer(Hashed(s.event, s.hashFormat)))
    && (Clean(r) || Clean(s) ==> ContentOf(r) == ContentOf(s))
    && (PipeFreeButDetail(r.event, r.hashFormat) && PipeFreeButDetail(s.event, s.hashFormat) ==> ContentOf(r) == ContentOf(s))
  }

  ghost predicate PinnedPrefix(xs: seq<Row>, ys: seq<Row>, n: nat)
    requires n <= |xs| && n <= |ys|
  {
    forall k :: 0 <= k < n ==> Pinned(xs[k], ys[k])
  }

  lemma SameTextsPin(xs: seq<Row>, ys: seq<Row>, n: nat)
    requires n <= |xs| && n <= |ys| && SameTexts(xs, ys, n)
    ensures PinnedPrefix(xs, ys, n)
  {
    forall k | 0 <= k < n ensures Pinned(xs[k], ys[k]) {
      SameTextSameContentIff(xs[k].event, xs[k].hashFormat, ys[k].event, ys[k].hashFormat);
    }
  }

  /** After predecessor hashes without a pipe, equal seals mean equal number, event text and
      predecessor, and conversely. */
  ghost predicate BindsText(seal: Seal) {
    forall m, e, f, p, n, e', f', p' :: '|' !in p && '|' !in p' ==>
      (seal(m, e, f, p) == seal(n, e', f', p') <==> m == n && TextOf(e, f) == TextOf(e', f') && p == p')
  }

  /** compute_audit_row_hash over a collision-free hash binds the text of the event. */
  lemma RowSealBindsText(h: Hash)
    requires CollisionFree(h)
    ensures BindsText(RowSeal(h))
  {
    forall m, e, f, p, n, e', f', p' | '|' !in p && '|' !in p'
      ensures RowSeal(h)(m, e, f, p) == RowSeal(h)(n, e', f', p') <==> m == n && TextOf(e, f) == TextOf(e', f') && p == p'
    {
      CanonicalBindsText(m, e, f, p, n, e', f', p');
    }
  }

  lemma HashBeforePipeFree(seal: Seal, rows: seq<Row>, i: nat)
    requires DigestText(seal) && GenesisChain(seal, rows) && i <= |rows|
    ensures '|' !in HashBefore(rows, i)
  {
    if i > 0 {
      assert ChainedAt(seal, rows, i - 1);
    }
  }

  /** Equal row hashes mean equal positions, equal predecessors and equal event texts. */
  lemma SameHashSameRow(seal: Seal, xs: seq<Row>, i: nat, ys: seq<Row>, j: nat)
    requires DigestText(seal) && BindsText(seal)
    requires GenesisChain(seal, xs) && GenesisChain(seal, ys) && i < |xs| && j < |ys|
    requires xs[i].rowHash == ys[j].rowHash
    ensures i == j && HashBefore(xs, i) == HashBefore(ys, j) && xs[i].prevHash == ys[j].prevHash
    ensures TextOf(xs[i].event, xs[i].hashFormat) == TextOf(ys[j].event, ys[j].hashFormat)
    ensures Pinned(xs[i], ys[j])
  {
    assert ChainedAt(seal, xs, i) && ChainedAt(seal, ys, j);
    HashBeforePipeFree(seal, xs, i);
    HashBeforePipeFree(seal, ys, j);
    SameTextSameContentIff(xs[i].event, xs[i].hashFormat, ys[j].event, ys[j].hashFormat);
  }

  /** Tamper evidence: two genuine chains that share one row hash share every hash and every event
      text before it, v1 and v2 rows mixed in any way and whatever the fields hold. Each row that is
      clean in either chain has the same content in the other. */
  lemma {:induction false} SameHashSamePast(seal: Seal, xs: seq<Row>, i: nat, ys: seq<Row>, j: nat)
    requires DigestText(seal) && BindsText(seal)
    requires GenesisChain(seal, xs) && GenesisChain(seal, ys) && i < |xs| && j < |ys|
    requires xs[i].rowHash == ys[j].rowHash
    ensures i == j && SameTexts(xs, ys, i + 1) && PinnedPrefix(xs, ys, i + 1)
  {
    SameHashSameRow(seal, xs, i, ys, j);
    if i > 0 {
      assert ChainedAt(seal, xs, i - 1) && ChainedAt(seal, ys, i - 1);
      SameHashSamePast(seal, xs, i - 1, ys, i - 1);
    }
    SameTextsPin(xs, ys, i + 1);
  }

  /** At one position, equal hashes and equal event texts of the whole past are the same thing. */
  lemma {:induction false} HashPinsPast(seal: Seal, xs: seq<Row>, ys: seq<Row>, i: nat)
    requires DigestText(seal) && BindsText(seal)
    requires GenesisChain(seal, xs) && GenesisChain(seal, ys) && i < |xs| && i < |ys|
    ensures xs[i].rowHash == ys[i].rowHash
       <==> forall k :: 0 <= k <= i ==>
              TextOf(xs[k].event, xs[k].hashFormat) == TextOf(ys[k].event, ys[k].hashFormat)
  {
    if xs[i].rowHash == ys[i].rowHash {
      SameHashSamePast(seal, xs, i, ys, i);
    } else if forall k :: 0 <= k <= i ==>
      TextOf(xs[k].event, xs[k].hashFormat) == TextOf(ys[k].event, ys[k].hashFormat) {
      if i > 0 {
        HashPinsPast(seal, xs, ys, i - 1);
      }
      assert ChainedAt(seal, xs, i) && ChainedAt(seal, ys, i);
      HashBeforePipeFree(seal, xs, i);
      HashBeforePipeFree(seal, ys, i);
    }
  }

  /** If the past of one chain is clean, equal hashes and equal content of the whole past are the
      same thing, whatever the other chain holds. */
  lemma HashPinsCleanPast(seal: Seal, xs: seq<Row>, ys: seq<Row>, i: nat)
    requires DigestText(seal) && BindsText(seal)
    requires GenesisChain(seal, xs) && GenesisChain(seal, ys) && i < |xs| && i < |ys|
    requires forall k :: 0 <= k <= i ==> Clean(xs[k])
    ensures xs[i].rowHash == ys[i].rowHash <==> forall k :: 0 <= k <= i ==> ContentOf(xs[k]) == ContentOf(ys[k])
  {
    HashPinsPast(seal, xs, ys, i);
    forall k | 0 <= k <= i
      ensures ContentOf(xs[k]) == ContentOf(ys[k])
         <==> TextOf(xs[k].event, xs[k].hashFormat) == TextOf(ys[k].event, ys[k].hashFormat)
    {
      BoundIsHashed(xs[k].event, xs[k].hashFormat, ys[k].event, ys[k].hashFormat);
      if TextOf(xs[k].event, xs[k].hashFormat) == TextOf(ys[k].event, ys[k].hashFormat) {
        SameTextSameContentIff(xs[k].event, xs[k].hashFormat, ys[k].event, ys[k].hashFormat);
      }
    }
  }

  /** Row i replaced by a row of other content under the same hash, the chain still genuine. */
  ghost predicate ChangedUnseen(seal: Seal, rows: seq<Row>, i: nat, r: Row)
    requires i < |rows|
  {
    r.rowHash == rows[i].rowHash && ContentOf(r) != ContentOf(rows[i]) && GenesisChain(seal, rows[i := r])
  }

  /** A row of a genuine chain can be changed without any hash noticing exactly when one of its
      hashed fields, detail included, holds a pipe. */
  lemma ChangedUnseenIff(h: Hash, rows: seq<Row>, i: nat)
    requires CollisionFree(h) && HexText(h) && GenesisChain(RowSeal(h), rows) && i < |rows|
    ensures (exists r :: ChangedUnseen(RowSeal(h), rows, i, r)) <==> !Clean(rows[i])
  {
    var seal, was := RowSeal(h), rows[i];
    if Clean(was) {
      RowSealDigest(h);
      RowSealBindsText(h);
      forall r | ChangedUnseen(seal, rows, i, r) ensures false {
        assert rows[i := r][i] == r;
        SameHashSameRow(seal, rows, i, rows[i := r], i);
      }
    } else {
      assert ChainedAt(seal, rows, i);
      var e' := ForgedEvent(i + 1, was.event, was.hashFormat, HashBefore(rows, i));
      var r := was.(event := e');
      SameHashKeepsChain(seal, rows, i, r);
      assert ChangedUnseen(seal, rows, i, r);
    }
  }

  lemma SameHashKeepsChain(seal: Seal, rows: seq<Row>, i: nat, r: Row)
    requires GenesisChain(seal, rows) && i < |rows|
    requires r.chainSeq == rows[i].chainSeq && r.prevHash == rows[i].prevHash && r.rowHash == rows[i].rowHash
    requires r.rowHash == Some(seal(i + 1, r.event, r.hashFormat, HashBefore(rows, i)))
    ensures GenesisChain(seal, rows[i := r])
  {
    var rows' := rows[i := r];
    forall k | 0 <= k < |rows'| ensures ChainedAt(seal, rows', k) {
      assert ChainedAt(seal, rows, k);
      assert HashBefore(rows', k) == HashBefore(rows, k);
    }
  }

  // ---------------------------------------------------------------- acceptance by the offline tool

  /** Exit 0 without a partial-export note means the bundle holds a genuine chain, and conversely. */
  lemma OfflineAcceptsIffGenesisChain(seal: Seal, lines: seq<Line>)
    requires DigestText(seal)
    ensures && OfflineOutcome(seal, lines).Verified?
            && OfflineOutcome(seal, lines).partialFrom.None?
       <==> UnreadableSeq !in lines && GenesisChain(seal, Sorted(lines))
  {
    var rows := Sorted(lines);
    InspectFindsFirst(seal, rows, 0);
    SortedNumbered(lines);
    if UnreadableSeq !in lines && InspectFrom(seal, rows, 0).None? && PartialFrom(rows).None? {
      NoComplaintNumbers(seal, rows, |rows|);
      forall i | 0 <= i < |rows| ensures ChainedAt(seal, rows, i) {
        assert Complain(seal, rows, i).None?;
        assert i > 0 ==> Complain(seal, rows, i - 1).None?;
      }
    }
    if GenesisChain(seal, rows) {
      forall i | 0 <= i < |rows| ensures Complain(seal, rows, i).None? {
        assert ChainedAt(seal, rows, i);
        assert i > 0 ==> ChainedAt(seal, rows, i - 1);
      }
      assert rows != [] ==> ChainedAt(seal, rows, 0);
    }
  }

  lemma {:induction false} NumberedMembers(lines: seq<Line>)
    ensures forall r :: r in Numbered(lines) ==> r.chainSeq.Some? && Line(r) in lines
  {
    if lines != [] {
      NumberedMembers(lines[1..]);
    }
  }

  lemma SortedNumbered(lines: seq<Line>)
    ensures forall i :: 0 <= i < |Sorted(lines)| ==> Sorted(lines)[i].chainSeq.Some?
    ensures forall r :: r in Numbered(lines) <==> r in Sorted(lines)
  {
    NumberedMembers(lines);
    SortSorts(SeqOf, Numbered(lines));
    forall r ensures r in Numbered(lines) <==> r in Sorted(lines) {
      assert r in multiset(Sorted(lines)) <==> r in multiset(Numbered(lines));
    }
  }

  lemma {:induction false} NoComplaintNumbers(seal: Seal, rows: seq<Row>, n: nat)
    requires n <= |rows| && PartialFrom(rows).None?
    requires forall k :: 0 <= k < |rows| ==> Complain(seal, rows, k).None?
    ensures forall i :: 0 <= i < n ==> SeqOf(rows[i]) == i + 1
  {
    if n > 0 {
      NoComplaintNumbers(seal, rows, n - 1);
      assert Complain(seal, rows, n - 1).None?;
    }
  }

  // ---------------------------------------------------------------- anchors

  /** A timestamp anchor's claim; the token itself is checked elsewhere. */
  datatype Anchor = Anchor(orgId: string, chainSeq: int, rowHash: string, chain: Option<string>)

  datatype AnchorMatch = Matched | Orphan | Mismatch

  /** chain_seq -> row_hash over the bundle's rows, a later row overriding an earlier one. */
  function AuditHeads(rows: seq<Row>): map<int, string> {
    if rows == [] then map[]
    else
      var r := rows[|rows| - 1];
      var heads := AuditHeads(rows[..|rows| - 1]);
      if OrEmpty(r.rowHash) != "" then heads[SeqOf(r) := r.rowHash.value] else heads
  }

  method BuildAuditHeads(rows: seq<Row>) returns (heads: map<int, string>)
    ensures heads == AuditHeads(rows)
  {
    heads := map[];
    for i := 0 to |rows|
      invariant heads == AuditHeads(rows[..i])
    {
      assert rows[..i + 1][..i] == rows[..i];
      if OrEmpty(rows[i].rowHash) != "" {
        heads := heads[SeqOf(rows[i]) := rows[i].rowHash.value];
      }
    }
    assert rows[..|rows|] == rows;
  }

  /** The anchor is looked up in the audit_log chain: it carries that tag, or no tag and only that
      chain holds its number. */
  predicate LooksInAuditLog(local: map<(string, int), string>, audit: map<int, string>, a: Anchor) {
    a.chain == Some("audit_log") || (a.chain.None? && (a.orgId, a.chainSeq) !in local && a.chainSeq in audit)
  }

  /** The hash an anchor is compared with: from the audit_log chain, or else the local chain. */
  function AnchorHead(local: map<(string, int), string>, audit: map<int, string>, a: Anchor): Option<string> {
    var key := (a.orgId, a.chainSeq);
    if LooksInAuditLog(local, audit, a) then
      if a.chainSeq in audit then Some(audit[a.chainSeq]) else None
    else
      if key in local then Some(local[key]) else None
  }

  function CheckAnchor(local: map<(string, int), string>, audit: map<int, string>, a: Anchor): AnchorMatch {
    match AnchorHead(local, audit, a)
    case None => Orphan
    case Some(head) => if head == a.rowHash then Matched else Mismatch
  }

  lemma {:induction false} HeadIsARow(rows: seq<Row>, n: int)
    requires n in AuditHeads(rows)
    ensures exists r :: r in rows && SeqOf(r) == n && r.rowHash == Some(AuditHeads(rows)[n])
  {
    var last := rows[|rows| - 1];
    if OrEmpty(last.rowHash) != "" && SeqOf(last) == n {
      assert last in rows;
    } else {
      HeadIsARow(rows[..|rows| - 1], n);
    }
  }

  /** Which hash decides over an anchor: that of the audit_log chain for an anchor with that tag, and
      for one without a tag if the local chain does not hold its number; else that of the local chain.
      An anchor without any such hash is an orphan. */
  lemma AnchorCases(local: map<(string, int), string>, audit: map<int, string>, a: Anchor)
    ensures var key, verdict := (a.orgId, a.chainSeq), CheckAnchor(local, audit, a);
            var here, there := a.chainSeq in audit, key in local;
            && (a.chain == Some("audit_log") ==>
                  (verdict == Orphan <==> !here) && (verdict == Matched <==> here && audit[a.chainSeq] == a.rowHash))
            && (a.chain == None && there ==> (verdict == Matched <==> local[key] == a.rowHash) && verdict != Orphan)
            && (a.chain == None && !there ==>
                  (verdict == Orphan <==> !here) && (verdict == Matched <==> here && audit[a.chainSeq] == a.rowHash))
            && (a.chain.Some? && a.chain.value != "audit_log" ==>
                  (verdict == Orphan <==> !there) && (verdict == Matched <==> there && local[key] == a.rowHash))
  {
  }

  lemma {:induction false} HeadOfNumber(rows: seq<Row>, i: nat)
    requires i < |rows| && OrEmpty(rows[i].rowHash) != ""
    requires forall j :: i < j < |rows| && SeqOf(rows[j]) == SeqOf(rows[i]) ==> OrEmpty(rows[j].rowHash) == ""
    ensures SeqOf(rows[i]) in AuditHeads(rows) && rows[i].rowHash == Some(AuditHeads(rows)[SeqOf(rows[i])])
  {
    var k := |rows| - 1;
    if i < k {
      HeadOfNumber(rows[..k], i);
    }
  }

  /** How an anchor looked up in the audit_log chain fares against an accepted full bundle: it matches
      exactly when it names the hash of the row it numbers, and is an orphan exactly when there is no
      such row. */
  lemma {:induction false} AnchorVerdict(seal: Seal, lines: seq<Line>, local: map<(string, int), string>, a: Anchor)
    requires DigestText(seal) && AcceptedInFull(seal, lines)
    requires LooksInAuditLog(local, AuditHeads(Numbered(lines)), a)
    ensures var rows, verdict := Sorted(lines), CheckAnchor(local, AuditHeads(Numbered(lines)), a);
            && (verdict == Orphan <==> !(1 <= a.chainSeq <= |rows|))
            && (verdict == Matched <==> 1 <= a.chainSeq <= |rows| && rows[a.chainSeq - 1].rowHash == Some(a.rowHash))
  {
    OfflineAcceptsIffGenesisChain(seal, lines);
    if a.chainSeq in AuditHeads(Numbered(lines)) {
      HeadIsChainRow(seal, lines, a.chainSeq);
    }
    if 1 <= a.chainSeq <= |Sorted(lines)| {
      NumberedHasHead(seal, lines, a.chainSeq - 1);
    }
  }

  lemma {:induction false} HeadIsChainRow(seal: Seal, lines: seq<Line>, n: int)
    requires GenesisChain(seal, Sorted(lines)) && n in AuditHeads(Numbered(lines))
    ensures 1 <= n <= |Sorted(lines)| && Sorted(lines)[n - 1].rowHash == Some(AuditHeads(Numbered(lines))[n])
  {
    var k := SortedHead(lines, n);
    assert ChainedAt(seal, Sorted(lines), k);
  }

  /** A head is the hash of some sorted row with that number. */
  lemma {:induction false} SortedHead(lines: seq<Line>, n: int) returns (k: nat)
    requires n in AuditHeads(Numbered(lines))
    ensures k < |Sorted(lines)| && SeqOf(Sorted(lines)[k]) == n && Sorted(lines)[k].rowHash == Some(AuditHeads(Numbered(lines))[n])
  {
    HeadIsARow(Numbered(lines), n);
    var r :| r in Numbered(lines) && SeqOf(r) == n && r.rowHash == Some(AuditHeads(Numbered(lines))[n]);
    SortedNumbered(lines);
    assert r in Sorted(lines);
    k :| 0 <= k < |Sorted(lines)| && Sorted(lines)[k] == r;
  }

  lemma {:induction false} NumberedHasHead(seal: Seal, lines: seq<Line>, k: nat)
    requires DigestText(seal) && GenesisChain(seal, Sorted(lines)) && k < |Sorted(lines)|
    ensures k + 1 in AuditHeads(Numbered(lines))
  {
    var rows, listed := Sorted(lines), Numbered(lines);
    SortedNumbered(lines);
    assert ChainedAt(seal, rows, k);
    assert rows[k] in listed;
    var i :| 0 <= i < |listed| && listed[i] == rows[k];
    HashedNumberHasHead(listed, i);
  }

  lemma {:induction false} HashedNumberHasHead(rows: seq<Row>, i: nat)
    requires i < |rows| && OrEmpty(rows[i].rowHash) != ""
    ensures SeqOf(rows[i]) in AuditHeads(rows)
  {
    if i < |rows| - 1 {
      HashedNumberHasHead(rows[..|rows| - 1], i);
    }
  }

  /** The anchor passes against these bundle lines, by way of the audit_log chain. */
  ghost predicate AnchoredIn(lines: seq<Line>, local: map<(string, int), string>, a: Anchor) {
    var audit := AuditHeads(Numbered(lines));
    LooksInAuditLog(local, audit, a) && CheckAnchor(local, audit, a) == Matched
  }

  ghost predicate AcceptedInFull(seal: Seal, lines: seq<Line>) {
    OfflineOutcome(seal, lines).Verified? && OfflineOutcome(seal, lines).partialFrom.None?
  }

  /** In an accepted full bundle a matched anchor names the hash of the row it numbers. */
  lemma {:induction false} MatchedAnchorFindsRow(seal: Seal, lines: seq<Line>, local: map<(string, int), string>, a: Anchor)
    requires DigestText(seal) && AcceptedInFull(seal, lines) && AnchoredIn(lines, local, a)
    ensures GenesisChain(seal, Sorted(lines))
    ensures 1 <= a.chainSeq <= |Sorted(lines)| && Sorted(lines)[a.chainSeq - 1].rowHash == Some(a.rowHash)
  {
    OfflineAcceptsIffGenesisChain(seal, lines);
    var k := AnchoredRow(lines, local, a);
    assert ChainedAt(seal, Sorted(lines), k);
  }

  /** Some row of the bundle has the anchor's number and hash. */
  lemma {:induction false} AnchoredRow(lines: seq<Line>, local: map<(string, int), string>, a: Anchor) returns (k: nat)
    requires AnchoredIn(lines, local, a)
    ensures k < |Sorted(lines)| && SeqOf(Sorted(lines)[k]) == a.chainSeq && Sorted(lines)[k].rowHash == Some(a.rowHash)
  {
    k := SortedHead(lines, a.chainSeq);
  }

  /** One anchor pins the whole prefix: any two bundles the offline tool accepts in full, both
      matching the same anchor, agree up to it on every hash and every event text, and on the content
      of every row that is clean in one of them. */
  lemma AnchorPinsPrefix(h: Hash, xs: seq<Line>, ys: seq<Line>, a: Anchor,
                         localX: map<(string, int), string>, localY: map<(string, int), string>)
    requires CollisionFree(h) && HexText(h)
    requires AcceptedInFull(RowSeal(h), xs) && AcceptedInFull(RowSeal(h), ys)
    requires AnchoredIn(xs, localX, a) && AnchoredIn(ys, localY, a)
    ensures 1 <= a.chainSeq <= |Sorted(xs)| && a.chainSeq <= |Sorted(ys)|
    ensures SameTexts(Sorted(xs), Sorted(ys), a.chainSeq) && PinnedPrefix(Sorted(xs), Sorted(ys), a.chainSeq)
  {
    RowSealDigest(h);
    RowSealBindsText(h);
    MatchedAnchorFindsRow(RowSeal(h), xs, localX, a);
    MatchedAnchorFindsRow(RowSeal(h), ys, localY, a);
    SameHashSamePast(RowSeal(h), Sorted(xs), a.chainSeq - 1, Sorted(ys), a.chainSeq - 1);
  }
}
