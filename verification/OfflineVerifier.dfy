/** verify_audit_log_chain of the stand-alone verifier, and how it relates to the online walk. */
module OfflineVerifier {
  import opened Texts
  import opened AuditRows
  import opened Sorting
  import opened OnlineVerifier

  /** One bundle line classified as an audit_log row. */
  datatype Line = Line(row: Row) | UnreadableSeq

  datatype Complaint = Duplicate | Missing(expected: int) | BrokenLink | WrongHash

  datatype Outcome =
    | Verified(count: nat, skipped: nat, partialFrom: Option<int>)
    | Tampered(seqNo: int, what: Complaint)
    | Unrecognized

  function ExitCode(o: Outcome): int {
    match o
    case Verified(_, _, _) => 0
    case Tampered(_, _) => 2
    case Unrecognized => 9
  }

  function NumberedLine(line: Line): (rows: seq<Row>)
    ensures |rows| <= 1
  {
    if line.Line? && line.row.chainSeq.Some? then [line.row] else []
  }

  /** The rows that carry a sequence number; the rest predate the chain and are skipped. */
  function Numbered(lines: seq<Line>): (rows: seq<Row>)
    ensures |rows| <= |lines|
  {
    if lines == [] then []
    else NumberedLine(lines[0]) + Numbered(lines[1..])
  }

  function Sorted(lines: seq<Line>): seq<Row> {
    SortBy(SeqOf, Numbered(lines))
  }

  /** The predecessor hash row i must name: genesis for row 1, its own claim when the export
      starts later, the stored hash of the previous row otherwise. */
  function ExpectedPrev(rows: seq<Row>, i: nat): Option<string>
    requires i < |rows|
  {
    if i > 0 then Some(Str(rows[i - 1].rowHash))
    else if SeqOf(rows[0]) == 1 then Some(GENESIS)
    else rows[0].prevHash
  }

  function OrGenesis(o: Option<string>): string {
    if OrEmpty(o) == "" then GENESIS else o.value
  }

  function Complain(seal: Seal, rows: seq<Row>, i: nat): Option<Complaint>
    requires i < |rows|
  {
    var r, n := rows[i], SeqOf(rows[i]);
    if i > 0 && n == SeqOf(rows[i - 1]) then Some(Duplicate)
    else if i > 0 && n != SeqOf(rows[i - 1]) + 1 then Some(Missing(SeqOf(rows[i - 1]) + 1))
    else if r.prevHash != ExpectedPrev(rows, i) then Some(BrokenLink)
    else if Some(seal(n, r.event, r.hashFormat, OrGenesis(ExpectedPrev(rows, i)))) != r.rowHash then
      Some(WrongHash)
    else None
  }

  function InspectFrom(seal: Seal, rows: seq<Row>, i: nat): Option<(int, Complaint)>
    requires i <= |rows|
    decreases |rows| - i
  {
    if i == |rows| then None
    else match Complain(seal, rows, i)
      case Some(c) => Some((SeqOf(rows[i]), c))
      case None => InspectFrom(seal, rows, i + 1)
  }

  function PartialFrom(rows: seq<Row>): Option<int> {
    if rows != [] && SeqOf(rows[0]) != 1 then Some(SeqOf(rows[0])) else None
  }

  function OfflineOutcome(seal: Seal, lines: seq<Line>): Outcome {
    if UnreadableSeq in lines then Unrecognized
    else
      var rows := Sorted(lines);
      match InspectFrom(seal, rows, 0)
      case Some((n, c)) => Tampered(n, c)
      case None => Verified(|rows|, |lines| - |Numbered(lines)|, PartialFrom(rows))
  }

  lemma {:induction false} InspectFindsFirst(seal: Seal, rows: seq<Row>, i: nat)
    requires i <= |rows|
    ensures InspectFrom(seal, rows, i).None? <==> forall k :: i <= k < |rows| ==> Complain(seal, rows, k).None?
    ensures forall n, c :: InspectFrom(seal, rows, i) == Some((n, c)) ==>
              exists k :: i <= k < |rows| && SeqOf(rows[k]) == n && Complain(seal, rows, k) == Some(c)
                          && forall j :: i <= j < k ==> Complain(seal, rows, j).None?
    decreases |rows| - i
  {
    if i < |rows| {
      InspectFindsFirst(seal, rows, i + 1);
      if Complain(seal, rows, i).None? {
        assert InspectFrom(seal, rows, i) == InspectFrom(seal, rows, i + 1);
      }
    }
  }

  lemma {:induction false} NumberedAppend(xs: seq<Line>, ys: seq<Line>)
    ensures Numbered(xs + ys) == Numbered(xs) + Numbered(ys)
  {
    if xs == [] {
      assert xs + ys == ys;
    } else {
      NumberedAppend(xs[1..], ys);
      assert (xs + ys)[1..] == xs[1..] + ys && (xs + ys)[0] == xs[0];
      Regroup(NumberedLine(xs[0]), Numbered(xs[1..]), Numbered(ys));
    }
  }

  /** First loop: set aside the unnumbered rows, stop at an unreadable number. */
  method CollectNumbered(lines: seq<Line>) returns (readable: bool, rows: seq<Row>, skipped: nat)
    ensures readable <==> UnreadableSeq !in lines
    ensures readable ==> rows == Numbered(lines) && |rows| + skipped == |lines|
  {
    skipped, rows := 0, [];
    for i := 0 to |lines|
      invariant UnreadableSeq !in lines[..i]
      invariant rows == Numbered(lines[..i]) && |rows| + skipped == i
    {
      NumberedAppend(lines[..i], [lines[i]]);
      assert lines[..i + 1] == lines[..i] + [lines[i]];
      match lines[i] {
        case UnreadableSeq => return false, rows, skipped;
        case Line(r) =>
          if r.chainSeq.None? {
            skipped := skipped + 1;
          } else {
            rows := rows + [r];
          }
      }
    }
    assert lines[..|lines|] == lines;
    readable := true;
  }

  /** Second loop: walk the sorted rows. */
  method InspectRows(seal: Seal, rows: seq<Row>) returns (bad: Option<(int, Complaint)>, verified: nat, partialFrom: Option<int>)
    ensures bad == InspectFrom(seal, rows, 0)
    ensures bad.None? ==> verified == |rows| && partialFrom == PartialFrom(rows)
  {
    verified, partialFrom := 0, None;
    var prevHash: Option<string> := None;
    var prevSeq: Option<int> := None;
    for i := 0 to |rows|
      invariant InspectFrom(seal, rows, i) == InspectFrom(seal, rows, 0)
      invariant verified == i
      invariant prevSeq == if i == 0 then None else Some(SeqOf(rows[i - 1]))
      invariant prevHash == if i == 0 then None else Some(Str(rows[i - 1].rowHash))
      invariant partialFrom == if i == 0 then None else PartialFrom(rows)
    {
      var e := rows[i];
      var n := SeqOf(e);
      if prevSeq.Some? && n == prevSeq.value {
        return Some((n, Duplicate)), verified, partialFrom;
      }
      var expectedPrev: Option<string>;
      if prevSeq.None? {
        if n == 1 {
          expectedPrev := Some(GENESIS);
        } else {
          partialFrom := Some(n);
          expectedPrev := e.prevHash;
        }
      } else {
        if n != prevSeq.value + 1 {
          return Some((n, Missing(prevSeq.value + 1))), verified, partialFrom;
        }
        expectedPrev := prevHash;
      }
      if e.prevHash != expectedPrev {
        return Some((n, BrokenLink)), verified, partialFrom;
      }
      var computed := seal(n, e.event, e.hashFormat, OrGenesis(expectedPrev));
      if Some(computed) != e.rowHash {
        return Some((n, WrongHash)), verified, partialFrom;
      }
      prevHash := Some(Str(e.rowHash));
      prevSeq := Some(n);
      verified := verified + 1;
    }
    bad := None;
  }

  /** verify_audit_log_chain: collect, sort in place, walk. */
  method VerifyAuditLogChain(seal: Seal, lines: seq<Line>) returns (o: Outcome)
    ensures o == OfflineOutcome(seal, lines)
  {
    var readable, rows, skipped := CollectNumbered(lines);
    if !readable {
      return Unrecognized;
    }
    rows := SortBy(SeqOf, rows);
    SortSorts(SeqOf, Numbered(lines));
    var bad, verified, partialFrom := InspectRows(seal, rows);
    match bad {
      case Some((n, c)) => o := Tampered(n, c);
      case None => o := Verified(verified, skipped, partialFrom);
    }
  }

  // ---------------------------------------------------------------- what the exit codes mean

  /** Row i follows the row before it, the first one the start of the chain if it is number 1, and its
      hash is that of its content after the predecessor hash it names, genesis standing in for none. */
  ghost predicate Follows(seal: Seal, rows: seq<Row>, i: nat)
    requires i < |rows|
  {
    var r := rows[i];
    var prev := if r.prevHash == None || r.prevHash == Some("") then "genesis" else r.prevHash.value;
    && (i > 0 ==> SeqOf(r) == SeqOf(rows[i - 1]) + 1 && rows[i - 1].rowHash.Some? && r.prevHash == rows[i - 1].rowHash)
    && (i == 0 && SeqOf(r) == 1 ==> r.prevHash == Some("genesis"))
    && r.rowHash == Some(seal(SeqOf(r), r.event, r.hashFormat, prev))
  }

  lemma FollowsIff(seal: Seal, rows: seq<Row>, i: nat)
    requires i < |rows| && (i > 0 ==> rows[i - 1].rowHash.Some?)
    ensures Complain(seal, rows, i).None? <==> Follows(seal, rows, i)
  {
  }

  lemma {:induction false} NoComplaintsIff(seal: Seal, rows: seq<Row>, n: nat)
    requires n <= |rows|
    ensures (forall i :: 0 <= i < n ==> Complain(seal, rows, i).None?) <==> forall i :: 0 <= i < n ==> Follows(seal, rows, i)
  {
    if n > 0 {
      NoComplaintsIff(seal, rows, n - 1);
      if forall i :: 0 <= i < n - 1 ==> Complain(seal, rows, i).None? {
        assert n > 1 ==> Complain(seal, rows, n - 2).None?;
        FollowsIff(seal, rows, n - 1);
      }
    }
  }

  /** A verified bundle is summed up by how many lines are numbered, how many are not, and the lowest
      number if that is not 1. */
  ghost predicate Reported(o: Outcome, lines: seq<Line>) {
    var rows := Sorted(lines);
    && o.Verified? && o.count == |rows| && o.count + o.skipped == |lines|
    && (o.partialFrom == None <==> rows == [] || SeqOf(rows[0]) == 1)
    && (forall n :: o.partialFrom == Some(n) ==> rows != [] && n == SeqOf(rows[0]))
  }

  /** What each complaint about row i reports, the row before it, if any, being hashed. */
  lemma ComplaintsMean(seal: Seal, rows: seq<Row>, i: nat)
    requires i < |rows| && (i > 0 ==> rows[i - 1].rowHash.Some?)
    ensures var r, why := rows[i], Complain(seal, rows, i);
            var follows := i > 0 ==> SeqOf(r) == SeqOf(rows[i - 1]) + 1;
            var linked := if i > 0 then r.prevHash == rows[i - 1].rowHash else SeqOf(r) != 1 || r.prevHash == Some("genesis");
            && (why == None <==> Follows(seal, rows, i))
            && (why == Some(Duplicate) <==> i > 0 && SeqOf(r) == SeqOf(rows[i - 1]))
            && (forall k :: why == Some(Missing(k)) <==>
                  !follows && SeqOf(r) != SeqOf(rows[i - 1]) && k == SeqOf(rows[i - 1]) + 1)
            && (why == Some(BrokenLink) <==> follows && !linked)
            && (why == Some(WrongHash) <==> follows && linked && !Follows(seal, rows, i))
  {
    FollowsIff(seal, rows, i);
  }

  /** Exit 9 exactly for a bundle with an unreadable number, exit 0 exactly for a readable one whose
      numbered rows, in the order of their numbers, each follow the one before, and 2 for the rest. */
  lemma ExitCodesMean(seal: Seal, lines: seq<Line>)
    ensures var code, rows := ExitCode(OfflineOutcome(seal, lines)), Sorted(lines);
            && (code == 9 <==> UnreadableSeq in lines)
            && (code == 0 <==> UnreadableSeq !in lines && forall i :: 0 <= i < |rows| ==> Follows(seal, rows, i))
            && (code == 2 <==> UnreadableSeq !in lines && exists i :: 0 <= i < |rows| && !Follows(seal, rows, i))
            && (code == 0 ==> Reported(OfflineOutcome(seal, lines), lines))
  {
    var rows := Sorted(lines);
    InspectFindsFirst(seal, rows, 0);
    NoComplaintsIff(seal, rows, |rows|);
    SortSorts(SeqOf, Numbered(lines));
    assert |multiset(rows)| == |rows| && |multiset(Numbered(lines))| == |Numbered(lines)|;
  }

  /** The sorted rows are the numbered rows of the bundle, each as often as it occurs, by number. */
  lemma SortedAreNumbered(lines: seq<Line>, r: Row)
    ensures Ascending(SeqOf, Sorted(lines))
    ensures multiset(Sorted(lines))[r] == if r.chainSeq.Some? then multiset(lines)[Line(r)] else 0
  {
    SortSorts(SeqOf, Numbered(lines));
    NumberedCounts(lines, r);
  }

  lemma {:induction false} NumberedCounts(lines: seq<Line>, r: Row)
    ensures multiset(Numbered(lines))[r] == if r.chainSeq.Some? then multiset(lines)[Line(r)] else 0
  {
    if lines != [] {
      NumberedCounts(lines[1..], r);
      LineCounts(lines[0], r);
      BagSum([lines[0]], lines[1..], Line(r));
      assert lines == [lines[0]] + lines[1..];
      BagSum(NumberedLine(lines[0]), Numbered(lines[1..]), r);
    }
  }

  lemma LineCounts(line: Line, r: Row)
    ensures multiset(NumberedLine(line))[r] == if r.chainSeq.Some? then multiset([line])[Line(r)] else 0
  {
  }

  lemma BagSum<T>(a: seq<T>, b: seq<T>, x: T)
    ensures multiset(a + b)[x] == multiset(a)[x] + multiset(b)[x]
  {
  }

  // ---------------------------------------------------------------- order of the bundle lines

  lemma {:induction false} SameNumberedBag(xs: seq<Line>, ys: seq<Line>)
    requires multiset(xs) == multiset(ys)
    ensures multiset(Numbered(xs)) == multiset(Numbered(ys))
  {
    assert |multiset(xs)| == |xs| && |multiset(ys)| == |ys|;
    if xs != [] {
      assert xs[0] in multiset(ys);
      var j :| 0 <= j < |ys| && ys[j] == xs[0];
      RemovedBag(ys, j);
      RemovedBag(xs, 0);
      assert RemoveAt(xs, 0) == xs[1..];
      SameNumberedBag(xs[1..], RemoveAt(ys, j));
      NumberedAt(ys, j);
      NumberedAt(xs, 0);
    }
  }

  lemma NumberedAt(ys: seq<Line>, j: nat)
    requires j < |ys|
    ensures multiset(Numbered(ys)) == multiset(Numbered([ys[j]])) + multiset(Numbered(RemoveAt(ys, j)))
  {
    SplitAround(ys, j);
    NumberedParts(ys[..j], [ys[j]], ys[j + 1..]);
  }

  lemma NumberedParts(before: seq<Line>, at: seq<Line>, after: seq<Line>)
    ensures multiset(Numbered(before + (at + after))) == multiset(Numbered(at)) + multiset(Numbered(before + after))
  {
    NumberedAppend(before, at + after);
    NumberedAppend(at, after);
    NumberedAppend(before, after);
    BagOfParts(Numbered(before), Numbered(at), Numbered(after));
  }

  lemma BagOfParts(a: seq<Row>, b: seq<Row>, c: seq<Row>)
    ensures multiset(a + (b + c)) == multiset(b) + multiset(a + c)
  {
  }

  /** Two rows claiming one position are always reported. */
  lemma {:induction false} DuplicatesTampered(seal: Seal, rows: seq<Row>)
    requires Ascending(SeqOf, rows) && !DistinctKeys(SeqOf, rows)
    ensures InspectFrom(seal, rows, 0).Some?
  {
    InspectFindsFirst(seal, rows, 0);
    var i, j :| 0 <= i < j < |rows| && SeqOf(rows[i]) == SeqOf(rows[j]);
    assert SeqOf(rows[i]) <= SeqOf(rows[i + 1]) <= SeqOf(rows[j]);
    assert Complain(seal, rows, i + 1).Some?;
  }

  /** The exit code does not depend on the order of the bundle lines, whatever the bundle holds;
      without duplicate numbers neither does the rest of the outcome. */
  lemma LineOrderIrrelevant(seal: Seal, xs: seq<Line>, ys: seq<Line>)
    requires multiset(xs) == multiset(ys)
    ensures ExitCode(OfflineOutcome(seal, xs)) == ExitCode(OfflineOutcome(seal, ys))
    ensures DistinctKeys(SeqOf, Sorted(xs)) ==> OfflineOutcome(seal, xs) == OfflineOutcome(seal, ys)
  {
    assert |multiset(xs)| == |xs| && |multiset(ys)| == |ys|;
    assert UnreadableSeq in xs <==> UnreadableSeq in multiset(xs);
    assert UnreadableSeq in ys <==> UnreadableSeq in multiset(ys);
    SameNumberedBag(xs, ys);
    SortSorts(SeqOf, Numbered(xs));
    SortSorts(SeqOf, Numbered(ys));
    SameKeys(SeqOf, Sorted(xs), Sorted(ys));
    if DistinctKeys(SeqOf, Sorted(xs)) {
      OneArrangement(SeqOf, Sorted(xs), Sorted(ys));
    } else {
      DuplicatesTampered(seal, Sorted(xs));
      assert !DistinctKeys(SeqOf, Sorted(ys));
      DuplicatesTampered(seal, Sorted(ys));
    }
  }
}
