/** One audit_log row, the canonical text its hash is taken over, and what that text binds.
    SHA-256 is a parameter: every theorem that needs collision freedom says so. */
module AuditRows {
  import opened Texts

  const GENESIS := "genesis"

  /** SHA-256 as a function from canonical text to hexadecimal text. */
  type Hash = string -> string

  ghost predicate CollisionFree(h: Hash) {
    forall s, t :: h(s) == h(t) ==> s == t
  }

  /** What hexadecimal output guarantees: never empty, never the word None, no delimiter. */
  ghost predicate HexText(h: Hash) {
    forall s :: h(s) != "" && h(s) != "None" && '|' !in h(s)
  }

  /** What a caller asks to have logged. */
  datatype Event = Event(
    timestamp: string,
    agentId: string,
    action: string,
    toolName: Option<string>,
    status: string,
    detail: Option<string>,
    requestId: Option<string>,
    durationMs: Option<string>,
    dpopJkt: Option<string>,
    onBehalfOf: Option<string>)

  /** A stored row. Rows written before the chain existed have no chainSeq. */
  datatype Row = Row(
    chainSeq: Option<int>,
    prevHash: Option<string>,
    rowHash: Option<string>,
    event: Event,
    hashFormat: Option<string>)

  predicate IsV2(format: Option<string>) {
    format == Some("v2")
  }

  /** The fields of an event that enter the hash, as rendered; the v1 form leaves out the two
      attribution columns. */
  function Hashed(e: Event, format: Option<string>): (fields: seq<string>)
    ensures |fields| == if IsV2(format) then 9 else 7
  {
    [e.timestamp, e.agentId, e.action, OrEmpty(e.toolName), e.status, OrEmpty(e.detail), OrEmpty(e.requestId)]
    + if IsV2(format) then [OrEmpty(e.dpopJkt), OrEmpty(e.onBehalfOf)] else []
  }

  const DETAIL := 5

  /** The text that is hashed. seqText is the rendered chain_seq. */
  function Canonical(seqText: string, e: Event, format: Option<string>, prev: string): string {
    Join((if IsV2(format) then ["v2", seqText] else [seqText]) + Hashed(e, format) + [prev])
  }

  /** How a row is sealed: from its number, event, format and predecessor hash to its own hash.
      Writers and verifiers only pass such a function around, so what they guarantee is stated
      for any of them. */
  type Seal = (int, Event, Option<string>, string) -> string

  /** compute_audit_row_hash */
  function RowSeal(h: Hash): Seal {
    (n, e, format, prev) => h(Canonical(Decimal(n), e, format, prev))
  }

  ghost predicate DigestText(seal: Seal) {
    forall n, e, f, p :: seal(n, e, f, p) != "" && seal(n, e, f, p) != "None" && '|' !in seal(n, e, f, p)
  }

  /** The predecessor hash is never lost in the seal. */
  ghost predicate BindsPrev(seal: Seal) {
    forall n, e, f, p, p' :: seal(n, e, f, p) == seal(n, e, f, p') ==> p == p'
  }

  /** The content a hash commits to: NULL and "" are one value, the duration is never covered,
      and the two attribution columns are covered by the v2 form only. */
  datatype Bound =
    | BoundV1(timestamp: string, agentId: string, action: string, toolName: string,
              status: string, detail: string, requestId: string)
    | BoundV2(timestamp: string, agentId: string, action: string, toolName: string,
              status: string, detail: string, requestId: string,
              dpopJkt: string, onBehalfOf: string)

  function BoundContent(e: Event, format: Option<string>): Bound {
    if format == Some("v2") then
      BoundV2(e.timestamp, e.agentId, e.action, OrEmpty(e.toolName), e.status,
              OrEmpty(e.detail), OrEmpty(e.requestId), OrEmpty(e.dpopJkt), OrEmpty(e.onBehalfOf))
    else
      BoundV1(e.timestamp, e.agentId, e.action, OrEmpty(e.toolName), e.status,
              OrEmpty(e.detail), OrEmpty(e.requestId))
  }

  /** Bound content is the list of hashed fields. */
  lemma BoundIsHashed(e: Event, f: Option<string>, e': Event, f': Option<string>)
    ensures BoundContent(e, f) == BoundContent(e', f') <==> IsV2(f) == IsV2(f') && Hashed(e, f) == Hashed(e', f')
  {
    var x, y := Hashed(e, f), Hashed(e', f');
    if IsV2(f) == IsV2(f') && x == y {
      assert x[0] == y[0] && x[1] == y[1] && x[2] == y[2] && x[3] == y[3] && x[4] == y[4] && x[5] == y[5] && x[6] == y[6];
      assert IsV2(f) ==> x[7] == y[7] && x[8] == y[8];
    }
  }

  /** The event with these hashed fields instead of its own. */
  function WithHashed(e: Event, format: Option<string>, fields: seq<string>): (e': Event)
    requires |fields| == |Hashed(e, format)|
    ensures Hashed(e', format) == fields
  {
    var base := e.(timestamp := fields[0], agentId := fields[1], action := fields[2], toolName := Some(fields[3]),
                   status := fields[4], detail := Some(fields[5]), requestId := Some(fields[6]));
    if IsV2(format) then base.(dpopJkt := Some(fields[7]), onBehalfOf := Some(fields[8])) else base
  }

  // ---------------------------------------------------------------- what the text determines

  /** A v2 text never equals a v1 text: one starts with v2, the other with a number. */
  lemma FormatsDisjoint(m: int, e: Event, f: Option<string>, p: string,
                        n: int, e': Event, f': Option<string>, p': string)
    requires f == Some("v2") && f' != Some("v2")
    ensures Canonical(Decimal(m), e, f, p) != Canonical(Decimal(n), e', f', p')
  {
    DecimalAlphabet(n);
    CanonicalHead(m, e, f, p);
    CanonicalHead(n, e', f', p');
    assert Canonical(Decimal(m), e, f, p)[0] == 'v';
    assert Canonical(Decimal(n), e', f', p')[0] == Decimal(n)[0];
    assert Decimal(n)[0] in Decimal(n);
  }

  /** The number stands in front of everything else. */
  lemma CanonicalHead(n: int, e: Event, f: Option<string>, p: string)
    ensures Canonical(Decimal(n), e, f, p)
         == (if IsV2(f) then "v2|" else "") + (Decimal(n) + "|" + Join(Hashed(e, f) + [p]))
  {
    var rest := Hashed(e, f) + [p];
    JoinAppend([Decimal(n)], rest);
    if IsV2(f) {
      assert ["v2", Decimal(n)] + Hashed(e, f) + [p] == ["v2"] + ([Decimal(n)] + rest);
      JoinAppend(["v2"], [Decimal(n)] + rest);
      assert Join(["v2"]) + "|" == "v2|";
    } else {
      assert [Decimal(n)] + Hashed(e, f) + [p] == [Decimal(n)] + rest;
      assert "" + (Decimal(n) + "|" + Join(rest)) == Decimal(n) + "|" + Join(rest);
    }
  }

  /** Equal texts have the same number and format, and the same text after the number. */
  lemma SameHead(m: int, e: Event, f: Option<string>, p: string,
                 n: int, e': Event, f': Option<string>, p': string)
    requires Canonical(Decimal(m), e, f, p) == Canonical(Decimal(n), e', f', p')
    ensures m == n && IsV2(f) == IsV2(f') && Join(Hashed(e, f) + [p]) == Join(Hashed(e', f') + [p'])
  {
    if IsV2(f) && !IsV2(f') {
      FormatsDisjoint(m, e, f, p, n, e', f', p');
    } else if !IsV2(f) && IsV2(f') {
      FormatsDisjoint(n, e', f', p', m, e, f, p);
    }
    CanonicalHead(m, e, f, p);
    CanonicalHead(n, e', f', p');
    var mark := if IsV2(f) then "v2|" else "";
    var x, y := Decimal(m) + "|" + Join(Hashed(e, f) + [p]), Decimal(n) + "|" + Join(Hashed(e', f') + [p']);
    assert (mark + x)[|mark|..] == x && (mark + y)[|mark|..] == y;
    DecimalAlphabet(m);
    DecimalAlphabet(n);
    PipesZero(Decimal(m));
    PipesZero(Decimal(n));
    SplitAtPipe(Decimal(m), Join(Hashed(e, f) + [p]), Decimal(n), Join(Hashed(e', f') + [p']));
    DecimalInjective(m, n);
  }

  /** Two rows bind the same number, content and predecessor exactly when their texts coincide and
      every field of the one holds as many pipes as that field of the other. */
  lemma CanonicalBinds(m: int, e: Event, f: Option<string>, p: string,
                       n: int, e': Event, f': Option<string>, p': string)
    ensures && Canonical(Decimal(m), e, f, p) == Canonical(Decimal(n), e', f', p')
            && PipesPer(Hashed(e, f) + [p]) == PipesPer(Hashed(e', f') + [p'])
       <==> m == n && BoundContent(e, f) == BoundContent(e', f') && p == p'
  {
    BoundIsHashed(e, f, e', f');
    var x, y := Hashed(e, f) + [p], Hashed(e', f') + [p'];
    if Canonical(Decimal(m), e, f, p) == Canonical(Decimal(n), e', f', p') && PipesPer(x) == PipesPer(y) {
      SameHead(m, e, f, p, n, e', f', p');
      JoinBinds(x, y);
      assert x[..|x| - 1] == Hashed(e, f) && y[..|y| - 1] == Hashed(e', f');
      assert x[|x| - 1] == p && y[|y| - 1] == p';
    }
  }

  /** Each field in front of a pipe: how the source spells the text out. */
  lemma {:induction false} Spelled(fields: seq<string>, last: string)
    ensures Join(fields + [last]) == Piped(fields) + last
  {
    if fields == [] {
      assert fields + [last] == [last];
    } else {
      Spelled(fields[1..], last);
      assert (fields + [last])[1..] == fields[1..] + [last];
      Regroup(fields[0] + "|", Piped(fields[1..]), last);
    }
  }

  function Piped(fields: seq<string>): string {
    if fields == [] then "" else fields[0] + "|" + Piped(fields[1..])
  }

  lemma SpelledParts(head: seq<string>, tail: seq<string>, last: string)
    ensures Join(head + tail + [last]) == Piped(head) + Piped(tail) + last
  {
    Spelled(head + tail, last);
    PipedAppend(head, tail);
  }

  lemma V2Fields(n: int, e: Event, f: Option<string>, tool: string, detail: string, request: string, jkt: string, user: string)
    requires f == Some("v2")
    requires Renders(e.toolName, tool) && Renders(e.detail, detail) && Renders(e.requestId, request)
    requires Renders(e.dpopJkt, jkt) && Renders(e.onBehalfOf, user)
    ensures ["v2", Decimal(n)] + Hashed(e, f)
         == ["v2", Decimal(n), e.timestamp, e.agentId, e.action, tool] + [e.status, detail, request, jkt, user]
  {
  }

  lemma V1Fields(n: int, e: Event, f: Option<string>, tool: string, detail: string, request: string)
    requires f != Some("v2")
    requires Renders(e.toolName, tool) && Renders(e.detail, detail) && Renders(e.requestId, request)
    ensures [Decimal(n)] + Hashed(e, f)
         == [Decimal(n), e.timestamp, e.agentId, e.action] + [tool, e.status, detail, request]
  {
  }

  /** The text of a v2 row, spelled out field by field. */
  lemma {:induction false} V2Text(n: int, e: Event, f: Option<string>, tool: string, detail: string, request: string,
               jkt: string, user: string, prev: string)
    requires f == Some("v2")
    requires Renders(e.toolName, tool) && Renders(e.detail, detail) && Renders(e.requestId, request)
    requires Renders(e.dpopJkt, jkt) && Renders(e.onBehalfOf, user)
    ensures Canonical(Decimal(n), e, f, prev)
         == "v2|" + Decimal(n) + "|" + e.timestamp + "|" + e.agentId + "|" + e.action + "|"
            + tool + "|" + e.status + "|" + detail + "|"
            + request + "|" + jkt + "|" + user + "|" + prev
  {
    V2Fields(n, e, f, tool, detail, request, jkt, user);
    SpelledParts(["v2", Decimal(n), e.timestamp, e.agentId, e.action, tool], [e.status, detail, request, jkt, user], prev);
    PipedSix("v2", Decimal(n), e.timestamp, e.agentId, e.action, tool);
    PipedFive(e.status, detail, request, jkt, user);
    SpellV2("v2|" + Decimal(n) + "|" + e.timestamp + "|" + e.agentId + "|" + e.action + "|" + tool + "|",
            e.status, detail, request, jkt, user, prev);
  }

  /** The text of any other row; the attribution columns do not enter. */
  lemma {:induction false} V1Text(n: int, e: Event, f: Option<string>, tool: string, detail: string, request: string, prev: string)
    requires f != Some("v2")
    requires Renders(e.toolName, tool) && Renders(e.detail, detail) && Renders(e.requestId, request)
    ensures Canonical(Decimal(n), e, f, prev)
         == Decimal(n) + "|" + e.timestamp + "|" + e.agentId + "|" + e.action + "|"
            + tool + "|" + e.status + "|" + detail + "|"
            + request + "|" + prev
  {
    V1Fields(n, e, f, tool, detail, request);
    SpelledParts([Decimal(n), e.timestamp, e.agentId, e.action], [tool, e.status, detail, request], prev);
    PipedFour(Decimal(n), e.timestamp, e.agentId, e.action);
    PipedFour(tool, e.status, detail, request);
    SpellV1(Decimal(n) + "|" + e.timestamp + "|" + e.agentId + "|" + e.action + "|", tool, e.status, detail, request, prev);
  }

  lemma {:induction false} PipedAppend(a: seq<string>, b: seq<string>)
    ensures Piped(a + b) == Piped(a) + Piped(b)
  {
    if a == [] {
      assert a + b == b;
    } else {
      PipedAppend(a[1..], b);
      assert (a + b)[1..] == a[1..] + b;
      Regroup(a[0] + "|", Piped(a[1..]), Piped(b));
    }
  }

  lemma PipedLast(a: seq<string>, x: string)
    ensures Piped(a + [x]) == Piped(a) + x + "|"
  {
    PipedAppend(a, [x]);
    assert [x][1..] == [];
    assert Piped([x]) == x + "|";
    Regroup(Piped(a), x, "|");
  }

  lemma PipedFour(a: string, b: string, c: string, d: string)
    ensures Piped([a, b, c, d]) == a + "|" + b + "|" + c + "|" + d + "|"
  {
    PipedLast([], a);
    PipedLast([a], b);
    PipedLast([a, b], c);
    PipedLast([a, b, c], d);
    assert [] + [a] == [a] && [a] + [b] == [a, b] && [a, b] + [c] == [a, b, c] && [a, b, c] + [d] == [a, b, c, d];
  }

  lemma PipedFive(a: string, b: string, c: string, d: string, e: string)
    ensures Piped([a, b, c, d, e]) == a + "|" + b + "|" + c + "|" + d + "|" + e + "|"
  {
    PipedFour(a, b, c, d);
    PipedLast([a, b, c, d], e);
    assert [a, b, c, d] + [e] == [a, b, c, d, e];
  }

  lemma PipedSix(a: string, b: string, c: string, d: string, e: string, f: string)
    ensures Piped([a, b, c, d, e, f]) == a + "|" + b + "|" + c + "|" + d + "|" + e + "|" + f + "|"
  {
    PipedFive(a, b, c, d, e);
    PipedLast([a, b, c, d, e], f);
    assert [a, b, c, d, e] + [f] == [a, b, c, d, e, f];
  }

  lemma SpellV1(head: string, a: string, b: string, c: string, d: string, last: string)
    ensures head + (a + "|" + b + "|" + c + "|" + d + "|") + last == head + a + "|" + b + "|" + c + "|" + d + "|" + last
  {
  }

  lemma SpellV2(head: string, a: string, b: string, c: string, d: string, e: string, last: string)
    ensures head + (a + "|" + b + "|" + c + "|" + d + "|" + e + "|") + last
         == head + a + "|" + b + "|" + c + "|" + d + "|" + e + "|" + last
  {
  }

  /** What the text says of the event: the form, and the fields run together. */
  datatype EventText = EventText(v2: bool, text: string)

  function TextOf(e: Event, f: Option<string>): EventText {
    EventText(IsV2(f), Join(Hashed(e, f)))
  }

  /** Whatever pipes the fields hold: with predecessor hashes free of them, two texts coincide
      exactly when number, text of the event and predecessor hash do. */
  lemma CanonicalBindsText(m: int, e: Event, f: Option<string>, p: string,
                           n: int, e': Event, f': Option<string>, p': string)
    requires '|' !in p && '|' !in p'
    ensures Canonical(Decimal(m), e, f, p) == Canonical(Decimal(n), e', f', p')
       <==> m == n && TextOf(e, f) == TextOf(e', f') && p == p'
  {
    JoinAppend(Hashed(e, f), [p]);
    JoinAppend(Hashed(e', f'), [p']);
    if Canonical(Decimal(m), e, f, p) == Canonical(Decimal(n), e', f', p') {
      SameHead(m, e, f, p, n, e', f', p');
      SplitLastPipe(Join(Hashed(e, f)), p, Join(Hashed(e', f')), p');
    } else {
      CanonicalHead(m, e, f, p);
      CanonicalHead(n, e', f', p');
    }
  }

  /** No delimiter inside any hashed field other than detail. */
  ghost predicate PipeFreeButDetail(e: Event, f: Option<string>) {
    forall i :: 0 <= i < |Hashed(e, f)| && i != DETAIL ==> '|' !in Hashed(e, f)[i]
  }

  /** When equal event texts mean equal content: exactly if the pipes are spread alike; in particular
      if one of the two holds none at all, or if both hold them in detail only. */
  lemma SameTextSameContentIff(e: Event, f: Option<string>, e': Event, f': Option<string>)
    requires TextOf(e, f) == TextOf(e', f')
    ensures BoundContent(e, f) == BoundContent(e', f') <==> PipesPer(Hashed(e, f)) == PipesPer(Hashed(e', f'))
    ensures PipeFree(Hashed(e, f)) || PipeFree(Hashed(e', f')) ==> BoundContent(e, f) == BoundContent(e', f')
    ensures PipeFreeButDetail(e, f) && PipeFreeButDetail(e', f') ==> BoundContent(e, f) == BoundContent(e', f')
  {
    BoundIsHashed(e, f, e', f');
    var x, y := Hashed(e, f), Hashed(e', f');
    if PipesPer(x) == PipesPer(y) {
      JoinBinds(x, y);
    }
    if PipeFree(x) {
      JoinBindsPipeFree(x, y);
    }
    if PipeFree(y) {
      JoinBindsPipeFree(y, x);
    }
    if PipeFreeButDetail(e, f) && PipeFreeButDetail(e', f') {
      PipesInDetailOnly(e, f);
      PipesInDetailOnly(e', f');
      assert PipesPer(x) == PipesPer(y);
    }
  }

  lemma PipesInDetailOnly(e: Event, f: Option<string>)
    requires PipeFreeButDetail(e, f)
    ensures var ns := PipesPer(Hashed(e, f));
            && (forall i :: 0 <= i < |ns| && i != DETAIL ==> ns[i] == 0)
            && Pipes(TextOf(e, f).text) == |ns| - 1 + ns[DETAIL]
  {
    var ns := PipesPer(Hashed(e, f));
    forall i | 0 <= i < |ns| && i != DETAIL ensures ns[i] == 0 {
      PipesZero(Hashed(e, f)[i]);
    }
    SumOfOne(ns, DETAIL);
    JoinPipes(Hashed(e, f));
  }

  // ---------------------------------------------------------------- the exact condition

  /** The documentation says that any change to a row changes its hash. In place, at the same number
      and after the same predecessor, that is so exactly when no hashed field of the row, detail
      included, holds a pipe. */
  lemma ChangeShowsIff(n: int, e: Event, f: Option<string>, p: string)
    ensures (forall e', f' :: Canonical(Decimal(n), e', f', p) == Canonical(Decimal(n), e, f, p)
                              ==> BoundContent(e', f') == BoundContent(e, f))
       <==> PipeFree(Hashed(e, f))
  {
    if PipeFree(Hashed(e, f)) {
      forall e', f' | Canonical(Decimal(n), e', f', p) == Canonical(Decimal(n), e, f, p)
        ensures BoundContent(e', f') == BoundContent(e, f)
      {
        SameHead(n, e', f', p, n, e, f, p);
        JoinAppend(Hashed(e, f), [p]);
        JoinAppend(Hashed(e', f'), [p]);
        Regroup(Join(Hashed(e, f)), "|", p);
        Regroup(Join(Hashed(e', f')), "|", p);
        SameEnding(Join(Hashed(e, f)), Join(Hashed(e', f')), "|" + p);
        SameTextSameContentIff(e, f, e', f');
      }
    } else {
      var e' := ForgedEvent(n, e, f, p);
      assert Canonical(Decimal(n), e', f, p) == Canonical(Decimal(n), e, f, p);
    }
  }

  /** The same over any number and predecessor: the text determines the row exactly when neither a
      hashed field nor the predecessor hash holds a pipe. */
  lemma DeterminesRowIff(n: int, e: Event, f: Option<string>, p: string)
    ensures (forall n', e', f', p' :: Canonical(Decimal(n'), e', f', p') == Canonical(Decimal(n), e, f, p)
                                      ==> n' == n && BoundContent(e', f') == BoundContent(e, f) && p' == p)
       <==> PipeFree(Hashed(e, f) + [p])
  {
    var x := Hashed(e, f) + [p];
    if PipeFree(x) {
      forall n', e', f', p' | Canonical(Decimal(n'), e', f', p') == Canonical(Decimal(n), e, f, p)
        ensures n' == n && BoundContent(e', f') == BoundContent(e, f) && p' == p
      {
        SameHead(n, e, f, p, n', e', f', p');
        JoinBindsPipeFree(x, Hashed(e', f') + [p']);
        CanonicalBinds(n, e, f, p, n', e', f', p');
      }
    } else {
      var y := OtherReading(x);
      var k := |y| - 1;
      var e', p' := WithHashed(e, f, y[..k]), y[k];
      assert y == Hashed(e', f) + [p'];
      CanonicalHead(n, e, f, p);
      CanonicalHead(n, e', f, p');
      assert Canonical(Decimal(n), e', f, p') == Canonical(Decimal(n), e, f, p);
      BoundIsHashed(e', f, e, f);
    }
  }

  lemma SameEnding(a: string, b: string, end: string)
    requires a + end == b + end
    ensures a == b
  {
    assert |a| == |b|;
    assert a == (a + end)[..|a|] && b == (b + end)[..|b|];
  }

  /** A row with a pipe in a hashed field has a forgery: other content, same text. */
  lemma ForgedEvent(n: int, e: Event, f: Option<string>, p: string) returns (e': Event)
    requires !PipeFree(Hashed(e, f))
    ensures Canonical(Decimal(n), e', f, p) == Canonical(Decimal(n), e, f, p) && TextOf(e', f) == TextOf(e, f)
    ensures BoundContent(e', f) != BoundContent(e, f)
  {
    var y := OtherReading(Hashed(e, f));
    e' := WithHashed(e, f, y);
    JoinAppend(Hashed(e, f), [p]);
    JoinAppend(Hashed(e', f), [p]);
    CanonicalHead(n, e, f, p);
    CanonicalHead(n, e', f, p);
    BoundIsHashed(e', f, e, f);
  }

  /** The documentation says that turning a NULL tool_name into "" changes the hash. It does not. */
  lemma NullAndEmptyCollide(h: Hash, n: int, e: Event, f: Option<string>, p: string)
    ensures RowSeal(h)(n, e.(toolName := None), f, p) == RowSeal(h)(n, e.(toolName := Some("")), f, p)
    ensures e.(toolName := None) != e.(toolName := Some(""))
  {
    assert Canonical(Decimal(n), e.(toolName := None), f, p) == Canonical(Decimal(n), e.(toolName := Some("")), f, p);
  }

  /** Two different events share a hash: a delimiter moves from agent_id into action. */
  lemma PipesCollide(h: Hash, n: int, e: Event, f: Option<string>, p: string)
    ensures var x := e.(agentId := "a|b", action := "c");
            var y := e.(agentId := "a", action := "b|c");
            RowSeal(h)(n, x, f, p) == RowSeal(h)(n, y, f, p) && BoundContent(x, f) != BoundContent(y, f)
  {
    var x := e.(agentId := "a|b", action := "c");
    var y := e.(agentId := "a", action := "b|c");
    var pre, post := [e.timestamp], Hashed(e, f)[3..] + [p];
    assert "a" + "|" + "b" == "a|b" && "b" + "|" + "c" == "b|c";
    assert Hashed(x, f) + [p] == pre + ["a" + "|" + "b", "c"] + post;
    assert Hashed(y, f) + [p] == pre + ["a", "b" + "|" + "c"] + post;
    JoinShifts(pre, "a", "b", "c", post);
    SameSealFromText(h, n, x, y, f, p);
  }

  /** A pipe in detail is enough, all other fields being clean: the outcome of a call changes from ok
      and the hash does not. */
  lemma DetailIntoStatus(h: Hash, n: int, e: Event, f: Option<string>, p: string)
    ensures var x := e.(status := "ok", detail := Some("x|y"));
            var y := e.(status := "ok|x", detail := Some("y"));
            RowSeal(h)(n, x, f, p) == RowSeal(h)(n, y, f, p) && BoundContent(x, f) != BoundContent(y, f)
  {
    var x := e.(status := "ok", detail := Some("x|y"));
    var y := e.(status := "ok|x", detail := Some("y"));
    var pre, post := Hashed(e, f)[..4], Hashed(e, f)[6..] + [p];
    assert "ok" + "|" + "x" == "ok|x" && "x" + "|" + "y" == "x|y";
    assert Hashed(x, f) + [p] == pre + ["ok", "x" + "|" + "y"] + post;
    assert Hashed(y, f) + [p] == pre + ["ok" + "|" + "x", "y"] + post;
    JoinShifts(pre, "ok", "x", "y", post);
    SameSealFromText(h, n, x, y, f, p);
  }

  lemma SameSealFromText(h: Hash, n: int, x: Event, y: Event, f: Option<string>, p: string)
    requires Join(Hashed(x, f) + [p]) == Join(Hashed(y, f) + [p])
    ensures RowSeal(h)(n, x, f, p) == RowSeal(h)(n, y, f, p)
  {
    CanonicalHead(n, x, f, p);
    CanonicalHead(n, y, f, p);
  }

  /** The predecessor hash reaches the canonical text, whatever the other fields hold. */
  lemma PrevMatters(n: int, e: Event, f: Option<string>, p: string, p': string)
    requires Canonical(Decimal(n), e, f, p) == Canonical(Decimal(n), e, f, p')
    ensures p == p'
  {
    SameHead(n, e, f, p, n, e, f, p');
    JoinAppend(Hashed(e, f), [p]);
    JoinAppend(Hashed(e, f), [p']);
    var common := Join(Hashed(e, f)) + "|";
    assert (common + p)[|common|..] == p && (common + p')[|common|..] == p';
  }

  lemma RowSealDigest(h: Hash)
    requires HexText(h)
    ensures DigestText(RowSeal(h))
  {
    forall n, e, f, p
      ensures var d := RowSeal(h)(n, e, f, p); d != "" && d != "None" && '|' !in d
    {
      assert RowSeal(h)(n, e, f, p) == h(Canonical(Decimal(n), e, f, p));
    }
  }

  lemma RowSealBindsPrev(h: Hash)
    requires CollisionFree(h)
    ensures BindsPrev(RowSeal(h))
  {
    forall n, e, f, p, p' | RowSeal(h)(n, e, f, p) == RowSeal(h)(n, e, f, p') ensures p == p' {
      PrevMatters(n, e, f, p, p');
    }
  }

  // ---------------------------------------------------------------- the hash assumptions are consistent

  function Escape(s: string): string {
    if s == [] then ""
    else (if s[0] == '|' then "%p" else if s[0] == '%' then "%%" else [s[0]]) + Escape(s[1..])
  }

  lemma {:induction false} EscapePipeFree(s: string)
    ensures '|' !in Escape(s)
  {
    if s != [] {
      EscapePipeFree(s[1..]);
    }
  }

  lemma {:induction false} EscapeInjective(s: string, t: string)
    requires Escape(s) == Escape(t)
    ensures s == t
  {
    if s != [] && t != [] {
      var x, y := Escape(s), Escape(t);
      var k := if s[0] == '|' || s[0] == '%' then 2 else 1;
      assert x[0] == y[0] && (k == 2 ==> x[1] == y[1]);
      assert s[0] == t[0];
      assert x[k..] == Escape(s[1..]) && y[k..] == Escape(t[1..]);
      EscapeInjective(s[1..], t[1..]);
      assert s == [s[0]] + s[1..] && t == [t[0]] + t[1..];
    }
  }

  /** Some function meets both assumptions made about the hash. */
  lemma HashAssumptionsConsistent()
    ensures exists h: Hash :: CollisionFree(h) && HexText(h)
  {
    var h: Hash := s => "x" + Escape(s);
    forall s, t | h(s) == h(t) ensures s == t {
      assert h(s)[1..] == Escape(s) && h(t)[1..] == Escape(t);
      EscapeInjective(s, t);
    }
    forall s ensures h(s) != "" && h(s) != "None" && '|' !in h(s) {
      EscapePipeFree(s);
      assert h(s)[0] == 'x';
    }
    assert CollisionFree(h) && HexText(h);
  }
}
