/** Token metering read off the audit chain: the usage dashboard's aggregation and the per-agent sum
    that seeds a budget counter. Rows are the matching audit rows, newest first, with their detail
    already parsed. */
module UsageMetering {
  import opened Texts

  const SCAN_CAP: nat := 200_000

  /** The JSON object in a row's detail; a missing or empty name is the empty string. */
  datatype Payload = Payload(prompt: int, completion: int, provider: string, principalId: string)

  /** A row whose detail is absent, not JSON or not an object has no payload. */
  datatype UsageRow = UsageRow(agentId: string, payload: Option<Payload>)

  datatype Bucket = Bucket(calls: int, prompt: int, completion: int, total: int)

  const EMPTY := Bucket(0, 0, 0, 0)

  function Add(a: Bucket, b: Bucket): Bucket {
    Bucket(a.calls + b.calls, a.prompt + b.prompt, a.completion + b.completion, a.total + b.total)
  }

  lemma AddSwap(a: Bucket, b: Bucket, c: Bucket)
    ensures Add(a, Add(b, c)) == Add(b, Add(a, c))
  {
  }

  function Call(p: Payload): Bucket {
    Bucket(1, p.prompt, p.completion, p.prompt + p.completion)
  }

  /** The two breakdowns. */
  datatype Breakdown = ByProvider | ByAgent

  function KeyOf(b: Breakdown, r: UsageRow): string {
    match b
    case ByProvider => ProviderKey(r)
    case ByAgent => AgentKey(r)
  }

  function ProviderKey(r: UsageRow): string {
    if r.payload.None? || r.payload.value.provider == "" then "unknown" else r.payload.value.provider
  }

  function AgentKey(r: UsageRow): string {
    if r.agentId != "" then r.agentId
    else if r.payload.None? || r.payload.value.principalId == "" then "unknown"
    else r.payload.value.principalId
  }

  type Selector = UsageRow -> bool

  function Everyone(): Selector {
    (r: UsageRow) => true
  }

  function WithKey(b: Breakdown, key: string): Selector {
    (r: UsageRow) => KeyOf(b, r) == key
  }

  function WithAgent(agent: string): Selector {
    (r: UsageRow) => r.agentId == agent
  }

  /** Rows without an agent id that are booked under this name. */
  function FellBackTo(agent: string): Selector {
    (r: UsageRow) => r.agentId == "" && AgentKey(r) == agent
  }

  /** What the rows with a payload that satisfy a condition add up to. */
  function Tally(rows: seq<UsageRow>, counts: Selector): Bucket {
    if rows == [] then EMPTY
    else
      var r := rows[|rows| - 1];
      var before := Tally(rows[..|rows| - 1], counts);
      if r.payload.Some? && counts(r) then Add(before, Call(r.payload.value)) else before
  }

  // ---------------------------------------------------------------- what the sums are

  /** How many of the rows have a payload and satisfy the condition. */
  function CountOf(rows: seq<UsageRow>, counts: Selector): nat {
    if rows == [] then 0
    else
      var r := rows[|rows| - 1];
      CountOf(rows[..|rows| - 1], counts) + if r.payload.Some? && counts(r) then 1 else 0
  }

  /** Their prompt tokens. */
  function PromptOf(rows: seq<UsageRow>, counts: Selector): int {
    if rows == [] then 0
    else
      var r := rows[|rows| - 1];
      PromptOf(rows[..|rows| - 1], counts) + if r.payload.Some? && counts(r) then r.payload.value.prompt else 0
  }

  /** Their completion tokens. */
  function CompletionOf(rows: seq<UsageRow>, counts: Selector): int {
    if rows == [] then 0
    else
      var r := rows[|rows| - 1];
      CompletionOf(rows[..|rows| - 1], counts) + if r.payload.Some? && counts(r) then r.payload.value.completion else 0
  }

  /** A bucket holds the calls, the prompt tokens, the completion tokens, and the two added up. */
  lemma {:induction false} TallyIs(rows: seq<UsageRow>, counts: Selector)
    ensures var p, c := PromptOf(rows, counts), CompletionOf(rows, counts);
            Tally(rows, counts) == Bucket(CountOf(rows, counts), p, c, p + c)
  {
    if rows != [] {
      TallyIs(rows[..|rows| - 1], counts);
    }
  }

  /** Which bucket a row goes to: its provider, or unknown; its agent, failing that its principal, or
      unknown. */
  lemma KeysAre(r: UsageRow, p: Payload)
    requires r.payload == Some(p)
    ensures p.provider != "" ==> KeyOf(ByProvider, r) == p.provider
    ensures p.provider == "" ==> KeyOf(ByProvider, r) == "unknown"
    ensures r.agentId != "" ==> KeyOf(ByAgent, r) == r.agentId
    ensures r.agentId == "" && p.principalId != "" ==> KeyOf(ByAgent, r) == p.principalId
    ensures r.agentId == "" && p.principalId == "" ==> KeyOf(ByAgent, r) == "unknown"
  {
  }

  /** LIMIT */
  function Capped<T>(rows: seq<T>, cap: nat): seq<T> {
    if |rows| > cap then rows[..cap] else rows
  }

  // ---------------------------------------------------------------- sums over a breakdown

  ghost function SumOf(m: map<string, Bucket>): Bucket
    decreases |m|
  {
    if m == map[] then EMPTY
    else
      var k :| k in m;
      Add(m[k], SumOf(m - {k}))
  }

  lemma {:induction false} SumWithout(m: map<string, Bucket>, k: string)
    requires k in m
    ensures SumOf(m) == Add(m[k], SumOf(m - {k}))
    decreases |m|
  {
    var j :| j in m && SumOf(m) == Add(m[j], SumOf(m - {j}));
    if j != k {
      SumWithout(m - {j}, k);
      SumWithout(m - {k}, j);
      assert m - {j} - {k} == m - {k} - {j};
      var core := SumOf(m - {j} - {k});
      assert SumOf(m - {j}) == Add(m[k], core);
      assert SumOf(m - {k}) == Add(m[j], core);
      AddSwap(m[j], m[k], core);
    }
  }

  /** setdefault and increment */
  function Bump(m: map<string, Bucket>, key: string, p: Payload): map<string, Bucket> {
    m[key := Add(if key in m then m[key] else EMPTY, Call(p))]
  }

  lemma BumpAdds(m: map<string, Bucket>, key: string, p: Payload)
    ensures SumOf(Bump(m, key, p)) == Add(SumOf(m), Call(p))
  {
    var m' := Bump(m, key, p);
    SumWithout(m', key);
    if key in m {
      SumWithout(m, key);
      assert m' - {key} == m - {key};
    } else {
      assert m' - {key} == m;
    }
  }

  /** Every key holds exactly its own rows, and only keys with rows are present. */
  ghost predicate Booked(b: Breakdown, m: map<string, Bucket>, rows: seq<UsageRow>) {
    && (forall key :: key in m ==> m[key] == Tally(rows, WithKey(b, key)))
    && (forall key :: key !in m ==> Tally(rows, WithKey(b, key)) == EMPTY)
  }

  lemma BumpBooks(b: Breakdown, m: map<string, Bucket>, rows: seq<UsageRow>, row: UsageRow)
    requires Booked(b, m, rows)
    ensures Booked(b, if row.payload.Some? then Bump(m, KeyOf(b, row), row.payload.value) else m, rows + [row])
  {
    assert (rows + [row])[..|rows|] == rows;
  }

  /** The state of the aggregation over the rows read so far: both breakdowns hold what they should,
      and both add up to the totals. */
  ghost predicate Aggregated(byProvider: map<string, Bucket>, byAgent: map<string, Bucket>, totals: Bucket,
                             rows: seq<UsageRow>)
  {
    && Booked(ByProvider, byProvider, rows)
    && Booked(ByAgent, byAgent, rows)
    && totals == Tally(rows, Everyone())
    && SumOf(byProvider) == totals == SumOf(byAgent)
  }

  lemma AggregateRow(byProvider: map<string, Bucket>, byAgent: map<string, Bucket>, totals: Bucket,
                     rows: seq<UsageRow>, row: UsageRow)
    requires Aggregated(byProvider, byAgent, totals, rows)
    ensures row.payload.None? ==> Aggregated(byProvider, byAgent, totals, rows + [row])
    ensures row.payload.Some? ==>
              Aggregated(Bump(byProvider, ProviderKey(row), row.payload.value), Bump(byAgent, AgentKey(row), row.payload.value),
                         Add(totals, Call(row.payload.value)), rows + [row])
  {
    assert (rows + [row])[..|rows|] == rows;
    BumpBooks(ByProvider, byProvider, rows, row);
    BumpBooks(ByAgent, byAgent, rows, row);
    if row.payload.Some? {
      BumpAdds(byProvider, ProviderKey(row), row.payload.value);
      BumpAdds(byAgent, AgentKey(row), row.payload.value);
    }
  }

  // ---------------------------------------------------------------- the two scans

  /** aggregate_llm_usage over the matching rows. */
  method AggregateUsage(matching: seq<UsageRow>)
    returns (byProvider: map<string, Bucket>, byAgent: map<string, Bucket>, totals: Bucket, scanned: nat, capped: bool)
    ensures capped <==> |matching| > 200_000
    ensures scanned == if capped then 200_000 else |matching|
    ensures var rows := if capped then matching[..200_000] else matching;
            && Aggregated(byProvider, byAgent, totals, rows)
            && totals.calls == CountOf(rows, Everyone())
            && totals.prompt == PromptOf(rows, Everyone())
            && totals.completion == CompletionOf(rows, Everyone())
            && totals.total == totals.prompt + totals.completion
  {
    var fetched := Capped(matching, SCAN_CAP + 1);
    capped := |fetched| > SCAN_CAP;
    var rows := if capped then fetched[..SCAN_CAP] else fetched;
    assert rows == Capped(matching, SCAN_CAP);
    byProvider, byAgent, totals := map[], map[], EMPTY;
    for i := 0 to |rows|
      invariant Aggregated(byProvider, byAgent, totals, rows[..i])
    {
      var row := rows[i];
      assert rows[..i + 1] == rows[..i] + [row];
      AggregateRow(byProvider, byAgent, totals, rows[..i], row);
      if row.payload.None? {
        continue;
      }
      var p := row.payload.value;
      byProvider := Bump(byProvider, ProviderKey(row), p);
      byAgent := Bump(byAgent, AgentKey(row), p);
      totals := Add(totals, Call(p));
    }
    assert rows[..|rows|] == rows;
    scanned := |rows|;
    TallyIs(rows, Everyone());
  }

  /** WHERE agent_id = :aid */
  function OfAgent(rows: seq<UsageRow>, agent: string): seq<UsageRow> {
    if rows == [] then []
    else
      var r := rows[|rows| - 1];
      OfAgent(rows[..|rows| - 1], agent) + if r.agentId == agent then [r] else []
  }

  function PrincipalTokens(matching: seq<UsageRow>, agent: string): int {
    Tally(Capped(OfAgent(matching, agent), SCAN_CAP), Everyone()).total
  }

  /** sum_principal_tokens_since over the matching rows. */
  method SumPrincipalTokens(matching: seq<UsageRow>, agent: string) returns (total: int)
    ensures total == PrincipalTokens(matching, agent)
    ensures |matching| <= 200_000 ==> total == PromptOf(matching, WithAgent(agent)) + CompletionOf(matching, WithAgent(agent))
  {
    OfAgentTally(matching, agent);
    TallyIs(matching, WithAgent(agent));
    var rows := Capped(OfAgent(matching, agent), SCAN_CAP);
    total := 0;
    for i := 0 to |rows|
      invariant total == Tally(rows[..i], Everyone()).total
    {
      assert rows[..i + 1][..i] == rows[..i];
      if rows[i].payload.Some? {
        total := total + rows[i].payload.value.prompt;
        total := total + rows[i].payload.value.completion;
      }
    }
    assert rows[..|rows|] == rows;
  }

  // ---------------------------------------------------------------- the two agree

  lemma {:induction false} OfAgentTally(rows: seq<UsageRow>, agent: string)
    ensures |OfAgent(rows, agent)| <= |rows|
    ensures Tally(OfAgent(rows, agent), Everyone()) == Tally(rows, WithAgent(agent))
  {
    if rows != [] {
      var init, last := rows[..|rows| - 1], rows[|rows| - 1];
      OfAgentTally(init, agent);
      if last.agentId == agent {
        var chosen := OfAgent(rows, agent);
        assert chosen[..|chosen| - 1] == OfAgent(init, agent);
      } else {
        assert OfAgent(rows, agent) == OfAgent(init, agent);
      }
    }
  }

  lemma {:induction false} AgentBucketSplits(rows: seq<UsageRow>, agent: string)
    requires agent != ""
    ensures Tally(rows, WithKey(ByAgent, agent))
         == Add(Tally(rows, WithAgent(agent)), Tally(rows, FellBackTo(agent)))
  {
    if rows != [] {
      var r := rows[|rows| - 1];
      AgentBucketSplits(rows[..|rows| - 1], agent);
      assert WithKey(ByAgent, agent)(r) <==> WithAgent(agent)(r) || FellBackTo(agent)(r);
    }
  }

  /** When the scan is not capped, an agent's dashboard total is what the budget counter would be
      seeded with, plus whatever rows without an agent id fell back to that name. */
  lemma DashboardMatchesBudget(matching: seq<UsageRow>, agent: string)
    requires |matching| <= SCAN_CAP && agent != ""
    ensures Tally(matching, WithKey(ByAgent, agent)).total
         == PrincipalTokens(matching, agent) + Tally(matching, FellBackTo(agent)).total
  {
    OfAgentTally(matching, agent);
    AgentBucketSplits(matching, agent);
  }
}
