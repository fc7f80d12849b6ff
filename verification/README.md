# Audit chain, archive proofs and signing keys: a Dafny model

The Mastio proxy writes every security-relevant event to one hash-chained table, `audit_log`.
Several worker processes append to it at once, and auditors later check exports of it with a
stand-alone script. This project models that log and the parts of the system that lean on it, and
proves what they promise.

- **The audit chain.** A row's hash is taken over a pipe-joined text of its fields and the previous
  row's hash (`AuditRows`). Workers read the head in one step and insert in another, held apart only
  by a unique index and five retries (`AuditTable`, `AppendProtocol`); `WrittenRows` says what each
  new row holds and binds. Rows may be queued and flushed
  in batches (`BatchedChain`). Two verifiers read the result (`OnlineVerifier`, `OfflineVerifier`);
  `VerifierAgreement` says when they agree and `TamperEvidence` what an accepted chain pins down.
- **Merkle proofs.** The archive's tree promotes unpaired nodes (`MerkleTree`, `AuditPaths`); the
  batch anchor's tree repeats them (`BatchMerkle`).
- **Trust search.** The breadth-first search from a timestamp signer's certificate to an operator
  root (`TrustSearch`).
- **Keys.** The `mastio_keys` life cycle (`SigningKeys`) and the rotation of the at-rest master key
  (`MasterKeyRewrap`).
- **Around it.** The strict base64url decoder (`Base64Url`), the server-sent-event reframer
  (`SseReframer`) and token metering (`UsageMetering`).

`Texts` and `Sorting` hold shared definitions. `dafny verify dfyconfig.toml` checks everything.

How the model stands to the code:

- **Hashing.** SHA-256 over audit rows is a parameter. Theorems that need collision freedom or
  hexadecimal output assume exactly that, and `AuditRows.HashAssumptionsConsistent` shows that the
  assumptions can be met. Writers and verifiers are stated for any row-sealing function. Merkle
  digests are a free datatype, in which a row hash of a batch is not the hash of two digests run
  together.
- **The rest of the world.** What other workers and the database do during a flush is a parameter of
  the call (`BatchedChain.World`). Certificate signature, validity and extension checks are predicates
  given to the search. Encryption is a constructor tagged with its master key. The order in which a
  SELECT returns rows is a parameter where it matters.
- **Loops and state.** Functions that loop or update state are methods and classes, each proved against
  a specification function or an outright property; the lemmas are about those.

Where code and documentation disagree the model follows the code:

- A NULL and an empty `tool_name` give the same row hash, although the documentation of
  `compute_audit_row_hash` says otherwise (`AuditRows.NullAndEmptyCollide`). The content a hash binds is
  stated up to that.
- The same documentation says that any change to a row changes its hash. A pipe inside a field can
  stand for a field boundary, so it does not: `AuditRows.PipesCollide` and, with a pipe in `detail`
  alone, `AuditRows.DetailIntoStatus`. A change always shows exactly when no hashed field of the row,
  `detail` included, holds a pipe (`AuditRows.ChangeShowsIff`; for a row inside a chain
  `TamperEvidence.ChangedUnseenIff`). The theorems about whole chains assume nothing about the fields
  of either chain: they pin every hash and every event text, and the content of every row that is
  free of pipes in one of the two.
- An export that starts past row 1 with an empty predecessor hash is read differently by the two
  verifiers (`VerifierAgreement.AmbiguousExample`); `VerifiersAgreeIff` gives the exact condition.
- The audit-path check does not compare the path with `leaf_index` and `tree_size`, so acceptance alone
  does not establish the index (`AuditPaths.AcceptedAtWrongIndex`); `AboutClaimedIndexIff` gives the
  missing comparison.
- The trust search checks the i-th intermediate against max(0, i - 2); section 4.2.1.9 of RFC 5280
  counts the intermediates below it that are not self-issued, which can be i - 1
  (`TrustSearch.RfcPathLenIff`, `TrustSearch.PathLenExample`, `TrustSearch.SelfIssuedExample`).
- Activating a staged key that already carries a deprecation leaves one active key fewer
  (`SigningKeys.DeprecatedStagedRowExample`); `RotateCountIff` gives the exact condition.
- The strict decoder accepts any amount of trailing padding (`Base64Url.PaddingIgnored`).
- The batch anchor's tree is called the RFC 6962 construction; it is, up to prefix bytes, exactly for
  powers of two (`BatchMerkle.IsRfcTreeIffPowerOfTwo`).
- `verify_inclusion` is documented as true iff the leaf is included. Without prefix bytes an interior
  digest passes too (`BatchMerkle.InteriorDigestAccepted`); `AcceptedIffNodeOfTree` says exactly what
  passes, and `VerifiedLeafIsInBatch` gives the missing comparison of the proof's length with the leaf
  count.
- The periodic flush is documented to retry at the next tick after a database fault. The batch has left
  the queue by then and is lost with no raise and no flag (`BatchedChain.SilentLossIff`).

## Model

| member | source | states |
|---|---|---|
| AuditRows.CanonicalBinds | mcp_proxy/db.py:576-589 | two rows bind the same number, content and predecessor exactly when their texts coincide and every field of one holds as many pipes as that field of the other, v1 and v2 mixed, no field restricted |
| AuditRows.V2Text | mcp_proxy/db.py:576-583 | the hashed text of a v2 row, spelled out field by field |
| AuditRows.V1Text | mcp_proxy/db.py:584-588 | the hashed text of any other row, spelled out field by field |
| Texts.DecimalReadsBack | mcp_proxy/db.py:578-585 | a number in the text is its digits in base ten, most significant first, no leading zeros |
| AuditRows.CanonicalBindsText | mcp_proxy/db.py:576-589 | whatever pipes the fields hold, texts after digest predecessors coincide exactly when number, event text and predecessor do |
| AuditRows.SameTextSameContentIff | mcp_proxy/db.py:576-588 | equal event texts carry equal content exactly when their pipes are spread alike; so whenever one side holds none, or both hold them in `detail` only |
| AuditRows.ChangeShowsIff | mcp_proxy/db.py:558-589 | every change to a row in place changes its text exactly when no hashed field, `detail` included, holds a pipe |
| AuditRows.DeterminesRowIff | mcp_proxy/db.py:558-589 | the text determines number, content and predecessor exactly when neither a hashed field nor the predecessor holds a pipe |
| AuditRows.FormatsDisjoint | mcp_proxy/db.py:576-588 | a v2 text never equals a v1 text |
| AuditRows.NullAndEmptyCollide | mcp_proxy/db.py:558-588 | NULL and empty `tool_name` share a hash, against the documentation |
| AuditRows.PipesCollide | mcp_proxy/db.py:576-588 | a delimiter moved between `agent_id` and `action` keeps the hash |
| AuditRows.DetailIntoStatus | mcp_proxy/db.py:576-588 | with a pipe in `detail` alone, status ok turns into another status under the same hash |
| AuditRows.PrevMatters | mcp_proxy/db.py:576-588 | the predecessor hash is never lost in the canonical text |
| AuditRows.RowSealBindsPrev | mcp_proxy/db.py:543-589 | the row hash of a collision-free digest fixes the predecessor hash |
| OnlineVerifier.VerifyAuditChain | mcp_proxy/db.py:818-889 | the walk over the selected window computes the verdict function |
| OnlineVerifier.WalkReportsFirstFault | mcp_proxy/db.py:852-889 | the verdict is Intact exactly when no row is faulty, and otherwise names the first faulty row |
| OnlineVerifier.ReasonsMean | mcp_proxy/db.py:852-889 | what each reason reports about a row: number, predecessor, hash, or a chain not begun at genesis |
| OnlineVerifier.AcceptedIffGenesisChain | mcp_proxy/db.py:850-889 | the walk from 1 accepts and reaches row 1 exactly when the rows are numbered 1.. and linked and hashed from genesis |
| OnlineVerifier.WindowsCompose | mcp_proxy/db.py:836-889 | a walk accepts exactly when the window ending at a row and the window starting at it both accept, for every row |
| OnlineVerifier.WalkedSuffix | mcp_proxy/db.py:836-848 | selecting from a row's number yields exactly the walked rows from it on |
| OfflineVerifier.CollectNumbered | scripts/cullis-audit-verify.py:1061-1076 | numbered rows are kept in order, the rest counted, an unreadable number reported |
| OfflineVerifier.InspectRows | scripts/cullis-audit-verify.py:1079-1133 | the second loop finds the first complaint, or counts all rows and notes a partial export |
| OfflineVerifier.VerifyAuditLogChain | scripts/cullis-audit-verify.py:1035-1141 | the whole check computes the outcome function |
| OfflineVerifier.InspectFindsFirst | scripts/cullis-audit-verify.py:1083-1130 | the reported row is the first one with a complaint, and there is none exactly when the walk passes |
| OfflineVerifier.ComplaintsMean | scripts/cullis-audit-verify.py:1085-1130 | what each complaint reports about a row |
| OfflineVerifier.ExitCodesMean | scripts/cullis-audit-verify.py:1061-1141 | exit 9 exactly for an unreadable number, 0 exactly when every row follows the one before, else 2; what a verified bundle reports |
| OfflineVerifier.SortedAreNumbered | scripts/cullis-audit-verify.py:1061-1077 | the walked rows are the numbered lines, each as often as it occurs, by number |
| OfflineVerifier.DuplicatesTampered | scripts/cullis-audit-verify.py:1085-1091 | two rows with one number are always reported |
| OfflineVerifier.LineOrderIrrelevant | scripts/cullis-audit-verify.py:1061-1133 | the exit code is the same for every order of the bundle lines, duplicates included |
| VerifierAgreement.SameLaterFaults | scripts/cullis-audit-verify.py:1101-1130 | after the first row both verifiers make the same check |
| VerifierAgreement.VerifiersAgreeIff | scripts/cullis-audit-verify.py:1061-1133 | same verdict and same first failing row as the online walk, exactly when the lowest row is not ambiguous, for every export order |
| VerifierAgreement.VerifiersAgree | mcp_proxy/db.py:850-889 | the two verifiers agree on every table with numbers from 1 and non-empty predecessor hashes |
| VerifierAgreement.AmbiguousExample | scripts/cullis-audit-verify.py:1099-1124 | a partial export accepted online and rejected offline |
| TamperEvidence.RowSealBindsText | mcp_proxy/db.py:543-589 | row hashes after digest predecessors are equal exactly when number, event text and predecessor are |
| TamperEvidence.SameHashSameRow | mcp_proxy/db.py:543-589 | equal hashes in two genuine chains mean equal position, predecessor and event text, and equal content if either row is free of pipes |
| TamperEvidence.SameHashSamePast | scripts/cullis-audit-verify.py:241-274 | two genuine chains sharing one row hash agree on every hash and event text before it, with nothing assumed of their fields, and on the content of every row free of pipes in one of them |
| TamperEvidence.HashPinsPast | mcp_proxy/db.py:624-631 | at one position, equal hash and equal event texts of the whole past are equivalent |
| TamperEvidence.HashPinsCleanPast | mcp_proxy/db.py:624-631 | if the past of one chain is free of pipes, equal hash and equal content of the whole past are equivalent, whatever the other chain holds |
| TamperEvidence.ChangedUnseenIff | mcp_proxy/db.py:558-589 | a row of a genuine chain can be given other content under the same hash exactly when one of its hashed fields holds a pipe |
| TamperEvidence.OfflineAcceptsIffGenesisChain | scripts/cullis-audit-verify.py:1079-1141 | exit 0 without a partial-export note exactly for genuine chains from genesis |
| TamperEvidence.BuildAuditHeads | scripts/cullis-audit-verify.py:1188-1193 | the loop builds the number-to-hash map, later rows overriding |
| TamperEvidence.HeadOfNumber | scripts/cullis-audit-verify.py:1188-1193 | the last hashed row with a number gives the hash for it |
| TamperEvidence.AnchorCases | scripts/cullis-audit-verify.py:1197-1218 | which chain's hash decides over an anchor, and when it is an orphan |
| TamperEvidence.AnchorVerdict | scripts/cullis-audit-verify.py:1197-1218 | against an accepted bundle an anchor matches exactly when it names the hash of the row it numbers, and is an orphan exactly when there is no such row |
| TamperEvidence.MatchedAnchorFindsRow | scripts/cullis-audit-verify.py:1197-1218 | in an accepted bundle an anchor matched in the audit_log chain, tagged or not, carries the hash of the row it numbers |
| TamperEvidence.AnchorPinsPrefix | scripts/cullis-audit-verify.py:1197-1218 | two accepted bundles matching one anchor agree on every hash and event text up to it, and on the content of every row free of pipes in one of them |
| AuditTable.MaxChainedIsGreatest | mcp_proxy/db.py:592-608 | the head is the chained row with the greatest number, if there is one |
| AuditTable.FreshHeadInserts | mcp_proxy/db.py:736-786 | rows built on the current head never collide |
| AuditTable.HeadAfterInsert | mcp_proxy/audit_chain.py:231-277 | after the insert the head is the last row of the batch |
| AuditTable.BatchIsRowByRow | mcp_proxy/audit_chain.py:231-277 | a batch reaches exactly the table of per-row appends, from any table |
| AuditTable.HeadOfChain | mcp_proxy/db.py:592-608 | the head of a genuine chain of m rows is number m and its hash, or 0 and genesis |
| AuditTable.AppendKeepsChain | mcp_proxy/db.py:736-786 | appending on the current head keeps the chain genuine and lengthens it by the batch |
| AuditTable.ChainOkAccepted | mcp_proxy/db.py:850-889 | a genuine chain is accepted online |
| AppendProtocol.InsertIffFresh | mcp_proxy/db_models.py:145 | an insert goes through exactly when nobody has committed since the head was read |
| AppendProtocol.StaleConflicts | mcp_proxy/audit_chain.py:278-282 | rows on a stale head hit the unique index |
| AppendProtocol.StepKeepsInv | mcp_proxy/audit_chain.py:228-282 | every step of every worker keeps the protocol invariant |
| AppendProtocol.RunKeepsInv | mcp_proxy/db.py:733-790 | the invariant holds after every run from any table |
| AppendProtocol.EveryRunIsSerial | mcp_proxy/audit_chain.py:27-31 | every interleaving leaves the table of the committed batches appended row by row in commit order |
| AppendProtocol.EveryRunVerifies | mcp_proxy/db.py:818-889 | in every run the chain stays numbered 1..m, linked from genesis and accepted online |
| AppendProtocol.UndisturbedWorkerCommits | mcp_proxy/audit_chain.py:226-277 | after every run, a worker given a batch, or about to retry after any number of conflicts, commits it on top of the table by one undisturbed head read and insert |
| AppendProtocol.AttemptOutcome | mcp_proxy/audit_chain.py:226-282 | in every run an insert commits exactly when nobody committed since the head read; otherwise the worker starts over, and gives up after the fifth attempt |
| AppendProtocol.FiveLostRoundsExhaust | mcp_proxy/audit_chain.py:226-292 | a worker that loses every round to a rival is still trying after four and has given up after the fifth |
| AppendProtocol.OnlyInsertsWrite | mcp_proxy/audit_chain.py:229-277 | no step but an insert touches the table; a crash forgets the batch in hand |
| AppendProtocol.HeldHeadConflicts | mcp_proxy/audit_chain.py:278-282 | anything added above a head makes inserting on that head fail |
| AppendProtocol.ExhaustionNeedsRivals | mcp_proxy/audit_chain.py:226-292 | a used-up retry budget means at least five commits by other workers since the start |
| AppendProtocol.FailureMeansGrowth | mcp_proxy/db.py:734-790 | a failed attempt means the chain grew after its head read |
| WrittenRows.BatchRows | mcp_proxy/audit_chain.py:232-275 | every row of a batch in full: number, predecessor, format v2, and the hash of its spelled-out text |
| WrittenRows.EveryRunWrites | mcp_proxy/db.py:736-786 | over every run, from any table, each row added is numbered on, names the hash before it and carries the hash of its spelled-out text |
| WrittenRows.FirstRowWritten | mcp_proxy/db.py:592-608 | the first row ever is number 1 after the word genesis |
| WrittenRows.WrittenApart | mcp_proxy/audit_chain.py:235-256 | rows written for events of different `dpop_jkt` or `on_behalf_of_user_id` never share a hash, wherever they stand |
| WrittenRows.ReattributionShows | mcp_proxy/db.py:566-583 | changing one attribution column always changes the hash, changing both does in a row free of pipes |
| WrittenRows.ReattributionReported | mcp_proxy/db.py:850-889 | over every run, giving an added row another attribution makes the online walk report a break |
| BatchedChain.LandsIffQuietAttempt | mcp_proxy/audit_chain.py:228-282 | a batch lands exactly when some attempt within the budget meets no rival commit and no earlier attempt faulted |
| BatchedChain.LastAttemptIsFirstStop | mcp_proxy/audit_chain.py:228-282 | which attempt ends the retry loop |
| BatchedChain.Database.ChainParams | mcp_proxy/audit_chain.py:232-275 | the loop over a batch yields the chained rows |
| BatchedChain.Database.TryOnce | mcp_proxy/audit_chain.py:229-282 | one attempt: what lands, and when it fails |
| BatchedChain.Database.AppendWithRetries | mcp_proxy/audit_chain.py:226-282 | how the retry loop ends and exactly what the table holds then |
| BatchedChain.LogAudit | mcp_proxy/db.py:733-815 | the per-row path: table afterwards, and when it raises |
| BatchedChain.FlushKeepsBooks | mcp_proxy/audit_chain.py:218-317 | a flush keeps every queued event accounted for, however it ends |
| BatchedChain.SilentLossIff | mcp_proxy/audit_chain.py:350-370 | when a batch of the periodic loop is lost with no raise heard and no flag set |
| BatchedChain.BatchedAuditChain.FlushLocked | mcp_proxy/audit_chain.py:203-317 | reply, table, settlement and unhealthy flag of a flush |
| BatchedChain.BatchedAuditChain.Append | mcp_proxy/audit_chain.py:168-188 | queues, flushes at the size threshold, leaves fewer than `batch_size` pending |
| BatchedChain.BatchedAuditChain.FlushNow | mcp_proxy/audit_chain.py:190-201 | drains the queue: reply, table, settlement and flag; nothing pending touches nothing |
| BatchedChain.BatchedAuditChain.Start | mcp_proxy/audit_chain.py:319-327 | idempotent start of the periodic task |
| BatchedChain.BatchedAuditChain.Tick | mcp_proxy/audit_chain.py:350-370 | one wake-up of the periodic loop: table, settlement and flag, no raise reaching anybody; a no-op once stopped or with nothing pending |
| BatchedChain.BatchedAuditChain.Stop | mcp_proxy/audit_chain.py:329-348 | stops and drains: reply, table, settlement and flag |
| BatchedChain.BatchedAuditChain.Serve | mcp_proxy/audit_chain.py:168-348 | over any sequence of calls: each event pending, persisted once in order, or dropped; a contention drop was raised to a caller, flagged or fail-open; the raises on record are exactly those the calls returned; the flag is permanent |
| BatchedChain.NewBatchedChain | mcp_proxy/audit_chain.py:134-154 | construction refuses a batch size below 1 and a non-positive interval |
| MerkleTree.SplitIsPowerOfTwo | scripts/cullis-audit-verify.py:1517-1520 | the RFC 6962 split point is a power of two |
| MerkleTree.LayerKeepsHead | scripts/cullis-audit-verify.py:1554-1560 | one promoted layer up keeps the RFC 6962 head |
| MerkleTree.LayeredRootIsTreeHead | scripts/cullis-audit-verify.py:1517-1565 | the layer-by-layer root is the Merkle Tree Hash of section 2.1 of RFC 6962 |
| MerkleTree.LayeredPathIsTreePath | scripts/cullis-audit-verify.py:1551-1565 | the path with markers erased is PATH of section 2.1.1 of RFC 6962, and its sides are read off the index |
| AuditPaths.VerifyAuditPath | scripts/cullis-audit-verify.py:1544-1592 | the loop accepts exactly the readable paths that lead to the root with the index in range |
| AuditPaths.ReplayClimbs | scripts/cullis-audit-verify.py:1571-1592 | only siblings and their sides matter |
| AuditPaths.TreePathClimbs | scripts/cullis-audit-verify.py:1586-1591 | the RFC 6962 path of any node leads to the head |
| AuditPaths.OnlyTreePathsClimb | scripts/cullis-audit-verify.py:1527-1592 | whatever leads a leaf hash to the head is the path of one of the leaves |
| AuditPaths.TurnsInjective | scripts/cullis-audit-verify.py:1562-1564 | the sides of a path identify the leaf |
| AuditPaths.EmittedProofsAccepted | scripts/cullis-audit-verify.py:1544-1592 | completeness for every size and index |
| AuditPaths.AcceptedIffLeadsToLeaf | scripts/cullis-audit-verify.py:1527-1592 | a leaf-prefixed hash is accepted exactly when the path is the path of a leaf with that hash |
| AuditPaths.AboutClaimedIndexIff | scripts/cullis-audit-verify.py:1566-1592 | an accepted proof is about the claimed index exactly when its sides are that index's turns, repeated leaves included |
| AuditPaths.FittingProofIsTheEmittedOne | scripts/cullis-audit-verify.py:1556-1565 | with fitting markers acceptance means the leaf at the index and the one emitted path |
| AuditPaths.AcceptedAtWrongIndex | scripts/cullis-audit-verify.py:1566-1592 | a leaf accepted at an index that is not its own |
| BatchMerkle.ComputeMerkleRoot | mcp_proxy/audit/merkle.py:81-98 | the layer loop computes the root, empty input refused |
| BatchMerkle.VerifyInclusion | mcp_proxy/audit/merkle.py:153-182 | the loop follows the proof and compares, malformed steps refused |
| BatchMerkle.IssuedProofsVerify | mcp_proxy/audit/merkle.py:123-150 | every issued proof verifies |
| BatchMerkle.AcceptedIffNodeOfTree | mcp_proxy/audit/merkle.py:153-182 | a digest and proof are accepted exactly when the proof is the path of that digest from a position of a completed layer |
| BatchMerkle.OnlyPathsLeadUp | mcp_proxy/audit/merkle.py:101-150 | a proof as long as the tree is high leads to the root only from a bottom position along its path, repeated nodes included |
| BatchMerkle.IssuedProofIsPath | mcp_proxy/audit/merkle.py:123-150 | the issued proof of a leaf is the path of its position |
| BatchMerkle.VerifiedLeafIsInBatch | mcp_proxy/audit/merkle.py:153-182 | an accepted digest is a row of the batch exactly when the proof is as long as the tree is high, equivalently when it is not an interior digest |
| BatchMerkle.InteriorDigestAccepted | mcp_proxy/audit/merkle.py:153-182 | an interior digest accepted as a leaf of a batch of four |
| BatchMerkle.RootAndCountBind | mcp_proxy/audit/merkle.py:81-98 | root and leaf count determine the batch |
| BatchMerkle.RootAloneDoesNotBind | mcp_proxy/audit/merkle.py:32-35 | an odd batch and the one with its last row repeated share a root |
| BatchMerkle.IsRfcTreeIffPowerOfTwo | mcp_proxy/audit/merkle.py:46-53 | the tree is the RFC 6962 tree exactly for powers of two |
| TrustSearch.AnyRootVouches | scripts/cullis-audit-verify.py:441-447 | the loop over the roots decides whether one vouches for the node |
| TrustSearch.Parents | scripts/cullis-audit-verify.py:451-480 | the loop over embedded certificates finds exactly the unvisited ones allowed above the node, with their count |
| TrustSearch.ScanLayer | scripts/cullis-audit-verify.py:427-481 | one pass over the frontier |
| TrustSearch.NearerStaysNearer | scripts/cullis-audit-verify.py:432-434 | skipping visited certificates loses no chain |
| TrustSearch.ReachCloses | scripts/cullis-audit-verify.py:424-426 | once a layer adds nothing, none does |
| TrustSearch.ChainReachesTrustStore | scripts/cullis-audit-verify.py:412-482 | true exactly when a chain to a trust root exists, every link spelled out: names, signatures, validity, right to issue, path length; visited set and step bound lose none |
| TrustSearch.RfcPathLenIff | scripts/cullis-audit-verify.py:466-479 | an accepted chain also meets the path length rule of section 4.2.1.9 of RFC 5280 exactly when each intermediate constrained to i - 2 has a self-issued one below it |
| TrustSearch.PathLenExample | scripts/cullis-audit-verify.py:466-479 | a chain accepted against that rule |
| TrustSearch.SelfIssuedExample | scripts/cullis-audit-verify.py:466-479 | a self-issued intermediate does not count against that rule |
| SigningKeys.KeyStore.Swap | mcp_proxy/db.py:1714-1783 | when it commits; a rolled back one changes nothing; a committed one replaces one signer by another, writes the two rows and no others, and never changes the number of signers |
| SigningKeys.KeyStore.Rotate | mcp_proxy/db.py:2002-2084 | when it commits; a rolled back one changes nothing; the signers after it, the two rows it writes and no others, and when the number of signers is kept |
| SigningKeys.KeyStore.DeprecateAll | mcp_proxy/db.py:1552-1587 | the loop over kids computes the table and the count |
| SigningKeys.DeprecateEachCounts | mcp_proxy/db.py:1552-1587 | the listed keys leave the active set and the count is how many those were, repeats or not |
| SigningKeys.DeprecateEachKeeps | mcp_proxy/db.py:1573-1586 | listed active rows are stamped, all others untouched |
| SigningKeys.SwapEffect | mcp_proxy/db.py:1741-1783 | when a swap commits; the active set afterwards; the count never changes |
| SigningKeys.RotateEffect | mcp_proxy/db.py:2044-2084 | when a staged rotation commits and the active set afterwards; aborted means unchanged |
| SigningKeys.RotationWrites | mcp_proxy/db.py:2044-2084 | the two rows a committed rotation writes, and no others |
| SigningKeys.RotateCountIff | mcp_proxy/db.py:2022-2032 | the number of active keys is kept exactly when the staged row was not deprecated |
| SigningKeys.DeprecatedStagedRowExample | mcp_proxy/db.py:2044-2084 | a rotation that leaves no signer |
| SigningKeys.RunBalances | mcp_proxy/db.py:1552-2084 | over every run of all five operations the active keys are those at the start plus active inserts, less the counts returned by deprecation and the rotations onto a deprecated row |
| SigningKeys.CleanRunLosesNone | mcp_proxy/db.py:1552-2084 | as long as no staged row is inserted deprecated, no run of any operations loses a signer in a rotation |
| SigningKeys.RotationRunKeepsCount | mcp_proxy/db.py:1687-1711 | in particular over every run of the rotation protocol the number of active keys is constant |
| SigningKeys.StepKeepsActivated | mcp_proxy/db.py:1786-1813 | activation and deprecation are kept; validity at t is lost exactly by an expiry at or before t |
| SigningKeys.RunKeepsActivated | mcp_proxy/db.py:1552-2084 | the same over every run |
| SigningKeys.RunKeepsValid | mcp_proxy/db.py:1786-1813 | a key stays valid at t over any run that writes no expiry at or before t onto it |
| MasterKeyRewrap.OpenAll | mcp_proxy/db.py:1925-1948 | phase one opens every treated row or reports failure |
| MasterKeyRewrap.SealAll | mcp_proxy/db.py:1951-1968 | phase two reseals exactly those rows, with an exact count |
| MasterKeyRewrap.AtRestStore.Rewrap | mcp_proxy/db.py:1888-1974 | all or nothing over both tables: the exact condition, every enveloped signing key and every CA row moved to the new passphrase with its payload, every other value untouched, exact counts |
| MasterKeyRewrap.MovedOpens | mcp_proxy/kms/pki_at_rest.py:253-323 | a moved value opens under the new passphrase to what it held, and no longer under the old |
| MasterKeyRewrap.RewrapPreservesContent | mcp_proxy/db.py:1899-1903 | every treated row opens under the new passphrase to the same content, others untouched |
| MasterKeyRewrap.RewrapRoundTrip | mcp_proxy/db.py:1913-1968 | rewrapping there and back restores the table |
| Base64Url.AcceptedIffCanonical | cullis_sdk/_b64url.py:50-84 | accepted exactly for canonical texts, which re-encode to themselves |
| Base64Url.DecodesByTable | cullis_sdk/_b64url.py:50-84 | against the table of RFC 4648: what is accepted, each kind of refusal, and the bytes as the number the text denotes in base 64 with the unused bits shifted out |
| Base64Url.SextetsRoundTripIff | cullis_sdk/_b64url.py:73-82 | decoding loses nothing exactly when the unused low bits are zero |
| Base64Url.DecodeInvertsEncode | cullis_sdk/_b64url.py:66-84 | every byte string round-trips |
| Base64Url.DecodeInjective | cullis_sdk/_b64url.py:73-84 | accepted texts with equal bytes differ at most in padding |
| Base64Url.PaddingIgnored | cullis_sdk/_b64url.py:50-53 | the result does not depend on the number of trailing pad characters |
| Base64Url.BytesInputRoundTrip | cullis_sdk/_b64url.py:40-44 | ASCII bytes of an encoding decode like the text |
| Base64Url.BytesDecodeAsText | cullis_sdk/_b64url.py:40-44 | bytes are refused exactly when one is not ASCII, and else decode like their text |
| SseReframer.CutFrames | cullis_sdk/_client/_ai_gateway.py:222-225 | the inner loop yields the non-empty frames and keeps the rest |
| SseReframer.Reframe | cullis_sdk/_client/_ai_gateway.py:217-231 | what is yielded is a function of the whole text, however it is chopped |
| SseReframer.SplitResumes | cullis_sdk/_client/_ai_gateway.py:217-225 | splitting may stop anywhere and resume with the rest |
| SseReframer.SplitIsTheOnlyOne | cullis_sdk/_client/_ai_gateway.py:222-225 | the splitting is the unique leftmost one and rejoins to the text |
| SseReframer.NothingElseLost | cullis_sdk/_client/_ai_gateway.py:217-225 | what is yielded and left over is the text with its empty frames taken out, and the whole text exactly when no frame is empty |
| SseReframer.OutputIs | cullis_sdk/_client/_ai_gateway.py:217-231 | everything yielded over a stream is the text with its empty frames taken out and the rest stripped, the rest being a piece of its own |
| SseReframer.SeparatorIsBlankLine | cullis_sdk/_client/_ai_gateway.py:222-225 | frames are cut at two line breaks in a row and yielded with them |
| Texts.StripTrims | cullis_sdk/_client/_ai_gateway.py:226-231 | stripping takes white space off both ends and leaves none there |
| UsageMetering.AggregateUsage | mcp_proxy/db.py:1039-1118 | both breakdowns hold exactly their rows and add up to the totals; truncation is flagged |
| UsageMetering.TallyIs | mcp_proxy/db.py:1060-1110 | a bucket holds calls, prompt tokens, completion tokens and the two added up |
| UsageMetering.KeysAre | mcp_proxy/db.py:1094-1095 | which bucket a row goes to |
| UsageMetering.SumPrincipalTokens | mcp_proxy/db.py:1143-1156 | the loop sums the agent's rows under the cap |
| UsageMetering.DashboardMatchesBudget | mcp_proxy/db.py:1095-1156 | an agent's bucket is its budget seed plus the rows that fell back to its name |

## Left out

- Parsing and checking of signatures, certificates and timestamp tokens: foreign libraries; the search and the anchors take them as predicates or as already checked.
- The `local_audit` chain of the offline verifier and its cross-bundle reconciliation: the same walk with other fields.
- Bundle rows whose `chain_seq` is a numeric string rather than a number, or that lack a required key.
- The routing, context-variable defaults, detail size cap and clock inside `log_audit` before the chain work: single branches.
- A database failure reported after the commit has in fact taken place: a fault in the model always means the batch was not written.
- Scheduling of the periodic flush task (sleeping, cancelling): one wake-up is one call.
- Ordering of ISO-8601 timestamp strings: key times are points on a line.
- Encryption of a signing key on insertion and the plaintext back-fill at boot: single statements.
- The CA key table's own activation, token budgets, sessions, migrations, advisory locks: mostly single SQL statements.
- Cost totals in floating point, sort order and JSON parsing in the usage aggregation.
- HTTP, login, enrollment and messaging clients, configuration checks, startup wiring, logging and metrics.
