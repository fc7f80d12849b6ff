/** The mastio_keys table: signing keys go from staged to active to deprecated to expired under
    transactions that roll back when an UPDATE touches the wrong number of rows. */
module SigningKeys {
  import opened Texts

  /** A row; the primary key kid is the map key. Times are points on one line. */
  datatype Key = Key(material: string, createdAt: int, activatedAt: Option<int>,
                     deprecatedAt: Option<int>, expiresAt: Option<int>)

  type Keys = map<string, Key>

  predicate Active(k: Key) {
    k.activatedAt.Some? && k.deprecatedAt.None?
  }

  predicate Staged(k: Key) {
    k.activatedAt.None?
  }

  /** Accepted for token verification at time t. */
  predicate ValidAt(k: Key, t: int) {
    k.activatedAt.Some? && (k.expiresAt.None? || k.expiresAt.value > t)
  }

  /** The kids of the current signers. */
  function ActiveKids(keys: Keys): set<string> {
    set kid | kid in keys && Active(keys[kid])
  }

  // ---------------------------------------------------------------- single statements

  /** UPDATE ... SET deprecated_at [, expires_at] WHERE kid AND active: the new table and the row
      count. */
  function Deprecate(keys: Keys, kid: string, at: int, expires: Option<int>): (Keys, nat) {
    if kid in keys && Active(keys[kid]) then
      var k := keys[kid];
      (keys[kid := k.(deprecatedAt := Some(at), expiresAt := if expires.Some? then expires else k.expiresAt)], 1)
    else (keys, 0)
  }

  /** UPDATE ... SET activated_at WHERE kid AND activated_at IS NULL */
  function Activate(keys: Keys, kid: string, at: int): (Keys, nat) {
    if kid in keys && Staged(keys[kid]) then (keys[kid := keys[kid].(activatedAt := Some(at))], 1)
    else (keys, 0)
  }

  // ---------------------------------------------------------------- operations

  datatype Op =
    | InsertKey(kid: string, key: Key)
    | SwapActive(newKid: string, material: string, createdAt: int, activatedAt: int,
                 oldKid: string, deprecatedAt: int, expiresAt: int)
    | DeleteStaged(kid: string)
    | ActivateStaged(newKid: string, activatedAt: int, oldKid: string, deprecatedAt: int, expiresAt: int)
    | DeprecateByKids(kids: seq<string>, deprecatedAt: int)

  /** How a transaction ends; count is the number of rows it reports. */
  datatype Ending = Committed(count: nat) | RolledBack

  function DeprecateEach(keys: Keys, kids: seq<string>, at: int): (Keys, nat) {
    if kids == [] then (keys, 0)
    else
      var (before, n) := DeprecateEach(keys, kids[..|kids| - 1], at);
      var (after, m) := Deprecate(before, kids[|kids| - 1], at, None);
      (after, n + m)
  }

  /** The table an operation leaves and how it ended. */
  function Step(keys: Keys, op: Op): (Keys, Ending) {
    match op
    case InsertKey(kid, key) =>
      if kid in keys then (keys, RolledBack) else (keys[kid := key], Committed(1))
    case SwapActive(newKid, material, createdAt, activatedAt, oldKid, deprecatedAt, expiresAt) =>
      if newKid in keys then (keys, RolledBack)
      else
        var tx := keys[newKid := Key(material, createdAt, Some(activatedAt), None, None)];
        var (tx', n) := Deprecate(tx, oldKid, deprecatedAt, Some(expiresAt));
        if n == 1 then (tx', Committed(1)) else (keys, RolledBack)
    case DeleteStaged(kid) =>
      if kid in keys && Staged(keys[kid]) then (keys - {kid}, Committed(1)) else (keys, Committed(0))
    case ActivateStaged(newKid, activatedAt, oldKid, deprecatedAt, expiresAt) =>
      var (tx, n) := Activate(keys, newKid, activatedAt);
      if n != 1 then (keys, RolledBack)
      else
        var (tx', m) := Deprecate(tx, oldKid, deprecatedAt, Some(expiresAt));
        if m == 1 then (tx', Committed(1)) else (keys, RolledBack)
    case DeprecateByKids(kids, deprecatedAt) =>
      var (keys', n) := DeprecateEach(keys, kids, deprecatedAt);
      (keys', Committed(n))
  }

  function Run(keys: Keys, ops: seq<Op>): Keys {
    if ops == [] then keys else Step(Run(keys, ops[..|ops| - 1]), ops[|ops| - 1]).0
  }

  /** The old key is deprecated and given its grace period, and no row but it and the new one differs. */
  ghost predicate Handover(keys: Keys, keys': Keys, newKid: string, oldKid: string, deprecatedAt: int, expiresAt: int) {
    && keys'.Keys == keys.Keys + {newKid}
    && oldKid in keys
    && keys'[oldKid] == keys[oldKid].(deprecatedAt := Some(deprecatedAt), expiresAt := Some(expiresAt))
    && forall kid :: kid in keys && kid != oldKid && kid != newKid ==> keys'[kid] == keys[kid]
  }

  /** The table as the service holds it. */
  class KeyStore {
    var keys: Keys

    constructor ()
      ensures keys == map[]
    {
      keys := map[];
    }

    /** insert_mastio_key; a duplicate kid raises. No row already there is touched. */
    method Insert(kid: string, key: Key) returns (e: Ending)
      modifies this
      ensures e == if kid in old(keys) then RolledBack else Committed(1)
      ensures keys.Keys == old(keys).Keys + {kid} && (kid !in old(keys) ==> keys[kid] == key)
      ensures forall k :: k in old(keys) ==> k in keys && keys[k] == old(keys)[k]
      ensures (keys, e) == Step(old(keys), InsertKey(kid, key))
    {
      if kid in keys {
        return RolledBack;
      }
      keys := keys[kid := key];
      e := Committed(1);
    }

    /** swap_active_mastio_key: both writes in one transaction, or neither. It commits exactly when the
        new kid is free and the old one active (or the new row itself); the number of signers never
        changes. */
    method Swap(newKid: string, material: string, createdAt: int, activatedAt: int,
                oldKid: string, deprecatedAt: int, expiresAt: int) returns (e: Ending)
      modifies this
      ensures e.Committed? <==> newKid !in old(keys) && (oldKid in ActiveKids(old(keys)) || oldKid == newKid)
      ensures e.RolledBack? ==> keys == old(keys)
      ensures e.Committed? ==> ActiveKids(keys) == (ActiveKids(old(keys)) + {newKid}) - {oldKid}
      ensures |ActiveKids(keys)| == |ActiveKids(old(keys))|
      ensures e.Committed? && oldKid != newKid ==>
                && oldKid in old(keys) && newKid in keys
                && keys[newKid] == Key(material, createdAt, Some(activatedAt), None, None)
                && Handover(old(keys), keys, newKid, oldKid, deprecatedAt, expiresAt)
      ensures (keys, e) == Step(old(keys), SwapActive(newKid, material, createdAt, activatedAt, oldKid, deprecatedAt, expiresAt))
    {
      ghost var op := SwapActive(newKid, material, createdAt, activatedAt, oldKid, deprecatedAt, expiresAt);
      SwapEffect(keys, op);
      if Step(keys, op).1.Committed? && oldKid != newKid {
        RotationWrites(keys, op);
      }
      if newKid in keys {
        return RolledBack;
      }
      var tx := keys[newKid := Key(material, createdAt, Some(activatedAt), None, None)];
      var (tx', rowcount) := Deprecate(tx, oldKid, deprecatedAt, Some(expiresAt));
      if rowcount != 1 {
        return RolledBack;
      }
      keys := tx';
      e := Committed(1);
    }

    /** delete_staged_mastio_key: never removes a key that was ever activated. */
    method Delete(kid: string) returns (e: Ending)
      modifies this
      ensures e == Committed(if kid in old(keys) && old(keys)[kid].activatedAt.None? then 1 else 0)
      ensures keys.Keys == if e.count == 1 then old(keys).Keys - {kid} else old(keys).Keys
      ensures ActiveKids(keys) == ActiveKids(old(keys))
      ensures forall k :: k in old(keys) && (k != kid || !Staged(old(keys)[k])) ==> k in keys && keys[k] == old(keys)[k]
      ensures (keys, e) == Step(old(keys), DeleteStaged(kid))
    {
      if kid in keys && Staged(keys[kid]) {
        keys := keys - {kid};
        return Committed(1);
      }
      e := Committed(0);
    }

    /** activate_staged_and_deprecate_old: two row counts checked in one transaction. It commits
        exactly when the new kid is staged and the old one active once the new one is; the number of
        signers is kept exactly when the staged row was not deprecated. */
    method Rotate(newKid: string, activatedAt: int, oldKid: string, deprecatedAt: int, expiresAt: int) returns (e: Ending)
      modifies this
      ensures e.Committed? <==>
                && newKid in old(keys) && Staged(old(keys)[newKid])
                && (oldKid in ActiveKids(old(keys)) || (oldKid == newKid && old(keys)[newKid].deprecatedAt.None?))
      ensures e.RolledBack? ==> keys == old(keys)
      ensures e.Committed? ==>
                && ActiveKids(keys) == (ActiveKids(old(keys)) + if old(keys)[newKid].deprecatedAt.None? then {newKid} else {}) - {oldKid}
                && (|ActiveKids(keys)| == |ActiveKids(old(keys))| <==> old(keys)[newKid].deprecatedAt.None?)
      ensures e.Committed? && oldKid != newKid ==>
                && oldKid in old(keys) && newKid in keys
                && keys[newKid] == old(keys)[newKid].(activatedAt := Some(activatedAt))
                && Handover(old(keys), keys, newKid, oldKid, deprecatedAt, expiresAt)
      ensures (keys, e) == Step(old(keys), ActivateStaged(newKid, activatedAt, oldKid, deprecatedAt, expiresAt))
    {
      ghost var op := ActivateStaged(newKid, activatedAt, oldKid, deprecatedAt, expiresAt);
      RotateEffect(keys, op);
      if Step(keys, op).1.Committed? {
        RotateCountIff(keys, op);
        if oldKid != newKid {
          RotationWrites(keys, op);
        }
      }
      var (tx, activated) := Activate(keys, newKid, activatedAt);
      if activated != 1 {
        return RolledBack;
      }
      var (tx', deprecated) := Deprecate(tx, oldKid, deprecatedAt, Some(expiresAt));
      if deprecated != 1 {
        return RolledBack;
      }
      keys := tx';
      e := Committed(1);
    }

    /** deprecate_mastio_keys_by_kids */
    method DeprecateAll(kids: seq<string>, deprecatedAt: int) returns (updated: nat)
      modifies this
      ensures (keys, Committed(updated)) == Step(old(keys), DeprecateByKids(kids, deprecatedAt))
    {
      updated := 0;
      for i := 0 to |kids|
        invariant (keys, updated) == DeprecateEach(old(keys), kids[..i], deprecatedAt)
      {
        assert kids[..i + 1][..i] == kids[..i];
        var (keys', rowcount) := Deprecate(keys, kids[i], deprecatedAt, None);
        keys, updated := keys', updated + rowcount;
      }
      assert kids[..|kids|] == kids;
    }
  }

  // ---------------------------------------------------------------- who is active afterwards

  lemma DeprecateActive(keys: Keys, kid: string, at: int, expires: Option<int>)
    ensures var (keys', n) := Deprecate(keys, kid, at, expires);
            && ActiveKids(keys') == ActiveKids(keys) - {kid}
            && (n == 1 <==> kid in ActiveKids(keys))
            && n <= 1
            && |ActiveKids(keys')| + n == |ActiveKids(keys)|
  {
    var (keys', n) := Deprecate(keys, kid, at, expires);
    assert ActiveKids(keys') == ActiveKids(keys) - {kid};
  }

  ghost function KidSet(kids: seq<string>): set<string> {
    set kid | kid in kids
  }

  lemma KidSetLast(kids: seq<string>)
    requires kids != []
    ensures KidSet(kids) == KidSet(kids[..|kids| - 1]) + {kids[|kids| - 1]}
  {
    assert kids == kids[..|kids| - 1] + [kids[|kids| - 1]];
  }

  /** Deprecation by list removes exactly the listed active keys, and the reported count is how many
      those were, repeats or not. */
  lemma {:induction false} DeprecateEachCounts(keys: Keys, kids: seq<string>, at: int)
    ensures ActiveKids(DeprecateEach(keys, kids, at).0) == ActiveKids(keys) - KidSet(kids)
    ensures |ActiveKids(DeprecateEach(keys, kids, at).0)| + DeprecateEach(keys, kids, at).1 == |ActiveKids(keys)|
  {
    if kids != [] {
      var init, last := kids[..|kids| - 1], kids[|kids| - 1];
      DeprecateEachCounts(keys, init, at);
      DeprecateActive(DeprecateEach(keys, init, at).0, last, at, None);
      KidSetLast(kids);
      SubtractTwice(ActiveKids(keys), KidSet(init), {last});
    }
  }

  lemma SubtractTwice(a: set<string>, b: set<string>, c: set<string>)
    ensures a - b - c == a - (b + c)
  {
  }

  /** Activation makes a signer of the staged row, unless that row was already deprecated. */
  lemma ActivateActive(keys: Keys, kid: string, at: int)
    requires kid in keys && Staged(keys[kid])
    ensures ActiveKids(Activate(keys, kid, at).0)
         == ActiveKids(keys) + if keys[kid].deprecatedAt.None? then {kid} else {}
    ensures kid !in ActiveKids(keys)
  {
    var a, a' := ActiveKids(keys), ActiveKids(Activate(keys, kid, at).0);
    assert forall x :: x != kid ==> (x in a <==> x in a');
  }

  /** A new row is a signer if it comes in active. */
  lemma {:induction false} InsertActive(keys: Keys, kid: string, key: Key)
    requires kid !in keys
    ensures kid !in ActiveKids(keys)
    ensures ActiveKids(keys[kid := key]) == ActiveKids(keys) + if Active(key) then {kid} else {}
    ensures |ActiveKids(keys[kid := key])| == |ActiveKids(keys)| + if Active(key) then 1 else 0
  {
    var a, a' := ActiveKids(keys), ActiveKids(keys[kid := key]);
    assert forall x :: x != kid ==> (x in a <==> x in a');
    if Active(key) {
      assert a' == a + {kid};
    } else {
      assert a' == a;
    }
  }

  /** A swap commits exactly when the new kid is free and the old one is the active key it is meant
      to replace (or names the new row itself); then one signer replaces another. */
  lemma {:induction false} SwapEffect(keys: Keys, op: Op)
    requires op.SwapActive?
    ensures var (keys', e) := Step(keys, op);
            && (e.Committed? <==> op.newKid !in keys && (op.oldKid in ActiveKids(keys) || op.oldKid == op.newKid))
            && (e.RolledBack? ==> keys' == keys)
            && (e.Committed? ==> ActiveKids(keys') == (ActiveKids(keys) + {op.newKid}) - {op.oldKid})
            && |ActiveKids(keys')| == |ActiveKids(keys)|
  {
    if op.newKid !in keys {
      var tx := keys[op.newKid := Key(op.material, op.createdAt, Some(op.activatedAt), None, None)];
      InsertActive(keys, op.newKid, Key(op.material, op.createdAt, Some(op.activatedAt), None, None));
      DeprecateActive(tx, op.oldKid, op.deprecatedAt, Some(op.expiresAt));
    }
  }

  /** A staged rotation commits exactly when the new kid is staged and the old one is active once the
      new one has been switched on; an aborted one changes nothing. */
  lemma {:induction false} RotateEffect(keys: Keys, op: Op)
    requires op.ActivateStaged?
    ensures var (keys', e) := Step(keys, op);
            && (e.RolledBack? ==> keys' == keys)
            && (e.Committed? <==>
                  && op.newKid in keys && Staged(keys[op.newKid])
                  && (op.oldKid in ActiveKids(keys) || (op.oldKid == op.newKid && keys[op.newKid].deprecatedAt.None?)))
            && (e.Committed? ==>
                  ActiveKids(keys') == (ActiveKids(keys) + if keys[op.newKid].deprecatedAt.None? then {op.newKid} else {}) - {op.oldKid})
  {
    if op.newKid in keys && Staged(keys[op.newKid]) {
      var tx := Activate(keys, op.newKid, op.activatedAt).0;
      ActivateActive(keys, op.newKid, op.activatedAt);
      DeprecateActive(tx, op.oldKid, op.deprecatedAt, Some(op.expiresAt));
    }
  }

  /** A committed rotation writes two rows and no others: the new one is the signer as of the given
      time, the old one is deprecated and given its grace period. */
  lemma RotationWrites(keys: Keys, op: Op)
    requires (op.SwapActive? || op.ActivateStaged?) && op.oldKid != op.newKid && Step(keys, op).1.Committed?
    ensures var keys' := Step(keys, op).0;
            && Handover(keys, keys', op.newKid, op.oldKid, op.deprecatedAt, op.expiresAt)
            && (op.SwapActive? ==> keys'[op.newKid] == Key(op.material, op.createdAt, Some(op.activatedAt), None, None))
            && (op.ActivateStaged? ==> op.newKid in keys && keys'[op.newKid] == keys[op.newKid].(activatedAt := Some(op.activatedAt)))
  {
    if op.SwapActive? {
      SwapEffect(keys, op);
    } else {
      RotateEffect(keys, op);
    }
  }

  /** A committed staged rotation leaves the number of active keys unchanged exactly when the staged
      row was not already deprecated; otherwise it leaves one fewer. */
  lemma RotateCountIff(keys: Keys, op: Op)
    requires op.ActivateStaged? && Step(keys, op).1.Committed?
    ensures |ActiveKids(Step(keys, op).0)| == |ActiveKids(keys)| <==> keys[op.newKid].deprecatedAt.None?
    ensures |ActiveKids(Step(keys, op).0)| <= |ActiveKids(keys)| <= |ActiveKids(Step(keys, op).0)| + 1
  {
    RotateEffect(keys, op);
    var a, a' := ActiveKids(keys), ActiveKids(Step(keys, op).0);
    assert op.newKid !in a;
    if keys[op.newKid].deprecatedAt.None? {
      assert op.oldKid in a + {op.newKid};
      assert |a + {op.newKid}| == |a| + 1;
    } else {
      assert a + {} == a;
      assert op.oldKid in a;
    }
  }

  /** Activating a staged row that already carries a deprecation leaves no signer at all. */
  lemma DeprecatedStagedRowExample()
    ensures var keys: Keys := map["old" := Key("", 0, Some(1), None, None), "new" := Key("", 0, None, Some(2), None)];
            var op := ActivateStaged("new", 3, "old", 3, 9);
            Step(keys, op).1.Committed? && ActiveKids(keys) == {"old"} && ActiveKids(Step(keys, op).0) == {}
  {
    var keys: Keys := map["old" := Key("", 0, Some(1), None, None), "new" := Key("", 0, None, Some(2), None)];
    var op := ActivateStaged("new", 3, "old", 3, 9);
    RotateEffect(keys, op);
    assert ActiveKids(keys) == {"old"};
    assert ({"old"} + {}) - {"old"} == {};
  }

  // ---------------------------------------------------------------- every run

  /** What moves the number of active keys: active rows inserted, keys retired by list, and
      rotations onto a staged row that was already deprecated. */
  datatype Ledger = Ledger(admitted: nat, retired: nat, lost: nat)

  ghost function Entry(keys: Keys, op: Op): Ledger {
    var ending := Step(keys, op).1;
    match op
    case InsertKey(_, key) => Ledger(if ending.Committed? && Active(key) then 1 else 0, 0, 0)
    case DeprecateByKids(_, _) => Ledger(0, if ending.Committed? then ending.count else 0, 0)
    case ActivateStaged(newKid, _, _, _, _) =>
      Ledger(0, 0, if ending.Committed? && newKid in keys && keys[newKid].deprecatedAt.Some? then 1 else 0)
    case _ => Ledger(0, 0, 0)
  }

  ghost function RunLedger(keys: Keys, ops: seq<Op>): Ledger {
    if ops == [] then Ledger(0, 0, 0)
    else
      var init := ops[..|ops| - 1];
      var l, m := RunLedger(keys, init), Entry(Run(keys, init), ops[|ops| - 1]);
      Ledger(l.admitted + m.admitted, l.retired + m.retired, l.lost + m.lost)
  }

  ghost predicate Balances(keys: Keys, op: Op) {
    var l := Entry(keys, op);
    |ActiveKids(Step(keys, op).0)| + l.retired + l.lost == |ActiveKids(keys)| + l.admitted
  }

  lemma {:induction false} InsertBalances(keys: Keys, op: Op)
    requires op.InsertKey?
    ensures Balances(keys, op)
  {
    if op.kid !in keys {
      InsertActive(keys, op.kid, op.key);
    }
  }

  lemma {:induction false} DeleteBalances(keys: Keys, op: Op)
    requires op.DeleteStaged?
    ensures Balances(keys, op)
  {
    assert ActiveKids(Step(keys, op).0) == ActiveKids(keys);
  }

  lemma {:induction false} RotateBalances(keys: Keys, op: Op)
    requires op.ActivateStaged?
    ensures Balances(keys, op)
  {
    RotateEffect(keys, op);
    if Step(keys, op).1.Committed? {
      RotateCountIff(keys, op);
    }
  }

  lemma {:induction false} StepBalances(keys: Keys, op: Op)
    ensures Balances(keys, op)
  {
    match op
    case InsertKey(_, _) => InsertBalances(keys, op);
    case SwapActive(_, _, _, _, _, _, _) => SwapEffect(keys, op);
    case DeleteStaged(_) => DeleteBalances(keys, op);
    case ActivateStaged(_, _, _, _, _) => RotateBalances(keys, op);
    case DeprecateByKids(kids, at) => DeprecateEachCounts(keys, kids, at);
  }

  /** Over every run of all five operations, committed and aborted mixed, the books balance: the
      active keys at the end are those at the start plus the active rows inserted, less the keys
      retired by list and the rotations onto a deprecated row. */
  lemma {:induction false} RunBalances(keys: Keys, ops: seq<Op>)
    ensures var l := RunLedger(keys, ops);
            |ActiveKids(Run(keys, ops))| + l.retired + l.lost == |ActiveKids(keys)| + l.admitted
  {
    if ops != [] {
      var init := ops[..|ops| - 1];
      RunBalances(keys, init);
      StepBalances(Run(keys, init), ops[|ops| - 1]);
    }
  }

  /** No staged row is inserted with a deprecation already on it. */
  predicate StagesClean(op: Op) {
    op.InsertKey? && Staged(op.key) ==> op.key.deprecatedAt.None?
  }

  ghost predicate CleanStaged(keys: Keys) {
    forall kid :: kid in keys && Staged(keys[kid]) ==> keys[kid].deprecatedAt.None?
  }

  lemma StepKeepsClean(keys: Keys, op: Op)
    requires StagesClean(op) && CleanStaged(keys)
    ensures CleanStaged(Step(keys, op).0) && Entry(keys, op).lost == 0
  {
    var keys' := Step(keys, op).0;
    if op.DeprecateByKids? {
      forall kid | kid in keys' && Staged(keys'[kid]) ensures keys'[kid].deprecatedAt.None? {
        DeprecateEachKeys(keys, op.kids, op.deprecatedAt);
        DeprecateEachKeeps(keys, op.kids, op.deprecatedAt, kid);
      }
    }
  }

  lemma {:induction false} DeprecateEachKeys(keys: Keys, kids: seq<string>, at: int)
    ensures DeprecateEach(keys, kids, at).0.Keys == keys.Keys
  {
    if kids != [] {
      DeprecateEachKeys(keys, kids[..|kids| - 1], at);
    }
  }

  /** As long as no staged row is inserted with a deprecation, no run of any of the operations, the
      repair by list included, produces one, and no rotation loses a signer. */
  lemma {:induction false} CleanRunLosesNone(keys: Keys, ops: seq<Op>)
    requires CleanStaged(keys) && forall i :: 0 <= i < |ops| ==> StagesClean(ops[i])
    ensures CleanStaged(Run(keys, ops)) && RunLedger(keys, ops).lost == 0
    ensures var l := RunLedger(keys, ops);
            |ActiveKids(Run(keys, ops))| + l.retired == |ActiveKids(keys)| + l.admitted
  {
    RunBalances(keys, ops);
    if ops != [] {
      CleanRunLosesNone(keys, ops[..|ops| - 1]);
      StepKeepsClean(Run(keys, ops[..|ops| - 1]), ops[|ops| - 1]);
    }
  }

  /** Operations of the rotation protocol: staging a fresh key, dropping a staged key, rotating. */
  predicate RotationOp(op: Op) {
    match op
    case InsertKey(_, key) => Staged(key) && key.deprecatedAt.None?
    case DeprecateByKids(_, _) => false
    case _ => true
  }

  lemma {:induction false} RotationMovesNothing(keys: Keys, ops: seq<Op>)
    requires forall i :: 0 <= i < |ops| ==> RotationOp(ops[i])
    ensures RunLedger(keys, ops).admitted == 0 && RunLedger(keys, ops).retired == 0
  {
    if ops != [] {
      RotationMovesNothing(keys, ops[..|ops| - 1]);
      assert RotationOp(ops[|ops| - 1]);
    }
  }

  /** So over every run of the rotation protocol the number of active keys never changes. */
  lemma RotationRunKeepsCount(keys: Keys, ops: seq<Op>)
    requires CleanStaged(keys) && forall i :: 0 <= i < |ops| ==> RotationOp(ops[i])
    ensures CleanStaged(Run(keys, ops))
    ensures |ActiveKids(Run(keys, ops))| == |ActiveKids(keys)|
  {
    forall i | 0 <= i < |ops| ensures StagesClean(ops[i]) {
      assert RotationOp(ops[i]);
    }
    CleanRunLosesNone(keys, ops);
    RotationMovesNothing(keys, ops);
  }

  /** What one operation may do to a row that has been activated: keep it, keep its activation and
      any deprecation, and change its expiry only by a committed rotation away from it. */
  ghost predicate Keeps(k: Key, k': Key) {
    && k'.activatedAt == k.activatedAt
    && k'.material == k.material
    && (k.deprecatedAt.Some? ==> k'.deprecatedAt == k.deprecatedAt)
  }

  /** The operation wrote this expiry onto this kid. */
  ghost predicate WroteExpiry(keys: Keys, op: Op, kid: string, expires: int) {
    && (op.SwapActive? || op.ActivateStaged?)
    && op.oldKid == kid && op.expiresAt == expires
    && Step(keys, op).1.Committed?
  }

  /** Deprecation by list stamps exactly the listed active keys and leaves every other row alone. */
  lemma {:induction false} DeprecateEachKeeps(keys: Keys, kids: seq<string>, at: int, kid: string)
    requires kid in keys
    ensures DeprecateEach(keys, kids, at).0.Keys == keys.Keys
    ensures var k' := DeprecateEach(keys, kids, at).0[kid];
            k' == if kid in kids && Active(keys[kid]) then keys[kid].(deprecatedAt := Some(at)) else keys[kid]
  {
    if kids != [] {
      DeprecateEachKeeps(keys, kids[..|kids| - 1], at, kid);
      assert kids == kids[..|kids| - 1] + [kids[|kids| - 1]];
    }
  }

  /** Activation and deprecation are never undone, and a key valid at time t stays valid at t exactly
      unless the step wrote an expiry at or before t onto it. */
  lemma StepKeepsActivated(keys: Keys, op: Op, kid: string)
    requires kid in keys && keys[kid].activatedAt.Some?
    ensures var keys' := Step(keys, op).0;
            && kid in keys' && Keeps(keys[kid], keys'[kid])
            && forall t :: ValidAt(keys[kid], t) ==>
                 (ValidAt(keys'[kid], t) <==> forall x :: WroteExpiry(keys, op, kid, x) ==> x > t)
  {
    if op.DeprecateByKids? {
      DeprecateEachKeeps(keys, op.kids, op.deprecatedAt, kid);
    } else if op.SwapActive? || op.ActivateStaged? {
      assert forall x :: WroteExpiry(keys, op, kid, x) ==> x == op.expiresAt;
      if op.oldKid == kid && Step(keys, op).1.Committed? {
        assert WroteExpiry(keys, op, kid, op.expiresAt);
      }
    }
  }

  /** Over every run whatsoever, a key once activated stays in the table with that activation, and
      once deprecated stays deprecated. */
  lemma {:induction false} RunKeepsActivated(keys: Keys, ops: seq<Op>, kid: string)
    requires kid in keys && keys[kid].activatedAt.Some?
    ensures kid in Run(keys, ops) && Keeps(keys[kid], Run(keys, ops)[kid])
  {
    if ops != [] {
      RunKeepsActivated(keys, ops[..|ops| - 1], kid);
      StepKeepsActivated(Run(keys, ops[..|ops| - 1]), ops[|ops| - 1], kid);
    }
  }

  /** Over every run, a key valid at t is still valid at t when no step of the run wrote an expiry at
      or before t onto it: the grace window of a rotated key is honoured. */
  lemma {:induction false} RunKeepsValid(keys: Keys, ops: seq<Op>, kid: string, t: int)
    requires kid in keys && ValidAt(keys[kid], t)
    requires forall i, x :: 0 <= i < |ops| && WroteExpiry(Run(keys, ops[..i]), ops[i], kid, x) ==> x > t
    ensures kid in Run(keys, ops) && ValidAt(Run(keys, ops)[kid], t)
  {
    if ops != [] {
      var m := |ops| - 1;
      var init := ops[..m];
      forall i, x | 0 <= i < |init| && WroteExpiry(Run(keys, init[..i]), init[i], kid, x) ensures x > t {
        assert init[..i] == ops[..i] && init[i] == ops[i];
      }
      RunKeepsValid(keys, init, kid, t);
      StepKeepsActivated(Run(keys, init), ops[m], kid);
    }
  }
}
