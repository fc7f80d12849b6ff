/** rewrap_at_rest_master_key: re-encrypt two tables from an old passphrase to a new one, everything
    opened before anything is written, in one transaction. Encryption is a free constructor tagged
    with the master key. */
module MasterKeyRewrap {
  import opened Texts

  /** The two encrypted columns: mastio_keys.privkey_pem and pki_key_store.ciphertext. */
  datatype Column = SecretColumn | PkiColumn

  /** A stored value: text without an envelope prefix (NULL counts as empty), an envelope of that
      column's format sealed under a master key, or such an envelope that no key opens. The payload
      is the private key, or the key and the certificate. */
  datatype Stored =
    | Text(text: string)
    | Envelope(column: Column, key: string, payload: seq<string>)
    | Garbled(column: Column)

  type Table = map<string, Stored>

  /** The master key a passphrase yields: surrounding space is dropped, and fewer than 16 characters
      are refused. */
  function MasterKey(passphrase: string): Option<string> {
    var s := Strip(passphrase);
    if |s| < 16 then None else Some(s)
  }

  /** Whether the rewrap treats the value: every CA row, but a signing key only if it is enveloped. */
  predicate Treated(col: Column, v: Stored) {
    col == PkiColumn || (!v.Text? && v.column == SecretColumn)
  }

  function Open(col: Column, v: Stored, passphrase: string): Option<seq<string>> {
    if v.Envelope? && v.column == col && MasterKey(passphrase) == Some(v.key) then Some(v.payload) else None
  }

  function Seal(col: Column, payload: seq<string>, passphrase: string): Option<Stored> {
    if "" in payload || MasterKey(passphrase).None? then None
    else Some(Envelope(col, MasterKey(passphrase).value, payload))
  }

  // ---------------------------------------------------------------- what a rewrap amounts to

  predicate CanRewrapValue(col: Column, v: Stored, oldPass: string, newPass: string) {
    Treated(col, v) ==> Open(col, v, oldPass).Some? && Seal(col, v.payload, newPass).Some?
  }

  function RewrapValue(col: Column, v: Stored, newPass: string): Stored
    requires Treated(col, v) ==> v.Envelope? && Seal(col, v.payload, newPass).Some?
  {
    if Treated(col, v) then Seal(col, v.payload, newPass).value else v
  }

  ghost predicate CanRewrap(col: Column, table: Table, oldPass: string, newPass: string) {
    forall id :: id in table ==> CanRewrapValue(col, table[id], oldPass, newPass)
  }

  ghost predicate CanOpen(col: Column, table: Table, oldPass: string) {
    forall id :: id in table && Treated(col, table[id]) ==> Open(col, table[id], oldPass).Some?
  }

  ghost predicate CanSeal(col: Column, table: Table, newPass: string) {
    forall id :: id in table && Treated(col, table[id]) && table[id].Envelope? ==>
      Seal(col, table[id].payload, newPass).Some?
  }

  /** A rewrap is an opening and a sealing. */
  lemma CanRewrapParts(col: Column, table: Table, oldPass: string, newPass: string)
    ensures CanRewrap(col, table, oldPass, newPass) <==> CanOpen(col, table, oldPass) && CanSeal(col, table, newPass)
  {
    if CanRewrap(col, table, oldPass, newPass) {
      assert forall id :: id in table ==> CanRewrapValue(col, table[id], oldPass, newPass);
    }
  }

  /** Every treated row opened under the old passphrase and sealed under the new one. */
  ghost function Rewrapped(col: Column, table: Table, oldPass: string, newPass: string): Table
    requires CanRewrap(col, table, oldPass, newPass)
  {
    map id | id in table :: RewrapValue(col, table[id], newPass)
  }

  ghost function TreatedIds(col: Column, table: Table): set<string> {
    set id | id in table && Treated(col, table[id])
  }

  /** The rows in the order a SELECT returns them. */
  ghost predicate Lists(order: seq<string>, table: Table) {
    && (forall id :: id in order <==> id in table)
    && (forall i, j :: 0 <= i < j < |order| ==> order[i] != order[j])
  }

  // ---------------------------------------------------------------- the two phases

  /** The ids to treat, in SELECT order. */
  ghost function Chosen(col: Column, table: Table, order: seq<string>): seq<string>
    requires forall id :: id in order ==> id in table
  {
    if order == [] then []
    else
      var id := order[|order| - 1];
      Chosen(col, table, order[..|order| - 1]) + if Treated(col, table[id]) then [id] else []
  }

  lemma {:induction false} ChosenAreTreated(col: Column, table: Table, order: seq<string>)
    requires forall id :: id in order ==> id in table
    requires forall i, j :: 0 <= i < j < |order| ==> order[i] != order[j]
    ensures var ids := Chosen(col, table, order);
            && (forall id :: id in ids <==> id in order && Treated(col, table[id]))
            && (forall i, j :: 0 <= i < j < |ids| ==> ids[i] != ids[j])
  {
    if order != [] {
      var init, last := order[..|order| - 1], order[|order| - 1];
      ChosenAreTreated(col, table, init);
      assert order == init + [last];
      assert last !in init;
    }
  }

  lemma {:induction false} DistinctCount(ids: seq<string>, s: set<string>)
    requires forall id :: id in ids <==> id in s
    requires forall i, j :: 0 <= i < j < |ids| ==> ids[i] != ids[j]
    ensures |ids| == |s|
  {
    if ids == [] {
      assert s == {};
    } else {
      var init, last := ids[..|ids| - 1], ids[|ids| - 1];
      assert ids == init + [last];
      assert last !in init;
      DistinctCount(init, s - {last});
    }
  }

  /** What phase one hands to phase two: the ids to treat with their opened payloads. */
  ghost predicate Opened(col: Column, table: Table, plain: seq<(string, seq<string>)>, ids: seq<string>, oldPass: string) {
    && |plain| == |ids|
    && forall i :: 0 <= i < |ids| ==>
         plain[i].0 == ids[i] && ids[i] in table && Open(col, table[ids[i]], oldPass) == Some(plain[i].1)
  }

  /** Phase one on one table: open everything under the old passphrase, stop at the first failure. */
  method OpenAll(col: Column, table: Table, order: seq<string>, oldPass: string)
    returns (ok: bool, plain: seq<(string, seq<string>)>)
    requires Lists(order, table)
    ensures ok <==> CanOpen(col, table, oldPass)
    ensures ok ==> Opened(col, table, plain, Chosen(col, table, order), oldPass)
  {
    plain := [];
    for i := 0 to |order|
      invariant forall id :: id in order[..i] && Treated(col, table[id]) ==> Open(col, table[id], oldPass).Some?
      invariant Opened(col, table, plain, Chosen(col, table, order[..i]), oldPass)
    {
      var id := order[i];
      assert id in order;
      assert order[..i + 1] == order[..i] + [id] && order[..i + 1][..i] == order[..i];
      if Treated(col, table[id]) {
        var payload := Open(col, table[id], oldPass);
        if payload.None? {
          return false, plain;
        }
        plain := plain + [(id, payload.value)];
      }
    }
    assert order[..|order|] == order;
    ok := true;
  }

  /** The table with the listed rows resealed. */
  ghost predicate Resealed(col: Column, table: Table, tx: Table, ids: seq<string>, newPass: string) {
    && tx.Keys == table.Keys
    && (forall id :: id in ids ==> id in table && table[id].Envelope? && Seal(col, table[id].payload, newPass).Some?)
    && (forall id :: id in table ==>
          tx[id] == if id in ids then Seal(col, table[id].payload, newPass).value else table[id])
  }

  /** Phase two on one table: seal under the new passphrase and write, stop at the first failure. */
  method SealAll(col: Column, table: Table, plain: seq<(string, seq<string>)>, ghost order: seq<string>,
                 ghost oldPass: string, newPass: string)
    returns (ok: bool, tx: Table, count: nat)
    requires Lists(order, table) && CanOpen(col, table, oldPass)
    requires Opened(col, table, plain, Chosen(col, table, order), oldPass)
    ensures ok <==> CanSeal(col, table, newPass)
    ensures ok ==> CanRewrap(col, table, oldPass, newPass) && tx == Rewrapped(col, table, oldPass, newPass)
    ensures ok ==> count == |TreatedIds(col, table)|
  {
    ghost var ids := Chosen(col, table, order);
    ChosenAreTreated(col, table, order);
    tx, count := table, 0;
    for i := 0 to |plain|
      invariant count == i && Resealed(col, table, tx, ids[..i], newPass)
    {
      var (id, payload) := plain[i];
      assert ids[i] in ids;
      assert table[id].Envelope? && table[id].payload == payload;
      var sealed := Seal(col, payload, newPass);
      if sealed.None? {
        return false, tx, count;
      }
      ResealOneMore(col, table, tx, ids, i, newPass);
      tx := tx[id := sealed.value];
      count := count + 1;
    }
    assert ids[..|plain|] == ids;
    ok := true;
    ResealedIsRewrapped(col, table, tx, ids, oldPass, newPass);
    CanRewrapParts(col, table, oldPass, newPass);
    DistinctCount(ids, TreatedIds(col, table));
  }

  lemma ResealOneMore(col: Column, table: Table, tx: Table, ids: seq<string>, i: nat, newPass: string)
    requires i < |ids| && Resealed(col, table, tx, ids[..i], newPass)
    requires ids[i] in table && table[ids[i]].Envelope? && Seal(col, table[ids[i]].payload, newPass).Some?
    ensures Resealed(col, table, tx[ids[i] := Seal(col, table[ids[i]].payload, newPass).value], ids[..i + 1], newPass)
  {
    assert ids[..i + 1] == ids[..i] + [ids[i]];
  }

  lemma ResealedIsRewrapped(col: Column, table: Table, tx: Table, ids: seq<string>, oldPass: string, newPass: string)
    requires Resealed(col, table, tx, ids, newPass) && CanOpen(col, table, oldPass)
    requires forall id :: id in ids <==> id in table && Treated(col, table[id])
    ensures CanRewrap(col, table, oldPass, newPass) && tx == Rewrapped(col, table, oldPass, newPass)
  {
    CanRewrapParts(col, table, oldPass, newPass);
  }

  // ---------------------------------------------------------------- the whole operation, spelled out

  /** A signing key column that holds an envelope of its own format, openable or not. */
  predicate Enveloped(v: Stored) {
    v == Garbled(SecretColumn) || (v.Envelope? && v.column == SecretColumn)
  }

  /** The value can be moved: sealed under the stripped old passphrase, both passphrases long enough,
      and no part of the payload empty. */
  predicate Movable(col: Column, v: Stored, oldPass: string, newPass: string) {
    && v.Envelope? && v.column == col && v.key == Strip(oldPass)
    && |Strip(oldPass)| >= 16 && |Strip(newPass)| >= 16 && "" !in v.payload
  }

  /** The same payload, sealed under the stripped new passphrase. */
  function Moved(col: Column, v: Stored, newPass: string): Stored
    requires v.Envelope?
  {
    Envelope(col, Strip(newPass), v.payload)
  }

  /** The signing keys after a rewrap: every enveloped one moved, every other value as it was. */
  ghost predicate SigningKeysMoved(before: Table, after: Table, oldPass: string, newPass: string) {
    && after.Keys == before.Keys
    && forall id :: id in before ==>
         if Enveloped(before[id])
         then Movable(SecretColumn, before[id], oldPass, newPass) && after[id] == Moved(SecretColumn, before[id], newPass)
         else after[id] == before[id]
  }

  /** The CA keys after a rewrap: every row moved. */
  ghost predicate CaKeysMoved(before: Table, after: Table, oldPass: string, newPass: string) {
    && after.Keys == before.Keys
    && forall id :: id in before ==>
         Movable(PkiColumn, before[id], oldPass, newPass) && after[id] == Moved(PkiColumn, before[id], newPass)
  }

  lemma CanRewrapSpelled(col: Column, v: Stored, oldPass: string, newPass: string)
    ensures CanRewrapValue(col, v, oldPass, newPass)
       <==> ((col == PkiColumn || Enveloped(v)) ==> Movable(col, v, oldPass, newPass))
  {
  }

  lemma RewrappedSpelled(mk: Table, ca: Table, oldPass: string, newPass: string)
    ensures CanRewrap(SecretColumn, mk, oldPass, newPass)
       <==> forall id :: id in mk && Enveloped(mk[id]) ==> Movable(SecretColumn, mk[id], oldPass, newPass)
    ensures CanRewrap(PkiColumn, ca, oldPass, newPass)
       <==> forall id :: id in ca ==> Movable(PkiColumn, ca[id], oldPass, newPass)
    ensures CanRewrap(SecretColumn, mk, oldPass, newPass) ==>
              SigningKeysMoved(mk, Rewrapped(SecretColumn, mk, oldPass, newPass), oldPass, newPass)
    ensures CanRewrap(PkiColumn, ca, oldPass, newPass) ==>
              CaKeysMoved(ca, Rewrapped(PkiColumn, ca, oldPass, newPass), oldPass, newPass)
    ensures TreatedIds(SecretColumn, mk) == set id | id in mk && Enveloped(mk[id])
  {
    forall id | id in mk
      ensures CanRewrapValue(SecretColumn, mk[id], oldPass, newPass)
         <==> (Enveloped(mk[id]) ==> Movable(SecretColumn, mk[id], oldPass, newPass))
    {
      CanRewrapSpelled(SecretColumn, mk[id], oldPass, newPass);
    }
    forall id | id in ca
      ensures CanRewrapValue(PkiColumn, ca[id], oldPass, newPass) <==> Movable(PkiColumn, ca[id], oldPass, newPass)
    {
      CanRewrapSpelled(PkiColumn, ca[id], oldPass, newPass);
    }
  }

  /** A moved value opens under the new passphrase to what it held, and under the old one only if both
      strip to the same text. */
  lemma MovedOpens(col: Column, v: Stored, oldPass: string, newPass: string)
    requires Movable(col, v, oldPass, newPass)
    ensures Open(col, v, oldPass) == Some(v.payload) == Open(col, Moved(col, v, newPass), newPass)
    ensures Open(col, Moved(col, v, newPass), oldPass).Some? <==> Strip(oldPass) == Strip(newPass)
  {
  }

  datatype Outcome = Done(mastioCount: nat, pkiCount: nat) | Raised

  class AtRestStore {
    var mastioKeys: Table
    var pkiStore: Table

    constructor (mastioKeys: Table, pkiStore: Table)
      ensures this.mastioKeys == mastioKeys && this.pkiStore == pkiStore
    {
      this.mastioKeys, this.pkiStore := mastioKeys, pkiStore;
    }

    /** rewrap_at_rest_master_key: all or nothing. It goes through exactly when every enveloped signing
        key and every CA row can be moved; then all of them have been, every other value is untouched
        and the counts are exact; otherwise nothing has changed. */
    method Rewrap(oldPass: string, newPass: string, mkOrder: seq<string>, caOrder: seq<string>) returns (r: Outcome)
      requires Lists(mkOrder, mastioKeys) && Lists(caOrder, pkiStore)
      modifies this
      ensures r.Done? <==>
                && (forall id :: id in old(mastioKeys) && Enveloped(old(mastioKeys)[id]) ==>
                      Movable(SecretColumn, old(mastioKeys)[id], oldPass, newPass))
                && (forall id :: id in old(pkiStore) ==> Movable(PkiColumn, old(pkiStore)[id], oldPass, newPass))
      ensures r.Done? ==>
                && SigningKeysMoved(old(mastioKeys), mastioKeys, oldPass, newPass)
                && CaKeysMoved(old(pkiStore), pkiStore, oldPass, newPass)
                && r.mastioCount == |set id | id in old(mastioKeys) && Enveloped(old(mastioKeys)[id])|
      ensures r.Done? <==> CanRewrap(SecretColumn, old(mastioKeys), oldPass, newPass) && CanRewrap(PkiColumn, old(pkiStore), oldPass, newPass)
      ensures r.Done? ==>
                && mastioKeys == Rewrapped(SecretColumn, old(mastioKeys), oldPass, newPass)
                && pkiStore == Rewrapped(PkiColumn, old(pkiStore), oldPass, newPass)
                && r.mastioCount == |TreatedIds(SecretColumn, old(mastioKeys))|
                && r.pkiCount == |old(pkiStore)|
      ensures r.Raised? ==> mastioKeys == old(mastioKeys) && pkiStore == old(pkiStore)
    {
      RewrappedSpelled(mastioKeys, pkiStore, oldPass, newPass);
      CanRewrapParts(SecretColumn, mastioKeys, oldPass, newPass);
      CanRewrapParts(PkiColumn, pkiStore, oldPass, newPass);
      var ok, mkPlain := OpenAll(SecretColumn, mastioKeys, mkOrder, oldPass);
      if !ok {
        return Raised;
      }
      var caPlain;
      ok, caPlain := OpenAll(PkiColumn, pkiStore, caOrder, oldPass);
      if !ok {
        return Raised;
      }
      var mkTx, mkCount;
      ok, mkTx, mkCount := SealAll(SecretColumn, mastioKeys, mkPlain, mkOrder, oldPass, newPass);
      if !ok {
        return Raised;
      }
      var caTx, caCount;
      ok, caTx, caCount := SealAll(PkiColumn, pkiStore, caPlain, caOrder, oldPass, newPass);
      if !ok {
        return Raised;
      }
      assert TreatedIds(PkiColumn, pkiStore) == pkiStore.Keys;
      mastioKeys, pkiStore := mkTx, caTx;
      r := Done(mkCount, caCount);
    }
  }

  // ---------------------------------------------------------------- what callers rely on

  /** After a rewrap every treated row opens under the new passphrase to what it held before, no
      longer opens under the old one unless both give the same master key, and the rest is as it
      was. */
  lemma RewrapPreservesContent(col: Column, table: Table, oldPass: string, newPass: string, id: string)
    requires CanRewrap(col, table, oldPass, newPass) && id in table
    ensures var table' := Rewrapped(col, table, oldPass, newPass);
            && (Treated(col, table[id]) ==>
                  && Open(col, table'[id], newPass) == Open(col, table[id], oldPass)
                  && Open(col, table'[id], newPass).Some?
                  && (Open(col, table'[id], oldPass).Some? <==> MasterKey(oldPass) == MasterKey(newPass)))
            && (!Treated(col, table[id]) ==> table'[id] == table[id])
            && Treated(col, table'[id]) == Treated(col, table[id])
  {
    assert CanRewrapValue(col, table[id], oldPass, newPass);
  }

  /** Rewrapping to a new passphrase and back restores the table. */
  lemma RewrapRoundTrip(col: Column, table: Table, oldPass: string, newPass: string)
    requires CanRewrap(col, table, oldPass, newPass)
    ensures CanRewrap(col, Rewrapped(col, table, oldPass, newPass), newPass, oldPass)
    ensures Rewrapped(col, Rewrapped(col, table, oldPass, newPass), newPass, oldPass) == table
  {
    var table' := Rewrapped(col, table, oldPass, newPass);
    forall id | id in table'
      ensures CanRewrapValue(col, table'[id], newPass, oldPass) && RewrapValue(col, table'[id], oldPass) == table[id]
    {
      assert CanRewrapValue(col, table[id], oldPass, newPass);
    }
  }
}
