/**
  The four SQLite tables behind core/models/database.py, the row types its
  queries return, the two-layer storage cipher and the invariant the
  operations keep.

  Tables are values here: `vaults` and `cards` are sequences in rowid order
  (the order a table scan, `fetchone` and `fetchall` see), `claims` is keyed by
  its primary key `card_id`, and `guilds` by `id`. The `*Seq` fields are the
  AUTOINCREMENT counters SQLite keeps in `sqlite_sequence`. Timestamps are
  whole seconds.
*/
module Tables {
  import opened Wrappers
  import opened PyStr
  import opened VaultText
  import opened Utils

  datatype Guild = Guild(id: int, createdAt: int)

  datatype Vault = Vault(
    id: int, code: string, guildId: int, storage: string, length: int,
    updatedAt: int, createdAt: int)

  datatype Card = Card(
    id: int, vaultId: int, guildId: int, channelId: int, messageId: int,
    roleId: int, maxLines: int, timeout: int, createdAt: int)

  datatype Message = Message(channelId: int, messageId: int)

  datatype Claim = Claim(cardId: int, guildId: int, memberId: int, claimTime: int)

  datatype Tables = Tables(
    guilds: map<int, Guild>,
    vaults: seq<Vault>,
    cards: seq<Card>,
    claims: map<int, Claim>,
    vaultSeq: int,
    cardSeq: int)

  // ---------------------------------------------------------------- storage cipher

  /** What `encrypt_storage` and `decrypt_storage` use: the primitives, `str(owner_id)` and the secret key. */
  datatype Keys = Keys(prims: Primitives, owner: string, secret: string)

  function KeysFor(prims: Primitives, ownerId: int, secretKey: string): Keys
  {
    Keys(prims, IntToString(ownerId), secretKey)
  }

  /** `encrypt_storage`: encrypt under the owner id, then encrypt that under the secret key. */
  function EncryptStorage(k: Keys, ivInner: Bytes, ivOuter: Bytes, storage: string): string
    requires |ivInner| == BlockSize && |ivOuter| == BlockSize
  {
    Encrypt(k.prims, k.secret, ivOuter, Encrypt(k.prims, k.owner, ivInner, storage))
  }

  /** `decrypt_storage`: peel the secret-key layer, then the owner layer; `None` is its `ValueError`. */
  function DecryptStorage(k: Keys, storage: string): Option<string>
  {
    match Decrypt(k.prims, k.secret, storage)
    case None => None
    case Some(inner) => Decrypt(k.prims, k.owner, inner)
  }

  /** Stored text decrypts back to what was stored. */
  lemma {:induction false} DecryptEncryptStorage(k: Keys, ivInner: Bytes, ivOuter: Bytes, storage: string)
    requires Sound(k.prims) && |ivInner| == BlockSize && |ivOuter| == BlockSize
    ensures DecryptStorage(k, EncryptStorage(k, ivInner, ivOuter, storage)) == Some(storage)
  {
    var inner := Encrypt(k.prims, k.owner, ivInner, storage);
    DecryptEncrypt(k.prims, k.secret, ivOuter, inner);
    DecryptEncrypt(k.prims, k.owner, ivInner, storage);
  }

  // ---------------------------------------------------------------- queries

  /** The row `fetchone` returns for a `WHERE` clause: the first match in rowid order. */
  function First<T>(rows: seq<T>, matches: T -> bool): (r: Option<nat>)
    ensures r.Some? ==> r.value < |rows| && matches(rows[r.value])
    ensures r.Some? ==> forall j :: 0 <= j < r.value ==> !matches(rows[j])
    ensures r.None? <==> forall j :: 0 <= j < |rows| ==> !matches(rows[j])
    decreases |rows|
  {
    if |rows| == 0 then None
    else if matches(rows[0]) then Some(0)
    else
      match First(rows[1..], matches)
      case None => None
      case Some(i) => Some(i + 1)
  }

  /** The rows `fetchall` returns for a `WHERE` clause, or the rows a `DELETE` with the negated clause keeps. */
  function Filter<T(!new)>(rows: seq<T>, keep: T -> bool): (r: seq<T>)
    ensures |r| <= |rows|
    ensures forall x :: x in r <==> x in rows && keep(x)
    decreases |rows|
  {
    if |rows| == 0 then []
    else (if keep(rows[0]) then [rows[0]] else []) + Filter(rows[1..], keep)
  }

  /** A lookup sees only what its clause tests: rows that agree on the clause give the same first match. */
  lemma {:induction false} FirstKept<T>(rows: seq<T>, changed: seq<T>, matches: T -> bool)
    requires |changed| == |rows|
    requires forall i :: 0 <= i < |rows| ==> matches(changed[i]) == matches(rows[i])
    ensures First(changed, matches) == First(rows, matches)
  {
    var a, b := First(rows, matches), First(changed, matches);
    if a.Some? && b.Some? {
      assert !(a.value < b.value) && !(b.value < a.value);
    }
  }

  /** A row appended to rows none of which match is the first match. */
  lemma {:induction false} FirstAppend<T>(rows: seq<T>, row: T, matches: T -> bool)
    requires First(rows, matches).None? && matches(row)
    ensures First(rows + [row], matches) == Some(|rows|)
  {
    var all := rows + [row];
    assert all[|rows|] == row;
  }

  /** Rows in strictly increasing key order. */
  predicate Ascending<T>(rows: seq<T>, key: T -> int)
  {
    forall i, j :: 0 <= i < j < |rows| ==> key(rows[i]) < key(rows[j])
  }

  /** Filtering keeps the rowid order. */
  lemma {:induction false} FilterAscending<T(!new)>(rows: seq<T>, keep: T -> bool, key: T -> int)
    requires Ascending(rows, key)
    ensures Ascending(Filter(rows, keep), key)
    decreases |rows|
  {
    if |rows| > 0 {
      var rest := Filter(rows[1..], keep);
      FilterAscending(rows[1..], keep, key);
      forall x | x in rest ensures key(rows[0]) < key(x) {
        var j :| 0 <= j < |rows[1..]| && rows[1..][j] == x;
        assert rows[j + 1] == x;
      }
    }
  }

  /** Appending a row with a larger key than every row keeps the order. */
  lemma {:induction false} AppendAscending<T>(rows: seq<T>, row: T, key: T -> int)
    requires Ascending(rows, key)
    requires forall x :: x in rows ==> key(x) < key(row)
    ensures Ascending(rows + [row], key)
  {
    var all := rows + [row];
    forall i, j | 0 <= i < j < |all| ensures key(all[i]) < key(all[j]) {
      assert all[i] == rows[i];
      if j < |rows| {
        assert all[j] == rows[j];
      }
    }
  }

  /** In ascending order, the row with a given key is the only one. */
  lemma {:induction false} AscendingUnique<T>(rows: seq<T>, key: T -> int, i: int, j: int)
    requires Ascending(rows, key)
    requires 0 <= i < |rows| && 0 <= j < |rows| && key(rows[i]) == key(rows[j])
    ensures i == j
  {
  }

  function VaultId(v: Vault): int { v.id }

  function CardId(c: Card): int { c.id }

  /** `WHERE code = ? AND guild_id = ?` on vaults. */
  function VaultByCode(code: string, guildId: int): Vault -> bool
  {
    (v: Vault) => v.code == code && v.guildId == guildId
  }

  /** `WHERE id = ? AND guild_id = ?` on vaults. */
  function VaultInGuild(id: int, guildId: int): Vault -> bool
  {
    (v: Vault) => v.id == id && v.guildId == guildId
  }

  /** The vaults `DELETE FROM vaults WHERE id = ?` keeps. */
  function VaultOther(id: int): Vault -> bool
  {
    (v: Vault) => v.id != id
  }

  /** `WHERE vault_id = ?` on cards. */
  function CardOfVault(vaultId: int): Card -> bool
  {
    (c: Card) => c.vaultId == vaultId
  }

  /** The cards `DELETE FROM cards WHERE vault_id = ?` keeps. */
  function CardNotOfVault(vaultId: int): Card -> bool
  {
    (c: Card) => c.vaultId != vaultId
  }

  /** The cards `DELETE FROM cards WHERE id = ?` keeps. */
  function CardOther(id: int): Card -> bool
  {
    (c: Card) => c.id != id
  }

  /** `WHERE message_id = ?` on cards. */
  function CardByMessage(messageId: int): Card -> bool
  {
    (c: Card) => c.messageId == messageId
  }

  /** `WHERE guild_id = ?` on cards. */
  function CardOfGuild(guildId: int): Card -> bool
  {
    (c: Card) => c.guildId == guildId
  }

  // ---------------------------------------------------------------- invariant

  /** A vault whose storage decrypts holds a stored text, and its cached length counts that text's lines. */
  ghost predicate Consistent(k: Keys, v: Vault)
  {
    match DecryptStorage(k, v.storage)
    case None => true
    case Some(text) => Normal(text) && v.length == LineCount(text)
  }

  /**
    What every operation keeps: the primitives round-trip, rowids increase and
    stay within their AUTOINCREMENT counters, each claim sits under its own
    card id, each guild under its own id, and vault lengths match their text.
  */
  ghost predicate TablesValid(t: Tables, k: Keys)
  {
    && Sound(k.prims)
    && (forall id :: id in t.guilds ==> t.guilds[id].id == id)
    && Ascending(t.vaults, VaultId)
    && (forall v :: v in t.vaults ==> v.id <= t.vaultSeq && Consistent(k, v))
    && Ascending(t.cards, CardId)
    && (forall c :: c in t.cards ==> c.id <= t.cardSeq)
    && (forall id :: id in t.claims ==> t.claims[id].cardId == id)
  }
}
