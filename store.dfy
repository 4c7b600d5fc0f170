/**
  What each query of core/models/database.py does to the tables, as
  functions from the tables before to the result and the tables after, and
  what those operations promise together: lookups after writes, the
  bookkeeping of `remove_vault` and `remove_card`, the cool-down and line
  hand-out of `claim`, and the table invariant.
*/
module Store {
  import opened Wrappers
  import opened PyStr
  import opened VaultText
  import opened Utils
  import opened Tables

  // ---------------------------------------------------------------- get_guild

  /** The guild `get_guild` returns: the stored row, or a new one created now. */
  function GuildRow(t: Tables, guildId: int, now: int): (g: Guild)
  {
    if guildId in t.guilds then t.guilds[guildId] else Guild(guildId, now)
  }

  /** The guilds table after `get_guild`: the row is inserted when missing. */
  function EnsureGuild(t: Tables, guildId: int, now: int): (r: Tables)
    ensures guildId in r.guilds && r.guilds[guildId] == GuildRow(t, guildId, now)
    ensures r.vaults == t.vaults && r.cards == t.cards && r.claims == t.claims
    ensures forall id :: id in t.guilds ==> id in r.guilds && r.guilds[id] == t.guilds[id]
    ensures r.guilds.Keys == t.guilds.Keys + {guildId}
    ensures r.vaultSeq == t.vaultSeq && r.cardSeq == t.cardSeq
  {
    if guildId in t.guilds then t else t.(guilds := t.guilds[guildId := Guild(guildId, now)])
  }

  /** Asking again returns the same guild and changes nothing; its id is the one asked for. */
  lemma {:induction false} GetGuildStable(t: Tables, k: Keys, guildId: int, now: int, later: int)
    requires TablesValid(t, k)
    ensures GuildRow(t, guildId, now).id == guildId
    ensures GuildRow(EnsureGuild(t, guildId, now), guildId, later) == GuildRow(t, guildId, now)
    ensures EnsureGuild(EnsureGuild(t, guildId, now), guildId, later) == EnsureGuild(t, guildId, now)
    ensures TablesValid(EnsureGuild(t, guildId, now), k)
  {
  }

  // ---------------------------------------------------------------- get_vault

  /** What `get_vault` finds: no row, a row whose storage does not decrypt, or the row with its plain text. */
  datatype VaultLookup = Absent | Corrupt(id: int) | Found(vault: Vault)

  function LookupVault(t: Tables, k: Keys, guildId: int, code: string): (r: VaultLookup)
    ensures r.Absent? <==> forall i :: 0 <= i < |t.vaults| ==> !(t.vaults[i].code == code && t.vaults[i].guildId == guildId)
    ensures r.Found? ==> r.vault.code == code && r.vault.guildId == guildId
    ensures var f := First(t.vaults, VaultByCode(code, guildId));
      && (r.Corrupt? <==> f.Some? && DecryptStorage(k, t.vaults[f.value].storage).None?)
      && (r.Corrupt? ==> r.id == t.vaults[f.value].id)
      && (r.Found? ==> f.Some? && r.vault == t.vaults[f.value].(storage := DecryptStorage(k, t.vaults[f.value].storage).value))
    ensures r.Found? ==>
      exists i :: (0 <= i < |t.vaults| && t.vaults[i] == r.vault.(storage := t.vaults[i].storage)
        && DecryptStorage(k, t.vaults[i].storage) == Some(r.vault.storage)
        && forall j :: 0 <= j < i ==> !(t.vaults[j].code == code && t.vaults[j].guildId == guildId))
  {
    match First(t.vaults, VaultByCode(code, guildId))
    case None => Absent
    case Some(i) =>
      match DecryptStorage(k, t.vaults[i].storage)
      case None => Corrupt(t.vaults[i].id)
      case Some(text) => Found(t.vaults[i].(storage := text))
  }

  /** A vault `get_vault` returns holds a stored text, and its length counts that text's lines. */
  lemma {:induction false} FoundIsConsistent(t: Tables, k: Keys, guildId: int, code: string)
    requires TablesValid(t, k)
    requires LookupVault(t, k, guildId, code).Found?
    ensures var v := LookupVault(t, k, guildId, code).vault;
      Normal(v.storage) && v.length == LineCount(v.storage)
  {
    var i := First(t.vaults, VaultByCode(code, guildId)).value;
    assert t.vaults[i] in t.vaults;
  }

  // ---------------------------------------------------------------- create_vault / update_vault

  /** The vault row `create_vault` inserts, before its id is known. */
  function NewVault(k: Keys, id: int, guildId: int, code: string, storage: string, now: int, ivInner: Bytes, ivOuter: Bytes): Vault
    requires |ivInner| == BlockSize && |ivOuter| == BlockSize
  {
    var text := Normalize(storage);
    Vault(id, code, guildId, EncryptStorage(k, ivInner, ivOuter, text), LineCount(text), now, now)
  }

  /** `create_vault`: the row is appended under the next AUTOINCREMENT id. */
  function CreateVaultSpec(t: Tables, k: Keys, guildId: int, code: string, storage: string, now: int, ivInner: Bytes, ivOuter: Bytes): (r: Tables)
    requires |ivInner| == BlockSize && |ivOuter| == BlockSize
  {
    var id := t.vaultSeq + 1;
    t.(vaults := t.vaults + [NewVault(k, id, guildId, code, storage, now, ivInner, ivOuter)], vaultSeq := id)
  }

  /** The row `update_vault` writes over a vault. */
  function Rewritten(v: Vault, k: Keys, storage: string, now: int, ivInner: Bytes, ivOuter: Bytes): Vault
    requires |ivInner| == BlockSize && |ivOuter| == BlockSize
  {
    var text := Normalize(storage);
    v.(storage := EncryptStorage(k, ivInner, ivOuter, text), length := LineCount(text), updatedAt := now)
  }

  /** The `UPDATE vaults ... WHERE id = ?` over the rows: each row with the id is rewritten, the others kept. */
  function RewriteRows(rows: seq<Vault>, k: Keys, id: int, storage: string, now: int, ivInner: Bytes, ivOuter: Bytes): (r: seq<Vault>)
    requires |ivInner| == BlockSize && |ivOuter| == BlockSize
    ensures |r| == |rows|
    ensures forall i :: 0 <= i < |rows| ==>
      && r[i].id == rows[i].id && r[i].code == rows[i].code && r[i].guildId == rows[i].guildId
    decreases |rows|
  {
    if |rows| == 0 then []
    else
      [if rows[0].id == id then Rewritten(rows[0], k, storage, now, ivInner, ivOuter) else rows[0]]
      + RewriteRows(rows[1..], k, id, storage, now, ivInner, ivOuter)
  }

  /** Row `j` after the update: rewritten when its id is the one updated, unchanged otherwise. */
  lemma {:induction false} RewriteRowsAt(rows: seq<Vault>, k: Keys, id: int, storage: string, now: int, ivInner: Bytes, ivOuter: Bytes, j: nat)
    requires |ivInner| == BlockSize && |ivOuter| == BlockSize && j < |rows|
    ensures RewriteRows(rows, k, id, storage, now, ivInner, ivOuter)[j]
      == if rows[j].id == id then Rewritten(rows[j], k, storage, now, ivInner, ivOuter) else rows[j]
    decreases j
  {
    if j > 0 {
      RewriteRowsAt(rows[1..], k, id, storage, now, ivInner, ivOuter, j - 1);
    }
  }

  /** `update_vault`: every row with the id gets the new text, length and time. */
  function StoreText(t: Tables, k: Keys, id: int, storage: string, now: int, ivInner: Bytes, ivOuter: Bytes): (r: Tables)
    requires |ivInner| == BlockSize && |ivOuter| == BlockSize
    ensures r == t.(vaults := r.vaults) && |r.vaults| == |t.vaults|
  {
    t.(vaults := RewriteRows(t.vaults, k, id, storage, now, ivInner, ivOuter))
  }

  /** After `create_vault`, `get_vault` finds the new vault with the normalised text, unless an older vault has the code. */
  lemma {:induction false} CreateThenLookup(t: Tables, k: Keys, guildId: int, code: string, storage: string, now: int, ivInner: Bytes, ivOuter: Bytes)
    requires Sound(k.prims) && |ivInner| == BlockSize && |ivOuter| == BlockSize
    requires LookupVault(t, k, guildId, code).Absent?
    ensures LookupVault(CreateVaultSpec(t, k, guildId, code, storage, now, ivInner, ivOuter), k, guildId, code)
      == Found(Vault(t.vaultSeq + 1, code, guildId, Normalize(storage), LineCount(Normalize(storage)), now, now))
  {
    var v := NewVault(k, t.vaultSeq + 1, guildId, code, storage, now, ivInner, ivOuter);
    var r := CreateVaultSpec(t, k, guildId, code, storage, now, ivInner, ivOuter);
    assert r.vaults == t.vaults + [v];
    assert First(t.vaults, VaultByCode(code, guildId)).None?;
    FirstAppend(t.vaults, v, VaultByCode(code, guildId));
    NewVaultStored(k, t.vaultSeq + 1, guildId, code, storage, now, ivInner, ivOuter);
    assert r.vaults[|t.vaults|] == v;
  }

  /** The inserted row decrypts to the normalised text and counts its lines. */
  lemma {:induction false} NewVaultStored(k: Keys, id: int, guildId: int, code: string, storage: string, now: int, ivInner: Bytes, ivOuter: Bytes)
    requires Sound(k.prims) && |ivInner| == BlockSize && |ivOuter| == BlockSize
    ensures var v := NewVault(k, id, guildId, code, storage, now, ivInner, ivOuter);
      DecryptStorage(k, v.storage) == Some(Normalize(storage)) && Consistent(k, v)
  {
    DecryptEncryptStorage(k, ivInner, ivOuter, Normalize(storage));
  }

  /** The rewritten row decrypts to the normalised text and counts its lines. */
  lemma {:induction false} RewrittenStored(v: Vault, k: Keys, storage: string, now: int, ivInner: Bytes, ivOuter: Bytes)
    requires Sound(k.prims) && |ivInner| == BlockSize && |ivOuter| == BlockSize
    ensures var w := Rewritten(v, k, storage, now, ivInner, ivOuter);
      DecryptStorage(k, w.storage) == Some(Normalize(storage)) && Consistent(k, w)
  {
    DecryptEncryptStorage(k, ivInner, ivOuter, Normalize(storage));
  }

  /** After `update_vault` on the vault `get_vault` finds, it finds the same vault with the new text, length and time. */
  lemma {:induction false} UpdateThenLookup(t: Tables, k: Keys, guildId: int, code: string, storage: string, now: int, ivInner: Bytes, ivOuter: Bytes, i: nat)
    requires TablesValid(t, k) && |ivInner| == BlockSize && |ivOuter| == BlockSize
    requires First(t.vaults, VaultByCode(code, guildId)) == Some(i)
    ensures LookupVault(StoreText(t, k, t.vaults[i].id, storage, now, ivInner, ivOuter), k, guildId, code)
      == Found(t.vaults[i].(storage := Normalize(storage), length := LineCount(Normalize(storage)), updatedAt := now))
  {
    var r := StoreText(t, k, t.vaults[i].id, storage, now, ivInner, ivOuter);
    FirstKept(t.vaults, r.vaults, VaultByCode(code, guildId));
    StoreTextAt(t, k, i, storage, now, ivInner, ivOuter);
    DecryptEncryptStorage(k, ivInner, ivOuter, Normalize(storage));
  }

  lemma {:induction false} CreateVaultKeepsValid(t: Tables, k: Keys, guildId: int, code: string, storage: string, now: int, ivInner: Bytes, ivOuter: Bytes)
    requires TablesValid(t, k) && |ivInner| == BlockSize && |ivOuter| == BlockSize
    ensures TablesValid(CreateVaultSpec(t, k, guildId, code, storage, now, ivInner, ivOuter), k)
  {
    var v := NewVault(k, t.vaultSeq + 1, guildId, code, storage, now, ivInner, ivOuter);
    NewVaultStored(k, t.vaultSeq + 1, guildId, code, storage, now, ivInner, ivOuter);
    AppendAscending(t.vaults, v, VaultId);
    var r := CreateVaultSpec(t, k, guildId, code, storage, now, ivInner, ivOuter);
    forall w | w in r.vaults ensures w.id <= r.vaultSeq && Consistent(k, w) {
      if w != v {
        assert w in t.vaults;
      }
    }
  }

  /** `update_vault` keeps the invariant: the rewritten rows decrypt to a stored text whose lines they count. */
  lemma {:induction false} StoreTextKeepsValid(t: Tables, k: Keys, id: int, storage: string, now: int, ivInner: Bytes, ivOuter: Bytes)
    requires TablesValid(t, k) && |ivInner| == BlockSize && |ivOuter| == BlockSize
    ensures TablesValid(StoreText(t, k, id, storage, now, ivInner, ivOuter), k)
  {
    var r := StoreText(t, k, id, storage, now, ivInner, ivOuter);
    forall v | v in r.vaults ensures v.id <= r.vaultSeq && Consistent(k, v) {
      var i :| 0 <= i < |r.vaults| && r.vaults[i] == v;
      assert t.vaults[i] in t.vaults;
      RewriteRowsAt(t.vaults, k, id, storage, now, ivInner, ivOuter, i);
      if t.vaults[i].id == id {
        RewrittenStored(t.vaults[i], k, storage, now, ivInner, ivOuter);
      }
    }
    assert Ascending(r.vaults, VaultId);
  }

  // ---------------------------------------------------------------- remove_vault

  function MessageOf(c: Card): Message
  {
    Message(c.channelId, c.messageId)
  }

  /** The messages collected from the cards, in the same order. */
  function Messages(cards: seq<Card>): (r: seq<Message>)
    ensures |r| == |cards|
  {
    seq(|cards|, i requires 0 <= i < |cards| => MessageOf(cards[i]))
  }

  function CardIds(cards: seq<Card>): set<int>
  {
    set c | c in cards :: c.id
  }

  /** The message list `remove_vault` returns and the tables it leaves. */
  datatype Removal = Removal(messages: seq<Message>, tables: Tables)

  /**
    `remove_vault`: delete the vault, delete the claims of its cards while
    collecting their messages in rowid order, then delete the cards.
  */
  function RemoveVaultSpec(t: Tables, id: int): (r: Removal)
  {
    var doomed := Filter(t.cards, CardOfVault(id));
    Removal(
      Messages(doomed),
      t.(vaults := Filter(t.vaults, VaultOther(id)),
         cards := Filter(t.cards, CardNotOfVault(id)),
         claims := t.claims - CardIds(doomed)))
  }

  /**
    Afterwards no row of the vault, of its cards or of their claims remains,
    every other row does, and every removed card's message is reported.
  */
  lemma {:induction false} RemoveVaultEffects(t: Tables, id: int)
    ensures var r := RemoveVaultSpec(t, id);
      && (forall v :: v in r.tables.vaults <==> v in t.vaults && v.id != id)
      && (forall c :: c in r.tables.cards <==> c in t.cards && c.vaultId != id)
      && (forall c :: c in t.cards && c.vaultId == id ==> c.id !in r.tables.claims && MessageOf(c) in r.messages)
      && (forall cid :: cid in r.tables.claims <==> cid in t.claims && cid !in CardIds(Filter(t.cards, CardOfVault(id))))
      && (forall cid :: cid in r.tables.claims ==> r.tables.claims[cid] == t.claims[cid])
      && (forall m :: m in r.messages ==> exists c :: c in t.cards && c.vaultId == id && m == MessageOf(c))
      && r.tables.guilds == t.guilds && r.tables.vaultSeq == t.vaultSeq && r.tables.cardSeq == t.cardSeq
  {
    var doomed := Filter(t.cards, CardOfVault(id));
    var r := RemoveVaultSpec(t, id);
    forall c | c in t.cards && c.vaultId == id ensures MessageOf(c) in r.messages {
      var i :| 0 <= i < |doomed| && doomed[i] == c;
      assert r.messages[i] == MessageOf(c);
    }
    forall m | m in r.messages ensures exists c :: c in t.cards && c.vaultId == id && m == MessageOf(c) {
      var i :| 0 <= i < |r.messages| && r.messages[i] == m;
      assert doomed[i] in doomed;
    }
  }

  lemma {:induction false} RemoveVaultKeepsValid(t: Tables, k: Keys, id: int)
    requires TablesValid(t, k)
    ensures TablesValid(RemoveVaultSpec(t, id).tables, k)
  {
    FilterAscending(t.vaults, VaultOther(id), VaultId);
    FilterAscending(t.cards, CardNotOfVault(id), CardId);
  }

  /** When `get_vault` meets a vault that does not decrypt it removes it, so the next lookup no longer meets that row. */
  lemma {:induction false} CorruptVaultRemoved(t: Tables, k: Keys, guildId: int, code: string)
    requires TablesValid(t, k)
    requires LookupVault(t, k, guildId, code).Corrupt?
    ensures var id := LookupVault(t, k, guildId, code).id;
      forall v :: v in RemoveVaultSpec(t, id).tables.vaults ==> v.id != id
    ensures |RemoveVaultSpec(t, LookupVault(t, k, guildId, code).id).tables.vaults| < |t.vaults|
  {
    var i := First(t.vaults, VaultByCode(code, guildId)).value;
    RemoveVaultEffects(t, t.vaults[i].id);
    FilterShrinks(t.vaults, VaultOther(t.vaults[i].id), i);
  }

  /** Filtering out a row that is there makes the sequence shorter. */
  lemma {:induction false} FilterShrinks<T(!new)>(rows: seq<T>, keep: T -> bool, i: nat)
    requires i < |rows| && !keep(rows[i])
    ensures |Filter(rows, keep)| < |rows|
    decreases |rows|
  {
    if i > 0 {
      FilterShrinks(rows[1..], keep, i - 1);
    }
  }

  // ---------------------------------------------------------------- cards

  /** `create_card`: the row is appended under the next AUTOINCREMENT id, in the current guild. */
  function CreateCardSpec(t: Tables, guildId: int, vault: Vault, channelId: int, messageId: int, roleId: int, maxLines: int, timeout: int, now: int): (r: Tables)
  {
    var id := t.cardSeq + 1;
    t.(cards := t.cards + [Card(id, vault.id, guildId, channelId, messageId, roleId, maxLines, timeout, now)], cardSeq := id)
  }

  /** `get_card`: the first card posted as the message, in any guild. */
  function CardLookup(t: Tables, messageId: int): (r: Option<Card>)
    ensures r.Some? ==> r.value in t.cards && r.value.messageId == messageId
    ensures r.None? <==> forall c :: c in t.cards ==> c.messageId != messageId
    ensures r.Some? ==> exists i :: (0 <= i < |t.cards| && t.cards[i] == r.value
      && forall j :: 0 <= j < i ==> t.cards[j].messageId != messageId)
  {
    match First(t.cards, CardByMessage(messageId))
    case None => None
    case Some(i) => Some(t.cards[i])
  }

  /** `remove_card`: delete the card row and the claim kept under its id. */
  function RemoveCardSpec(t: Tables, cardId: int): (r: Tables)
  {
    t.(cards := Filter(t.cards, CardOther(cardId)), claims := t.claims - {cardId})
  }

  /** After `create_card`, `get_card` on its message returns it, unless an older card has that message. */
  lemma {:induction false} CreateThenCardLookup(t: Tables, guildId: int, vault: Vault, channelId: int, messageId: int, roleId: int, maxLines: int, timeout: int, now: int)
    requires CardLookup(t, messageId).None?
    ensures CardLookup(CreateCardSpec(t, guildId, vault, channelId, messageId, roleId, maxLines, timeout, now), messageId)
      == Some(Card(t.cardSeq + 1, vault.id, guildId, channelId, messageId, roleId, maxLines, timeout, now))
  {
    var r := CreateCardSpec(t, guildId, vault, channelId, messageId, roleId, maxLines, timeout, now);
    assert r.cards[|t.cards|].messageId == messageId;
    assert First(r.cards, CardByMessage(messageId)) == Some(|t.cards|);
  }

  lemma {:induction false} CreateCardKeepsValid(t: Tables, k: Keys, guildId: int, vault: Vault, channelId: int, messageId: int, roleId: int, maxLines: int, timeout: int, now: int)
    requires TablesValid(t, k)
    ensures TablesValid(CreateCardSpec(t, guildId, vault, channelId, messageId, roleId, maxLines, timeout, now), k)
  {
    var c := Card(t.cardSeq + 1, vault.id, guildId, channelId, messageId, roleId, maxLines, timeout, now);
    AppendAscending(t.cards, c, CardId);
  }

  /** After `remove_card` no lookup returns the card, nobody holds a claim on it, and every other card stays. */
  lemma {:induction false} RemoveCardEffects(t: Tables, k: Keys, cardId: int, messageId: int)
    requires TablesValid(t, k)
    ensures var r := RemoveCardSpec(t, cardId);
      && (CardLookup(r, messageId).Some? ==> CardLookup(r, messageId).value.id != cardId)
      && cardId !in r.claims
      && (forall c :: c in r.cards <==> c in t.cards && c.id != cardId)
      && (forall id :: id in t.claims && id != cardId ==> id in r.claims && r.claims[id] == t.claims[id])
      && r.claims.Keys == t.claims.Keys - {cardId}
      && r.vaults == t.vaults && r.guilds == t.guilds && r.vaultSeq == t.vaultSeq && r.cardSeq == t.cardSeq
      && TablesValid(r, k)
  {
    FilterAscending(t.cards, CardOther(cardId), CardId);
  }

  // ---------------------------------------------------------------- claim

  /**
    `get_claimer`: the claim row of this member on this card, if any. The
    table is keyed by `card_id`, so the row can only be the one under the
    card's id.
  */
  function ClaimerOf(claims: map<int, Claim>, memberId: int, cardId: int): (r: Option<Claim>)
    ensures r.Some? <==> cardId in claims && claims[cardId].memberId == memberId
    ensures r.Some? ==> r.value == claims[cardId]
  {
    if cardId in claims && claims[cardId].memberId == memberId then Some(claims[cardId]) else None
  }

  /**
    Under the invariant, `get_claimer` answers `SELECT … WHERE member_id = ?
    AND card_id = ?`: a row comes back exactly when some claim row has this
    member and this card, and the row returned is such a row.
  */
  lemma {:induction false} ClaimerMatchesWhere(t: Tables, k: Keys, memberId: int, cardId: int)
    requires TablesValid(t, k)
    ensures var r := ClaimerOf(t.claims, memberId, cardId);
      && (r.Some? <==> exists id :: id in t.claims && t.claims[id].memberId == memberId && t.claims[id].cardId == cardId)
      && (r.Some? ==> r.value in t.claims.Values && r.value.memberId == memberId && r.value.cardId == cardId)
  {
  }

  /**
    The seconds still to wait: the card's timeout less the `seconds` field of
    the `timedelta` since the last claim, which counts only the part of the
    elapsed time within its last day, and never below zero.
  */
  function Cooldown(timeout: int, now: int, claimTime: int): (r: int)
    ensures r >= 0 && r <= if timeout < 0 then 0 else timeout
    ensures r == 0 <==> timeout <= (now - claimTime) % 86400
  {
    var elapsed := (now - claimTime) % 86400;
    if timeout - elapsed > 0 then timeout - elapsed else 0
  }

  /** A timeout of a day or more never runs out. */
  lemma {:induction false} CooldownNeverEnds(timeout: int, now: int, claimTime: int)
    requires timeout >= 86400
    ensures Cooldown(timeout, now, claimTime) > 0
  {
  }

  /** Within the first day after a claim the wait is exactly what is left of the timeout. */
  lemma {:induction false} CooldownWithinDay(timeout: int, now: int, claimTime: int)
    requires claimTime <= now < claimTime + 86400
    ensures Cooldown(timeout, now, claimTime) == if timeout > now - claimTime then timeout - (now - claimTime) else 0
  {
  }

  /** A day and thirty seconds after a claim, a sixty-second timeout still has thirty seconds to run. */
  lemma {:induction false} CooldownWrapsAfterDay()
    ensures Cooldown(60, 86400 + 30, 0) == 30
  {
  }

  /** `UPDATE claims SET claim_time = ? WHERE member_id = ? AND card_id = ? AND guild_id = ?`. */
  function Touch(claims: map<int, Claim>, memberId: int, cardId: int, guildId: int, now: int): (r: map<int, Claim>)
    ensures r.Keys == claims.Keys
    ensures forall id :: id in claims && id != cardId ==> r[id] == claims[id]
    ensures cardId in claims && claims[cardId].memberId == memberId && claims[cardId].guildId == guildId ==>
      r[cardId].claimTime == now && r[cardId] == claims[cardId].(claimTime := r[cardId].claimTime)
    ensures !(cardId in claims && claims[cardId].memberId == memberId && claims[cardId].guildId == guildId) ==> r == claims
  {
    if cardId in claims && claims[cardId].memberId == memberId && claims[cardId].guildId == guildId
    then claims[cardId := claims[cardId].(claimTime := now)]
    else claims
  }

  /** What `claim` returns or raises. */
  datatype ClaimResult =
    | Lines(lines: seq<string>)      // the claimed lines
    | WaitFor(seconds: int)          // the cool-down still running
    | VaultNotFound                  // Errors.VaultNotFound
    | VaultOverLimit(code: string)   // Errors.VaultOverLimit
    | ClaimConflict                  // the claims INSERT violates the card_id key

  datatype ClaimOutcome = ClaimOutcome(result: ClaimResult, tables: Tables)

  /**
    The writes of `claim` once it has decided to hand out lines: the vault
    `vaultId` gets the remaining text, then the member's claim row is
    refreshed (`refresh`) or inserted. The vault write is committed first, so
    when the INSERT fails because another member's claim is kept under this
    card, the lines are gone.
  */
  function Handout(t: Tables, k: Keys, guildId: int, memberId: int, card: Card, now: int, ivInner: Bytes, ivOuter: Bytes,
                   vaultId: int, d: Dequeued, refresh: bool): (o: ClaimOutcome)
    requires |ivInner| == BlockSize && |ivOuter| == BlockSize
    ensures o.tables.vaults == StoreText(t, k, vaultId, d.rest, now, ivInner, ivOuter).vaults
    ensures o.tables.guilds == t.guilds && o.tables.cards == t.cards
    ensures o.tables.vaultSeq == t.vaultSeq && o.tables.cardSeq == t.cardSeq
    ensures o.result == ClaimConflict || o.result == Lines(d.claimed)
    ensures o.result.ClaimConflict? <==> !refresh && card.id in t.claims
    ensures o.result.ClaimConflict? ==> o.tables.claims == t.claims
    ensures refresh ==> o.tables.claims == Touch(t.claims, memberId, card.id, guildId, now)
    ensures o.result.Lines? && !refresh ==> o.tables.claims == t.claims[card.id := Claim(card.id, guildId, memberId, now)]
  {
    var written := StoreText(t, k, vaultId, d.rest, now, ivInner, ivOuter);
    if refresh then
      ClaimOutcome(Lines(d.claimed), written.(claims := Touch(written.claims, memberId, card.id, guildId, now)))
    else if card.id in written.claims then
      ClaimOutcome(ClaimConflict, written)
    else
      ClaimOutcome(Lines(d.claimed), written.(claims := written.claims[card.id := Claim(card.id, guildId, memberId, now)]))
  }

  /**
    `claim(member_id, card)` in the guild `guildId` at time `now`: find the
    card's vault in this guild and decrypt it, check its cached length against
    `max_lines`, check the member's cool-down on this card, then hand out the
    first `max_lines` lines.
  */
  function ClaimSpec(t: Tables, k: Keys, guildId: int, memberId: int, card: Card, now: int, ivInner: Bytes, ivOuter: Bytes): (o: ClaimOutcome)
    requires |ivInner| == BlockSize && |ivOuter| == BlockSize
    ensures !(o.result.Lines? || o.result.ClaimConflict?) ==> o.tables == t
    ensures o.result.WaitFor? ==> 0 < o.result.seconds <= card.timeout
    ensures o.result.WaitFor? ==> ClaimerOf(t.claims, memberId, card.id).Some?
    ensures o.result.Lines? ==> card.id in o.tables.claims && o.tables.claims[card.id].memberId == memberId
    ensures o.result.Lines? && o.tables.claims[card.id].guildId == guildId ==> o.tables.claims[card.id].claimTime == now
    ensures o.result.ClaimConflict? ==> o.tables.claims == t.claims
  {
    match First(t.vaults, VaultInGuild(card.vaultId, guildId))
    case None => ClaimOutcome(VaultNotFound, t)
    case Some(i) =>
      var fetch := t.vaults[i];
      match DecryptStorage(k, fetch.storage)
      case None => ClaimOutcome(VaultNotFound, t)
      case Some(text) =>
        if !(fetch.length >= card.maxLines) then ClaimOutcome(VaultOverLimit(fetch.code), t)
        else
          var prior := ClaimerOf(t.claims, memberId, card.id);
          if prior.Some? && Cooldown(card.timeout, now, prior.value.claimTime) != 0 then
            ClaimOutcome(WaitFor(Cooldown(card.timeout, now, prior.value.claimTime)), t)
          else
            Handout(t, k, guildId, memberId, card, now, ivInner, ivOuter, fetch.id, Dequeue(text, card.maxLines), prior.Some?)
  }

  /** `update_vault` on a row's own id rewrites that row, since ids are unique. */
  lemma {:induction false} StoreTextAt(t: Tables, k: Keys, i: nat, storage: string, now: int, ivInner: Bytes, ivOuter: Bytes)
    requires Ascending(t.vaults, VaultId) && i < |t.vaults|
    requires |ivInner| == BlockSize && |ivOuter| == BlockSize
    ensures StoreText(t, k, t.vaults[i].id, storage, now, ivInner, ivOuter).vaults[i]
      == Rewritten(t.vaults[i], k, storage, now, ivInner, ivOuter)
  {
    RewriteRowsAt(t.vaults, k, t.vaults[i].id, storage, now, ivInner, ivOuter, i);
  }

  /**
    The INSERT fails exactly when the vault is there and long enough, the
    member holds no claim on the card and another member does.
  */
  lemma {:induction false} ClaimConflictWhen(t: Tables, k: Keys, guildId: int, memberId: int, card: Card, now: int, ivInner: Bytes, ivOuter: Bytes)
    requires |ivInner| == BlockSize && |ivOuter| == BlockSize
    ensures var o := ClaimSpec(t, k, guildId, memberId, card, now, ivInner, ivOuter);
      o.result.ClaimConflict? <==>
        exists i :: First(t.vaults, VaultInGuild(card.vaultId, guildId)) == Some(i)
          && DecryptStorage(k, t.vaults[i].storage).Some?
          && t.vaults[i].length >= card.maxLines
          && card.id in t.claims && t.claims[card.id].memberId != memberId
  {
    match First(t.vaults, VaultInGuild(card.vaultId, guildId))
    case None =>
    case Some(i) =>
  }

  /**
    The decision of `claim`: `VaultNotFound` exactly when the card's vault is
    not in this guild or does not decrypt, `VaultOverLimit` with the vault's
    code exactly when its cached length is below `max_lines`, and a wait
    exactly when the member holds the card's claim row and its cool-down has
    not run out.
  */
  lemma {:induction false} ClaimDecision(t: Tables, k: Keys, guildId: int, memberId: int, card: Card, now: int, ivInner: Bytes, ivOuter: Bytes)
    requires |ivInner| == BlockSize && |ivOuter| == BlockSize
    ensures var o := ClaimSpec(t, k, guildId, memberId, card, now, ivInner, ivOuter);
      var f := First(t.vaults, VaultInGuild(card.vaultId, guildId));
      && (o.result == VaultNotFound <==> f.None? || DecryptStorage(k, t.vaults[f.value].storage).None?)
      && (o.result.VaultOverLimit? <==>
            f.Some? && DecryptStorage(k, t.vaults[f.value].storage).Some? && t.vaults[f.value].length < card.maxLines)
      && (o.result.VaultOverLimit? ==> o.result.code == t.vaults[f.value].code)
      && (o.result.WaitFor? <==>
            && f.Some? && DecryptStorage(k, t.vaults[f.value].storage).Some? && t.vaults[f.value].length >= card.maxLines
            && ClaimerOf(t.claims, memberId, card.id).Some?
            && Cooldown(card.timeout, now, t.claims[card.id].claimTime) != 0)
      && (o.result.WaitFor? ==> o.result.seconds == Cooldown(card.timeout, now, t.claims[card.id].claimTime))
  {
    match First(t.vaults, VaultInGuild(card.vaultId, guildId))
    case None =>
    case Some(i) =>
      match DecryptStorage(k, t.vaults[i].storage)
      case None =>
      case Some(text) =>
  }

  /**
    Under the invariant, a successful claim hands out the first `max_lines`
    lines of the vault, each non-empty and without a newline, and leaves the
    rest re-normalised in the vault, whose length drops by at least
    `max_lines`; a conflicting claim loses those lines the same way.
  */
  lemma {:induction false} ClaimTakesFirstLines(t: Tables, k: Keys, guildId: int, memberId: int, card: Card, now: int, ivInner: Bytes, ivOuter: Bytes, i: nat, text: string)
    requires TablesValid(t, k) && |ivInner| == BlockSize && |ivOuter| == BlockSize
    requires First(t.vaults, VaultInGuild(card.vaultId, guildId)) == Some(i)
    requires DecryptStorage(k, t.vaults[i].storage) == Some(text)
    requires 0 <= card.maxLines
    ensures var o := ClaimSpec(t, k, guildId, memberId, card, now, ivInner, ivOuter);
      o.result.Lines? || o.result.ClaimConflict? ==>
        && DecryptStorage(k, o.tables.vaults[i].storage) == Some(Normalize(Join(Split(text)[card.maxLines..])))
        && o.tables.vaults[i].length <= t.vaults[i].length - card.maxLines
    ensures var o := ClaimSpec(t, k, guildId, memberId, card, now, ivInner, ivOuter);
      o.result.Lines? ==>
        && o.result.lines == Split(text)[..card.maxLines]
        && |o.result.lines| == card.maxLines
        && forall j :: 0 <= j < |o.result.lines| ==> |o.result.lines[j]| > 0 && '\n' !in o.result.lines[j]
  {
    var o := ClaimSpec(t, k, guildId, memberId, card, now, ivInner, ivOuter);
    if o.result.Lines? || o.result.ClaimConflict? {
      var v := t.vaults[i];
      assert v in t.vaults;
      assert Normal(text) && v.length == LineCount(text);
      var d := Dequeue(text, card.maxLines);
      DequeueTakesFirstLines(text, card.maxLines);
      StoreTextAt(t, k, i, d.rest, now, ivInner, ivOuter);
      RewrittenStored(v, k, d.rest, now, ivInner, ivOuter);
    }
  }

  /**
    Under the invariant, a negative `max_lines` passes the length check, and a
    successful claim hands out every line of the vault but the last
    `-max_lines`, as the Python slice `storage[:max_lines]` does.
  */
  lemma {:induction false} ClaimNegativeLimit(t: Tables, k: Keys, guildId: int, memberId: int, card: Card, now: int, ivInner: Bytes, ivOuter: Bytes, i: nat, text: string)
    requires TablesValid(t, k) && |ivInner| == BlockSize && |ivOuter| == BlockSize
    requires First(t.vaults, VaultInGuild(card.vaultId, guildId)) == Some(i)
    requires DecryptStorage(k, t.vaults[i].storage) == Some(text)
    requires card.maxLines < 0
    ensures var o := ClaimSpec(t, k, guildId, memberId, card, now, ivInner, ivOuter);
      !o.result.VaultOverLimit? && !o.result.VaultNotFound?
    ensures var o := ClaimSpec(t, k, guildId, memberId, card, now, ivInner, ivOuter);
      var lines := Split(text);
      o.result.Lines? ==>
        o.result.lines == lines[..if |lines| + card.maxLines < 0 then 0 else |lines| + card.maxLines]
  {
    assert t.vaults[i] in t.vaults;
    ClaimDecision(t, k, guildId, memberId, card, now, ivInner, ivOuter);
    ClaimedLines(t, k, guildId, memberId, card, now, ivInner, ivOuter, i, text);
    DequeueNegativeLimit(text, card.maxLines);
  }

  /** Any lines `claim` hands out are the claimed part of the dequeue of the vault's decrypted text. */
  lemma {:induction false} ClaimedLines(t: Tables, k: Keys, guildId: int, memberId: int, card: Card, now: int, ivInner: Bytes, ivOuter: Bytes, i: nat, text: string)
    requires |ivInner| == BlockSize && |ivOuter| == BlockSize
    requires First(t.vaults, VaultInGuild(card.vaultId, guildId)) == Some(i)
    requires DecryptStorage(k, t.vaults[i].storage) == Some(text)
    ensures var o := ClaimSpec(t, k, guildId, memberId, card, now, ivInner, ivOuter);
      o.result.Lines? ==> o.result.lines == Dequeue(text, card.maxLines).claimed
  {
  }

  /** `claim` keeps the invariant, whatever its outcome. */
  lemma {:induction false} ClaimKeepsValid(t: Tables, k: Keys, guildId: int, memberId: int, card: Card, now: int, ivInner: Bytes, ivOuter: Bytes)
    requires TablesValid(t, k) && |ivInner| == BlockSize && |ivOuter| == BlockSize
    ensures TablesValid(ClaimSpec(t, k, guildId, memberId, card, now, ivInner, ivOuter).tables, k)
  {
    match First(t.vaults, VaultInGuild(card.vaultId, guildId))
    case None =>
    case Some(i) =>
      match DecryptStorage(k, t.vaults[i].storage)
      case None =>
      case Some(text) =>
        var prior := ClaimerOf(t.claims, memberId, card.id);
        if t.vaults[i].length >= card.maxLines && !(prior.Some? && Cooldown(card.timeout, now, prior.value.claimTime) != 0) {
          HandoutKeepsValid(t, k, guildId, memberId, card, now, ivInner, ivOuter, t.vaults[i].id,
            Dequeue(text, card.maxLines), prior.Some?);
        }
  }

  lemma {:induction false} HandoutKeepsValid(t: Tables, k: Keys, guildId: int, memberId: int, card: Card, now: int, ivInner: Bytes, ivOuter: Bytes,
                          vaultId: int, d: Dequeued, refresh: bool)
    requires TablesValid(t, k) && |ivInner| == BlockSize && |ivOuter| == BlockSize
    ensures TablesValid(Handout(t, k, guildId, memberId, card, now, ivInner, ivOuter, vaultId, d, refresh).tables, k)
  {
    StoreTextKeepsValid(t, k, vaultId, d.rest, now, ivInner, ivOuter);
    var written := StoreText(t, k, vaultId, d.rest, now, ivInner, ivOuter);
    var o := Handout(t, k, guildId, memberId, card, now, ivInner, ivOuter, vaultId, d, refresh);
    assert o.tables == written.(claims := o.tables.claims);
  }

  /**
    A member who has just claimed from a card and asks again before its
    timeout, within the day, is told to wait for what is left of it (or that
    the vault has too few lines); they get no lines.
  */
  lemma {:induction false} SecondClaimWaits(t: Tables, k: Keys, guildId: int, memberId: int, card: Card, now: int, ivInner: Bytes, ivOuter: Bytes, later: int)
    requires TablesValid(t, k) && |ivInner| == BlockSize && |ivOuter| == BlockSize
    requires card.id in t.claims ==> t.claims[card.id].guildId == guildId
    requires now <= later < now + card.timeout && later < now + 86400
    ensures var first := ClaimSpec(t, k, guildId, memberId, card, now, ivInner, ivOuter);
      first.result.Lines? ==>
        var second := ClaimSpec(first.tables, k, guildId, memberId, card, later, ivInner, ivOuter);
        second.tables == first.tables
        && (second.result == WaitFor(card.timeout - (later - now)) || second.result.VaultOverLimit?)
  {
    match First(t.vaults, VaultInGuild(card.vaultId, guildId))
    case None =>
    case Some(i) =>
      match DecryptStorage(k, t.vaults[i].storage)
      case None =>
      case Some(text) =>
        var prior := ClaimerOf(t.claims, memberId, card.id);
        if t.vaults[i].length >= card.maxLines && !(prior.Some? && Cooldown(card.timeout, now, prior.value.claimTime) != 0) {
          SecondAfterHandout(t, k, guildId, memberId, card, now, ivInner, ivOuter, i, Dequeue(text, card.maxLines), prior.Some?, later);
        }
  }

  /** The second claim, once the first has handed out lines from the vault at index `i`. */
  lemma {:induction false} SecondAfterHandout(t: Tables, k: Keys, guildId: int, memberId: int, card: Card, now: int, ivInner: Bytes, ivOuter: Bytes,
                          i: nat, d: Dequeued, refresh: bool, later: int)
    requires TablesValid(t, k) && |ivInner| == BlockSize && |ivOuter| == BlockSize
    requires First(t.vaults, VaultInGuild(card.vaultId, guildId)) == Some(i)
    requires card.id in t.claims ==> t.claims[card.id].guildId == guildId
    requires refresh ==> ClaimerOf(t.claims, memberId, card.id).Some?
    requires now <= later < now + card.timeout && later < now + 86400
    ensures var first := Handout(t, k, guildId, memberId, card, now, ivInner, ivOuter, t.vaults[i].id, d, refresh);
      first.result.Lines? ==>
        var second := ClaimSpec(first.tables, k, guildId, memberId, card, later, ivInner, ivOuter);
        second.tables == first.tables
        && (second.result == WaitFor(card.timeout - (later - now)) || second.result.VaultOverLimit?)
  {
    var o := Handout(t, k, guildId, memberId, card, now, ivInner, ivOuter, t.vaults[i].id, d, refresh);
    if o.result.Lines? {
      HandoutRecorded(t, k, guildId, memberId, card, now, ivInner, ivOuter, i, d, refresh);
      CoolingAfterClaim(o.tables, k, guildId, memberId, card, now, ivInner, ivOuter, i, later);
    }
  }

  /** Tables in which the member's claim on the card is dated `now` answer a claim at `later`, within the timeout and the day, with the wait. */
  lemma {:induction false} CoolingAfterClaim(t: Tables, k: Keys, guildId: int, memberId: int, card: Card, now: int, ivInner: Bytes, ivOuter: Bytes,
                         i: nat, later: int)
    requires |ivInner| == BlockSize && |ivOuter| == BlockSize
    requires First(t.vaults, VaultInGuild(card.vaultId, guildId)) == Some(i)
    requires DecryptStorage(k, t.vaults[i].storage).Some?
    requires ClaimerOf(t.claims, memberId, card.id) == Some(Claim(card.id, guildId, memberId, now))
    requires now <= later < now + card.timeout && later < now + 86400
    ensures var second := ClaimSpec(t, k, guildId, memberId, card, later, ivInner, ivOuter);
      second.tables == t
      && (second.result == WaitFor(card.timeout - (later - now)) || second.result.VaultOverLimit?)
  {
    CooldownWithinDay(card.timeout, later, now);
    WaitsWhileCooling(t, k, guildId, memberId, card, later, ivInner, ivOuter, i);
  }

  /** After lines are handed out, the same vault is found again, it still decrypts, and the member's claim is dated `now`. */
  lemma {:induction false} HandoutRecorded(t: Tables, k: Keys, guildId: int, memberId: int, card: Card, now: int, ivInner: Bytes, ivOuter: Bytes,
                        i: nat, d: Dequeued, refresh: bool)
    requires TablesValid(t, k) && |ivInner| == BlockSize && |ivOuter| == BlockSize
    requires First(t.vaults, VaultInGuild(card.vaultId, guildId)) == Some(i)
    requires card.id in t.claims ==> t.claims[card.id].guildId == guildId
    requires refresh ==> ClaimerOf(t.claims, memberId, card.id).Some?
    requires Handout(t, k, guildId, memberId, card, now, ivInner, ivOuter, t.vaults[i].id, d, refresh).result.Lines?
    ensures var r := Handout(t, k, guildId, memberId, card, now, ivInner, ivOuter, t.vaults[i].id, d, refresh).tables;
      && First(r.vaults, VaultInGuild(card.vaultId, guildId)) == Some(i)
      && DecryptStorage(k, r.vaults[i].storage).Some?
      && ClaimerOf(r.claims, memberId, card.id) == Some(Claim(card.id, guildId, memberId, now))
  {
    var o := Handout(t, k, guildId, memberId, card, now, ivInner, ivOuter, t.vaults[i].id, d, refresh);
    var written := StoreText(t, k, t.vaults[i].id, d.rest, now, ivInner, ivOuter);
    FirstKept(t.vaults, written.vaults, VaultInGuild(card.vaultId, guildId));
    StoreTextAt(t, k, i, d.rest, now, ivInner, ivOuter);
    RewrittenStored(t.vaults[i], k, d.rest, now, ivInner, ivOuter);
    assert o.tables.claims[card.id] == Claim(card.id, guildId, memberId, now);
  }

  /** While the member's cool-down runs, `claim` changes nothing and reports the wait, or the short vault. */
  lemma {:induction false} WaitsWhileCooling(t: Tables, k: Keys, guildId: int, memberId: int, card: Card, now: int, ivInner: Bytes, ivOuter: Bytes, i: nat)
    requires |ivInner| == BlockSize && |ivOuter| == BlockSize
    requires First(t.vaults, VaultInGuild(card.vaultId, guildId)) == Some(i)
    requires DecryptStorage(k, t.vaults[i].storage).Some?
    requires ClaimerOf(t.claims, memberId, card.id).Some?
    requires Cooldown(card.timeout, now, t.claims[card.id].claimTime) != 0
    ensures ClaimSpec(t, k, guildId, memberId, card, now, ivInner, ivOuter) == ClaimOutcome(
      if t.vaults[i].length >= card.maxLines then WaitFor(Cooldown(card.timeout, now, t.claims[card.id].claimTime))
      else VaultOverLimit(t.vaults[i].code), t)
  {
  }
}
