/**
  The `Database` class of core/models/database.py: one guild's connection to
  the bot's tables. Its fields are the tables themselves (see module Tables);
  each method changes them as its queries do, and is proved to leave exactly
  the tables the matching function of module Store describes.
*/
module Models {
  import opened Wrappers
  import opened PyStr
  import opened VaultText
  import opened Utils
  import opened Tables
  import opened Store

  class Database {
    const guildId: int
    const ownerId: int
    const secretKey: string
    /** The cipher libraries `encrypt_storage` and `decrypt_storage` reach through `encrypt` and `decrypt`. */
    const prims: Primitives

    /** `self.guild`, read by `__aenter__` through `get_guild`. */
    var guild: Guild
    var guilds: map<int, Guild>
    var vaults: seq<Vault>
    var cards: seq<Card>
    var claims: map<int, Claim>
    var vaultSeq: int
    var cardSeq: int

    /** The keys of the two storage layers: `str(owner_id)` inside, the secret key outside. */
    function Cipher(): Keys
    {
      KeysFor(prims, ownerId, secretKey)
    }

    /** The tables as the functions of module Store see them. */
    function State(): Tables
      reads this
    {
      Tables(guilds, vaults, cards, claims, vaultSeq, cardSeq)
    }

    /** The table invariant, and `self.guild` is the stored row of this guild. */
    ghost predicate Valid()
      reads this
    {
      && TablesValid(State(), Cipher())
      && guild.id == guildId && guildId in guilds && guilds[guildId] == guild
    }

    /** `__init__` followed by `__aenter__`: open the stored tables and fetch or create this guild's row. */
    constructor Open(guildId: int, ownerId: int, secretKey: string, prims: Primitives, stored: Tables, now: int)
      requires TablesValid(stored, KeysFor(prims, ownerId, secretKey))
      ensures Valid()
      ensures this.guildId == guildId && this.ownerId == ownerId && this.secretKey == secretKey && this.prims == prims
      ensures State() == EnsureGuild(stored, guildId, now)
      ensures guild == GuildRow(stored, guildId, now)
    {
      this.guildId, this.ownerId, this.secretKey, this.prims := guildId, ownerId, secretKey, prims;
      guild := Guild(guildId, now);
      guilds, vaults, cards, claims := stored.guilds, stored.vaults, stored.cards, stored.claims;
      vaultSeq, cardSeq := stored.vaultSeq, stored.cardSeq;
      new;
      guild := GetGuild(guildId, now);
    }

    /** `get_guild`: the guild's row, inserted with the current time when missing. */
    method GetGuild(id: int, now: int) returns (g: Guild)
      requires TablesValid(State(), Cipher())
      modifies this
      ensures g == GuildRow(old(State()), id, now) && g.id == id
      ensures State() == EnsureGuild(old(State()), id, now)
      ensures guild == old(guild)
      ensures TablesValid(State(), Cipher())
    {
      if id in guilds {
        g := guilds[id];
      } else {
        g := Guild(id, now);
        guilds := guilds[id := g];
      }
      GetGuildStable(old(State()), Cipher(), id, now, now);
    }

    /**
      `get_vault`: the first vault of this guild with the code, its storage
      decrypted; a vault whose storage does not decrypt is removed.
    */
    method GetVault(code: string) returns (r: Option<Vault>)
      requires Valid()
      modifies this
      ensures Valid() && guild == old(guild)
      ensures match LookupVault(old(State()), Cipher(), guildId, code)
        case Absent => r.None? && State() == old(State())
        case Corrupt(id) => r.None? && State() == RemoveVaultSpec(old(State()), id).tables
        case Found(v) => r == Some(v) && State() == old(State())
    {
      match First(vaults, VaultByCode(code, guild.id))
      case None =>
        r := None;
      case Some(i) =>
        var fetch := vaults[i];
        match DecryptStorage(Cipher(), fetch.storage)
        case None =>
          var _ := RemoveVault(fetch.id);
          r := None;
        case Some(text) =>
          r := Some(fetch.(storage := text));
    }

    /** `create_vault`: store the normalised text, encrypted, under the next id, with its line count. */
    method CreateVault(code: string, storage: string, now: int, ivInner: Bytes, ivOuter: Bytes)
      requires Valid() && |ivInner| == BlockSize && |ivOuter| == BlockSize
      modifies this
      ensures Valid() && guild == old(guild)
      ensures State() == CreateVaultSpec(old(State()), Cipher(), guildId, code, storage, now, ivInner, ivOuter)
    {
      var text := Normalize(storage);
      var id := vaultSeq + 1;
      vaults := vaults + [Vault(id, code, guild.id, EncryptStorage(Cipher(), ivInner, ivOuter, text), LineCount(text), now, now)];
      vaultSeq := id;
      CreateVaultKeepsValid(old(State()), Cipher(), guildId, code, storage, now, ivInner, ivOuter);
    }

    /** `update_vault`: give the vault the normalised text, encrypted, its line count and the time. */
    method UpdateVault(vaultId: int, storage: string, now: int, ivInner: Bytes, ivOuter: Bytes)
      requires Valid() && |ivInner| == BlockSize && |ivOuter| == BlockSize
      modifies this
      ensures Valid() && guild == old(guild)
      ensures State() == StoreText(old(State()), Cipher(), vaultId, storage, now, ivInner, ivOuter)
    {
      vaults := RewriteRows(vaults, Cipher(), vaultId, storage, now, ivInner, ivOuter);
      StoreTextKeepsValid(old(State()), Cipher(), vaultId, storage, now, ivInner, ivOuter);
    }

    /**
      `remove_vault`: delete the vault, then for each of its cards delete the
      card's claim and collect its message, then delete the cards.
    */
    method RemoveVault(vaultId: int) returns (messages: seq<Message>)
      requires Valid()
      modifies this
      ensures Valid() && guild == old(guild)
      ensures Removal(messages, State()) == RemoveVaultSpec(old(State()), vaultId)
    {
      vaults := Filter(vaults, VaultOther(vaultId));
      var fetch := Filter(cards, CardOfVault(vaultId));
      var kept;
      kept, messages := CollectMessages(fetch, claims);
      claims := kept;
      cards := Filter(cards, CardNotOfVault(vaultId));
      RemoveVaultKeepsValid(old(State()), Cipher(), vaultId);
    }

    /** `get_card`: the first card posted as the message, in any guild. */
    function GetCard(messageId: int): (r: Option<Card>)
      reads this
      ensures r.Some? ==> r.value in cards && r.value.messageId == messageId
      ensures r.None? <==> forall c :: c in cards ==> c.messageId != messageId
      ensures r.Some? ==> exists i :: (0 <= i < |cards| && cards[i] == r.value
        && forall j :: 0 <= j < i ==> cards[j].messageId != messageId)
    {
      CardLookup(State(), messageId)
    }

    /** `create_card`: a card on the vault in this guild, under the next id. */
    method CreateCard(vault: Vault, channelId: int, messageId: int, roleId: int, maxLines: int, timeout: int, now: int)
      requires Valid()
      modifies this
      ensures Valid() && guild == old(guild)
      ensures State() == CreateCardSpec(old(State()), guildId, vault, channelId, messageId, roleId, maxLines, timeout, now)
    {
      var id := cardSeq + 1;
      cards := cards + [Card(id, vault.id, guild.id, channelId, messageId, roleId, maxLines, timeout, now)];
      cardSeq := id;
      CreateCardKeepsValid(old(State()), Cipher(), guildId, vault, channelId, messageId, roleId, maxLines, timeout, now);
    }

    /** `remove_card`: delete the card, then the claim kept under its id. */
    method RemoveCard(card: Card)
      requires Valid()
      modifies this
      ensures Valid() && guild == old(guild)
      ensures State() == RemoveCardSpec(old(State()), card.id)
    {
      cards := Filter(cards, CardOther(card.id));
      claims := claims - {card.id};
      RemoveCardEffects(old(State()), Cipher(), card.id, card.messageId);
    }

    /** `get_cards`: every card of the guild, in rowid order. */
    function GetCards(guildId: int): (r: seq<Card>)
      requires Valid()
      reads this
      ensures forall c :: c in r <==> c in cards && c.guildId == guildId
      ensures Ascending(r, CardId)
    {
      FilterAscending(cards, CardOfGuild(guildId), CardId);
      Filter(cards, CardOfGuild(guildId))
    }

    /** `get_claimer`: the claim row with this member and this card, if there is one. */
    function GetClaimer(memberId: int, card: Card): (r: Option<Claim>)
      requires Valid()
      reads this
      ensures r.Some? <==> exists id :: id in claims && claims[id].memberId == memberId && claims[id].cardId == card.id
      ensures r.Some? ==> r.value in claims.Values && r.value.memberId == memberId && r.value.cardId == card.id
      ensures r == ClaimerOf(claims, memberId, card.id)
    {
      ClaimerMatchesWhere(State(), Cipher(), memberId, card.id);
      ClaimerOf(claims, memberId, card.id)
    }

    /**
      `claim`: find the card's vault in this guild and decrypt it, check its
      cached length and the member's cool-down, then write back the lines
      after the first `max_lines` and record the claim time.
    */
    method ClaimCard(memberId: int, card: Card, now: int, ivInner: Bytes, ivOuter: Bytes) returns (r: ClaimResult)
      requires Valid() && |ivInner| == BlockSize && |ivOuter| == BlockSize
      modifies this
      ensures Valid() && guild == old(guild)
      ensures ClaimOutcome(r, State()) == ClaimSpec(old(State()), Cipher(), guildId, memberId, card, now, ivInner, ivOuter)
    {
      ghost var t := State();
      var found := First(vaults, VaultInGuild(card.vaultId, guild.id));
      if found.None? {
        return VaultNotFound;
      }
      var fetch := vaults[found.value];
      var decrypted := DecryptStorage(Cipher(), fetch.storage);
      if decrypted.None? {
        return VaultNotFound;
      }
      if !(fetch.length >= card.maxLines) {
        return VaultOverLimit(fetch.code);
      }
      var prior := GetClaimer(memberId, card);
      if prior.Some? {
        var tm := Cooldown(card.timeout, now, prior.value.claimTime);
        if tm != 0 {
          return WaitFor(tm);
        }
      }
      ClaimHandsOut(t, Cipher(), guildId, memberId, card, now, ivInner, ivOuter, found.value, decrypted.value);
      r := HandOut(memberId, card, now, ivInner, ivOuter, fetch.id, decrypted.value, prior.Some?);
    }

    /**
      The writes of `claim`: the vault keeps the lines after the first
      `max_lines`, then the member's claim row is refreshed or inserted.
    */
    method HandOut(memberId: int, card: Card, now: int, ivInner: Bytes, ivOuter: Bytes, vaultId: int, text: string, refresh: bool)
      returns (r: ClaimResult)
      requires Valid() && |ivInner| == BlockSize && |ivOuter| == BlockSize
      modifies this
      ensures Valid() && guild == old(guild)
      ensures ClaimOutcome(r, State())
        == Handout(old(State()), Cipher(), guildId, memberId, card, now, ivInner, ivOuter, vaultId, Dequeue(text, card.maxLines), refresh)
    {
      HandoutKeepsValid(State(), Cipher(), guildId, memberId, card, now, ivInner, ivOuter, vaultId, Dequeue(text, card.maxLines), refresh);
      var storage := Split(Normalize(text));
      var claimed := SliceTo(storage, card.maxLines);
      UpdateVault(vaultId, Join(SliceFrom(storage, card.maxLines)), now, ivInner, ivOuter);
      if refresh {
        claims := Touch(claims, memberId, card.id, guild.id, now);
      } else if card.id in claims {
        return ClaimConflict;
      } else {
        claims := claims[card.id := Claim(card.id, guild.id, memberId, now)];
      }
      r := Lines(claimed);
    }
  }

  /** Past the lookup, length and cool-down checks, `claim` is the hand-out of the decrypted text's first lines. */
  lemma {:induction false} ClaimHandsOut(t: Tables, k: Keys, guildId: int, memberId: int, card: Card, now: int, ivInner: Bytes, ivOuter: Bytes, i: nat, text: string)
    requires |ivInner| == BlockSize && |ivOuter| == BlockSize
    requires First(t.vaults, VaultInGuild(card.vaultId, guildId)) == Some(i)
    requires DecryptStorage(k, t.vaults[i].storage) == Some(text)
    requires t.vaults[i].length >= card.maxLines
    requires var prior := ClaimerOf(t.claims, memberId, card.id);
      !(prior.Some? && Cooldown(card.timeout, now, prior.value.claimTime) != 0)
    ensures ClaimSpec(t, k, guildId, memberId, card, now, ivInner, ivOuter)
      == Handout(t, k, guildId, memberId, card, now, ivInner, ivOuter, t.vaults[i].id, Dequeue(text, card.maxLines),
                 ClaimerOf(t.claims, memberId, card.id).Some?)
  {
  }

  /** The loop of `remove_vault` over the vault's cards: drop each card's claim and collect its message. */
  method CollectMessages(fetch: seq<Card>, claims: map<int, Claim>) returns (kept: map<int, Claim>, messages: seq<Message>)
    ensures kept == claims - CardIds(fetch)
    ensures messages == Messages(fetch)
  {
    kept := claims;
    messages := [];
    var i := 0;
    while i < |fetch|
      invariant 0 <= i <= |fetch|
      invariant kept == claims - CardIds(fetch[..i])
      invariant messages == Messages(fetch[..i])
    {
      CollectStep(fetch, i);
      kept := kept - {fetch[i].id};
      messages := messages + [MessageOf(fetch[i])];
      i := i + 1;
    }
    assert fetch[..i] == fetch;
  }

  /** One more card of the removed vault: its id joins the deleted claims and its message the list. */
  lemma {:induction false} CollectStep(fetch: seq<Card>, i: nat)
    requires i < |fetch|
    ensures CardIds(fetch[..i + 1]) == CardIds(fetch[..i]) + {fetch[i].id}
    ensures Messages(fetch[..i + 1]) == Messages(fetch[..i]) + [MessageOf(fetch[i])]
  {
    assert fetch[..i + 1] == fetch[..i] + [fetch[i]];
  }
}
