# Claimify store and helpers, in Dafny

Claimify is a Discord bot that hands out lines of text from encrypted
"vaults". An administrator stores a text in a vault under a code and posts
"cards" that point at a vault. A member who claims from a card receives the
first `max_lines` lines of the vault, and those lines are removed from it.
A per-member, per-card cool-down then holds until the card's timeout has
passed.

This project models the bot's core:

- the `Database` class of `core/models/database.py`: its four SQLite tables
  (guilds, vaults, cards, claims), the two-layer storage cipher, and every
  query method;
- the helpers of `core/utils.py`: the block padding inside
  `encrypt`/`decrypt`, the duration parser `text_to_seconds` and the duration
  formatter `period`.

Modules, one per file:

- `wrappers.dfy` (`Wrappers`): the `Option` type.
- `pystr.dfy` (`PyStr`): the Python string operations the core relies on:
  - `strip`, `split("\n")`, `"\n".join`, `split()`, `int()` and `str()`;
  - `re.sub("\n+", "\n", …)`;
  - slice bounds.
- `vault_text.dfy` (`VaultText`): how a vault's text is stored:
  - normalisation (strip, then collapse runs of newlines);
  - the cached `length` column;
  - the dequeue of `claim`.
- `utils.dfy` (`Utils`): `core/utils.py`:
  - padding and unpadding;
  - `encrypt`/`decrypt` over abstract primitives;
  - `text_to_seconds`, an imperative loop proved against the recursive `Accumulate`;
  - `period`, imperative string building proved against `Phrase(PeriodParts(…))`.
- `tables.dfy` (`Tables`): the rows, the tables as one value, the storage
  cipher, `fetchone`/`fetchall` as `First`/`Filter`, and the invariant
  `TablesValid`.
- `store.dfy` (`Store`): each query as a function from the tables before to
  the result and the tables after. It also holds the lemmas that relate those
  functions: lookups after writes, cascades, the invariant, and the claim
  procedure.
- `models.dfy` (`Models`): the class `Database`. Its fields are the tables;
  its methods update them as the queries do. Each method is proved to leave
  exactly the tables the matching `Store` function describes, and to keep the
  invariant.

Tables are values:

- `vaults` and `cards` are sequences in rowid order. `fetchone` returns the
  first matching row, and `fetchall` the matching rows in order.
- `claims` is a map keyed by `card_id`, which is the table's PRIMARY KEY, so
  a card never holds two claim rows.
- `vaultSeq` and `cardSeq` are the AUTOINCREMENT counters.

The model keeps these behaviours of the source as they are:

- `claim` looks a claim up by member and card, but the row is keyed by the
  card alone. When another member already holds the card's row, the INSERT
  fails (`ClaimConflict`). By then the vault rewrite is committed, so the
  dequeued lines are lost.
- The cool-down uses `timedelta.seconds`, which is the elapsed time modulo
  one day. A timeout of a day or more therefore never ends, and a claim
  exactly one day later still waits.
- `claim` reports an undecryptable vault as `VaultNotFound` without removing
  it. `get_vault` removes such a vault.
- `claim` checks the cached `length` column, not a recount of the text.
- Whitespace-only lines inside a vault count as lines. After a dequeue the
  remainder is stripped again, so the new length can be lower than the old
  length minus `max_lines`.
- `max_lines` follows Python slice semantics for every integer, negative
  ones included: a negative limit hands out every line but the last
  `-max_lines` (`DequeueNegativeLimit`, `ClaimNegativeLimit`).
- The unpad check accepts any last byte `p` with `1 <= p <= len`, even
  `p > 16`.
- Vault codes are not unique. `get_vault` returns the first match.

The AES, SHA-256, UTF-8 and base64 libraries are abstract functions, fields
of `Primitives`. The round trips they provide are the predicate `Sound`,
which appears only as a hypothesis (`requires`). The random IVs and the
clock are parameters (`ivInner`, `ivOuter`, `now`, in whole seconds).

## Model

| member | source | states |
|---|---|---|
| PyStr.Strip | core/models/database.py:205 | `str.strip()` is a contiguous slice `s[lo..hi]` of the input with only whitespace before `lo` and from `hi` on, itself with no whitespace at either end, and is empty exactly when the input is all whitespace |
| PyStr.StripTrimmed | core/models/database.py:205 | stripping a string whose ends are not whitespace changes nothing |
| PyStr.StripNewlineCount | core/models/database.py:205 | stripping never adds a newline |
| PyStr.CollapseNewlines | core/models/database.py:205 | `sub("\n+", "\n", s)` leaves no two adjacent newlines, keeps the first and last character and the length bound, and leaves a text without such runs unchanged |
| PyStr.CollapseLines | core/models/database.py:205 | the lines of the collapsed text are the lines of `s` with every empty line strictly inside removed and all others kept, in order |
| PyStr.CollapseNewlineCount | core/models/database.py:205 | collapsing runs never adds a newline |
| PyStr.Split | core/models/database.py:211 | `split("\n")` yields at least one segment and no segment holds a newline |
| PyStr.SplitLength | core/models/database.py:211 | a text has one more segment than it has newlines |
| PyStr.JoinSplit | core/models/database.py:374-377 | joining the segments of a split gives the text back |
| PyStr.SplitJoin | core/models/database.py:374-377 | splitting newline-free lines joined by newlines gives the lines back |
| PyStr.JoinNewlineCount | core/models/database.py:377 | joining `n > 0` newline-free lines puts exactly `n - 1` newlines in the text |
| PyStr.Words | core/utils.py:80 | `split()` yields the pieces between whitespace characters with the empty pieces dropped, in order: non-empty tokens without whitespace, and none exactly when the text is all whitespace |
| PyStr.IntToString | core/utils.py:124 | `str(n)` in canonical form: a non-empty run of digits, led by a minus exactly when `n < 0`, with a leading `0` only for zero itself, which prints as `"0"` (no `007`, no `00`, no `-0`) |
| PyStr.ParseIntToString | core/utils.py:82 | `int(str(n)) == n` |
| PyStr.SliceIndex | core/models/database.py:375 | a Python slice bound `k` on length `n` is `k` inside `0..n`, `n` above it, and `n + k` clamped at 0 below 0 |
| VaultText.Normalize | core/models/database.py:205 | the stored text has no surrounding whitespace and no empty line, is empty exactly when the input is all whitespace, and otherwise its lines are the non-empty lines of the stripped input, in order |
| VaultText.NormalizeIdempotent | core/models/database.py:220 | normalising a stored text again changes nothing |
| VaultText.NormalizeNewlineCount | core/models/database.py:205 | normalising never adds a line break |
| VaultText.LineCount | core/models/database.py:211 | the `length` value is 0 exactly for the empty text |
| VaultText.LineCountNewlines | core/models/database.py:211 | for a non-empty text, `length` is its newline count plus one |
| VaultText.BlankHasNoLines | core/models/database.py:205-211 | all-blank input is stored as the empty text with length 0 |
| VaultText.SingleLine | core/models/database.py:205-211 | input with no newline and a visible character is stored with length 1 |
| VaultText.StoredLinesNonEmpty | core/models/database.py:374 | every line of a non-empty stored text is non-empty and newline-free, and `length` counts them |
| VaultText.RemainderLineCount | core/models/database.py:220-225 | rewriting the remaining lines never gives more lines than were left |
| VaultText.RemainderKeepsLines | core/models/database.py:220-225 | when the remainder is already normal, no line is lost on rewrite |
| VaultText.TrailingBlankLineDropped | core/models/database.py:220-225 | a whitespace-only last line of the remainder is dropped on rewrite |
| VaultText.DequeueNegativeLimit | core/models/database.py:374-377 | with a negative `max_lines`, every line but the last `-max_lines` is claimed (none when there are fewer) and those last lines are written back |
| VaultText.DequeueTakesFirstLines | core/models/database.py:374-377 | from a stored text with at least `max_lines` lines, the claimed lines are its first `max_lines` lines, non-empty and newline-free; the rest is written back in order, and the rewritten count drops by at least `max_lines` |
| Utils.Repeat | core/utils.py:47 | `bytes([b]) * n` is `n` copies of `b` |
| Utils.Pad | core/utils.py:46-47 | the padded length is a multiple of 16 and 1 to 16 bytes longer; the data is kept as the prefix, and every appended byte equals the number appended |
| Utils.UnpadAccepts | core/utils.py:65-68 | unpadding succeeds exactly when the last byte `p` is between 1 and the length and the last `p` bytes all equal `p`, and then drops those bytes |
| Utils.UnpadPad | core/utils.py:46-68 | unpadding undoes padding |
| Utils.UnpadAcceptsLongPadding | core/utils.py:65-68 | a pad byte above 16 is accepted: 20 bytes of value 20 unpad to nothing |
| Utils.DecryptEncrypt | core/utils.py:36-70 | decrypting with the key used to encrypt gives the text back, given sound primitives |
| Utils.AccumulateMeaning | core/utils.py:79-97 | the loop succeeds exactly when every token's prefix parses and every running total stays below 10,000,000,000; it then returns the sum of `int(prefix)` times the unit of each token |
| Utils.AccumulateBelowLimit | core/utils.py:94-97 | any total returned is below the limit |
| Utils.BareUnitRejected | core/utils.py:82 | a one-character token such as `"s"` raises |
| Utils.AddUp | core/utils.py:79-97 | the loop computes `Accumulate` from 0, and any value it returns is below the limit |
| Utils.TextToSeconds | core/utils.py:73-97 | `text_to_seconds` is the loop over `split()`; a blank text gives 0; any result is below the limit |
| Utils.Clock | core/utils.py:107-111 | hours below 24, minutes and seconds below 60, recombining to the seconds given |
| Utils.PeriodParts | core/utils.py:100-119 | units in the order days, hours, minutes, seconds, each at most once and carrying exactly its own value (the days, or that reading of `Clock(seconds)`); the days and each of the hours, minutes and seconds of `Clock(seconds)` are printed exactly when non-zero (seconds only when `days < 1`); the printed values add up to the duration, less its seconds when `days >= 1`; nothing printed exactly for a zero duration |
| Utils.PhraseTrimmed | core/utils.py:124 | a phrase of known components has no surrounding whitespace and is empty only without components |
| Utils.PeriodShape | core/utils.py:100-124 | `period` output has no surrounding whitespace and is `""` exactly for a zero duration |
| Utils.AppendIfNonZero | core/utils.py:106-117 | each `if value != 0: pattern += …` step appends the component exactly when its value is non-zero |
| Utils.Period | core/utils.py:100-124 | the imperative `period` returns the phrase of `PeriodParts` |
| Tables.DecryptEncryptStorage | core/models/database.py:140-158 | `decrypt_storage(encrypt_storage(s)) == s`: the owner layer is inside, the secret-key layer outside, peeled in reverse |
| Tables.First | core/models/database.py:180-181 | `fetchone` returns the first row that matches, and none exactly when no row matches |
| Tables.Filter | core/models/database.py:241-243 | `fetchall` (and the rows a `DELETE` keeps) are exactly the matching rows |
| Store.EnsureGuild | core/models/database.py:160-171 | after `get_guild` the guild's row exists and is the returned one; the guild keys gain only this id, every other row and both id counters are unchanged |
| Store.GetGuildStable | core/models/database.py:160-171 | the returned guild has the id asked for; asking again returns the same row and changes nothing; the invariant holds |
| Store.LookupVault | core/models/database.py:173-197 | `get_vault` finds nothing exactly when no vault of this guild has the code; it reports the vault corrupt, with that row's id, exactly when the first such row does not decrypt; otherwise it returns that first row with its storage decrypted |
| Store.FoundIsConsistent | core/models/database.py:179-192 | a vault `get_vault` returns holds a stored text whose lines its length counts |
| Store.CorruptVaultRemoved | core/models/database.py:193-195 | after removing an undecryptable vault no row with its id is left, and there are fewer vaults |
| Store.NewVaultStored | core/models/database.py:205-211 | the inserted row decrypts to the normalised text and counts its lines |
| Store.CreateThenLookup | core/models/database.py:199-212 | after `create_vault` under a fresh code, `get_vault` finds the new row with the next id, the normalised text and its line count |
| Store.CreateVaultKeepsValid | core/models/database.py:199-212 | `create_vault` keeps the invariant |
| Store.RewriteRows | core/models/database.py:222-225 | `UPDATE … WHERE id = ?` keeps every row's id, code and guild, and the number of rows |
| Store.StoreText | core/models/database.py:214-226 | `update_vault` changes only the vaults table and keeps its size |
| Store.RewrittenStored | core/models/database.py:220-225 | the rewritten row decrypts to the normalised text and counts its lines |
| Store.UpdateThenLookup | core/models/database.py:214-226 | after `update_vault` on a found vault, `get_vault` finds it with the new text, length and time |
| Store.StoreTextKeepsValid | core/models/database.py:214-226 | `update_vault` keeps the invariant |
| Store.Messages | core/models/database.py:248 | one message per removed card |
| Store.RemoveVaultEffects | core/models/database.py:228-253 | after `remove_vault` no row of the vault, of its cards or of their claims is left; every other row stays with its values; the list holds exactly the removed cards' messages |
| Store.RemoveVaultKeepsValid | core/models/database.py:228-253 | `remove_vault` keeps the invariant |
| Store.CardLookup | core/models/database.py:255-276 | `get_card` returns the first card, in rowid order, posted as the message, and none exactly when no card has it |
| Store.CreateThenCardLookup | core/models/database.py:278-290 | after `create_card` on a fresh message, `get_card` returns the new card with the next id |
| Store.CreateCardKeepsValid | core/models/database.py:278-290 | `create_card` keeps the invariant |
| Store.RemoveCardEffects | core/models/database.py:292-305 | after `remove_card` the card and its claim row are gone; every other card and claim row stays with its values; vaults, guilds and counters are untouched; the invariant holds |
| Store.ClaimerMatchesWhere | core/models/database.py:328-343 | under the invariant, `get_claimer` returns a row exactly when some claim row has this member and this card, and the row it returns is such a row |
| Store.Cooldown | core/models/database.py:365 | the wait lies in `0..timeout`, and is 0 exactly when the timeout is at most the elapsed time modulo a day |
| Store.CooldownNeverEnds | core/models/database.py:365 | a timeout of a day or more never runs out |
| Store.CooldownWithinDay | core/models/database.py:365 | within a day of the claim, the wait is what is left of the timeout |
| Store.CooldownWrapsAfterDay | core/models/database.py:365 | a day and 30 seconds after a claim, a 60-second timeout still has 30 seconds to run |
| Store.Touch | core/models/database.py:369-370 | the claim-time UPDATE never adds or removes a claim row and leaves every other row as it was; when the card's row has this member and guild its claim time becomes now and nothing else in it changes; otherwise nothing changes |
| Store.Handout | core/models/database.py:374-381 | the vault is rewritten first; the claim row is then refreshed, or inserted, or the INSERT conflicts with another member's row and leaves the claims as they were |
| Store.ClaimSpec | core/models/database.py:345-387 | any outcome other than lines or a conflict changes no table; a wait lies in `1..timeout` and needs the member's claim row; after handing out lines the card's claim row is the member's, dated now when in this guild |
| Store.ClaimDecision | core/models/database.py:353-367 | `VaultNotFound` exactly when the vault is missing in this guild or does not decrypt; `VaultOverLimit(code)` exactly when its cached length is below `max_lines`; a wait exactly when the member's cool-down is running |
| Store.ClaimConflictWhen | core/models/database.py:372 | the INSERT conflicts exactly when the vault is found, decrypts and is long enough, and another member holds the card's claim row |
| Store.ClaimTakesFirstLines | core/models/database.py:374-381 | handing out gives the first `max_lines` lines of the vault, and the vault keeps the rest renormalised, at least `max_lines` lines shorter; a conflicting claim loses those lines the same way |
| Store.ClaimNegativeLimit | core/models/database.py:356-377 | under the invariant, a negative `max_lines` always passes the length check, and a successful claim hands out every line but the last `-max_lines` |
| Store.ClaimedLines | core/models/database.py:374-381 | any lines `claim` hands out are the claimed part of the dequeue of the vault's decrypted text |
| Store.ClaimKeepsValid | core/models/database.py:345-387 | `claim` keeps the invariant whatever its outcome |
| Store.HandoutKeepsValid | core/models/database.py:374-381 | the writes of a hand-out keep the invariant |
| Store.WaitsWhileCooling | core/models/database.py:362-367 | while the member's cool-down runs, `claim` changes nothing and returns the wait, or `VaultOverLimit` |
| Store.SecondClaimWaits | core/models/database.py:362-367 | a member who claimed and asks again within the timeout and the day gets no lines; they are told to wait exactly the rest of the timeout, or that the vault is short |
| Models.Database.Open | core/models/database.py:88-138 | opening over valid tables fetches or creates this guild's row, keeps the invariant, and sets `guild` to that row |
| Models.Database.GetGuild | core/models/database.py:160-171 | the method returns `GuildRow` and leaves `EnsureGuild` of the tables |
| Models.Database.GetVault | core/models/database.py:173-197 | absent: returns nothing and changes nothing; found: returns the decrypted vault and changes nothing; undecryptable: returns nothing and leaves the tables `remove_vault` leaves |
| Models.Database.CreateVault | core/models/database.py:199-212 | the tables after are `CreateVaultSpec` of the tables before; the invariant is kept |
| Models.Database.UpdateVault | core/models/database.py:214-226 | the tables after are `StoreText` of the tables before; the invariant is kept |
| Models.Database.RemoveVault | core/models/database.py:228-253 | the messages and tables after are `RemoveVaultSpec` of the tables before; the invariant is kept |
| Models.CollectMessages | core/models/database.py:244-248 | the loop deletes the claim of every removed card and collects their messages in order |
| Models.Database.GetCard | core/models/database.py:255-276 | the card returned is the first, in rowid order, posted as the message, and none exactly when no card is |
| Models.Database.CreateCard | core/models/database.py:278-290 | the tables after are `CreateCardSpec` of the tables before; the invariant is kept |
| Models.Database.RemoveCard | core/models/database.py:292-305 | the tables after are `RemoveCardSpec` of the tables before; the invariant is kept |
| Models.Database.GetCards | core/models/database.py:307-326 | the cards returned are exactly the guild's cards, in rowid order |
| Models.Database.GetClaimer | core/models/database.py:328-343 | a row is returned exactly when some claim row has this member and this card, and it is such a row |
| Models.ClaimHandsOut | core/models/database.py:356-372 | past the lookup, length and cool-down checks, `claim` is the hand-out of the decrypted text |
| Models.Database.HandOut | core/models/database.py:374-381 | rewrite the vault, then refresh or insert the claim row: the result and the tables after are `Handout` of the tables before; the invariant is kept |
| Models.Database.ClaimCard | core/models/database.py:345-387 | the result and the tables after are `ClaimSpec` of the tables before; the invariant is kept |

## Left out

- SQLite itself is replaced by in-memory values:
  - the connection and cursor, `commit` and the `CREATE TABLE` statements of `__aenter__`;
  - `__aexit__`;
  - the foreign keys, which the source never relies on.
  An INSERT that violates a key is modelled only where it can happen: the claims INSERT of `claim`.
- Asynchronous execution and concurrent sessions. The model is one sequential session.
- AES-CBC, SHA-256, UTF-8, base64 and the latin-1 step: foreign libraries. They are abstract functions, and their round trips are a hypothesis.
- The random IV and `datetime.utcnow()`: they are parameters. Time is in whole seconds.
- PyStr.CollapseNewlines: its own contract gives the shape of the result. What it does line by line is the lemma `PyStr.CollapseLines`, kept apart so that the function's proof stays small.
- Utils.Period: the source strips the template (`"{d} days {h} hours "` and so on) and fills in the numbers afterwards. The model fills in the numbers first and then strips. The two give the same text because a rendered number holds no whitespace, but no lemma states that.
- Models.Database.ClaimCard: the cool-down reads a second clock value with microseconds. The model uses the one `now` for both the wait and the claim time.
- The `encode=False`/`decode=False` mode of `encrypt`/`decrypt`: the core never uses it.
- `get_cards` is an asynchronous generator. The model returns all the rows it yields, as a sequence.
- AUTOINCREMENT's 64-bit limit and the `int` width of SQLite columns: ids and counters are unbounded integers.
- `int()` accepts non-ASCII decimal digits and surrounding whitespace. `ParseInt` accepts ASCII digits only. The tokens `split()` yields never carry whitespace.
- Models.Database.Open: the stored tables are assumed to satisfy the invariant (`TablesValid`). The model cannot check the contents of an existing database file.
- `embed_wrong`, core/models/errors.py and the Discord cogs: user interface. `VaultNotFound` and `VaultOverLimit` are variants of `ClaimResult`. The cogs' own checks (code lowercasing, create only if absent, the role check) are not part of this model.
