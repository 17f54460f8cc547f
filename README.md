# ProtectionGems: the protection-counter codec in Dafny

ProtectionGems is a game-server plugin. A consumable "protection gem" applied to an
item gives the item charges. A charged item is kept back from the owner's death drops
and is returned on respawn, one charge poorer. The charge count is kept as one line of
the item's lore, which is its list of text lines. The line is the configured template
`protection.lore` (default `"&6&lLượt bảo vệ: %amount%"`) with `%amount%` filled in.
This project models that counter codec and the plugin operations that use it:

- reading the count (`getProtectionCount`);
- testing for protection (`hasProtection`);
- writing the count (`updateProtectionLore`);
- applying a gem (`applyProtectionToItem`);
- spending a charge on death (`updateItemProtection`);
- splitting the death drops (`onPlayerDeath`);
- shrinking the gem stack (`decreaseGemAmount`);
- the argument checks of `/protectiongem give <player> <amount>`.

Files:

- `wrappers.dfy`: `Option`, for Kotlin's nullable values and the elvis operator.
- `kotlin_text.dfy` (module `KotlinText`): the Kotlin library behaviour the codec
  relies on:
  - 32-bit `Int` arithmetic, which wraps around;
  - `String.replace`, `lastIndexOf` and `substringAfterLast`, which returns the whole
    string when the delimiter is missing;
  - `toIntOrNull`: an optional sign, then digits, and null when out of range;
  - `Int.toString`.
- `lore_codec.dfy` (module `LoreCodec`): the configuration, the prefixes, the count
  reader, the writer and the remover, with their laws.
- `protection_gems.dfy` (module `ProtectionGems`): items, applying a gem, spending a
  charge, the death handler, the gem stack and the command checks.

The colour-code translation `ChatColor.translateAlternateColorCodes('&', ·)` is a
function-valued field `normalise` of `Config`, left abstract. Three strings derive
from the template, each computed as the source computes it:

- **read prefix**: the template with `%amount%` removed, then translated. Reading the
  count, `hasProtection` and charge removal use it.
- **label**: the translated template.
- **write prefix**: the label with `%amount%` removed, translated again.
  `updateProtectionLore` uses it.

The round-trip laws assume `SimpleTemplate`, which the shipped default template meets:

- the label is the read prefix followed by `%amount%`;
- the prefix contains no `%`;
- the prefix ends in `": "`;
- translating the prefix again leaves it unchanged.

Imperative parts of the source are methods with loops. Each method is proved equal to
a specification function, and the laws are lemmas about those functions:

| method | specification function |
|---|---|
| `IndexOfFirst` | `FirstMatch` |
| `UpdateProtectionLore` | `WriteCounter` |
| `RemoveCounterLines` | `WithoutCounter` |
| `ApplyProtectionToItem` | `AddCharge` |
| `UpdateItemProtection` | `SpendCharge` |
| `OnPlayerDeath` | `UnprotectedItems`, `ProtectedItems`, `SpendAll` |
| `CollectProtected`, `RemoveAll`, `SpendEach` | `ProtectedItems`, `WithoutElements`, `SpendAll` |

### Net cost of a death

Line 324 passes `count - 1 - added_amount` to `updateProtectionLore`, and that function
adds `added_amount` back at line 203. The value written is therefore `count - 1`, so a
count of 5 becomes 4. `UpdateItemProtection` does the literal 32-bit subtraction and
addition, and `SpendChargeDecrements` proves the net effect is exactly one charge.

## Model

| member | source | states |
|---|---|---|
| `KotlinText.Wrap32` | src/main/kotlin/me/demonducky/protectiongems/ProtectionGems.kt:203 | Kotlin `Int` results are 32-bit: in-range values are kept, others are replaced by the congruent value modulo 2^32 |
| `KotlinText.SubThenAdd` | src/main/kotlin/me/demonducky/protectiongems/ProtectionGems.kt:324 | subtracting `added_amount` and adding it back is the identity on `Int`, even when the subtraction wraps |
| `KotlinText.ReplaceTrailing` | src/main/kotlin/me/demonducky/protectiongems/ProtectionGems.kt:210 | `replace("%amount%", s)` on a text ending in its only placeholder yields the text before the placeholder followed by `s` |
| `KotlinText.LastIndexOf` | src/main/kotlin/me/demonducky/protectiongems/ProtectionGems.kt:198 | the result is -1 or an index where the delimiter occurs, and no occurrence lies beyond it |
| `KotlinText.AfterLastDelimiter` | src/main/kotlin/me/demonducky/protectiongems/ProtectionGems.kt:198 | `substringAfterLast(": ")` of a text ending in `": "`, followed by a tail without `:`, is exactly that tail |
| `KotlinText.IntToStringRoundTrip` | src/main/kotlin/me/demonducky/protectiongems/ProtectionGems.kt:198-210 | `toIntOrNull` reads back every `Int` that `toString` writes |
| `KotlinText.Replace` | src/main/kotlin/me/demonducky/protectiongems/ProtectionGems.kt:210 | `replace` leaves a text without the target's first character unchanged, and never lengthens a text when the replacement is no longer than the target |
| `KotlinText.SubstringAfterLast` | src/main/kotlin/me/demonducky/protectiongems/ProtectionGems.kt:198 | the result is a suffix of the text, and (for a non-empty delimiter) the delimiter occurs nowhere in it |
| `KotlinText.ToIntOrNull` | src/main/kotlin/me/demonducky/protectiongems/ProtectionGems.kt:198 | a parsed value comes from a non-empty text that ends in a digit and is all digits after an optional leading sign, so a text holding `:` or a space never parses |
| `KotlinText.IntToString` | src/main/kotlin/me/demonducky/protectiongems/ProtectionGems.kt:210 | a written count is non-empty, starts with `-` exactly when negative, and is otherwise all digits, so it never contains the `": "` separator |
| `LoreCodec.SimpleTemplateRender` | src/main/kotlin/me/demonducky/protectiongems/ProtectionGems.kt:205-219 | under a simple template the write prefix equals the read prefix, and the rendered line is the prefix followed by the value |
| `LoreCodec.FirstMatch` | src/main/kotlin/me/demonducky/protectiongems/ProtectionGems.kt:189-196 | `find`: absent exactly when no line starts with the prefix; otherwise a matching index with no matching line before it |
| `LoreCodec.FirstMatchAt` | src/main/kotlin/me/demonducky/protectiongems/ProtectionGems.kt:213-220 | a matching line with no match before it is the line that `find` and `indexOfFirst` pick |
| `LoreCodec.IndexOfFirst` | src/main/kotlin/me/demonducky/protectiongems/ProtectionGems.kt:213-220 | `indexOfFirst`: -1 exactly when no line matches; otherwise the first matching index |
| `LoreCodec.GetProtectionCount` | src/main/kotlin/me/demonducky/protectiongems/ProtectionGems.kt:185-198 | `getProtectionCount`: a count other than 0 needs a line starting with the prefix; with no such line the count is 0 |
| `LoreCodec.NonZeroCountHasLine` | src/main/kotlin/me/demonducky/protectiongems/ProtectionGems.kt:189-198 | a nonzero count is the value of the first counter line: the text after its last `": "` parses to that count |
| `LoreCodec.CountReadsFirstLineOnly` | src/main/kotlin/me/demonducky/protectiongems/ProtectionGems.kt:189-198 | only the first counter line is read: lines after it never change the count |
| `LoreCodec.PresenceWithoutCharges` | src/main/kotlin/me/demonducky/protectiongems/ProtectionGems.kt:185-198 | when the first counter line holds the value 0 or no number at all, whatever the rest of the lore, the lore is protected while the count is 0 (presence is not magnitude) |
| `LoreCodec.WriteCounter` | src/main/kotlin/me/demonducky/protectiongems/ProtectionGems.kt:213-226 | the written lore has the old length or one line more, contains the rendered counter line, and keeps every old line that does not start with the write prefix |
| `LoreCodec.UpdateProtectionLore` | src/main/kotlin/me/demonducky/protectiongems/ProtectionGems.kt:201-227 | the result is the lore with `current + added_amount` (Kotlin `Int` addition) written into the counter line |
| `LoreCodec.WriteCounterShape` | src/main/kotlin/me/demonducky/protectiongems/ProtectionGems.kt:213-226 | writing overwrites only the first matching index, keeping the length and every other line; with no match it appends one line after all old lines, in order |
| `LoreCodec.WriteThenRead` | src/main/kotlin/me/demonducky/protectiongems/ProtectionGems.kt:198-226 | round trip: after writing a value the lore is protected, and `getProtectionCount` returns that value, whatever the starting lore |
| `LoreCodec.WriteCounterIdempotent` | src/main/kotlin/me/demonducky/protectiongems/ProtectionGems.kt:213-226 | writing the same value twice gives the same lore as writing it once |
| `LoreCodec.WriteKeepsAtMostOneCounter` | src/main/kotlin/me/demonducky/protectiongems/ProtectionGems.kt:213-226 | under a simple template, a lore with at most one counter line still has at most one after writing (the first match is overwritten, or a line is appended only when none exists) |
| `LoreCodec.WithoutCounter` | src/main/kotlin/me/demonducky/protectiongems/ProtectionGems.kt:328-335 | removal keeps exactly the lines that do not start with the prefix, never grows the lore, and changes nothing when no line matches |
| `LoreCodec.RemoveCounterLines` | src/main/kotlin/me/demonducky/protectiongems/ProtectionGems.kt:328-335 | the `removeAll` loop yields exactly the non-counter lines in their original order |
| `LoreCodec.RemovedLeavesNoCounter` | src/main/kotlin/me/demonducky/protectiongems/ProtectionGems.kt:328-335 | after removal no counter line is left |
| `LoreCodec.WithoutCounterUpdate` | src/main/kotlin/me/demonducky/protectiongems/ProtectionGems.kt:223 | overwriting a counter line with another counter line leaves the non-counter lines unchanged |
| `LoreCodec.WriteKeepsOtherLines` | src/main/kotlin/me/demonducky/protectiongems/ProtectionGems.kt:213-226 | writing the counter never adds, drops or reorders the non-counter lines |
| `ProtectionGems.HasProtection` | src/main/kotlin/me/demonducky/protectiongems/ProtectionGems.kt:299-312 | a protected item has metadata and a lore, and its count is the count read from that lore |
| `ProtectionGems.HasProtectionIsPresence` | src/main/kotlin/me/demonducky/protectiongems/ProtectionGems.kt:299-312 | `hasProtection` holds exactly when metadata and lore exist and some line starts with the prefix; it is false without metadata or lore |
| `ProtectionGems.AddCharge` | src/main/kotlin/me/demonducky/protectiongems/ProtectionGems.kt:169-183 | applying a gem keeps the material and stack size, keeps metadata present or absent, and, with metadata, keeps the display name and leaves a lore |
| `ProtectionGems.ApplyProtectionToItem` | src/main/kotlin/me/demonducky/protectiongems/ProtectionGems.kt:169-183 | an item without metadata is left as is; otherwise its lore, read as empty if absent, gets `count + added_amount` written |
| `ProtectionGems.AddChargeRoundTrip` | src/main/kotlin/me/demonducky/protectiongems/ProtectionGems.kt:169-183 | after a gem the item is protected, its count is the old count plus `added_amount` (Kotlin `Int`), and material, stack size and display name are unchanged |
| `ProtectionGems.FirstGem` | src/main/kotlin/me/demonducky/protectiongems/ProtectionGems.kt:173-178 | a gem applied to an item without a counter line gives exactly `added_amount` charges |
| `ProtectionGems.AddChargeKeepsAtMostOne` | src/main/kotlin/me/demonducky/protectiongems/ProtectionGems.kt:169-183 | under a simple template, applying a gem never gives an item a second counter line |
| `ProtectionGems.SpendCharge` | src/main/kotlin/me/demonducky/protectiongems/ProtectionGems.kt:314-343 | spending a charge leaves an item with metadata and a lore, and keeps its material, stack size and display name |
| `ProtectionGems.UpdateItemProtection` | src/main/kotlin/me/demonducky/protectiongems/ProtectionGems.kt:314-343 | the literal `count - 1 - added_amount`, passed to `updateProtectionLore`, nets `count - 1` when `count > 1`; otherwise every counter line is removed |
| `ProtectionGems.SpendChargeDecrements` | src/main/kotlin/me/demonducky/protectiongems/ProtectionGems.kt:320-324 | with more than one charge, a death costs exactly one charge and the item stays protected |
| `ProtectionGems.SpendLastCharge` | src/main/kotlin/me/demonducky/protectiongems/ProtectionGems.kt:325-335 | with one charge or fewer, the item loses protection and its lore becomes the old non-counter lines, in order |
| `ProtectionGems.SpendKeepsOtherLines` | src/main/kotlin/me/demonducky/protectiongems/ProtectionGems.kt:320-335 | spending a charge never touches the non-counter lore lines |
| `ProtectionGems.SpendChargeKeepsAtMostOne` | src/main/kotlin/me/demonducky/protectiongems/ProtectionGems.kt:320-335 | under a simple template, spending a charge never gives an item a second counter line |
| `ProtectionGems.ProtectedItems` | src/main/kotlin/me/demonducky/protectiongems/ProtectionGems.kt:242-249 | the collected items are exactly the drops that have protection |
| `ProtectionGems.UnprotectedItems` | src/main/kotlin/me/demonducky/protectiongems/ProtectionGems.kt:251-252 | the drops left after `removeAll` are exactly the drops without protection |
| `ProtectionGems.CollectProtected` | src/main/kotlin/me/demonducky/protectiongems/ProtectionGems.kt:242-249 | the `forEach`/`add` loop collects exactly the protected drops, in their original order |
| `ProtectionGems.WithoutElements` | src/main/kotlin/me/demonducky/protectiongems/ProtectionGems.kt:252 | removal by equality keeps exactly the items not equal to any removed element |
| `ProtectionGems.RemoveAll` | src/main/kotlin/me/demonducky/protectiongems/ProtectionGems.kt:252 | the `removeAll(protectedItems)` loop yields exactly the items not equal to a protected item, in order |
| `ProtectionGems.RemoveProtectedLeavesUnprotected` | src/main/kotlin/me/demonducky/protectiongems/ProtectionGems.kt:242-252 | removing the protected drops by equality leaves exactly the unprotected drops, in order, because protection depends only on an item's value |
| `ProtectionGems.PartitionIsComplete` | src/main/kotlin/me/demonducky/protectiongems/ProtectionGems.kt:242-252 | every drop lands on exactly one side: the two multisets add up to the original drops |
| `ProtectionGems.ProtectedHaveLore` | src/main/kotlin/me/demonducky/protectiongems/ProtectionGems.kt:314-318 | every collected item has metadata and lore, so the `!!` in `updateItemProtection` never fails on them |
| `ProtectionGems.SpendAll` | src/main/kotlin/me/demonducky/protectiongems/ProtectionGems.kt:257-259 | the `map` gives one saved item per protected item |
| `ProtectionGems.SpendAllAt` | src/main/kotlin/me/demonducky/protectiongems/ProtectionGems.kt:257-259 | the k-th saved item is the k-th protected item with one charge spent: it still has a lore and keeps its material, stack size and display name |
| `ProtectionGems.SpendEach` | src/main/kotlin/me/demonducky/protectiongems/ProtectionGems.kt:257-259 | the `map` over the protected items spends one charge of each, in order |
| `ProtectionGems.OnPlayerDeath` | src/main/kotlin/me/demonducky/protectiongems/ProtectionGems.kt:236-263 | the drops become exactly the unprotected items in their original order; the store maps the player to the protected items in order, each with one charge spent; other players' records are unchanged |
| `ProtectionGems.DecreaseGemAmount` | src/main/kotlin/me/demonducky/protectiongems/ProtectionGems.kt:229-232 | the stack is one smaller (wrapping at the `Int` minimum) and otherwise unchanged; a missing stack stays missing |
| `ProtectionGems.HandleProtectionGemCommand` | src/main/kotlin/me/demonducky/protectiongems/ProtectionGems.kt:63-90 | usage exactly when there are fewer than 3 args or the first is not `give`; then player-not-found, naming `args[1]`; then invalid-amount exactly when the amount is not an `Int` or is ≤ 0; a grant only for a found player and a positive parsed amount |
| `ProtectionGems.GiveAnyPositiveAmount` | src/main/kotlin/me/demonducky/protectiongems/ProtectionGems.kt:84-94 | `give <name> <n>` grants exactly `n` gems, for every positive `Int` `n` and every player the server finds |

## Left out

- Plugin lifecycle and registration (`onEnable`, `onDisable`, `onCommand` dispatch):
  host plumbing.
- YAML persistence (`saveProtectedItems`, `getProtectedItems`, `clearProtectedItems`):
  file I/O. The store is an abstract map from player id to item list, and only the
  death handler's write is modelled.
- `onPlayerRespawn`: it is host scheduling (`runTask`) plus host inventory and world
  semantics (`addItem` leftovers, `dropItem`).
- `OnPlayerDeath`: `player.inventory.removeItem` is host inventory and is not modelled.
- Items are values, not shared `ItemStack` objects. Aliasing is not captured: in the
  source, the protected list holds the same objects as the drops.
- `onInventoryClick` and `isProtectionGem` are event glue around
  `applyProtectionToItem` and `decreaseGemAmount`. Both of those are modelled; the
  event cancellation and the exception logging are not.
- `giveProtectionGem`, `createProtectionGem` (`Material.valueOf`, inventory insertion)
  and the error message caught at lines 100-105 are host library calls.
  `HandleProtectionGemCommand` stops at the decision to grant.
- `HandleProtectionGemCommand`: the message texts, their `%player%` and `%amount%`
  substitution, and the always-`true` return value are left out. The reply says which
  message is sent.
- The player lookup `server.getPlayer` is a parameter, so its name matching is not
  modelled.
- The internals of `ChatColor.translateAlternateColorCodes` are left out. It is an
  abstract function, and the round-trip laws assume the `SimpleTemplate` shape.
- `KotlinText.ToIntOrNull` accepts ASCII digits only. The JVM's digit test also
  accepts other Unicode decimal digits.
- Strings are sequences of Unicode scalar values, not JVM UTF-16 code units, so
  UTF-16 lengths and lone surrogates are not captured. The prefix tests, the `": "`
  split and the digit parse do not depend on them.
- `KotlinText.Replace` is defined for a non-empty target only. The source only
  replaces `%amount%`.
- Configuration lookups with defaults (`getString(...) ?: default`, `getInt(..., 3)`)
  are left out: the resolved values are the fields of `Config`.
