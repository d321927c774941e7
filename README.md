# Reconciliation of a gettext PO catalog

This project models the two passes that keep a target-language PO catalog
(here the Simplified Chinese one) in step with an English reference catalog,
and proves what each pass does to every entry and to its counters.

- **Sync** (`index.ts`). It builds a msgid → English lookup from the
  reference catalog. It then walks the target catalog and treats each entry
  by a fixed decision list:
  - header entries are skipped;
  - a usable English value (present and not the sentinel `"none"`) is
    copied when it differs from the first form;
  - otherwise, text that still holds a non-ASCII character is sent to the
    translation service, and a different reply replaces it;
  - otherwise the entry is left alone.

  It counts skipped, updated, translated and total entries.
- **Rollback** (`rollback.ts`). It builds the same kind of lookup from a backup
  catalog. It then restores every non-header entry whose first form is
  missing, blank or a `"none"` placeholder, when the backup has a value for
  its msgid. It counts rolled-back, skipped and total entries.

## Files

- `Catalog.dfy`, module `Catalog`. It holds:
  - the catalog entry (`Entry`: context, msgid, msgstr forms);
  - `String.prototype.includes` (`Contains`) and the header test that both
    scripts define identically (`IsHeaderEntry`);
  - the msgid lookup both scripts build, as a specification function
    (`LookupOf`) and as the loop that fills the map (`BuildLookup`);
  - the shared counting functions.
- `Sync.dfy`, module `Sync`, models `index.ts`. The translation service is a
  parameter `translate: string -> Option<string>`, where `None` means the call
  threw.
- `Rollback.dfy`, module `Rollback`: `rollback.ts`, with `trim`, the
  lower-casing and the "emptyish" test.

Each function of the scripts has one model, and the contract of that model,
when it is not on the model itself, is on a lemma beside it:

- `includes` is `Catalog.Contains`, characterised by `Catalog.ContainsIff`;
- `isHeaderEntry` is `Catalog.IsHeaderEntry`, characterised by
  `Catalog.HeaderIff`;
- `trim` is `Rollback.Trim`, that is `TrimEnd` after `TrimStart`, characterised
  by the contracts of those two and by `Rollback.TrimIsEmptyIffBlank`;
- the emptyish test of `rollback.ts` is `Rollback.IsEmptyish`, characterised
  by `Rollback.EmptyishIff`.

The parsed catalog is a table context → (msgid → item). Both passes visit it
with two nested loops and never add, remove or reorder entries. The model
therefore flattens it into the sequence of its entries in iteration order,
and each entry keeps its context. The target catalog is an `array<Entry>`.
Each pass rewrites `cat[i]` in place, as the scripts assign `item.msgstr`.
Each pass method is proved against a function of the old contents (`Synced`,
`RolledBackCatalog`) and against the counters computed from them
(`SyncReportOf`, `RollbackReportOf`). The lemmas then state what the source
promises about those functions.

Notes on the source's behaviour that the model follows:

- The lookups are keyed by msgid alone, whatever the context, and a later
  entry overwrites an earlier one (`Map.set`). An entry enters a lookup only
  when its `msgstr[0]` is a non-empty string and its msgid is not a header.
- When the English value is usable and equals `msgstr[0]` already, the entry
  is left as it is, including any further plural forms. So after sync the
  English value is the first form of every such entry. `msgstr` is exactly
  `[english]` only for entries the pass changed.
- An absent `msgstr[0]` reaches `containsNonEnglish` as `undefined`. The
  regular expression sees the ASCII text "undefined", so such an entry is
  never translated. An empty `msgstr[0]` is never translated either.
- A failed translation call returns the input text. The entry then compares
  equal and stays unchanged without being counted. The same happens when the
  service echoes its input.
- `ContainsNonEnglish` looks at characters where JavaScript looks at UTF-16
  code units. The two agree: a character above U+007F has every code unit
  above 0x7F.
- `updatedCount + translatedCount` is exactly the number of changed entries.
  A rollback that writes back the value an entry already had (for instance
  `"none"` restored from a backup holding `"none"`) is counted as rolled back
  even though nothing changed. So `rolledBackCount` bounds the number of
  changed entries from above.

## Model

| member | source | states |
|---|---|---|
| `Catalog.ContainsIff` | index.ts:63-64 | `includes` holds exactly when `sub` occurs in `s` at some offset |
| `Catalog.HeaderIff` | index.ts:60-66 | a msgid is a header exactly when it is empty or has `Project-Id-Version` or `Report-Msgid-Bugs-To` somewhere in it |
| `Catalog.MarkerMakesHeader` | rollback.ts:21-27 | rollback's identical header test: any msgid with either marker anywhere inside it is a header |
| `Catalog.ShortMsgidIsHeaderOnlyIfEmpty` | rollback.ts:23-25 | a msgid shorter than the markers is a header only when it is empty |
| `Catalog.BuildLookup` | index.ts:83-90 | the map-filling loop returns exactly `LookupOf` of the catalog (the same loop is rollback.ts:52-59) |
| `Catalog.LookupKeys` | index.ts:86-87 | a msgid is a key of the lookup exactly when some entry with a non-empty `msgstr[0]` and a non-header msgid carries it |
| `Catalog.LookupValuesUsable` | rollback.ts:55-56 | every key of the lookup is a non-header msgid and every value is non-empty |
| `Catalog.LookupLastWins` | rollback.ts:52-59 | when several entries share a msgid, the lookup holds the value of the last one |
| `Sync.ContainsNonEnglish` | index.ts:51-57 | true exactly when some character is above 0x7F, so false on the empty string |
| `Sync.TranslateText` | index.ts:32-48 | the service's reply on success, and the input unchanged on failure |
| `Sync.SyncEntry` | index.ts:116-142 | per entry: keys kept; header ⟺ skipped and unchanged; updated ⟺ usable English value different from `msgstr[0]`, then `msgstr == [english]`; translated ⟺ no usable English value, non-ASCII text and a different reply, then `msgstr == [reply]`; a counter rises exactly when the entry changes |
| `Sync.CountEntries` | index.ts:99-106 | the first loop counts exactly the non-header entries |
| `Sync.SyncItem` | index.ts:116-142 | one loop step rewrites only `cat[i]`, to the entry `SyncEntry` gives for its old value, and reports that entry's action |
| `Sync.ProcessTranslations` | index.ts:97-144 | the array afterwards is `Synced` of the old contents, and the four counters are those of `SyncReportOf` |
| `Sync.RunSync` | index.ts:83-144 | building the lookup and then processing gives `Synced` against `LookupOf(reference)` |
| `Sync.SyncKeepsKeysAndHeaders` | index.ts:116-120 | sync leaves every (context, msgid) key in place and every header entry unchanged |
| `Sync.SyncCopiesEnglish` | index.ts:123-131 | after sync, an entry with a usable English value has it as its first form, and its `msgstr` is exactly `[english]` whenever sync changed it |
| `Sync.SentinelIsNotCopied` | index.ts:123 | an English value of exactly `"none"` acts as no English value: the entry falls through to the translation branch |
| `Sync.UntranslatableLeftAlone` | index.ts:132-141 | without a usable English value, the entry stays the same and is not counted when its text is absent or all ASCII, or when the service fails or echoes the text |
| `Sync.SyncReportBounds` | index.ts:99-120 | `totalEntries + skippedCount` is the number of entries and `updatedCount + translatedCount <= totalEntries` |
| `Sync.SkippedAreHeaders` | index.ts:116-120 | `skippedCount` is exactly the number of header entries |
| `Sync.SyncCountsChanges` | index.ts:125-141 | `updatedCount + translatedCount` equals the number of entries sync changed |
| `Sync.SecondSyncUpdatesNothing` | index.ts:123-131 | a second sync against the same lookup has `updatedCount == 0`, whatever the service replies in either pass |
| `Sync.ThreeEntryExample` | index.ts:111-144 | a header, an entry whose English value differs and an untranslated entry: the header is unchanged, the second takes the English value, the third is translated or unchanged; the counts are 2 total, 1 skipped, 1 updated, at most 1 translated |
| `Rollback.TrimStart` | rollback.ts:79 | the result is a suffix of the input, every removed character is whitespace, and it does not start with whitespace |
| `Rollback.TrimEnd` | rollback.ts:79 | the result is a prefix of the input, every removed character is whitespace, and it does not end with whitespace |
| `Rollback.TrimIsEmptyIffBlank` | rollback.ts:79 | `trim() === ""` holds exactly when every character is whitespace |
| `Rollback.Lower` | rollback.ts:80 | `toLowerCase() === "none"` holds for exactly the sixteen upper/lower-case spellings of "none" |
| `Rollback.EmptyishIff` | rollback.ts:77-81 | "emptyish" means the first form is absent, is whitespace only (empty included), or is "none" in any case |
| `Rollback.RollbackEntry` | rollback.ts:68-92 | per entry: keys kept; header ⟺ skipped; rolled back ⟺ non-header, emptyish and msgid in the backup, then `msgstr == [backup value]`; every other entry is unchanged |
| `Rollback.RollbackItem` | rollback.ts:68-92 | one loop step rewrites only `cat[i]`, to the entry `RollbackEntry` gives for its old value, and reports that entry's action |
| `Rollback.ProcessRollback` | rollback.ts:62-94 | the array afterwards is `RolledBackCatalog` of the old contents, and the three counters are those of `RollbackReportOf` |
| `Rollback.RunRollback` | rollback.ts:51-94 | building the backup lookup and then processing gives `RolledBackCatalog` against `LookupOf(backup catalog)` |
| `Rollback.RollbackKeepsKeysAndHeaders` | rollback.ts:89 | the only change is a replaced msgstr: every key stays in place and every header entry is unchanged |
| `Rollback.RealTextIsKept` | rollback.ts:77-81 | an entry whose first form has a non-whitespace character and is not "none" in any case is untouched, whatever the backup holds |
| `Rollback.EmptyishEntryRestored` | rollback.ts:83-91 | an emptyish non-header entry gets `[backup value]` when its msgid is in the backup and keeps its msgstr exactly otherwise |
| `Rollback.RollbackReportBounds` | rollback.ts:62-90 | `totalEntries + skippedCount` is the number of entries, and changed entries ≤ `rolledBackCount` ≤ `totalEntries` |
| `Rollback.RollbackIdempotent` | rollback.ts:89 | rolling back twice with the same backup gives the same catalog as once |

## Left out

- PO parsing and compiling (`gettextParser.po.parse` / `compile`): these are library code. The model starts from the parsed catalog and ends with the updated one.
- File reads and writes, the existence checks and `process.exit(1)` in rollback: these are plumbing around the passes.
- `dotenv`, the `SOCK5_PROXY` check and the SOCKS proxy agent: configuration and transport.
- The Google Translate call: it is the `translate` parameter. The model's service is a fixed function of the text, so two entries with the same text get the same reply within one run. A service whose answers vary between calls is not captured. No property proved here depends on the replies.
- The progress percentage (`toFixed(1)`) and the `processedEntries` counter: they only feed console output. (`processedEntries` also counts headers, so the figure can pass 100%.)
- `console.log` / `console.error`: output only.
- `async` / `await`: the calls are awaited one at a time, so the pass is an ordinary loop.
- Lower: maps ASCII letters only and keeps every other character, whereas `toLowerCase` applies Unicode's full case mapping. The test `toLowerCase() === "none"` comes out the same either way: no non-ASCII character lower-cases to `n`, `o` or `e`, and lower-casing never shortens a string.
- The `item.msgstr &&` guard of the lookup loops: the declared type always has a `msgstr` array, so the model always has a sequence. An item without one would make the passes' own `item.msgstr[0]` throw.
- `types/gettext-parser.d.ts`: only its shape is used, for `Entry`.
