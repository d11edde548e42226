# Platform integrity measurements, modelled in Dafny

This project models fwupd's integrity measurement table
(`src/fu-engine-integrity.c`). The table is a string-to-string hash table
from a measurement id such as `UEFI:PK` or `ACPI:SLIC` to the SHA-256
checksum of the firmware state it names. It supports five operations:

- **insert-or-replace** of one checksum;
- the **collector**, which measures the important EFI variables, the
  Boot#### variables and the SLIC ACPI table;
- the **serializer**, which writes `id=checksum` lines joined by newlines;
- the **parser**, which reads such text back, skipping blank and `#` lines;
- the **comparator**, which diffs the table measured now against one
  measured at another time.

The table is the class `EngineIntegrity.IntegrityTable`. Its only field is
`entries: map<string, string>`, and its methods update that field in place.
The loops of the C code are kept as loops, each proved against a
specification function:

- `Measurements`: which ids the collector inserts and what each maps to;
- `Codec`: the text written for a table, and reading text line by line;
- `Drift`: the per-id change records of a comparison.

The two loops of the comparison are the methods
`EngineIntegrity.AddedAndChanged` and `EngineIntegrity.AppendRemoved`,
which `Compare` calls in that order.

`Text` holds the string helpers the code calls: GLib's `g_strsplit`,
fwupd's own `fu_strjoin` (a wrapper of GLib's `g_strjoinv`), and printf's
`%04X`.

The UEFI collector `MeasureUefi` runs two loops, the methods
`MeasureImportant` and `MeasureBootSlots`, in that order.

A hash table's iteration order is unspecified, so the model leaves it
open. `ToString` and `Compare` visit keys in an arbitrary order (`:|`).
`ToString` returns, as a ghost value, the order it used. `Compare` returns,
as a ghost value, the records it produced. Their contracts hold for every
order.

Notable behaviour of the code, which the model keeps:

- The Boot#### scan runs `i < 0xFF`. It visits the 255 slots `Boot0000` to
  `Boot00FE`, so `Boot00FF` is never measured.
- Parsing is not atomic. When a line without `=` is met, the entries from
  the earlier lines stay in the table.
- A line is split at its first `=`, so the value may contain further `=`.
- An id present now but missing from the other table renders as
  `id=MISSING->now`. An id present only in the other table renders as
  `id=was->MISSING`. A changed id renders as `id=was->now`, where `was` is
  the other table's value.

## Model

| member | source | states |
|---|---|---|
| `EngineIntegrity.IntegrityTable.constructor` | src/fu-engine-integrity.c:81-85 | a new table is empty |
| `EngineIntegrity.IntegrityTable.AddChecksum` | src/fu-engine-integrity.c:14-18 | `id` maps to `csum` afterwards and every other entry is unchanged; the size grows by one exactly when `id` was new |
| `EngineIntegrity.InsertSize` | src/fu-engine-integrity.c:15-18 | inserting a new id adds one entry; replacing an existing one adds none |
| `EngineIntegrity.IntegrityTable.AddMeasurement` | src/fu-engine-integrity.c:20-25 | inserts or replaces `id` with the digest of the blob |
| `EngineIntegrity.IntegrityTable.MeasureAcpi` | src/fu-engine-integrity.c:27-43 | the table becomes the old table updated with exactly the ACPI entries |
| `EngineIntegrity.IntegrityTable.MeasureUefi` | src/fu-engine-integrity.c:45-79 | the table becomes the old table updated with the important-variable entries, then with the Boot#### entries |
| `EngineIntegrity.IntegrityTable.MeasureImportant` | src/fu-engine-integrity.c:59-67 | the table becomes the old table updated with exactly the important-variable entries |
| `EngineIntegrity.IntegrityTable.MeasureBootSlots` | src/fu-engine-integrity.c:69-78 | after visiting the slot names in order, the table is the old table updated with exactly the entries of the slots whose variable exists and is non-empty |
| `Measurements.SlotEntriesStep` | src/fu-engine-integrity.c:72-77 | visiting one more slot inserts `UEFI:<name>` with the digest of its variable when that exists and is non-empty, and changes nothing otherwise |
| `EngineIntegrity.IntegrityTable.Measure` | src/fu-engine-integrity.c:87-104 | the table becomes the old table updated with everything collected, so no key is lost; fails with "no measurements" exactly when the table is empty afterwards, and succeeds otherwise, even if nothing new was inserted |
| `Measurements.ImportantEntries` | src/fu-engine-integrity.c:59-67 | `UEFI:<name>` maps to the digest of each important variable the store holds, a zero-length one included; no other id is present |
| `Measurements.SlotEntriesComplete` | src/fu-engine-integrity.c:70-77 | when the slot names are distinct, every slot whose variable exists and is non-empty has `UEFI:<name>` mapped to that variable's digest |
| `Measurements.SlotEntriesSound` | src/fu-engine-integrity.c:70-77 | the slot scan inserts no id other than `UEFI:<name>` of an existing, non-empty slot variable |
| `Measurements.BootNamesDistinct` | src/fu-engine-integrity.c:70-71 | the 255 scanned slots have pairwise distinct `Boot%04X` names |
| `Measurements.BootEntriesExact` | src/fu-engine-integrity.c:69-78 | `UEFI:Boot%04X` maps to the digest of each slot in 0..0xFE whose variable exists and is non-empty; no other id is present |
| `Measurements.AcpiEntries` | src/fu-engine-integrity.c:31-42 | `ACPI:<table>` maps to the digest of each listed table that exists and is non-empty; no other id is present |
| `Measurements.BootName` | src/fu-engine-integrity.c:71 | a slot name is eight characters, `Boot` followed by four characters that read back in hexadecimal as the slot number |
| `Measurements.BootNameDigits` | src/fu-engine-integrity.c:71 | the four characters after `Boot` are each `0`-`9` or `A`-`F` |
| `Measurements.CollectedIds` | src/fu-engine-integrity.c:33-78 | one collection run inserts each important, Boot#### and ACPI id with its blob's digest, and no id other than these three kinds |
| `Measurements.SourcesDisjoint` | src/fu-engine-integrity.c:60-78 | no important id equals a Boot#### id or an ACPI id, so no source overwrites another source's entry |
| `Measurements.LastBootSlotName` | src/fu-engine-integrity.c:70-71 | the last slot scanned is `Boot00FE` |
| `Measurements.SlotFFNeverMeasured` | src/fu-engine-integrity.c:70 | `UEFI:Boot00FF` is never measured, whatever the stores hold |
| `Measurements.NothingToMeasure` | src/fu-engine-integrity.c:93-100 | with both stores empty nothing is collected, so measuring into an empty table fails |
| `Text.Hex4` | src/fu-engine-integrity.c:71 | `%04X` writes exactly four characters, each `0`-`9` or `A`-`F`, that read back in hexadecimal as the number |
| `Text.Hex4Injective` | src/fu-engine-integrity.c:71 | distinct slot numbers give distinct names |
| `Text.SplitLines` | src/fu-engine-integrity.c:137 | no line holds a newline; only empty text gives no lines; the lines of non-empty text joined back with newlines give the text |
| `Text.Join` | src/fu-engine-integrity.c:125 | joining no parts gives empty text and joining one part gives that part; `Text.SplitAllOfJoin` states that splitting undoes joining |
| `Text.SplitAll` | src/fu-engine-integrity.c:137 | the pieces joined back with the separator give the input, and no piece holds the separator |
| `Text.SplitAllOfJoin` | src/fu-engine-integrity.c:125 | splitting text joined from separator-free pieces gives back those pieces |
| `Text.SplitOnce` | src/fu-engine-integrity.c:142-143 | two tokens exactly when the line holds `=`; the key before the first `=` holds none, and key, `=` and value glue back to the line |
| `Text.SplitOnceOfGlued` | src/fu-engine-integrity.c:142 | splitting `key=value`, with no `=` in the key, gives back that key and value |
| `Codec.Line` | src/fu-engine-integrity.c:122-123 | the `%s=%s` line of an entry splits at its first `=` back into the key and the value when the key holds no `=`, and holds a newline only when the key or value does |
| `Codec.Lines` | src/fu-engine-integrity.c:120-124 | one line per visited key, in visiting order, each splitting back into that key and its value when the key holds no `=` |
| `Codec.LinesAppend` | src/fu-engine-integrity.c:121-124 | visiting one more key appends that key's line at the end |
| `Codec.Render` | src/fu-engine-integrity.c:125 | when no key or value holds a newline, splitting the text of a non-empty table at its newlines gives back exactly its lines |
| `EngineIntegrity.IntegrityTable.ToString` | src/fu-engine-integrity.c:106-126 | none for an empty table; otherwise the text written when the ids are visited in some order that lists each id exactly once |
| `Codec.RenderedLines` | src/fu-engine-integrity.c:115-125 | the text holds one `key=value` line per entry, as many lines as entries, with no trailing newline |
| `Codec.EnumerationSize` | src/fu-engine-integrity.c:120-124 | an iteration order that lists each id once has as many items as the table has ids |
| `EngineIntegrity.IntegrityTable.FromString` | src/fu-engine-integrity.c:128-156 | the table becomes what reading the text line by line gives; the call fails with `failed to parse: <input>` exactly when the read stops at a bad line |
| `Codec.ReadLineCases` | src/fu-engine-integrity.c:140-151 | one line (`Codec.ReadLine`): a blank or `#` line (`Codec.Skipped`) is read and changes nothing; otherwise the line is read exactly when it holds `=`, a line without `=` changes nothing, and a line with `=` sets the key before its first `=` to the rest of the line |
| `Codec.ReadLinesOk` | src/fu-engine-integrity.c:138-150 | reading succeeds exactly when every line that is neither blank nor a comment holds an `=` |
| `Codec.ReadStopsAtFirstBadLine` | src/fu-engine-integrity.c:142-151 | at the first bad line reading fails, and the entries from all earlier lines stay in the table |
| `Codec.ReadLinesKeepsKeys` | src/fu-engine-integrity.c:138-152 | reading never removes a key |
| `Codec.LaterLineWins` | src/fu-engine-integrity.c:151 | a later `key=value` line replaces an earlier value for the same key, even when the value holds `=` |
| `Codec.ReadLinesAppend` | src/fu-engine-integrity.c:138-152 | reading two blocks of lines is reading the first and then, if it succeeded, the second |
| `Codec.ReadAllLines` | src/fu-engine-integrity.c:119-152 | reading the lines written for a persistable table, in any visiting order, succeeds and adds exactly that table's entries |
| `Codec.RoundTrip` | src/fu-engine-integrity.c:106-156 | reading the text written for a non-empty table, whatever the iteration order, adds exactly that table's entries, provided no key holds `=` or a newline or starts with `#` and no value holds a newline |
| `Codec.Reload` | src/fu-engine-integrity.c:106-156 | reading the text written for a non-empty persistable table into an empty table succeeds and gives that table |
| `Codec.CommentsAndBlankLinesSkipped` | src/fu-engine-integrity.c:140-141 | a comment line, a blank line, `key=value` and a trailing newline read as the single entry |
| `Codec.LineWithoutSeparatorRejected` | src/fu-engine-integrity.c:142-149 | a single line with no `=` (such as `UEFI:BootOrder`) fails and leaves the table as it was |
| `EngineIntegrity.IntegrityTable.Compare` | src/fu-engine-integrity.c:158-212 | changes neither table; one record per disagreeing id and no others, Removed records last; passes exactly when the tables are equal, otherwise fails with the records' texts joined by `, ` |
| `EngineIntegrity.AddedAndChanged` | src/fu-engine-integrity.c:170-187 | the first loop of the comparison yields the record of every id measured now on which the tables disagree, once each, none of them Removed, with their texts in the same order |
| `EngineIntegrity.AppendRemoved` | src/fu-engine-integrity.c:189-200 | the second loop keeps the first loop's records and their texts unchanged as a prefix and appends a Removed record for each id of the other table missing now, so the records cover every id of both tables, Removed ones last |
| `Drift.Describe` | src/fu-engine-integrity.c:174-198 | a record's text is its id, `=`, and then `MISSING->now` for an id missing from the other table, `was->now` for a changed one, and `was->MISSING` for an id missing now |
| `Drift.CoversStep` | src/fu-engine-integrity.c:171-200 | visiting one more id appends its record, if it has one, and keeps one record per visited disagreeing id |
| `Drift.RemovedPassStep` | src/fu-engine-integrity.c:189-200 | one step of the second loop keeps every id of `now` settled, keeps Removed records last, and appends a Removed record exactly for an id missing now |
| `Drift.CoversAll` | src/fu-engine-integrity.c:170-200 | once every id of both tables is visited, the records are exactly the diff |
| `Drift.Classify` | src/fu-engine-integrity.c:170-201 | an id has a record exactly when the two tables disagree on it, and the record names that id |
| `Drift.NoChangesIffEqual` | src/fu-engine-integrity.c:203-211 | no id has a record exactly when the tables are equal |
| `Drift.EmptyDiffIffEqual` | src/fu-engine-integrity.c:203-211 | a complete diff is empty exactly when the tables are equal |
| `Drift.ClassifySwapped` | src/fu-engine-integrity.c:170-201 | swapping the tables turns Added into Removed and reverses a Changed record; detection is symmetric and direction is not |
| `Drift.ExampleDrift` | src/fu-engine-integrity.c:174-187 | for distinct ids `a`, `b` and values `v1 != v2`, with `{a:v1}` before and `{a:v2, b:v3}` now, the records read `a=v1->v2` and `b=MISSING->v3` |
| `EngineIntegrity.SaveAndReload` | src/fu-engine-integrity.c:106-212 | writing a non-empty persistable table and reading the text into a new table gives an equal table; comparing the copy against the original passes, and so does comparing the original against itself |

## Left out

- SHA-256 (`g_compute_checksum_for_bytes`): the digest is a function-valued
  parameter `digest: Bytes -> string`, about which nothing is assumed.
- Reading EFI variables and ACPI table files is I/O. These are two store
  maps. The variable store is keyed by namespace and name; an absent key
  covers both a missing variable and a failed read. The ACPI store is keyed
  by table name. The namespace GUIDs are two abstract values, because their
  definitions are not part of this model.
- `fu_path_from_kind` and `g_build_filename`: the ACPI store is already
  keyed by table name, so the directory path is not modelled.
- GLib plumbing is not modelled: the `g_return_val_if_fail` NULL guards,
  GError domains and codes (only the message is kept), `g_strdup` copies
  and `g_autofree` memory management.
- The concrete hash function and iteration order of `GHashTable` are not
  modelled. Every iteration order is allowed.
- `fu_strjoin` and `g_strsplit` are modelled from their documented
  behaviour, not from their code, including `g_strsplit` returning no
  pieces for the empty string.
- C strings are NUL-terminated bytes; the model's `string` is a sequence of
  characters, which could hold `'\0'` where a C string cannot. The code
  only tests for the ASCII characters `\n`, `=` and `#`, so no behaviour
  of the code is lost.
- `src/fu-engine-integrity.h` holds only prototypes. Each of its six
  functions is a member of `IntegrityTable`.
- Text.Hex4: defined only below 0x10000. That is the range where `%04X`
  prints exactly four digits, and the 0xFF slot bound keeps the scan
  inside it.
