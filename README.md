# Typed settings store, flash driver and file table

A Dafny model of the persistence engine of a microcontroller firmware. It has four parts.

- **Typed stores.** The settings live in two identical typed stores: `configArrayMap` in
  `Core/Src/config.cpp` and `firmwareArrayMap` in `Core/Src/firmware.cpp`.
  - Each store holds up to five integer entries `(type 0, id, value)` and five string entries
    `(type 1, id, 20-byte text)`.
  - Writers follow one rule: replace the value in place, else append while there is room, else
    drop the write silently.
  - The store is serialized into a buffer of 32-bit words (`configFlush`). It is deserialized
    (`processConfigBuffer`) by merging each record through the same rule.
  - A registry of up to ten name/id pairs sits beside each store.
- **Flash driver** (`Core/Src/flash_program.cpp`). It does the page and bank address
  arithmetic. It runs the erase, program-by-quad-words, lock and verify sequence on the page that
  holds an address, and it reads words back.
- **File layer** (`Core/Src/flashFile.cpp`). It holds a process-wide table of open handles.
  The table admits only `config.bin` and `firmware.bin`, never the same one twice, and never
  forgets a handle. The file layer also has two wrappers that turn the driver's results into 0 or 1.
- **Compositions.** `flashConfig`/`loadConfig` and `flashFirmware`/`loadFirmware` flush a store
  to a page and load it back.

## Modules

Modules follow the program's structure:

| module | file | contents |
|---|---|---|
| `Words` | `words.dfy` | 32-bit words, `int` ↔ word conversion, text packed into words |
| `Entries` | `entries.dfy` | entries, C-string copy semantics, the upsert and update rules, and the store value `Tables` with its invariant |
| `Layout` | `layout.dfy` | the flushed word layout, and the deserializer as a fold over records |
| `TypedStore` | `store.dfy` | the `InitArrayMap` global as a class with arrays and counts, and its in-place loops |
| `Registry` | `registry.dfy` | the name/id registry |
| `FlashProgram` | `flash_program.dfy` | the flash medium and the driver |
| `FlashFile` | `flash_file.dfy` | the handle table and the driver wrappers |
| `Settings` | `settings.dfy` | one domain: store and registry, `*Write`, and flush/load to flash |
| `Board` | `board.dfy` | the config and firmware domains side by side on one flash |

`firmware.cpp` repeats `config.cpp` line for line on storage of its own. So both domains are
instances of the same classes. `Board` shows that every operation of one domain that changes state
(write, update, flush, process, save a handle, flash, load) leaves the other domain as it was.

How the model treats the source:

- **Classes and loops.** The scans with `break`, the pointer-advancing flush and the record loop
  are methods with loops over the arrays.
- **Specification functions.** Those methods are proved against functions on values: `Upsert`,
  `Update`, `Encode` and `Process`. The properties the source promises are lemmas about those
  functions.
- **Wrap-around and sign.** The record count is the `uint32_t` sum of the two counts, wrapped
  modulo 2^32. An `int` is stored in a word by two's complement.
- **Truncating copies.** A stored name or text is a `strncpy` of 19 bytes plus a terminating NUL,
  padded with NUL bytes.

## Assumptions

These definitions sit in headers that are not part of this model, so they are assumed:

- `MAX_STRING_LENGTH` is 20, the `STRING_ENTRY_SIZE` of `Core/Src/config.cpp:17`.
- `IntEntry` sets type 0.
- `StringEntry` sets type 1 and makes the same truncating, terminated copy as `strncpy` followed
  by a NUL.
- `util_bound` clamps an unsigned value.
- `util_memcmp` returns 0 exactly when the bytes agree.
- `FLASH_BASE` is `0x08000000`, and a bank holds 128 pages of 8 KiB.
- The HAL refuses to program a quad-word while the flash is locked.
- A failed quad-word program leaves the memory as it was.
- A page erase of bank 1 or 2 and a page below 128 erases exactly that page when it succeeds,
  and leaves the memory as it was when it fails. For any other bank the effect of the erase on
  the memory is left open.

## Where the code and the design differ

The design describes registry names as unique. The code compares the caller's whole C string
against copies cut to 19 bytes. So a name of 20 bytes or more is never found again, and saving it
twice stores two pairs with the same name. This model follows the code, in
`Registry.LongNameNeverFound` and `Registry.LongNameStoredTwice`. The half of the design's claim
that does hold is `Registry.SaveKeepsNamesUnique`: saving a name shorter than 20 bytes keeps the
stored names pairwise distinct. `NameRegistry.Valid` does not carry that uniqueness, because the
code lets a long name break it.

## Model

| member | source | states |
|---|---|---|
| `Words.ToWord` | Core/Src/config.cpp:121-125 | the word an `int` is copied into reads back as the same `int`, and a non-negative `int` is its own word |
| `Words.FromWord` | Core/Src/config.cpp:196-203 | a word read as an `int` is non-negative exactly when it is below 2^31, and then it equals the word |
| `Words.Pack` | Core/Src/config.cpp:135-136 | 20 text bytes copied by `memcpy` fill five words, one word per four bytes |
| `Words.Unpack` | Core/Src/config.cpp:217-219 | five words copied back give four bytes per word |
| `Words.UnpackPack` | Core/Src/config.cpp:217-219 | copying a text into words and back gives the same bytes |
| `Entries.CStr` | Core/Src/config.cpp:247 | the C string `strcmp` sees: a prefix of the buffer with no NUL, followed by a NUL when it is shorter than the buffer |
| `Entries.StrNCopy` | Core/Src/config.cpp:49-50 | the stored 20-byte copy: its C string is the source's, cut to 19 bytes; the last byte and everything after the C string are NUL |
| `Entries.StrNCopyNormalized` | Core/Src/config.cpp:97-98 | every stored copy is normalized: NUL after its C string |
| `Entries.NormalizedFixed` | Core/Src/config.cpp:224-225 | copying a normalized text again gives the same text, so a string read back from a record is stored unchanged |
| `Entries.VisibleShort` | Core/Src/config.cpp:254-255 | a name shorter than 20 bytes without NUL survives the copy |
| `Entries.Find` | Core/Src/config.cpp:81-87 | the scan stops at the first entry with the id, or at the count when there is none |
| `Entries.FindTagged` | Core/Src/config.cpp:143-147 | the getter's scan stops at the first entry with both the id and the type, or at the count when there is none |
| `Entries.Lookup` | Core/Src/config.cpp:142-149 | a value is found exactly when some entry has the id and the type, and it is the value of the first such entry |
| `Entries.LookupFindsEntry` | Core/Src/config.cpp:142-158 | under the store invariant the type test never rejects, and the getter returns the value of the entry with the id |
| `Entries.Upsert` | Core/Src/config.cpp:79-91 | a present id has its value replaced at its index, with the length unchanged; an absent id is appended at index `count` when `count < cap`; at capacity nothing changes; ids and tags keep their places; unique ids stay unique |
| `Entries.UpsertIdempotent` | Core/Src/config.cpp:79-106 | writing the same id and value twice is the same as writing it once |
| `Entries.Update` | Core/Src/config.cpp:30-39 | the update-only scan never appends: code 0 exactly when the id is present, the value replaced in place, everything else unchanged |
| `Entries.UpdateAgreesWithUpsert` | Core/Src/config.cpp:27-91 | on a present id, the update-only scan and the upsert give the same array |
| `Entries.LookupAfterUpsert` | Core/Src/config.cpp:79-149 | after a write that found the id or room, the getter returns the written value, and other ids read as before |
| `Entries.IntUpsert` | Core/Src/config.cpp:79-91 | the integer write keeps the store invariant (capacity, unique ids, tags, normalized texts) and leaves the strings alone |
| `Entries.StringUpsert` | Core/Src/config.cpp:93-106 | the string write keeps the store invariant and leaves the integers alone |
| `Entries.IntUpdate` | Core/Src/config.cpp:27-40 | `configUpdateInt`: 0 exactly when `id >= 0` and the id is present, then the same store as the write; otherwise 1 and no change |
| `Entries.StringUpdate` | Core/Src/config.cpp:43-57 | `configUpdateString`: 0 exactly when `id >= 0`, the value is not null and the id is present, then the same store as the write; otherwise 1 and no change |
| `Entries.IntValue` | Core/Src/config.cpp:142-149 | `configGetInt`: the value of the entry with the id, or -1 |
| `Entries.StringValue` | Core/Src/config.cpp:151-158 | `configGetString`: the text of the entry with the id, or a null pointer |
| `Entries.IntGetAfterWrite` | Core/Src/config.cpp:79-149 | write-then-get reads the integer back; other ids are unaffected |
| `Entries.StringGetAfterWrite` | Core/Src/config.cpp:93-158 | write-then-get reads the truncated copy back; other ids are unaffected |
| `Layout.Encode` | Core/Src/config.cpp:108-140 | the flushed words begin with the two counts; their length is `2 + 3·intCount + 7·stringCount` words, which is the reported `bufferSize` in bytes: `8 + 12·intCount + 28·stringCount` |
| `Layout.IntRecordAt` | Core/Src/config.cpp:120-127 | integer record `k` holds the type, id and value of entry `k`, in array order |
| `Layout.StrRecordAt` | Core/Src/config.cpp:130-137 | string record `k` is the encoding of string entry `k`, in array order |
| `Layout.ProcessPreservesWellFormed` | Core/Src/config.cpp:191-234 | merging any records keeps capacity, unique ids, tags and normalized texts |
| `Layout.ProcessWellFormed` | Core/Src/config.cpp:183-235 | `processConfigBuffer` keeps the store invariant |
| `Layout.ProcessMerges` | Core/Src/config.cpp:191-234 | deserializing merges: every entry already present keeps its index and id, and one whose id no record carries is unchanged |
| `Layout.ProcessRecordsSnoc` | Core/Src/config.cpp:191-234 | the last record read is applied last, after all the others |
| `Layout.UnknownRecordsSkipped` | Core/Src/config.cpp:192-233 | records whose tag is neither 0 nor 1 take 8 bytes each and change nothing |
| `Layout.LastIntRecordWins` | Core/Src/config.cpp:205-215 | with a repeated id, the later integer record's value is what the getter returns |
| `Layout.LastStrRecordWins` | Core/Src/config.cpp:221-232 | with a repeated id, the later string record's text is what the getter returns |
| `Layout.Section` | Core/Src/config.cpp:191-234 | reading the remaining records of a flushed store, into the store that holds the earlier entries, completes it |
| `Layout.RecordsRoundTrip` | Core/Src/config.cpp:191-234 | the records of a flushed store, read in order into an empty store, rebuild it |
| `Layout.HeaderCount` | Core/Src/config.cpp:116-117 | the two counts written first make the loader read exactly one record per entry |
| `Layout.RoundTrip` | Core/Src/config.cpp:108-235 | deserializing the flushed words, into an empty store and with any non-zero size, gives both arrays back in order, whatever words follow them |
| `TypedStore.UpsertAt` | Core/Src/config.cpp:80-90 | the scan, replace and append loop on the array computes `Upsert` of the entries in use and leaves the other slots alone |
| `TypedStore.UpdateAt` | Core/Src/config.cpp:30-39 | the update-only loop computes `Update` and leaves the other slots alone |
| `TypedStore.CopyWords` | Core/Src/config.cpp:135-136 | a `memcpy` of words, then the pointer advanced past them |
| `TypedStore.CopyInts` | Core/Src/config.cpp:120-127 | the integer loop writes the integer section after `p` and nothing else |
| `TypedStore.CopyStrs` | Core/Src/config.cpp:130-137 | the string loop writes the string section after `p` and nothing else |
| `TypedStore.WriteLayout` | Core/Src/config.cpp:113-137 | the counts, then both sections, from word 0 on, and nothing past them |
| `TypedStore.Store.constructor` | Core/Src/config.cpp:24 | the zero-initialized store is empty and valid |
| `TypedStore.Store.WriteInt` | Core/Src/config.cpp:79-91 | `configWriteInt` turns the store into `IntUpsert` of it and keeps it valid |
| `TypedStore.Store.WriteString` | Core/Src/config.cpp:93-106 | `configWriteString` turns the store into `StringUpsert` of it |
| `TypedStore.Store.UpdateInt` | Core/Src/config.cpp:27-40 | `configUpdateInt` gives the code and the store of `IntUpdate` |
| `TypedStore.Store.UpdateString` | Core/Src/config.cpp:43-57 | `configUpdateString` gives the code and the store of `StringUpdate` |
| `TypedStore.Store.GetInt` | Core/Src/config.cpp:142-149 | `configGetInt` returns `IntValue` of the store |
| `TypedStore.Store.GetString` | Core/Src/config.cpp:151-158 | `configGetString` returns `StringValue` of the store |
| `TypedStore.Store.Flush` | Core/Src/config.cpp:108-140 | `configFlush` writes `Encode` of the store at the front of the buffer and nothing else, sets the size in bytes and returns 0 |
| `TypedStore.Store.ReadRecord` | Core/Src/config.cpp:192-233 | one loop body merges the record at `pos` and returns the word after it |
| `TypedStore.Store.ReadNextRecord` | Core/Src/config.cpp:191-234 | one pass of the loop keeps the goal of the records still to read |
| `TypedStore.Store.ReadRecords` | Core/Src/config.cpp:191-234 | the loop merges `count` records from word 2 on, or none when `bufferSize` is 0 |
| `TypedStore.Store.ProcessBuffer` | Core/Src/config.cpp:183-235 | `processConfigBuffer` turns the store into `Process` of it and the buffer, reading `(intCount + stringCount) mod 2^32` records |
| `Registry.FindName` | Core/Src/config.cpp:246-251 | the registry scan stops at the first pair whose name compares equal, or at the count |
| `Registry.SaveHandle` | Core/Src/config.cpp:243-262 | `configSaveHandles`: 1 and no change on a null name, a negative id or a full table with a new name; a known name gets its id replaced with the count unchanged; a new name is appended as a truncated copy; stored names stay terminated |
| `Registry.IdFromName` | Core/Src/config.cpp:264-271 | `configGetIDFromName`: -1 when no pair has the name; otherwise the id of a pair with the name before which no pair has it |
| `Registry.SaveKeepsNamesUnique` | Core/Src/config.cpp:243-262 | saving a name shorter than 20 bytes keeps every stored name a different C string |
| `Registry.SaveThenGet` | Core/Src/config.cpp:243-271 | a saved name shorter than 20 bytes reads back with its id; other names read as before |
| `Registry.LongNameNeverFound` | Core/Src/config.cpp:246-256 | a name of 20 bytes or more is never found, since every stored copy was cut to 19 |
| `Registry.LongNameStoredTwice` | Core/Src/config.cpp:243-262 | so saving such a name twice stores two pairs with the same name |
| `Registry.NameRegistry.constructor` | Core/Src/config.cpp:21-22 | the zero-initialized registry is empty |
| `Registry.NameRegistry.SaveHandles` | Core/Src/config.cpp:243-262 | the in-place loop gives the code and the pairs of `SaveHandle` |
| `Registry.NameRegistry.GetIDFromName` | Core/Src/config.cpp:264-271 | the loop returns `IdFromName` of the pairs |
| `Settings.WriteResult` | Core/Src/config.cpp:59-77 | `configWrite`: 1 and no change on a negative id or null data; otherwise the handle is saved first, and its failure is returned with no write; 0 exactly when the handle was saved and the type is `'i'` or `'s'`, with the store written; the invariants are kept |
| `Settings.UnknownTypeRecordsName` | Core/Src/config.cpp:67-76 | an unknown type returns 1 after the name has been recorded |
| `Settings.DroppedWriteSucceeds` | Core/Src/config.cpp:67-70 | an integer write dropped at capacity still returns 0 |
| `Settings.FlashedStoreLoads` | Core/Src/config.cpp:160-171 | the 65 words `loadConfig` reads from a page that begins with a flushed store load back as that store |
| `Settings.FlushFitsPage` | Core/Src/config.cpp:173-179 | the flushed store fits the 64-word buffer, and its quad-words fit the page |
| `Settings.OpenFile` | Core/Src/config.cpp:238-240 | `configOpen` (and `firmwareOpen`, Core/Src/firmware.cpp:216-218) gives the code and the table of `fileOpen` |
| `Settings.Domain.constructor` | Core/Src/config.cpp:21-24 | the domain starts with an empty store and an empty registry |
| `Settings.Domain.Write` | Core/Src/config.cpp:59-77 | the code, the store and the registry of `WriteResult` |
| `Settings.WriteHead` | Core/Src/config.cpp:177-179 | `fileWrite` of a buffer that begins with given words: once the page is programmed it begins with those words; for an address in the flash nothing outside the page changed |
| `Settings.Domain.FlashTo` | Core/Src/config.cpp:173-181 | `flashConfig`: 0 exactly when the page was programmed and verified; after a lock failure or a verification the page `TargetPage(address)` begins with the flushed store, and for an address in the flash nothing outside that page changed; an unlock failure changes nothing, nor does an erase failure for an address in the flash |
| `Settings.Domain.LoadFrom` | Core/Src/config.cpp:160-171 | `loadConfig`: returns 0 with the store merged with the 65 words read from the address, and the registry unchanged |
| `Board.Board.constructor` | Core/Src/firmware.cpp:23-26 | both domains start empty and share no storage |
| `Board.Board.ConfigWrite` | Core/Src/config.cpp:59-77 | `configWrite` on the config domain; the firmware domain is unchanged |
| `Board.Board.ConfigWriteInt` | Core/Src/config.cpp:79-91 | `configWriteInt` is the upsert on the config store; the firmware domain is unchanged |
| `Board.Board.ConfigWriteString` | Core/Src/config.cpp:93-106 | `configWriteString` is the string upsert on the config store; the firmware domain is unchanged |
| `Board.Board.ConfigUpdateInt` | Core/Src/config.cpp:27-40 | `configUpdateInt` is `IntUpdate` on the config store; the firmware domain is unchanged |
| `Board.Board.ConfigUpdateString` | Core/Src/config.cpp:43-57 | `configUpdateString` is `StringUpdate` on the config store; the firmware domain is unchanged |
| `Board.Board.ConfigFlush` | Core/Src/config.cpp:108-140 | `configFlush` writes `Encode` of the config store and its size, returns 0 and changes neither domain |
| `Board.Board.ProcessConfigBuffer` | Core/Src/config.cpp:183-235 | `processConfigBuffer` is `Process` on the config store; the firmware domain is unchanged |
| `Board.Board.ConfigSaveHandles` | Core/Src/config.cpp:243-262 | `configSaveHandles` is `SaveHandle` on the config registry only |
| `Board.Board.ConfigGetIDFromName` | Core/Src/config.cpp:264-271 | `configGetIDFromName` reads the config registry only |
| `Board.Board.FirmwareWrite` | Core/Src/firmware.cpp:61-78 | `firmwareWrite` has the semantics of `configWrite` on the firmware domain; the config domain is unchanged |
| `Board.Board.FirmwareWriteInt` | Core/Src/firmware.cpp:80-92 | `firmwareWriteInt` is the upsert on the firmware store |
| `Board.Board.FirmwareWriteString` | Core/Src/firmware.cpp:94-107 | `firmwareWriteString` is the string upsert on the firmware store |
| `Board.Board.FirmwareUpdateInt` | Core/Src/firmware.cpp:29-42 | `firmwareUpdateInt` is `IntUpdate` on the firmware store |
| `Board.Board.FirmwareUpdateString` | Core/Src/firmware.cpp:45-59 | `firmwareUpdateString` is `StringUpdate` on the firmware store |
| `Board.Board.FirmwareFlush` | Core/Src/firmware.cpp:109-136 | `firmwareFlush` writes the same layout and size as `configFlush`, with no result code |
| `Board.Board.ProcessFirmwareBuffer` | Core/Src/firmware.cpp:161-213 | `processFirmwareBuffer` is `Process` on the firmware store; the config domain is unchanged |
| `Board.Board.FirmwareSaveHandles` | Core/Src/firmware.cpp:221-240 | `firmwareSaveHandles` is `SaveHandle` on the firmware registry only |
| `Board.Board.FirmwareGetIDFromName` | Core/Src/firmware.cpp:243-250 | `firmwareGetIDFromName` reads the firmware registry only |
| `Board.Board.FlashConfig` | Core/Src/config.cpp:173-181 | flashing the config store changes neither domain; the flash is as `flashConfig` leaves it in each phase: unchanged after an unlock failure, and after an erase failure for an address in the flash; after a lock failure or a verification the page `TargetPage(address)` begins with the config store's words, and for an address in the flash nothing outside that page changed |
| `Board.Board.FlashFirmware` | Core/Src/firmware.cpp:151-159 | the same for the firmware store, so flashing firmware to a page in the flash leaves every other page, the config page among them, as it was |
| `Board.Board.LoadConfig` | Core/Src/config.cpp:160-171 | loading merges into the config store only |
| `Board.Board.LoadFirmware` | Core/Src/firmware.cpp:138-149 | loading merges into the firmware store only |
| `FlashProgram.Sub` | Core/Src/flash_program.cpp:38 | `address - FLASH_BASE` as a `uint32_t` difference that wraps below the base |
| `FlashProgram.Bound` | Core/Src/flash_program.cpp:29-30 | `util_bound` returns a value in the bounds, and the value itself when it is already inside |
| `FlashProgram.GetPageAddress` | Core/Src/flash_program.cpp:26-33 | whatever the arguments, the result is a page start inside the two banks, with a whole page after it |
| `FlashProgram.FindPageAndBank` | Core/Src/flash_program.cpp:35-40 | the page is below 128, and the bank is 1 or 2 exactly when the address lies in the flash |
| `FlashProgram.FindOfGet` | Core/Src/flash_program.cpp:26-40 | for bank 1 or 2 and page 0 to 127, finding the page of its address gives that bank and page back |
| `FlashProgram.GetOfFind` | Core/Src/flash_program.cpp:54-56 | for an address in the flash, the address of its page and bank is the address rounded down to the page start: programming starts at the page base, not at the address |
| `FlashProgram.BankZeroIsBankTwo` | Core/Src/flash_program.cpp:28-29 | bank 0 wraps to `0xFFFFFFFF`, which the clamp turns into bank 2 |
| `FlashProgram.QuadsCover` | Core/Src/flash_program.cpp:81-95 | the loop writes `ceil(size / 16)` quad-words, which is at least `size` bytes and less than 16 more |
| `FlashProgram.ProgrammedWindow` | Core/Src/flash_program.cpp:79-95 | after erase and program the page begins with the data words, and every word outside the page is as it was |
| `FlashProgram.CheckProgramBytes` | Core/Src/flash_program.cpp:151-154 | the check passes exactly when every one of the `size` bytes at the page equals the data |
| `FlashProgram.StoredWindow` | Core/Src/flash_program.cpp:81-95 | the words stored from a word index on are found there |
| `FlashProgram.ProgrammedChecks` | Core/Src/flash_program.cpp:107-111 | a page programmed from the data passes the check, whatever it held before |
| `FlashProgram.Flash.Unlock` | Core/Src/flash_program.cpp:64-66 | the unlock succeeds or fails; on success the flash is unlocked |
| `FlashProgram.Flash.Lock` | Core/Src/flash_program.cpp:98-100 | the lock succeeds or fails; on success the flash is locked |
| `FlashProgram.Flash.ErasePage` | Core/Src/flash_program.cpp:69-76 | for bank 1 or 2 and a page below 128, a successful erase erases exactly that page and a failed one changes nothing; for any other bank nothing is promised about the memory |
| `FlashProgram.Flash.ProgramQuadWord` | Core/Src/flash_program.cpp:121 | a successful quad-word program needs an unlocked flash and stores the four words; a failed one changes nothing |
| `FlashProgram.FlashWrite` | Core/Src/flash_program.cpp:119-130 | `flash_write` returns 0 after storing the quad-word, or never returns |
| `FlashProgram.ProgramLoop` | Core/Src/flash_program.cpp:79-95 | quad-word `k` is built from data words `4k..4k+3` and stored `16k` bytes after the page base; the loop ends with `ceil(size / 16)` of them, or at the first failure, which never returns |
| `FlashProgram.ProgramLockVerify` | Core/Src/flash_program.cpp:79-112 | after the erase, whatever the page then holds: a failed program never returns, with the quad-words before it stored; a failed lock returns 1 with the page programmed; otherwise the verification result, which is 0 for a page programmed from the data |
| `FlashProgram.PageEraseWriteVerify` | Core/Src/flash_program.cpp:43-113 | the erase gets the unclamped bank and page of `addr`, the program and the verification go to the clamped page `TargetPage(addr)`. An unlock failure returns 1 with the flash unchanged; an erase failure returns 1, with the flash unchanged for an address in the flash. A program failure never returns, with the quad-words before it stored. Otherwise `TargetPage(addr)` begins with the data quad-words, and the result is 1 on a lock failure and 0 after verification. For an address in the flash, the target page is the page holding `addr`, it is erased first, and nothing outside it changes |
| `FlashProgram.FlashRead` | Core/Src/flash_program.cpp:135-146 | `flash_read` copies `numberofwords + 1` consecutive words, one more than asked, changes no other slot, and returns 0 |
| `FlashFile.Open` | Core/Src/flashFile.cpp:40-64 | `fileOpen`: 0 exactly when the name is not open, is `config.bin` or `firmware.bin`, and the table has room, and then the truncated copy is appended; otherwise 1 and no change; the table only ever grows |
| `FlashFile.KnownFileCopied` | Core/Src/flashFile.cpp:53-56 | a known name survives the truncating copy |
| `FlashFile.OpenKeepsDistinct` | Core/Src/flashFile.cpp:40-64 | every open keeps the table to distinct, known, terminated names |
| `FlashFile.AtMostTwo` | Core/Src/flashFile.cpp:27-28 | a table of distinct known names holds at most two, so its capacity of ten is never reached |
| `FlashFile.OpenTwice` | Core/Src/flashFile.cpp:40-64 | opening a known name that is not open gives 0, and opening it again gives 1 with the table unchanged |
| `FlashFile.HandleTable.constructor` | Core/Src/flashFile.cpp:27-28 | the zero-initialized table is empty |
| `FlashFile.HandleTable.IsOpen` | Core/Src/flashFile.cpp:41-47 | the scan finds the name exactly when some saved handle compares equal |
| `FlashFile.HandleTable.FileOpen` | Core/Src/flashFile.cpp:40-64 | the in-place `fileOpen` gives the code and the table of `Open`, and keeps the table distinct |
| `FlashFile.FileWrite` | Core/Src/flashFile.cpp:66-72 | `fileWrite` returns 0 exactly when the page was programmed and verified, 1 on any other returned failure, and leaves the flash as `flash_pageEraseWriteVerify` does in each phase |
| `FlashFile.ReadAndLoadFlashData` | Core/Src/flashFile.cpp:30-37 | the handle is not used; the count is cut to 16 bits for `flash_read`; the words are copied; the result is 0 |

## Left out

- The STM32 HAL calls (unlock, lock, page erase, quad-word program) are not modelled. Each is a
  method of the `Flash` medium whose success or failure is left open. Their effect on the memory
  is assumed as listed under "Assumptions".
- FlashProgram.Flash.ErasePage: that a failed erase of a valid page changes nothing is an
  assumption about the HAL, not something the source shows. For a bank other than 1 or 2 the
  model promises nothing about the memory at all.
- FlashProgram.Flash.ProgramQuadWord: the refusal while locked and "a failed program changes
  nothing" are assumptions about the HAL, not something the source shows.
- FlashProgram.PageEraseWriteVerify: the flash left by an erase failure, and by a program
  failure, follows from the two assumptions above, not from the source. For an address outside
  the flash the erase is asked for a bank other than 1 or 2, whose effect the model leaves open,
  so only the programmed target page is stated. The re-lock after a failed erase (`Core/Src/flash_program.cpp:74-75`)
  is made, but its result is discarded and its outcome is open, so no contract states it.
- FlashFile.FileWrite: the flash it leaves after an erase or program failure rests on the same
  HAL assumptions. The instruction-cache
  calls are commented out in the source (`Core/Src/flash_program.cpp:58-61`, `102-105`) and are
  not modelled.
- `Error_Handler`'s endless loop after a failed quad-word program is the outcome `Fatal`, not a
  loop that never ends.
- FlashProgram.Flash.ProgramQuadWord: a successful program is assumed to store the four words
  exactly. So the verify-failure branch (`Core/Src/flash_program.cpp:109-111`) is never taken in
  the model. `CheckProgramBytes` states what that check compares.
- FlashProgram.PageEraseWriteVerify: requires `size` to be at most one page. A larger write
  programs past the one erased page. That behaviour is not modelled.
- FlashProgram.FlashRead: requires the words it reads to lie in the flash and in the
  destination. `loadConfig` and `loadFirmware` ask for 64 words and get 65, one past their
  256-byte buffer. The model gives the buffer room for 65 words and reads the 65-word window.
- TypedStore.Store.Flush: requires a buffer large enough for the flushed words. An undersized
  buffer overflows in the source. The words past the flushed ones are left as they were. In
  `flashConfig` they are uninitialized stack memory; this model zeroes them. Only the padding of
  the last quad-word reaches the flash, and the verification does not compare it.
- TypedStore.Store.ProcessBuffer: requires every record the counts announce to fit in the
  buffer. When they do not, the source reads out of bounds; that case is excluded rather than
  modelled. The buffer is given together with a ghost copy of its words.
- Bytes within a word are not modelled. Buffers are sequences of 32-bit words. A text packs
  four bytes per word, little-endian as on the target, five words per text. `memcpy` is a word
  copy.
- The prototypes of `readAndLoadFlashData` and `fileWrite` in `Core/Inc/flashFile.h:15,21`
  take three arguments; the definitions take four. This is a build issue and is not modelled.
  The model follows the definitions.
- `firmwareGetInt`/`firmwareGetString` are declared in `Core/Inc/firmware.h:24-25` but never
  defined, so they are not modelled. The config getters are modelled by `TypedStore.Store.GetInt`
  and `TypedStore.Store.GetString`.
- `firmwareOpen` is identical to `configOpen`. Both are `Settings.OpenFile` on the one handle
  table, passed as a parameter.
- The handle argument of `fileWrite`/`readAndLoadFlashData` is not used by the source, and the
  model only passes it along.
- TypedStore.Store.GetString: `configGetString` returns a pointer into the store's own entry.
  The model returns a copy of the text, so a later write through or to that entry is not
  aliased.
- A null `name` passed to `configGetIDFromName`, `firmwareGetIDFromName` or `fileOpen` crashes
  in `strcmp` in the source, and a null `str` passed to `configWriteString` or
  `firmwareWriteString` crashes in the copy of `StringEntry`. The model's name and text
  parameters are byte sequences, so those calls cannot be made.
- Debug output and `iostream` are not modelled.
- `InitArrayMap.h`, `util.h`, the HAL and the `FLASH_*` constants are not part of this model.
  What they are assumed to define is listed under "Assumptions".
