# twoDB storage core, modelled in Dafny

twoDB keeps a whole database in one text file. The file starts with a
`# DATABASE HEADER` block of `KEY=VALUE` settings and continues with `# PAGE`
sections. Each section holds `PageID: n`, `LSN: n`, `Type: t` and then one
`key: value` line per payload entry. On top of this paged store sit three more
layers:

- data pages hold records as `Entry-<n>` payload entries, whose fields are
  joined with `|`, next to an `EntryIndex` counter;
- a "B+Tree" index that is in fact a single root leaf of at most three keys,
  stored in an `Index` page as comma-joined `Keys` and `Pointers`
  (`pageID:entryIndex`);
- a façade whose `Insert`, `Get`, `Delete` and `Update` compose the three
  layers below it.

The model follows the code that `database.go` compiles against, layer by
layer:

| module | file(s) | what it holds |
|---|---|---|
| `Results` | `results.dfy` | `Result`/`Option` and the error kinds, including `Panic` for a Go run-time panic |
| `GoStrings`, `Decimal` | `go_strings.dfy`, `decimal.dfy` | the Go library behaviour the code relies on: `strings.Index/LastIndex/Split/Join/Replace/TrimSpace`, `bufio.Scanner` lines, `%d` formatting, `fmt.Sscanf("%d")`, `strconv.ParseUint(.., 10, 32)` with its error ignored, `ParseBool`/`FormatBool` |
| `TextStore` | `text_store.dfy` | the file handler over the file text: `NewTextFileHandler`, `LoadMetadata`, `ReadPage` (the line scanner), `WritePage` (serialise, splice in place or append, rewrite `PAGES=`) and `AllocatePage` |
| `TextLines`, `TextRoundTrip`, `TextHeader`, `TextFacts`, `TextReopen` | `text_*.dfy` | properties of the file handler: the write/read round trip, how the header is loaded and rewritten, which pages `ReadPage` finds, which ids `AllocatePage` hands out, and what a reopened file remembers |
| `PageStore` | `page_store.dfy` | the handler's page contract with the file text abstracted away, as seen by the index and the façade: a map of pages, the page count and the free list |
| `DataPage` | `data_page.dfy` | `AddRecord`, `GetRecord` and `DeleteRecord` of `storage/page.go` |
| `StringOrder` | `string_order.dfy` | Go's string order and `sort.SearchStrings` |
| `BPlusTree` | `bptree.dfy` | `NewBPlusTree`, `Insert`, `Find`, `Delete`, `readNode` and `writeNode`, over `PageStore` |
| `Database` | `database.dfy` | `OpenDatabase`, `Insert`, `Get`, `Delete` and `Update`, over `PageStore`; each returns the store as the call leaves it together with its result |

Go's random map iteration order appears as a parameter. `WritePage` takes the
order in which the payload lines come out, and every property holds for any
order that lists each payload key once. A Go panic (a slice out of range, a
missing `:` in a pointer, a record with one field given to `Update`) is the
error `Panic`.

The façade invariant `Database.DbOk` says four things:

- the store is valid;
- the free list is empty;
- the root is a well-formed leaf: sorted keys, as many pointers as keys, at most three of each;
- every indexed id is held once, and its pointer parses to a page id in range that is neither 0 nor the root, a different page for each id; the invariant does not read that page.

The façade lemmas assume `DbOk` and prove that each operation keeps it, for ids that are
non-empty and free of commas (`Database.KeyText`) and for page counts that leave every
pointer part at most 2^32 − 1. An id with a comma is split in two when the `Keys` field is
read back, so the key list and the pointer list fall out of step and `DbOk` is lost.

Unlike a textbook B+Tree over a paged store, this code behaves as follows:

- the index does not reject a duplicate key; only the façade does, through a lookup first;
- the index never splits or merges nodes: a full root is left alone and the insert still reports success;
- an id of 0 or beyond the page count is its own error (`InvalidPageId`), distinct from a page that is absent;
- the free list is read from the header but never written back.

## Model

| member | source | states |
|---|---|---|
| TextStore.Open | twoDB/database/storage/text_file_handler.go:40-76 | a missing file starts as the initial header text, an existing one keeps its text; either way the header is then loaded |
| TextHeader.OpenNew | twoDB/database/storage/text_file_handler.go:40-76 | a freshly created file loads with page count 0, page size 4096 and an empty free list |
| TextStore.LoadMetadata | twoDB/database/storage/text_file_handler.go:79-114 | loading the header never changes the file text |
| TextStore.ApplyHeaderLine | twoDB/database/storage/text_file_handler.go:93-110 | a line without `=` or with an unknown key changes nothing; `PAGES` and `PAGESIZE` are set only when `%d` scans; `DEALLOCATED_PAGES` appends its ids to the free list in textual order |
| Decimal.ScanUintStops | twoDB/database/storage/text_file_handler.go:101-107 | `Sscanf(.., "%d", ..)` stores the value of the leading digits and ignores whatever non-digit follows them, an underscore included (`1_0` gives 1) |
| TextHeader.LoadStopsAtPage | twoDB/database/storage/text_file_handler.go:89-91 | nothing after the first `# PAGE` line affects the loaded header |
| TextHeader.LoadIgnoresBeforeHeader | twoDB/database/storage/text_file_handler.go:82-93 | lines before the `# DATABASE HEADER` line are ignored |
| TextHeader.UnknownSetting | twoDB/database/storage/text_file_handler.go:98-110 | a setting whose key is none of the three known ones is ignored |
| TextHeader.LoadHeaderThenPages | twoDB/database/storage/text_file_handler.go:79-114 | a header recording n pages, followed by any page sections, loads with page count n, page size 4096 and no free ids |
| TextHeader.RewriteCount | twoDB/database/storage/text_file_handler.go:219-224 | rewriting the first `PAGES=<n>` of a header to `PAGES=<k>` gives the header recording k, whatever follows it |
| TextStore.ReadPage | twoDB/database/storage/text_file_handler.go:117-176 | an id of 0 or beyond the page count, and only such an id, is rejected as invalid; a page read carries the id asked for |
| TextFacts.ReadPageFound | twoDB/database/storage/text_file_handler.go:121-173 | a valid id reads a page exactly when the file text contains `PageID: <id>`, and fails with "not found" otherwise |
| TextFacts.LongerIdFound | twoDB/database/storage/text_file_handler.go:135-150 | because the marker is matched as a substring, a file holding page 10n+d yields a page for n even if page n was never written |
| TextStore.Splice | twoDB/database/storage/text_file_handler.go:200-216 | an unseen page is appended after a newline; a seen one replaces the section from the `# PAGE` before its first marker; with no `# PAGE` before it the slice panics |
| TextFacts.SpliceReplacesSection | twoDB/database/storage/text_file_handler.go:203-212 | the replaced span runs from the last `# PAGE` before the marker to the next `# PAGE` after it, or to the end; the text on either side is kept unchanged |
| TextStore.WritePage | twoDB/database/storage/text_file_handler.go:179-235 | the page count never decreases and becomes the page id when that is larger; the page size and free list are kept; the only failure is the splice panic |
| TextReopen.RaisedWriteRecordsCount | twoDB/database/storage/text_file_handler.go:203-224 | when the header records the page count, a write of an id beyond it raises the count to the id and leaves a header that records the new count; the splice never reaches into the header |
| TextRoundTrip.ReadBack | twoDB/database/storage/text_file_handler.go:137-168 | a section preceded by text without its marker and followed by nothing or another section reads back as the page it serialises |
| TextRoundTrip.WriteThenRead | twoDB/database/storage/text_file_handler.go:179-235 | a page whose keys and values survive the `key: value` line format reads back after a write unchanged (LSN, type and payload), for any payload order |
| TextStore.Allocate | twoDB/database/storage/text_file_handler.go:252-260 | a non-empty free list gives its head, drops exactly that id and keeps the page count; otherwise the id is the page count plus one, which becomes the page count |
| TextStore.AllocatePage | twoDB/database/storage/text_file_handler.go:248-269 | the new page is blank (LSN 0, empty type and payload) under the allocated id; the file text is not touched |
| TextFacts.AllocatedIdsOrder | twoDB/database/storage/text_file_handler.go:252-260 | a run of allocations drains the free list in order and then counts up from the page count |
| TextFacts.FreshIdsIncrease | twoDB/database/storage/text_file_handler.go:257-259 | with no free ids, successive allocations give strictly increasing ids above the page count |
| TextFacts.AllocateOpensId | twoDB/database/storage/text_file_handler.go:121-123 | a freshly allocated id is rejected as invalid before the allocation and accepted after it |
| TextReopen.AllocationForgetsCount | twoDB/database/storage/text_file_handler.go:257-259 | after a fresh allocation the file header no longer records the page count held in memory |
| TextReopen.ReopenLosesFirstPage | twoDB/database/storage/text_file_handler.go:219-224 | the first page allocated and written into a new file reads back, yet once the file is reopened reading it fails as an invalid id |
| TextReopen.AllocatePagePersisted | twoDB/database/storage/text_file_handler.go:248-269 | the corrected allocation: the same page and bookkeeping as AllocatePage, with the raised count also written to the header |
| TextReopen.PersistedAllocationRecordsCount | twoDB/database/storage/text_file_handler.go:257-259 | with the corrected allocation the header keeps recording the page count |
| TextReopen.ReopenKeepsFirstPage | twoDB/database/storage/text_file_handler.go:219-224 | with the corrected allocation, reopening the file gives back the same store and the first page still reads |
| PageStore.Read | twoDB/database/storage/text_file_handler.go:121-176 | an id of 0 or beyond the count is invalid, a valid id never written is not found, and a written one gives its page |
| PageStore.ReadAfterWrite | twoDB/database/storage/text_file_handler.go:179-235 | a written page reads back as written |
| PageStore.WriteFrame | twoDB/database/storage/text_file_handler.go:203-212 | a write leaves every other valid id reading as before |
| PageStore.AllocateFresh | twoDB/database/storage/text_file_handler.go:257-259 | with no free ids the new id was invalid before, is valid after, and holds no page yet |
| DataPage.EntryKeyDistinct | storage/page.go:26-28 | `Entry-<n>` keys never equal the counter key, and distinct indices have distinct keys |
| DataPage.AddRecord | storage/page.go:15-33 | fails exactly on a non-`Data` page; otherwise the new index is the counter plus one, the counter becomes it, `Entry-<n>` holds the fields joined with the pipe character, and no other key changes |
| DataPage.GetRecord | storage/page.go:36-54 | fails on a non-`Data` page or an absent entry; a record read carries its index and fields that join back to the stored text |
| DataPage.DeleteRecord | storage/page.go:57-67 | fails on a non-`Data` page or an absent entry; otherwise removes exactly that entry and keeps the counter and the header |
| DataPage.GetAfterAdd | storage/page.go:15-54 | a record of at least one field, none holding the pipe character, reads back after being added |
| DataPage.AddKeepsOthers | storage/page.go:26-29 | adding a record leaves every other entry reading as before |
| DataPage.GetAfterDelete | storage/page.go:57-67 | a deleted entry is not found afterwards; every other entry reads as before |
| DataPage.AddIsFresh | storage/page.go:20-29 | while every entry index is at most the counter, adding never overwrites an entry and keeps that so |
| DataPage.DeleteThenAddNoReuse | storage/page.go:57-67 | an index once deleted is not handed out by the next add |
| StringOrder.BelowTotal | storage/bptree.go:66 | Go's string order is total: two strings are equal or one is below the other |
| StringOrder.SearchStringsSplits | storage/bptree.go:66 | on a sorted list, `sort.SearchStrings` returns the point before which every key is below the searched one and from which none is |
| StringOrder.InsertKeepsSorted | storage/bptree.go:66-68 | inserting at the `sort.SearchStrings` position keeps the keys sorted |
| StringOrder.RemoveKeepsSorted | storage/bptree.go:129 | removing a key keeps the keys sorted |
| BPlusTree.DecodeList | storage/bptree.go:147-152 | an absent or empty field decodes to no elements; otherwise the elements are comma-free and join back to the field |
| BPlusTree.ReadNode | storage/bptree.go:138-155 | a page that cannot be read gives the read's error; otherwise the node holds that page and its parsed `IsLeaf` |
| BPlusTree.EncodeNode | storage/bptree.go:158-164 | writeNode keeps the page header and every payload entry other than `IsLeaf`, `Keys` and `Pointers` |
| BPlusTree.NodeRoundTrip | storage/bptree.go:138-164 | a node whose lists are comma-free and not the single empty key reads back after writeNode as written |
| BPlusTree.PointerRoundTrip | storage/bptree.go:64-99 | a `pageID:entryIndex` pointer with both parts below 2^32 parses back to the same two numbers |
| BPlusTree.ParsePointer | storage/bptree.go:96-98 | a pointer without `:` panics; otherwise both parts parse to values below 2^32 |
| BPlusTree.NewTreeReuses | storage/bptree.go:32-33 | when page 1 reads, it is the root and nothing is written |
| BPlusTree.NewTreeEmpty | storage/bptree.go:32-44 | otherwise a new page past the last becomes an empty leaf root whose header has type `Index`, LSN 0 and the new id, and no other page changes |
| BPlusTree.InsertEntryOk | storage/bptree.go:63-69 | inserting a key and its pointer at the search position keeps the root a well-formed leaf |
| BPlusTree.InsertStep | storage/bptree.go:63-71 | with room in the root, Insert writes the node with the key and pointer placed at the search position |
| BPlusTree.InsertThenFind | storage/bptree.go:54-104 | a key inserted into a root with room is found with the pointer it was given |
| BPlusTree.InsertKeepsLeafOk | storage/bptree.go:54-78 | Insert on a well-formed leaf root always succeeds and leaves a well-formed leaf root |
| BPlusTree.InsertKeepsOthers | storage/bptree.go:54-104 | Insert leaves every other key's lookup unchanged |
| BPlusTree.InsertFullIsNoOp | storage/bptree.go:63-77 | with three keys in the root, Insert succeeds and writes nothing |
| BPlusTree.RootNotLeaf | storage/bptree.go:63-118 | with a non-leaf root, Insert succeeds and writes nothing, while Find and Delete fail |
| BPlusTree.RootUnreadable | storage/bptree.go:57-114 | with an unreadable root, Insert, Find and Delete all report the read's error |
| BPlusTree.FindTotal | storage/bptree.go:81-104 | on a well-formed leaf root Find succeeds, and gives (0, 0) for an absent key |
| BPlusTree.EmptyKeyNotIndexed | storage/bptree.go:147-160 | an empty key inserted into an empty root is written as an empty `Keys` field and is then not found |
| BPlusTree.DeleteMissing | storage/bptree.go:120-134 | Delete fails with "key not found" exactly when the key is absent |
| BPlusTree.DeleteStep | storage/bptree.go:120-131 | Delete of a present key writes the node without the first matching key and its pointer |
| BPlusTree.DeleteThenFind | storage/bptree.go:107-135 | a key held once is no longer found after Delete |
| BPlusTree.DeleteKeepsOthers | storage/bptree.go:107-135 | Delete keeps the root a well-formed leaf and every other key's lookup unchanged |
| BPlusTree.IndexWriteFrame | storage/bptree.go:158-164 | index updates write no page but the root |
| Database.Open | twoDB/database/storage/database.go:18-34 | a valid store whose page 1 reads opens with root 1, unchanged |
| Database.OpenEmpty | twoDB/database/storage/database.go:18-34 | a store without page 1 opens with an empty index after the last page, and the invariant holds |
| Database.Insert | twoDB/database/storage/database.go:42-73 | an id the lookup places on a page other than 0 is rejected as already existing, with nothing written |
| Database.InsertDuplicate | twoDB/database/storage/database.go:47-49 | an indexed id is rejected as already existing, with nothing written |
| Database.StoreRecordFresh | twoDB/database/storage/database.go:53-69 | the record goes onto a new last page of type `Data` as entry 1, and reads back as the given fields |
| Database.InsertFresh | twoDB/database/storage/database.go:53-72 | a new id is stored at (page count + 1, 1) and then indexed, and the call succeeds |
| Database.InsertKeepsDbOk | twoDB/database/storage/database.go:42-73 | inserting a new id succeeds, adds exactly one page and keeps the invariant |
| Database.InsertIndexesKey | twoDB/database/storage/database.go:72 | the new id joins the index at its sorted place while the root has room, and the index is unchanged otherwise |
| Database.InsertThenGet | twoDB/database/storage/database.go:42-97 | with room in the root, a new id inserted with id and data free of the pipe character reads back as the record [id, data], entry 1 |
| Database.InsertWhenFull | twoDB/database/storage/database.go:53-72 | with the root full, the insert still writes a page and reports success, but the id is never found |
| Database.InsertKeepsOthersDb | twoDB/database/storage/database.go:42-73 | inserting a new id leaves every other id's record as it was |
| Database.Get | twoDB/database/storage/database.go:76-97 | a failed lookup's error is returned as is, and a lookup giving page 0 returns no record and no error |
| Database.GetAt | twoDB/database/storage/database.go:89-96 | once the lookup names a page that reads, Get returns that page's record or its record error |
| Database.NotIndexed | twoDB/database/storage/database.go:85-145 | an id not in the index: Get finds nothing, Delete and Update fail as missing and write nothing |
| Database.Delete | twoDB/database/storage/database.go:100-131 | a delete that fails because the record is missing writes nothing |
| Database.DeleteUnreadable | twoDB/database/storage/database.go:114-122 | an indexed id whose page or record cannot be read: Delete reports Get's error and writes nothing |
| Database.DeleteFound | twoDB/database/storage/database.go:100-131 | a readable record's page is written without the record, and then the id is dropped from the index |
| Database.DeleteKeepsDbOk | twoDB/database/storage/database.go:100-131 | deleting a readable record succeeds, keeps the invariant, and removes exactly that id from the index |
| Database.DeleteThenGet | twoDB/database/storage/database.go:100-131 | after a delete, Get of the id finds nothing |
| Database.DeleteKeepsOthersDb | twoDB/database/storage/database.go:100-131 | deleting an id leaves every other id's record as it was |
| Database.Update | twoDB/database/storage/database.go:134-165 | a failing update writes nothing |
| Database.UpdateUnreadable | twoDB/database/storage/database.go:148-157 | an indexed id whose page or record cannot be read: Update reports Get's error and writes nothing |
| Database.UpdateShortRecord | twoDB/database/storage/database.go:161 | a record of a single field makes Update panic, with nothing written |
| Database.UpdateFound | twoDB/database/storage/database.go:159-164 | an update rewrites only the record's own page, with the header kept |
| Database.UpdateThenGet | twoDB/database/storage/database.go:159-164 | after an update the record reads back with field 1 replaced and every other field kept |
| Database.UpdateKeepsDbOk | twoDB/database/storage/database.go:134-165 | an update keeps the invariant and the indexed ids |
| Database.UpdateKeepsOthers | twoDB/database/storage/database.go:134-165 | updating an id leaves every other id's record as it was |

## Left out

- Locking: every `sync.RWMutex` use is dropped; the model is single-threaded.
- File I/O and its failures: `os.Stat`, `Create`, `OpenFile`, `ReadFile`, `Truncate`, `Seek` and `WriteString` are replaced by the file text as a value. No I/O error is modelled, and neither are `Close` and `Scanner.Err()`.
- `bufio.Scanner`'s 64 KiB token limit: a line is any text up to a newline, with a trailing `\r` dropped.
- `fmt.Println` warnings in the index: output only.
- The layers above the file handler run on `PageStore`, its page contract, instead of the file text. The agreement of the text store with that contract is proved only for one page at a time (TextRoundTrip.WriteThenRead). Two things block a general proof. The substring match of markers (TextFacts.LongerIdFound) means a write can change what another id reads. The splice can also panic, while `PageStore.Write` never fails. Third, the text format itself does not carry every payload: `ReadPage` trims white space around every key and value and reads line by line, so the text round trip holds only for pages whose keys and values are trimmed and free of newlines (`TextRoundTrip.Serialisable`). Over the file text, `Insert("k", "v ")` followed by `Get("k")` gives `["k", "v"]`, and data holding a newline is cut at it.
- Multi-level trees: `Children`, `NextLeaf`, traversal, splitting and merging do not exist in the code.
- Page deallocation and the writing back of the free list: no such code exists.
- Integer widths: `PageCount`, LSNs and entry counters are unbounded. `%d` scanning rejects values beyond 64 bits as Go does. Pointer parts are clamped to 2^32 − 1 as `ParseUint(.., 10, 32)` does. The 64-bit wrap of the `EntryIndex` counter is excluded by a precondition in DataPage.AddIsFresh.
- Database.InsertKeepsDbOk: the façade lemmas require an empty free list. With free ids, `AllocatePage` may hand out the root's page or an indexed page, and Insert then overwrites it; the functions model that, but no invariant is proved for it. It also requires an id satisfying `Database.KeyText` and a page count below 2^32 − 1: a comma in the id desynchronises `Keys` and `Pointers`, and a larger page id is clamped when the pointer is parsed.
- Database.InsertThenGet: requires an id that is non-empty and free of commas, because such ids do not survive the comma-joined `Keys` field (see BPlusTree.EmptyKeyNotIndexed); the operations themselves accept any id. It holds over `PageStore`; over the file text the record reads back only when the id and the data are trimmed and free of newlines, since `ReadPage` trims every value and reads line by line.
- Database.DbOk: does not state that the page an index entry names holds the record, so a store that lost every page but the root still meets it. The lemmas that need the record (Database.DeleteKeepsDbOk, Database.UpdateThenGet, Database.UpdateKeepsDbOk) require `Database.Holds` instead. No lemma proves that the façade operations keep every indexed record readable.
- Database.DeleteKeepsDbOk: requires that Get finds the record; when it does not, Database.DeleteUnreadable gives the outcome instead.
- Database.UpdateThenGet: requires new data free of `|`, which would otherwise split into extra fields on the next read. It holds over `PageStore`; over the file text the new data reads back only when it is trimmed and free of newlines, and only when the other fields of the record are too.

## Findings

| source | as written | input that shows it | evidently intended | confidence | as-written member | corrected member |
|---|---|---|---|---|---|---|
| twoDB/database/storage/text_file_handler.go:257-259 | AllocatePage raises the in-memory page count but not the `PAGES=` line. WritePage rewrites that line only for an id above the in-memory count (219-224), so the count of a freshly allocated page never reaches the file | create a new file, allocate page 1, write it, reopen: the header still says `PAGES=0`, and reading page 1 fails as an invalid id | a written page stays readable after the file is reopened | not executed | TextReopen.ReopenLosesFirstPage | TextReopen.ReopenKeepsFirstPage |
