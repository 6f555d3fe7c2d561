# Storage changesets: encoding, range walk and point search

This project models the storage-changeset layer of an Ethereum client's
state history, `src/changeset/storage_utils.rs`, in Dafny.

A block's *storage changeset* lists the contract-storage writes of that block.
Each write has a full key, address ++ incarnation ++ slot hash, and the
slot's value. The layer does three things:

- **`encode_storage`** turns one block's changeset into entries of a
  duplicate-sort key-value table. The store key is the 8-byte big-endian
  block number ++ address ++ incarnation. The store value is the 32-byte
  slot hash ++ the slot value.
- **`walk`** seeks a cursor to the encoded `from` block. It then yields
  decoded entries until the cursor runs off the end (the empty-key sentinel)
  or an entry's block number exceeds `to`. The bound `to` is inclusive.
- **`do_search_2`** looks up the value a slot was written with at a block.
  Its two adapters are `find_in_storage_changeset_2` and
  `find_without_incarnation_in_storage_changeset_2`. With incarnation 0 it
  scans forward from block ++ address while the decoded key still starts
  with the address. With a known incarnation it does one `seek_both_range`
  on the exact block ++ address ++ incarnation key. A hit there requires the
  value to start with the slot hash.

The modules follow that structure:

- `Bytes`: bytes, `u64`, and the lexicographic byte order of the store.
- `BigEndian`: `to_be_bytes` / `from_be_bytes`; round trips and order.
- `Wrappers`: `Option`.
- `Cursor`: the table as a strictly sorted sequence of (key, value)
  entries. `DupSortCursor` is a class whose mutable position is moved by
  `Seek`, `Next` and `SeekBothRange`. `Seek` and `SeekBothRange` are proved
  against the specification functions `LowerBound` and `DupRangeIndex`;
  `Next` states its new position and result directly.
- `StorageLayout`: `encode_storage`, the external decoder
  `from_storage_db_format` taken by its contract, and the laws relating them.
- `StorageWalk`: the `walk` loop as a method. It is proved equal to the
  function `WalkFrom`, whose meaning is then proved (`WalkExact`).
- `StorageSearch`: the seek buffers, built by in-place writes into an
  array and proved equal to the seek-key functions
  `SeekKeyWithoutIncarnation` / `SeekKeyWithIncarnation`. It also holds the
  two search branches as methods and the adapters, all proved equal to
  `SearchSpec`, whose soundness and completeness are lemmas.
- `StorageScenario`: one concrete block. Block 100 writes `DEAD` to slot
  `01…` of the 20-byte address `AA…` at incarnation 1.

External definitions are stated as contracts:

- `from_storage_db_format` gives block = big-endian `key[..8]`,
  key = `key[8..] ++ value[..32]` and value = `value[32..]`.
- `encode_block_number` is the 8-byte big-endian encoding.
- `BLOCK_NUMBER_LENGTH` = 8, `INCARNATION_LENGTH` = 8, `HASH_LENGTH` = 32.

With incarnation 0, the search is guarded by the address prefix only. The
decoded block number is discarded (`src/changeset/storage_utils.rs:91`).
When the requested block holds no matching write, the scan can return a
value written at a later block. The model follows the code here.
`SearchWithoutIncarnationSound` proves that, for an address of the prefix
length, a hit comes from the requested block or a later one, with the same
address and slot. A shorter address matches every longer address it is a
prefix of.
`SearchWithoutIncarnationCrossesBlocks` shows that the later-block case
really happens. It is a consequence of the code's design and is not
reported as a defect.

## Model

| member | source | states |
|---|---|---|
| BigEndian.EncodeU64 | src/changeset/storage_utils.rs:83 | `to_be_bytes` yields 8 bytes whose big-endian value is the number |
| BigEndian.DecodeU64 | src/changeset/storage_utils.rs:50 | `from_be_bytes` of 8 bytes yields the number whose encoding is exactly those bytes |
| BigEndian.DecodeEncodeU64 | src/changeset/storage_utils.rs:50 | `u64::from_be_bytes` undoes `to_be_bytes`: decoding the 8 encoded bytes gives the number back |
| BigEndian.EncodeDecodeU64 | src/changeset/storage_utils.rs:50 | every 8-byte string is the encoding of the number it decodes to |
| BigEndian.EncodeU64Order | src/changeset/storage_utils.rs:19 | big-endian encodings compare in byte order exactly as the numbers compare, in both directions |
| BigEndian.BeOrder | src/changeset/storage_utils.rs:19 | for equal-length strings, byte order agrees with numeric big-endian order, in both directions |
| Cursor.LowerBound | src/changeset/storage_utils.rs:19 | `seek(t)` lands on the first entry whose key is at least `t`: every skipped entry is below `t`, the landing entry is not, and the end means no such entry |
| Cursor.DupRangeIndex | src/changeset/storage_utils.rs:117 | `seek_both_range(k, p)` lands on the first entry with key exactly `k` and value at least `p`; every skipped entry fails that test |
| Cursor.AtOrAfterLowerBound | src/changeset/storage_utils.rs:19 | in a sorted table every entry at or after the seek position has a key of at least the seek key |
| Cursor.DupSortCursor.Seek | src/changeset/storage_utils.rs:19 | `seek` moves the cursor to `LowerBound` and returns that entry, or the empty-key sentinel past the end |
| Cursor.DupSortCursor.Next | src/changeset/storage_utils.rs:32 | `next` advances the position by one and returns the new entry, or the sentinel; past the end it stays there |
| Cursor.DupSortCursor.SeekBothRange | src/changeset/storage_utils.rs:117 | `seek_both_range` moves the cursor to `DupRangeIndex` and returns that entry, or the sentinel |
| StorageLayout.EncodeBlockNumber | src/changeset/storage_utils.rs:19 | `encode_block_number` yields 8 bytes that decode back to the block number |
| StorageLayout.SeekKeyVersusBlock | src/changeset/storage_utils.rs:19 | a store key sorts at or after the encoded `from` exactly when its block number is at least `from` |
| StorageLayout.FromStorageDbFormat | src/changeset/storage_utils.rs:91 | the external decoder, by its stated contract: the decoded key has length key minus 8 plus 32, and block encoding ++ key ++ value re-assemble store key ++ store value, so nothing is lost or invented; the search branches call it directly, as the closure `from_storage_db_format(key_prefix_len)` is applied at lines 91 and 126; the constant `StorageDecoder` is the same function as a closure, which the walk lemmas pass as the injected decoder called at line 25 |
| StorageLayout.EncodeEntry | src/changeset/storage_utils.rs:139-147 | the store key is 8 + prefixLen + 8 bytes long and carries the block number; the store key after its block number, followed by the store value, equals the changeset key followed by its value |
| StorageLayout.EncodeStorage | src/changeset/storage_utils.rs:136-150 | exactly one entry per change, the n-th entry being the encoding of the n-th change |
| StorageLayout.EncodeStorageAppend | src/changeset/storage_utils.rs:136 | encoding a concatenation is the concatenation of the encodings, since the map is element-wise and keeps order |
| StorageLayout.DecodeEncode | src/changeset/storage_utils.rs:139-147 | decoding an encoded change gives back (block, key, value) |
| StorageLayout.EncodeDecode | src/changeset/storage_utils.rs:139-147 | re-encoding a decoded storage-shaped entry gives back the entry |
| StorageLayout.EncodeEntryOrder | src/changeset/storage_utils.rs:141-147 | two changes of one block encode in the order of their changeset keys, in the table's key-then-value order |
| StorageLayout.EncodeEntrySlots | src/changeset/storage_utils.rs:141-147 | two different changes never share both store key and slot hash |
| StorageLayout.EncodeStorageTable | src/changeset/storage_utils.rs:136-150 | a sorted, well-formed changeset encodes to a strictly sorted duplicate-sort table with nonempty keys, the storage shape, and one slot per key |
| StorageLayout.AppendLaterBlock | src/changeset/storage_utils.rs:136-150 | appending a later block's encoding to a sorted history keeps the table sorted and storage-shaped, and keeps one slot per key when the history had that |
| StorageLayout.AppendUniqueSlots | src/changeset/storage_utils.rs:141-142 | entries of different blocks never share a store key, so one slot per key survives appending a later block |
| StorageWalk.WalkFrom | src/changeset/storage_utils.rs:20-32 | what the loop yields from a position: never more than the remaining entries, and only entries whose block is at most `to` |
| StorageWalk.WalkFromShape | src/changeset/storage_utils.rs:20-32 | the loop yields consecutive entries from its start, decoded, each with block at most `to`; it stops only at the end or at the first entry whose block exceeds `to` |
| StorageWalk.StorageDecoderIsBlockLeading | src/changeset/storage_utils.rs:25 | on a storage-shaped table the decoder is defined everywhere and reports the block number the key starts with |
| StorageWalk.SortedBlocksLe | src/changeset/storage_utils.rs:26 | in a sorted table block numbers never decrease, so stopping at the first block past `to` loses nothing |
| StorageWalk.StartVersusBlock | src/changeset/storage_utils.rs:19 | an entry lies at or after the walk's start exactly when its block is at least `from` |
| StorageWalk.PastStopVersusBlock | src/changeset/storage_utils.rs:26-27 | every entry at or after the one the walk stopped on has a block past `to` |
| StorageWalk.WalkExact | src/changeset/storage_utils.rs:18-33 | the walk yields exactly the entries whose block lies in `from ..= to` (both ends inclusive), decoded, in table order; on an empty table it yields nothing |
| StorageWalk.WalkWholeBlock | src/changeset/storage_utils.rs:18-33 | a table holding one block is walked whole, entry by entry, over `blockN ..= blockN` |
| StorageWalk.WalkEncodedBlock | src/changeset/storage_utils.rs:18-33 | walking one block's encoded changeset over that block gives back every change, tagged with the block, in order |
| StorageWalk.Walk | src/changeset/storage_utils.rs:18-33 | the imperative loop over the cursor returns exactly `WalkFrom` from the seek position of `from`, and leaves the cursor on the entry it stopped at, one past the last yielded |
| StorageSearch.Fit | src/changeset/storage_utils.rs:84 | writing an address into the zeroed address field leaves the field's width, and the address itself when its length is the prefix length |
| StorageSearch.CopyFromSlice | src/changeset/storage_utils.rs:109 | `copy_from_slice` replaces exactly `buf[lo..hi]` with the source and leaves the rest |
| StorageSearch.WriteSlice | src/changeset/storage_utils.rs:83-84 | `write` on a slice copies as much of the source as fits, reports how much, and leaves the rest |
| StorageSearch.BuildSeekWithoutIncarnation | src/changeset/storage_utils.rs:82-84 | the buffer holds the big-endian block number followed by the address fitted to the prefix length |
| StorageSearch.BuildSeekWithIncarnation | src/changeset/storage_utils.rs:107-115 | the buffer holds block number ++ fitted address ++ big-endian incarnation |
| StorageSearch.ScanFrom | src/changeset/storage_utils.rs:86-102 | the scan from a position: a hit has a 32-byte slot hash and comes from an entry at or after that position whose decoded key starts with the address and whose value is slot hash ++ returned value |
| StorageSearch.DupLookup | src/changeset/storage_utils.rs:117-128 | the duplicate lookup: a hit comes from an entry with exactly the given key whose value starts with the slot hash, and returns the rest of that value |
| StorageSearch.SearchSpec | src/changeset/storage_utils.rs:73-129 | `do_search_2` on a table: a hit is the slot value of a stored entry whose value starts with the slot hash; with a known incarnation that entry has exactly the key block ++ address ++ incarnation |
| StorageSearch.ScanStop | src/changeset/storage_utils.rs:86-102 | where the scan leaves the cursor: a position at or after the start, every entry before it carries the address with another slot hash, and the entry there (if any) lacks the address or has the slot hash |
| StorageSearch.SearchStop | src/changeset/storage_utils.rs:81-117 | where `do_search_2` leaves the cursor: the scan's stop for incarnation 0, the `seek_both_range` landing otherwise; never past the end |
| StorageSearch.ScanFromAtStop | src/changeset/storage_utils.rs:86-104 | the scan hits exactly when it stops on an entry of the table carrying the address, and the hit is that entry's value after the slot hash |
| StorageSearch.SearchAtStop | src/changeset/storage_utils.rs:81-128 | `do_search_2` hits exactly when the entry the cursor is left on exists and passes the branch's test (address prefix, or slot-hash prefix), and returns that entry's value after the slot hash |
| StorageSearch.SearchWithoutIncarnation | src/changeset/storage_utils.rs:81-104 | the zero-incarnation loop returns the `SearchSpec` scan: from the first entry at or after the seek key, the first entry whose slot hash matches, stopping at the first key without the address or at the end; the cursor is left at `SearchStop`, the entry the scan stopped on |
| StorageSearch.SearchWithIncarnation | src/changeset/storage_utils.rs:107-128 | the known-incarnation branch returns the `SearchSpec` duplicate lookup: None at the sentinel or when the value lacks the slot hash, otherwise the decoded value; the cursor is left at `SearchStop`, the `DupRangeIndex` of the exact key and slot |
| StorageSearch.DoSearch2 | src/changeset/storage_utils.rs:73-129 | `do_search_2` returns `SearchSpec`, taking the scan for incarnation 0 and the duplicate lookup otherwise, and leaves the cursor at `SearchStop` |
| StorageSearch.ParseStorageKey | src/changeset/storage_utils.rs:47-50 | the address, slot hash and incarnation sliced from a full key have widths prefixLen, 32 and 8, and reassembled give the key back |
| StorageSearch.FindInStorageChangeset2 | src/changeset/storage_utils.rs:37-53 | the adapter searches with the address, slot hash and incarnation parsed from the key, returning `SearchSpec` and leaving the cursor at `SearchStop` of those parts |
| StorageSearch.FindWithoutIncarnationInStorageChangeset2 | src/changeset/storage_utils.rs:55-71 | the adapter is the search with incarnation 0: it returns `SearchSpec` and leaves the cursor at `SearchStop` with incarnation 0 |
| StorageSearch.SearchWithoutIncarnationSound | src/changeset/storage_utils.rs:81-104 | a zero-incarnation hit comes from an entry of exactly this address, with this slot hash and the returned value, at the requested block or later |
| StorageSearch.DecodedKeyAddress | src/changeset/storage_utils.rs:91-92 | the decoded key starts with the address exactly when the store key carries the address after the block number |
| StorageSearch.AtOrAfterSeekBlock | src/changeset/storage_utils.rs:85 | every entry at or after the seek position holds a block of at least the requested one |
| StorageSearch.ScanReaches | src/changeset/storage_utils.rs:86-102 | from any position between the seek key and a matching entry, the scan finds a hit whose entry carries block ++ address |
| StorageSearch.SearchWithoutIncarnationComplete | src/changeset/storage_utils.rs:81-104 | if the block holds a write of this address and slot under any incarnation, the zero-incarnation search finds a value written at that block to that address and slot |
| StorageSearch.SearchWithoutIncarnationCrossesBlocks | src/changeset/storage_utils.rs:91-92 | the scan ignores the decoded block: a table holding only a later block's write returns that write for an earlier block |
| StorageSearch.DupLookupSound | src/changeset/storage_utils.rs:117-128 | a duplicate-lookup hit is an entry (key, slot hash ++ returned value) |
| StorageSearch.DupLookupComplete | src/changeset/storage_utils.rs:117-124 | when some entry of the key has a value starting with the slot hash, the lookup hits |
| StorageSearch.SearchWithIncarnationFound | src/changeset/storage_utils.rs:107-124 | with a known incarnation the search hits exactly when the exact key block ++ address ++ incarnation has a value starting with the slot hash |
| StorageSearch.SearchWithIncarnationExact | src/changeset/storage_utils.rs:107-128 | with one value per slot and key, the known-incarnation search returns `v` exactly when the table holds (block ++ address ++ incarnation, slot ++ v) |
| StorageSearch.EncodeEntryOfParsedKey | src/changeset/storage_utils.rs:47-50 | a change's encoded entry is (block ++ address ++ incarnation, slot ++ value) for the parts its key parses into |
| StorageSearch.FindInEncodedChangeset | src/changeset/storage_utils.rs:43-51 | looking up a change of an encoded block by its full key, with nonzero incarnation, returns exactly its value |
| StorageSearch.FindInHistory | src/changeset/storage_utils.rs:43-51 | on a history of earlier blocks followed by this block's encoded changeset, with one slot per key in the history, the full-key lookup returns exactly the change's value |
| StorageSearch.EncodeEntryMatches | src/changeset/storage_utils.rs:139-147 | an encoded entry carries block ++ address and slot ++ v exactly when the change has that address, slot and value |
| StorageSearch.FindWithoutIncarnationInEncodedChangeset | src/changeset/storage_utils.rs:62-69 | looking up address and slot of an encoded block without incarnation returns the value of some change of the block to that address and slot |
| StorageScenario.StorageKey | src/changeset/storage_utils.rs:47-50 | the example key is 20 + 8 + 32 bytes long |
| StorageScenario.Changes | src/changeset/storage_utils.rs:136 | the example changeset is well formed and sorted |
| StorageScenario.Table | src/changeset/storage_utils.rs:136-150 | its encoding is one entry, sorted, storage-shaped |
| StorageScenario.ParseScenarioKey | src/changeset/storage_utils.rs:47-50 | the example key parses into address `AA…`, slot `01…` and incarnation 1 |
| StorageScenario.ScenarioFind | src/changeset/storage_utils.rs:43-51 | lookup(100, `AA…`, 1, `01…`) is `Some(DEAD)` |
| StorageScenario.ScenarioOtherSlot | src/changeset/storage_utils.rs:117-124 | lookup(100, `AA…`, 1, `02…`) is `None` |
| StorageScenario.ScenarioFindWithoutIncarnation | src/changeset/storage_utils.rs:62-69 | the lookup without incarnation is `Some(DEAD)` too |
| StorageScenario.ScenarioWalk | src/changeset/storage_utils.rs:18-33 | walk(100, 100) yields exactly (100, `AA…`‖1‖`01…`, `DEAD`) |

## Left out

- The async machinery (`try_stream!`, `.await`, `impl Stream`) is left out. `walk` returns the sequence of everything the stream yields.
- Cursor I/O errors and their `anyhow` propagation are left out. The abstract cursor cannot fail, so partial results before a failure are not modelled.
- The real duplicate-sort cursor over the database is replaced by a sorted in-memory sequence with a position.
- `Bytes`/`BytesMut` allocation and the capacity hint at line 145 are left out; only the bytes put are modelled.
- The ignored `write` result at line 83 and the `unwrap` at lines 84 and 113 are modelled as the truncating write. A slice write never fails, so the `unwrap` cannot panic.
- `from_storage_db_format`, `encode_block_number`, the `common` constants and `ChangeSet` are defined elsewhere. They are modelled by the contracts stated above. `ChangeSet` is a sequence of changes; its sortedness is a precondition of the lemmas that need it.
- StorageSearch.DoSearch2: requires every table entry to have the storage shape (`StorageTable`), because the external decoder slices `key[..8]` and `value[..32]`. Its panic on a malformed entry is not modelled.
- StorageLayout.EncodeStorage: requires every changeset key to hold at least prefixLen + 8 bytes (`Splittable`, and the same bound on `EncodeEntry`). A shorter key makes the slicing at line 143 panic, and that panic is not modelled.
- StorageWalk.Walk: requires the decoder to be defined on every entry (`Decodable`). A decoder that panics is not modelled.
- StorageSearch.FindInStorageChangeset2: requires the key to hold at least prefixLen + 8 + 32 bytes. A shorter key makes the source's slicing panic, and that panic is not modelled.
- StorageSearch.SearchWithoutIncarnationSound: states only that the hit's block is at least the requested one. The code does not confine the scan to the requested block, and `SearchWithoutIncarnationCrossesBlocks` shows it can leave that block.
- StorageSearch.FindWithoutIncarnationInEncodedChangeset: states that some change to the address and slot supplies the value, not which one. With several incarnations of one address in a block, the scan returns the first in key order.
- Cursor.DupSortCursor.Valid: requires that no stored key is empty (`NonEmptyKeys`), so the empty-key sentinel at lines 21, 87 and 118 always means end of data. This costs nothing here, because every seek key is at least 8 bytes long and an empty key would sort before all of them, so neither `seek` nor `next` could land on such a key.
- The account-changeset encoding, state reconstruction and state-root computation are outside this layer and are left out.
