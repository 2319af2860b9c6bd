# rsam cache core in Dafny

This project models two parts of rsam, a toolkit for the file cache of the RuneScape 317
client.

**The archive codec** (`Archive`). An archive is a map from 32-bit name hashes to entries.
Each entry holds a hash, an uncompressed size, a compressed size and its data. The map keeps
insertion order, as Java's `LinkedHashMap` does.

The container written by `encode` and read by `decode` has this layout:
- two 24-bit lengths;
- a 16-bit entry count;
- one 10-byte record per entry: the hash, then the two sizes in 24 bits each;
- the entry data, in map order.

The two lengths tell whether the rest is stored raw or bzip2-compressed as a whole. Equal
lengths mean raw. In that case every entry's data is bzip2-compressed on its own, and
`readFile` decompresses it on the way out. Different lengths mean the whole region was
compressed; such an archive is called *extracted*, and its entries are stored raw.

`encodeChecksum` builds the manifest. It holds the CRC-32 of every archive's encoding, then the
low 16 bits of a shift-and-add fold of those CRCs, seeded at 1234.

**The store registry** (`IndexedFileSystem`). It has 255 slots, each empty or holding an open
file store. The disk is reduced to two facts:
- whether `main_file_cache.dat` exists;
- the set of ids `i` for which `main_file_cache.idx<i>` exists.

The registry covers loading, creating and removing stores, reset and close, the store count,
and defragmentation: its reading loop, the reset, the deletion of the data file, the reload
that then fails, and the write-back.

Modules:
- `Wrappers`: `Option` and `Result`.
- `Bytes`: bytes, Java ints, and the big-endian 16-, 24- and 32-bit fields, with their
  write-then-read round trips.
- `EntryMap`: the `LinkedHashMap` as a sequence of key/entry slots, with `put`, `replace`,
  `remove`, the constructor's bulk insertion, and reference definitions to check them against.
- `ArchiveFormat`: functions giving the exact bytes `encode` produces (`Encoding`), what
  `decode` reads back (`Decoding`), and the manifest. Also the lemmas about them: layout,
  round trips, and the closed form of the fold.
- `Archives`: the class `Archive`. Its methods work like the Java ones:
  - `Encode` and `EncodeChecksum` fill byte arrays with loops;
  - `Decode` runs one cursor over the records and one over the data;
  - the map operations update the `entries` field.

  Each method is proved against the `ArchiveFormat` or `EntryMap` function that specifies it.
- `FileSystem`: the class `IndexedFileSystem`. It has an array of 255 optional store handles,
  the `loaded` flag, the abstract disk, and a log of the handles `close` has closed. A handle
  records the id it was opened with and the index file it holds, so two handles that share
  an id stay distinct.

Some behaviour comes from code that is not part of this model. These parts are function-valued
parameters:
- bzip2 (`Compressor`), with the property that decompression undoes compression (`Reverses`),
  required only by the round-trip lemmas, and the property that decompression fills an array
  of the length it is given (`FillsLength`);
- CRC-32 (`crc32`);
- `RSFileStore.readFile` (`read`);
- the directory listing `defragment` asks for, reduced to whether it succeeds (`listed`), and
  `RSFileStore.getFileCount` (`fileCount`), both parameters of `Defragment`.

Where the code and its informal description disagree, the model follows the code:
- `rename` keeps the old key and changes only the hash stored in the entry. Afterwards
  `readFile` and `indexOf`, which scan the stored hashes, find the file under the new hash
  and no longer under the old one. `contains` and `getEntry`, which look up keys, still find
  it under the old hash and not under the new one (`RenameSplitsLookups`).
- A `writeFile` under the new hash after such a `rename` appends a second mapping under the
  new key, but `readFile` of that hash still returns the renamed file's old contents, because
  the scan meets the renamed entry first (`RenameThenWriteReadsOld`).
- `replaceFile` replaces nothing: its presence test is inverted (see Findings).
- The `extracted` flag means the reverse of what its informal description says. That
  description calls an archive with two different lengths not extracted, and has `encode`
  compress the whole region when the archive is not extracted. The code sets `extracted` for
  different lengths (Archive.java:70-76) and compresses the whole region when `extracted`
  is set (Archive.java:140-151). The model follows the code throughout.
- The value stored after the CRCs does not depend on every CRC, nor on every bit of one.
  Only the low 16 bits of the fold are stored, and CRC i reaches them only through its low
  16-(n-1-i) bits. The high 16 bits of the last CRC never reach them (`ManifestSeesLastCrc`),
  and with more than 16 CRCs the stored value depends only on the last 16
  (`TrailerOfLast16`, `ManifestMissesEarlyCrcs`). The comment at Archive.java:158 also calls
  that value an int, but line 188 writes a short (see Findings).
- The registry can hold stores while `loaded` is false, because `createStore` fills a slot
  without loading.
- A store opened by `load` gets the id of its slot. A store opened by `createStore` gets the
  slot plus one (`CreatedAndReloadedIds`).
- `removeStore` on an id in range succeeds even when no store or index file has that id, and
  it still resets the whole registry.
- `put` of a key already in the archive's map replaces the entry in its old position; it does
  not move it to the end (`PutSpec`, `DuplicateKeepsPosition`).
- `defragment` reads every store, resets, and deletes the data file. The index files it then
  deletes are named `main_file.cache.idx<i>`, so the real index files stay. The `load` that
  follows fails because the data file is gone, so every slot stays empty. The write-back then
  fails as soon as a store had a file, and it returns true only when no store held any file
  (`DefragmentAfterLoad`). Before that, its reading loop files each store's files under the
  slot index instead of the store id. A store made by `createStore` in slot k has id k + 1,
  so k is usually no key of its map. When that store holds files, `defragment` fails before
  changing anything (`CreatedStoreFails`). A freshly created store holds none; `defragment`
  then goes on as after a load. Such a store can share its id with the store `load` opened
  in the next slot. The reading loop then files the second store's files under that shared
  id, and the write-back fails on them (`SharedId`).

## Model

| member | source | states |
|---|---|---|
| Bytes.U24RoundTrip | src/io/nshusa/rsam/binary/Archive.java:66-67 | readU24Int at the place where write24Int wrote v returns the low 24 bits of v |
| Bytes.U16RoundTrip | src/io/nshusa/rsam/binary/Archive.java:80 | getShort & 0xFFFF after putShort((short) v) returns the low 16 bits of v |
| Bytes.I32RoundTrip | src/io/nshusa/rsam/binary/Archive.java:93 | getInt after putInt(v) returns v, for every Java int including negative hashes |
| EntryMap.FindHash | src/io/nshusa/rsam/binary/Archive.java:293-303 | the first position whose entry carries hash h, or -1 exactly when no entry does |
| EntryMap.PutSpec | src/io/nshusa/rsam/binary/Archive.java:254 | put on a present key replaces the value in its place; on an absent key it appends; every other key's lookup is unchanged and the keys gain k |
| EntryMap.PutPosition | src/io/nshusa/rsam/binary/Archive.java:254 | after put the key sits at its old position, or last when it was new, and no key is duplicated |
| EntryMap.ReplaceSpec | src/io/nshusa/rsam/binary/Archive.java:233 | replace is put when the key is present and changes nothing otherwise; the keys never change |
| EntryMap.RemoveSpec | src/io/nshusa/rsam/binary/Archive.java:319 | remove equals the reference filter WithoutKey (every other mapping kept, in order), the keys lose k, and the size drops by one exactly when k was present |
| EntryMap.PutAllUnique | src/io/nshusa/rsam/binary/Archive.java:61-63 | the constructor's insertions never produce a duplicate key |
| EntryMap.PutAllHashes | src/io/nshusa/rsam/binary/Archive.java:61-63 | every key the constructor inserts is the hash carried by its entry |
| EntryMap.DuplicateKeepsPosition | src/io/nshusa/rsam/binary/Archive.java:62 | a later entry with an already inserted hash overwrites the value but keeps the first one's position, and the size does not grow |
| EntryMap.PutAllValues | src/io/nshusa/rsam/binary/Archive.java:61-63 | inserting the values of a duplicate-free, hash-keyed map into an empty map rebuilds that map, in order |
| EntryMap.KeyCount | src/io/nshusa/rsam/binary/Archive.java:325-327 | a map without duplicate keys has as many mappings as distinct keys |
| ArchiveFormat.BlobLength | src/io/nshusa/rsam/binary/Archive.java:110-114 | the region encode writes is 2 + 10n + the sum of the compressed sizes long |
| ArchiveFormat.RawEncodingHeader | src/io/nshusa/rsam/binary/Archive.java:110-125 | not extracted: 6 + S bytes, both 24-bit fields hold S, then the 16-bit count; encode fails exactly when the data is longer than the compressed sizes reserve |
| ArchiveFormat.RawEncodingBody | src/io/nshusa/rsam/binary/Archive.java:127-139 | not extracted: record i at 8 + 10i, then every entry's data in map order, then zeros up to the end |
| ArchiveFormat.CompressedEncodingLayout | src/io/nshusa/rsam/binary/Archive.java:140-151 | extracted: fails exactly when bzip2 leaves the length unchanged; otherwise the raw and compressed lengths in 24 bits, then the compressed bytes |
| ArchiveFormat.BlobParses | src/io/nshusa/rsam/binary/Archive.java:125-135 | the count, table and data region parses back to the same entries in the same order, wherever it is placed |
| ArchiveFormat.TableEntries | src/io/nshusa/rsam/binary/Archive.java:88-101 | a buffer holding the table and data of es at a position reads back as es with both cursors |
| ArchiveFormat.DecodingCompressed | src/io/nshusa/rsam/binary/Archive.java:71-78 | two different lengths: decode parses what decompressing the compressed bytes to the first length yields, and marks the archive extracted |
| ArchiveFormat.RawRoundTrip | src/io/nshusa/rsam/binary/Archive.java:65-107 | decode(encode(a)) of an archive that is not extracted yields the same entries in the same order, not extracted |
| ArchiveFormat.CompressedRoundTrip | src/io/nshusa/rsam/binary/Archive.java:65-107 | decode(encode(a)) of an extracted archive yields the same entries in the same order, extracted, when decompression undoes compression and the lengths fit in 24 bits |
| ArchiveFormat.ParseLayout | src/io/nshusa/rsam/binary/Archive.java:80-101 | decode reads n from the count field, and entry i is record i with the data at the running sum of the earlier compressed sizes, which never decreases |
| ArchiveFormat.ParsedSizes | src/io/nshusa/rsam/binary/Archive.java:97-98 | every decoded entry's data is exactly its compressed size long, and the sizes add up to the data region read |
| ArchiveFormat.EntryAtSize | src/io/nshusa/rsam/binary/Archive.java:95-100 | the entry read for record i carries the compressed size of the record and that many bytes of data |
| ArchiveFormat.RecordRead | src/io/nshusa/rsam/binary/Archive.java:93-95 | the three fields read from a written record are the entry's hash and sizes, when the sizes fit in 24 bits |
| ArchiveFormat.ManifestLayout | src/io/nshusa/rsam/binary/Archive.java:157-191 | the manifest is 4n + 4 bytes: CRC i big-endian at 4i, the low 16 bits of the fold at 4n, and two zero bytes |
| ArchiveFormat.FoldClosedForm | src/io/nshusa/rsam/binary/Archive.java:182-186 | the fold equals 1234 * 2^n + the sum of crc_i * 2^(n-1-i), modulo 2^32 |
| ArchiveFormat.ManifestSeesLastCrc | src/io/nshusa/rsam/binary/Archive.java:184-188 | two lists differing only in their last CRC get the same stored fold value exactly when those CRCs agree in their low 16 bits |
| ArchiveFormat.TrailerOfLast16 | src/io/nshusa/rsam/binary/Archive.java:182-188 | with at least 16 CRCs at the end, the stored fold value is the low 16 bits of those CRCs weighted by their distance from the end, whatever precedes them |
| ArchiveFormat.ManifestMissesEarlyCrcs | src/io/nshusa/rsam/binary/Archive.java:182-188 | two CRC lists ending in the same 16 CRCs have manifests with the same two bytes after the CRCs |
| ArchiveFormat.ManifestTrailerNotInt | src/io/nshusa/rsam/binary/Archive.java:158-188 | with no archives the fold is 1234, but the four bytes after the CRCs read as the int 1234 * 2^16; with an int trailer they read as 1234 |
| ArchiveFormat.IntManifestTrailer | src/io/nshusa/rsam/binary/Archive.java:158-159 | with the fold written as an int, the CRCs are unchanged and the int after them reads back as all 32 bits of the fold |
| ArchiveFormat.IntManifestSeesLastCrc | src/io/nshusa/rsam/binary/Archive.java:158-186 | with the fold written as an int, any two different last CRCs give different trailing ints |
| ArchiveFormat.ManifestTrailer | src/io/nshusa/rsam/binary/Archive.java:188 | the two bytes after the CRCs read back as the low 16 bits of the fold |
| Archives.NewEntry | src/io/nshusa/rsam/binary/Archive.java:246-252 | the entry writeFile and replaceFile build: the given hash, the data's length as uncompressed size, data exactly as long as the compressed size; raw when extracted, decompressing back to the data otherwise |
| Archives.FileContents | src/io/nshusa/rsam/binary/Archive.java:197-214 | readFile fails with FileNotFound exactly when no entry carries the hash; a decompressed result is as long as the entry's uncompressed size, given that debzip2 fills the array it is handed |
| Archives.Checksums | src/io/nshusa/rsam/binary/Archive.java:165-179 | when the CRCs exist, there is one per archive |
| Archives.ChecksumsOfEncodings | src/io/nshusa/rsam/binary/Archive.java:164-179 | the CRC loop over the archives is the CRC loop over their encode results, in order |
| Archives.CrcListAt | src/io/nshusa/rsam/binary/Archive.java:164-179 | over encode results: Ok exactly when every result is, then CRC i is that of result i; otherwise the first failing result's error |
| Archives.ChecksumsOk | src/io/nshusa/rsam/binary/Archive.java:165-179 | the CRCs exist exactly when every archive's encode succeeds |
| Archives.ChecksumsAt | src/io/nshusa/rsam/binary/Archive.java:169-175 | CRC i is the CRC-32 of archive i's encoding |
| Archives.ChecksumsFirstError | src/io/nshusa/rsam/binary/Archive.java:169 | a failure carries the error of the first archive whose encode fails, all earlier ones having succeeded |
| Archives.ChecksumsKeepError | src/io/nshusa/rsam/binary/Archive.java:170 | once an archive's encode fails, encodeChecksum fails with that error whatever follows |
| Archives.Archive.constructor | src/io/nshusa/rsam/binary/Archive.java:61-63 | the entries are put in array order under their own hashes; the map has no duplicate keys and every key is its entry's hash |
| Archives.Archive.Encode | src/io/nshusa/rsam/binary/Archive.java:109-155 | the bytes the array buffer holds are exactly Encoding of the entries in map order; overflow and equal-length compression fail |
| Archives.Archive.Decode | src/io/nshusa/rsam/binary/Archive.java:65-107 | fails exactly as Decoding does; otherwise a fresh archive with Decoding's extracted flag and the decoded entries put in order |
| Archives.Archive.ParseEntries | src/io/nshusa/rsam/binary/Archive.java:80-101 | the count and record loop of decode returns exactly ParseTable |
| Archives.Archive.ReadEntries | src/io/nshusa/rsam/binary/Archive.java:88-101 | the record loop underflows exactly when the recorded sizes run past the buffer, and otherwise reads every entry |
| Archives.Archive.ReadEntry | src/io/nshusa/rsam/binary/Archive.java:93-100 | one turn reads record i and the data at the data cursor, and moves the cursor by the compressed size |
| Archives.Archive.EncodeChecksum | src/io/nshusa/rsam/binary/Archive.java:157-191 | the manifest of the CRCs of every archive's encoding, or the first encode error |
| Archives.Archive.CollectCrcs | src/io/nshusa/rsam/binary/Archive.java:165-179 | the CRC loop returns exactly Checksums |
| Archives.Archive.ReadFile | src/io/nshusa/rsam/binary/Archive.java:197-214 | the first entry in map order carrying the hash: its data decompressed unless extracted, raw otherwise; FileNotFound when there is none |
| Archives.Archive.ReplaceFile | src/io/nshusa/rsam/binary/Archive.java:220-235 | as written: reports success exactly when the old hash is absent, and never changes the map |
| Archives.Archive.ReplaceFileIntended | src/io/nshusa/rsam/binary/Archive.java:220-235 | corrected guard: succeeds exactly when the old hash is present, and then stores the new entry in the old one's place; the keys do not change |
| Archives.Archive.WriteFile | src/io/nshusa/rsam/binary/Archive.java:241-256 | always true; the new entry is put under its hash, in place of an existing one or last |
| Archives.Archive.Rename | src/io/nshusa/rsam/binary/Archive.java:262-275 | succeeds exactly when the old hash is a key; the entry under it gets the new hash with sizes and data kept, under the same key and place |
| Archives.Archive.GetEntry | src/io/nshusa/rsam/binary/Archive.java:281-287 | FileNotFound exactly when the hash is not a key; otherwise the entry stored under it |
| Archives.Archive.IndexOf | src/io/nshusa/rsam/binary/Archive.java:293-303 | the loop returns FindHash: the first position carrying the hash, or -1 |
| Archives.Archive.Contains | src/io/nshusa/rsam/binary/Archive.java:309-311 | true exactly when the hash is a key |
| Archives.Archive.Remove | src/io/nshusa/rsam/binary/Archive.java:317-323 | true exactly when the hash was a key; the map becomes WithoutKey, every other mapping kept in order |
| Archives.Archive.GetEntryCount | src/io/nshusa/rsam/binary/Archive.java:325-327 | the number of distinct keys |
| Archives.ReservedSize | src/io/nshusa/rsam/binary/Archive.java:110-114 | the size loop computes 2 + 10n + the sum of the compressed sizes |
| Archives.WriteTable | src/io/nshusa/rsam/binary/Archive.java:127-131 | the record loop writes exactly the table behind what was written before |
| Archives.WritePayloads | src/io/nshusa/rsam/binary/Archive.java:133-135 | the data loop fits exactly when all the data fits, and then writes it in map order |
| Archives.WriteRegion | src/io/nshusa/rsam/binary/Archive.java:125-135 | count, table and data fill the reserved buffer exactly when Blob succeeds, and then hold the region |
| Archives.WriteBytes | src/io/nshusa/rsam/binary/Archive.java:134 | a put at the position appends its bytes and leaves the rest of the buffer zero |
| Archives.Compress | src/io/nshusa/rsam/binary/Archive.java:140-151 | fails when bzip2 keeps the length; otherwise both lengths in 24 bits, then the compressed bytes |
| Archives.FoldCrcs | src/io/nshusa/rsam/binary/Archive.java:182-186 | the fold loop computes Fold in 32-bit arithmetic |
| Archives.WriteCrcs | src/io/nshusa/rsam/binary/Archive.java:178 | the putInt loop writes every CRC big-endian, in order, and leaves the last four bytes zero |
| Archives.WriteManifest | src/io/nshusa/rsam/binary/Archive.java:159-188 | the manifest buffer holds exactly Manifest of the CRCs |
| Archives.Renamed | src/io/nshusa/rsam/binary/Archive.java:273 | the renamed entry carries the new hash and the old sizes and data |
| Archives.FindIsKeyIndex | src/io/nshusa/rsam/binary/Archive.java:293-303 | in a map whose keys are their entries' hashes, the hash-field scan of indexOf finds the key's position |
| Archives.WriteThenRead | src/io/nshusa/rsam/binary/Archive.java:241-256 | writeFile then readFile of the same hash returns the data written, extracted or not |
| Archives.ReplaceThenRead | src/io/nshusa/rsam/binary/Archive.java:220-235 | with the corrected guard, replacing a present file and reading it back returns the new data |
| Archives.ReplaceFileInverted | src/io/nshusa/rsam/binary/Archive.java:221-223 | on an archive holding file 7, the corrected replace reads back the new data while the code as written refuses; on an empty archive the code as written reports success and the file is still not found |
| Archives.RenameSplitsLookups | src/io/nshusa/rsam/binary/Archive.java:262-275 | after rename(a, b), contains(a) stays true and contains(b) false, while the hash scan finds nothing for a and finds b at a's old position |
| Archives.RenameThenWriteReadsOld | src/io/nshusa/rsam/binary/Archive.java:197-203 | after rename(a, b), writeFile(b, x) appends a mapping under key b, yet readFile(b) returns the renamed entry's old contents |
| Archives.ArchiveRoundTrip | src/io/nshusa/rsam/binary/Archive.java:65-155 | decode(encode(archive)) rebuilds the same map in the same order with the same extracted flag |
| FileSystem.LoadedSlots | src/main/java/io/nshusa/rsam/IndexedFileSystem.java:40-45 | slot i holds a store with id i on idx i exactly when idx i exists; every other slot keeps its old content |
| FileSystem.OpenStores | src/main/java/io/nshusa/rsam/IndexedFileSystem.java:211-217 | the handles close visits: exactly the stores in the slots, in slot order |
| FileSystem.NoStores | src/main/java/io/nshusa/rsam/IndexedFileSystem.java:203 | every slot empty |
| FileSystem.IndexedFileSystem.Init | src/main/java/io/nshusa/rsam/IndexedFileSystem.java:16-26 | 255 empty slots, not loaded, over the given disk |
| FileSystem.IndexedFileSystem.Load | src/main/java/io/nshusa/rsam/IndexedFileSystem.java:28-52 | false and no change without the data file; otherwise the slots become LoadedSlots, loaded is set and the disk is unchanged |
| FileSystem.IndexedFileSystem.CreateStore | src/main/java/io/nshusa/rsam/IndexedFileSystem.java:54-76 | false and no change out of range or on an occupied slot; otherwise the data file and idx storeId exist and only that slot changes, to a store with id storeId + 1 on idx storeId |
| FileSystem.IndexedFileSystem.RemoveStore | src/main/java/io/nshusa/rsam/IndexedFileSystem.java:78-92 | false and no change out of range; otherwise every store is closed, every slot emptied, loaded cleared, and only idx storeId is deleted |
| FileSystem.IndexedFileSystem.Defragment | src/main/java/io/nshusa/rsam/IndexedFileSystem.java:94-153 | false with nothing changed when not loaded, when the root cannot be listed, or when the reading loop fails; otherwise every store is closed, every slot is empty, loaded is cleared, the data file is deleted, the index files stay, and the result is whether the write-back succeeds over empty slots |
| FileSystem.IndexedFileSystem.CollectFiles | src/main/java/io/nshusa/rsam/IndexedFileSystem.java:106-124 | the reading loop returns exactly ReadPhase of the slots |
| FileSystem.IndexedFileSystem.CollectStore | src/main/java/io/nshusa/rsam/IndexedFileSystem.java:110-122 | one round of the reading loop returns exactly ReadSlot |
| FileSystem.IndexedFileSystem.WriteBack | src/main/java/io/nshusa/rsam/IndexedFileSystem.java:136-147 | the write-back succeeds exactly when every id is in 0..254 and has no file to write unless its slot holds a store |
| FileSystem.Collect | src/main/java/io/nshusa/rsam/IndexedFileSystem.java:115 | putting a store id keeps a present key in place with no files, appends a new one, and adds exactly that key |
| FileSystem.CollectedIndex | src/main/java/io/nshusa/rsam/IndexedFileSystem.java:120 | the position of a key, or -1 exactly when it is no key (map.get returns null) |
| FileSystem.ReadSlot | src/main/java/io/nshusa/rsam/IndexedFileSystem.java:110-122 | an empty slot adds nothing; a store adds exactly its id to the keys |
| FileSystem.ReadPhase | src/main/java/io/nshusa/rsam/IndexedFileSystem.java:106-124 | every key of the map built is the id of a store in the slots |
| FileSystem.ReadPhaseStaysNone | src/main/java/io/nshusa/rsam/IndexedFileSystem.java:117-121 | once the reading loop fails on a slot, it fails for the whole array |
| FileSystem.LoadedReadPhase | src/main/java/io/nshusa/rsam/IndexedFileSystem.java:40-45 | after load on empty slots, the reading loop succeeds with one key per idx file, holding that store's file count |
| FileSystem.LoadedSlotStep | src/main/java/io/nshusa/rsam/IndexedFileSystem.java:108-124 | one slot further after load, the map gains exactly the id of that slot's store |
| FileSystem.DefragmentAfterLoad | src/main/java/io/nshusa/rsam/IndexedFileSystem.java:126-147 | right after a load on a reset registry, defragment's reading loop succeeds, and it reports success exactly when no store holds a file |
| FileSystem.CreatedStoreFails | src/main/java/io/nshusa/rsam/IndexedFileSystem.java:115-121 | a store that createStore put in slot k, holding files, makes the reading loop fail unless an earlier slot holds a store with id k |
| FileSystem.SharedId | src/main/java/io/nshusa/rsam/IndexedFileSystem.java:108-147 | createStore(1) beside the store load opened on idx2 gives two handles with id 2; with no files in the new one, the reading loop gives the single key 2 holding the other's files, and the write-back succeeds exactly when it holds none |
| FileSystem.ReadPhaseEmptyTail | src/main/java/io/nshusa/rsam/IndexedFileSystem.java:108-113 | empty slots after the last store add nothing to the map |
| FileSystem.IndexedFileSystem.GetStore | src/main/java/io/nshusa/rsam/IndexedFileSystem.java:156-162 | IllegalArgument exactly when the id is outside 0..254; otherwise the slot, empty or not |
| FileSystem.IndexedFileSystem.ReadFile | src/main/java/io/nshusa/rsam/IndexedFileSystem.java:164-172 | IllegalArgument out of range, nothing for an empty slot, otherwise what the store reads |
| FileSystem.IndexedFileSystem.GetStoreCount | src/main/java/io/nshusa/rsam/IndexedFileSystem.java:183-193 | the number of ids 0..254 whose idx file exists, whatever the slots hold |
| FileSystem.IndexedFileSystem.IsLoaded | src/main/java/io/nshusa/rsam/IndexedFileSystem.java:195-197 | the loaded flag |
| FileSystem.IndexedFileSystem.Reset | src/main/java/io/nshusa/rsam/IndexedFileSystem.java:199-207 | every open store is closed in slot order, loaded is cleared, every slot is emptied, and the disk is unchanged |
| FileSystem.IndexedFileSystem.Close | src/main/java/io/nshusa/rsam/IndexedFileSystem.java:209-218 | every store in the slots is closed, in slot order; slots, flag and disk are unchanged |
| FileSystem.NothingToClose | src/main/java/io/nshusa/rsam/IndexedFileSystem.java:199-218 | after reset, close has nothing to close |
| FileSystem.LoadTwice | src/main/java/io/nshusa/rsam/IndexedFileSystem.java:40-45 | loading twice over the same disk gives the slots of loading once |
| FileSystem.ReloadedStores | src/main/java/io/nshusa/rsam/IndexedFileSystem.java:40-45 | after reset, load opens one store per idx file of an id below n |
| FileSystem.ReloadedStoreCount | src/main/java/io/nshusa/rsam/IndexedFileSystem.java:183-193 | after reset and load, the stores open are as many as getStoreCount counts |
| FileSystem.CreatedAndReloadedIds | src/main/java/io/nshusa/rsam/IndexedFileSystem.java:40-45 | createStore(k) on an empty slot, then reset and load: the store has id k + 1 after createStore and id k after the reload |
| FileSystem.CreateCount | src/main/java/io/nshusa/rsam/IndexedFileSystem.java:69-73 | createStore raises getStoreCount by one exactly when idx storeId did not exist |
| FileSystem.RemoveCount | src/main/java/io/nshusa/rsam/IndexedFileSystem.java:86 | removeStore lowers getStoreCount by one exactly when idx storeId existed |

## Left out

- The `String` overloads (`readFile(String)`, `replaceFile(int, String, byte[])`, `writeFile(String, byte[])`, `rename(int, String)`, `getEntry(String)`, `indexOf(String)`, `contains(String)`, `remove(String)`) only hash the name (`HashUtils.nameToHash`) and call the `int` overload. `HashUtils` is not part of this model.
- The archive id constants (`TITLE_ARCHIVE` and the rest), `getEntries`, `isExtracted`, and `ArchiveEntry`'s getters. They are plain accessors; the entry is the `Entry` datatype.
- `CompressionUtil` (bzip2), `CRC32` and `RSFileStore` are not part of this model. They are parameters, and the round trips require only that decompression undoes compression.
- Archives.Archive.Encode: `buffer.array()` is taken to be the whole backing array from position 0. The single `putInt` and two `write24Int` calls per record are one 10-byte write.
- Archives.Archive.Encode, EntryMap.Entry and the `ArchiveEntry` constructor (Archive.java:32-37): the sizes are Java ints, which the constructor accepts negative. `Entry` holds them as `nat`, so negative sizes are not modelled, and neither is `size` overflowing in `encode`.
- Archives.Archive.WriteFile, Archives.Archive.ReplaceFile: in extracted mode the entry keeps the caller's own `byte[]` (Archive.java:230, 251). The model stores the bytes as a value, so a caller that later changes that array, and the change that then shows in the archive and its next `encode`, are not modelled.
- Archives.Archive.ReadFile: in extracted mode the result wraps the entry's own array (Archive.java:209). The model returns the bytes as a value, so writes through the returned buffer, which change the archive, are not modelled.
- Archives.Archive.EncodeChecksum: the buffer is returned without `flip` (Archive.java:188-190), with its position at 4n + 2 and its limit at 4n + 4. The model returns the whole backing array, so a reader that reads only `remaining()` bytes, and sees two, is not modelled.
- FileSystem.IndexedFileSystem.Load, FileSystem.LoadTwice: `load` overwrites an occupied slot without closing the store in it (IndexedFileSystem.java:40-45). A store handle is a value, so the leaked open channels are not modelled. `LoadTwice` states that the slots are equal in value, not that no store is left open.
- FileSystem.IndexedFileSystem.CreateStore: the `IOException`s from creating the files and opening the channels (IndexedFileSystem.java:54-76) are not modelled, because the disk model cannot fail.
- Archives.Archive.EncodeChecksum: the Java loop writes each CRC right after computing it. The model first collects every CRC, then writes them all. The resulting buffer is the same, and an encode failure aborts both before anything is returned.
- Archives.Archive.Decode: the buffer is taken to be a whole array read from position 0, because the data cursor is computed on `buffer.array()`. A slice or an offset buffer is not modelled.
- Archives.Archive.Decode: a ByteBuffer underflow or an illegal position is an `Err` value rather than an exception. A negative array size cannot arise, because 24-bit fields are never negative.
- FileSystem.IndexedFileSystem.Defragment: the directory listing is reduced to whether it succeeds (`listed`). `RSFileStore.getFileCount` is the parameter `fileCount` of a handle (its id and index file), read once per store rather than on every turn of the file loop. The file contents read and written are `RSFileStore`'s and are not part of this model, and neither are exceptions from those reads and writes. The lists of file contents are kept only as their lengths.
- FileSystem.IndexedFileSystem.Load: creating a missing root directory (lines 30-32) is not modelled; the root is taken to exist. An I/O exception while opening a store is not modelled; the code returns false after filling some slots and without setting loaded.
- FileSystem.IndexedFileSystem.RemoveStore: the `false` result of a failed delete is not modelled, because the disk model cannot fail.
- FileSystem.IndexedFileSystem.Reset: exceptions from closing a store are not modelled. The code logs them and skips the rest of reset.
- `getRoot`, `setRoot` and the root path, the channels a store opens, `synchronized`, and the logging of exceptions.
- `RsamUtils` is not part of this model.

## Findings

| source | as written | input that shows it | evidently intended | confidence | as-written member | corrected member |
|---|---|---|---|---|---|---|
| src/io/nshusa/rsam/binary/Archive.java:221-223 | `replaceFile` returns false when the map already holds the old hash. Otherwise it calls `replace` on an absent key, which does nothing, and returns true. | an archive holding file 7 with data [1]: `replaceFile(7, 7, [2])` returns false and file 7 still reads [1]. On an empty archive, `replaceFile(7, 7, [2])` returns true and file 7 is still not found. | give up when the old hash is absent, as `rename` does at line 263, and otherwise replace the entry | not executed; high | Archives.Archive.ReplaceFile, Archives.ReplaceFileInverted | Archives.Archive.ReplaceFileIntended, Archives.ReplaceThenRead |
| src/io/nshusa/rsam/binary/Archive.java:158-188 | the buffer reserves four bytes after the CRCs for the pre-calculated value, which the comment calls an int, but `putShort((short) calculated)` writes only its low 16 bits and leaves two zero bytes | `encodeChecksum` of no archives: the fold is 1234, and the four bytes after the CRCs, read as an int, give 80871424 (1234 * 2^16) | `putInt(calculated)`, storing all 32 bits of the fold in the reserved four bytes | not executed; medium | ArchiveFormat.Manifest, ArchiveFormat.ManifestTrailerNotInt | ArchiveFormat.IntManifest, ArchiveFormat.IntManifestTrailer, ArchiveFormat.IntManifestSeesLastCrc |
