# chdb in Dafny

chdb is a constant key-value store kept in a single file. A minimal perfect
hash function, built by the cmph library, indexes the file. The builder
(`chdb_create`) reads the source of pairs twice: once while cmph builds the
hash function, then once more while it writes the file, in this order:

1. the 24-byte packed header: magic, version, file size, table offset and
   entry count;
2. the packed hash function;
3. zero padding up to a 4-byte boundary, then a table of one 32-bit slot per
   key;
4. the records, each aligned on 4 bytes: key length, value length, the value,
   then the key.

Slot `h(key)` holds the record's offset shifted right by 2. During the write
pass the builder seeks back to fill the slot of each record as it goes, and
at the end it seeks back again to patch the real file size into the header.
The reader (`chdb_open`, `chdb_get`) does two things:

- It checks the header's magic, version and size.
- It looks a key up in three steps: hash the key, read its slot, then compare
  the stored key length and key bytes.

This project models that core: the layout arithmetic, the header check, the
write pass and the lookup. It proves the following:

- Build-then-get returns every stored value.
- For every key, a lookup answers what a linear search of the source answers.
- Both of these are proved for the lookup with the slot value widened before
  `<< 2` (`Reader.Get`). The lookup as written, which shifts in 32 bits
  (`Reader.GetAsWritten`), gives the same answers on every built file of at
  most 4 GiB (`Properties.AsWrittenBelowFourGiB`). On larger files it can
  miss stored keys; see "## Findings".
- The built file is determined uniquely by the pairs and the hash function.
- A built file passes the header check.
- The header check accepts exactly the files whose first bytes are right.

Modelling choices:

- **Host.** The host is little-endian LP64. Only the magic and the version go
  through `htonl`, so the file begins with the characters `chdb`. All other
  fields are stored least significant byte first.
- **Hash.** The cmph function is the datatype `Image.Mph`: a query
  `seq<byte> -> uint32` plus the packed bytes (at least one byte, since the
  builder refuses an empty blob). The packed query and the unpacked query
  are taken to agree.
- **What cmph is assumed to give.** The builder is given a hash that
  `Image.MinimalPerfect` holds of. That predicate says every build key hashes
  into `[0, count)` and no two keys share a slot. The proof that every slot
  is then used (pigeonhole) is `Properties.Surjective`.
- **Output file.** The output `FILE*` is the class `Builder.OutFile`: a byte
  sequence plus a position. `Bytes.WriteAt` says what an `fwrite` at a
  position does; a gap left by seeking past the end reads as zeros.
- **Builder specification.** What the builder leaves on disk is stated
  declaratively as `Image.Built`. `Builder.Serialize` is proved against it
  through the loop invariant `Image.Partial`.
- **Reader.** The reader works on the bytes of the mapped file. Every read is
  bounds-checked: reading past the end counts as a miss. The C code never
  checks; for a well-formed file of at most 4 GiB the two agree. For larger
  files see "## Findings".
- **Outside inputs.** These become parameters:
  - the value of `SIZE_MAX` (`sizeMax`). On LP64, SIZE_MAX is 2^64 - 1 and
    the file_size check can never fail. The parameter stands for a host with
    a narrower `size_t`, where it can;
  - how many bytes each successive `read()` hands back (`sizes`, any positive
    number per call);
  - the uninitialised `file_size` written with the first header
    (`placeholder`);
  - what `cmph_new` returns (`cmph`).

## Model

| member | source | states |
|---|---|---|
| Layout.MemAlign | chdb.c:33-36 | the result is a multiple of 4, at least the address and less than the address plus 4 |
| Layout.MemAlignIdempotent | chdb.c:33-36 | aligning an aligned address changes nothing |
| Layout.ShiftRoundTrip | chdb.c:290-293 | an aligned position survives `>> 2` followed by `<< 2` |
| Bytes.Htonl | chdb.c:17 | the stored value's in-memory bytes are the network-order bytes of the argument |
| Bytes.Le32RoundTrip | chdb.c:48-52 | a stored uint32_t reads back as the value written |
| Bytes.Le32DecodeRoundTrip | chdb.c:48-52 | any four bytes are the encoding of the uint32_t they read as |
| Bytes.Le64RoundTrip | chdb.c:50 | a stored uint64_t reads back as the value written |
| Bytes.WriteAt | chdb.c:262 | after a write, the written range holds the new bytes, a gap before it reads as zeros, every other byte is unchanged, and the length is the larger of the old end and the write's end |
| Bytes.WriteAtConcat | chdb.c:302-304 | writing a and then b right after it is the same as writing a + b |
| Bytes.WriteAtKeeps | chdb.c:294-299 | a write leaves every range before or after it unchanged |
| Layout.EncodeHeader | chdb.c:47-54 | the packed header is 24 bytes long |
| Layout.HeaderRoundTrip | chdb.c:47-54 | decoding an encoded header gives back every field |
| Layout.MagicOnDisk | chdb.c:17 | the magic number is stored as the characters `c`, `h`, `d`, `b` |
| Layout.TableOffset | chdb.c:252-255 | the table offset is aligned and lies in [24 + packed size, 24 + packed size + 4) |
| Layout.EncodeRecord | chdb.c:87-91 | a record is 8 bytes plus the value's length plus the key's length |
| Layout.RecordFields | chdb.c:93-96 | reading a stored record back gives key_len, value_len, the value after the 8-byte entry header, and the key at value + value_len |
| Layout.CursorAt | chdb.c:276-306 | the write position before each record is never below the position after the table |
| Layout.RecordStart | chdb.c:287-290 | each record starts at the first aligned offset at or after the current position, and the position then moves to the record's end |
| Layout.CursorMonotone | chdb.c:282-306 | the write position never moves backwards from one record to the next |
| Layout.LocateByte | chdb.c:282-306 | every byte after the table lies either in the padding before some record or in that record |
| Reader.ValidateHeader | chdb.c:118-124 | the header is accepted exactly when the magic number and the version match and file_size is at most SIZE_MAX; on success the result is file_size, otherwise EINVAL |
| Reader.ReadHeader | chdb.c:103-125 | for any sequence of positive read sizes, one per call, the loop gathers the whole header, so the answer is the header check of the file's first 24 bytes; a file shorter than that gives EINVAL |
| Reader.HeaderCheck | chdb.c:108-121 | a file shorter than the header, or a header failing the field check, gives EINVAL; a success is the file_size read from the first 24 bytes |
| Layout.DecodeHeader | chdb.c:47-54 | the five fields of struct __chdb are read at offsets 0, 4, 8, 16 and 20; Layout.HeaderRoundTrip shows this inverts the encoding |
| Reader.EntryCount | chdb.c:72 | the entry_count field of the header, which bounds the slots a lookup may read (Reader.Get misses at or above it) |
| Layout.SlotOffset | chdb.c:64-67 | slot idx lies at or after the table offset, and is 4-byte aligned when the table is |
| Layout.KeyOffset | chdb.c:93-96 | the key starts right after the value, at entry + 8 + value_len; Layout.RecordFields shows the key stored there reads back |
| Reader.Read32 | chdb.c:75 | a slot can be read exactly when four bytes are there, and it reads as the uint32_t stored in them |
| Reader.TableSlot | chdb.c:64-75 | a slot is read only for an index below entry_count |
| Reader.GetEntry | chdb.c:69-78 | an entry is found exactly when its slot is, and always at an aligned offset (with the shift done in full width) |
| Reader.GetEntryAsWritten | chdb.c:69-78 | with the shift done in 32 bits as written, the entry offset is always below 4 GiB |
| Reader.EntryAt | chdb.c:166-174 | a match means a record for exactly this key, holding the returned value, is stored at the entry |
| Reader.EntryAtComplete | chdb.c:166-174 | a record stored for the key at the entry is found, with its value |
| Reader.RecordFromFields | chdb.c:87-96 | fields that read back as a pair's key_len, value_len, value and key make up that pair's encoded record |
| Reader.Get | chdb.c:158-175 | a hit is a record for this key in the slot the key hashes to; a hash at or above entry_count always misses |
| Reader.GetAsWritten | chdb.c:158-175 | the same as Get, for the lookup as written with the 32-bit shift |
| Builder.OutFile.constructor | chdb.c:328 | a file opened with mode "w" is empty, positioned at 0 |
| Builder.OutFile.Tell | chdb.c:288 | ftell reports the position |
| Builder.OutFile.Seek | chdb.c:276-278 | fseek moves the position and writes nothing |
| Builder.OutFile.Write | chdb.c:296 | fwrite replaces the bytes at the position and moves the position past them |
| Builder.GenerateHash | chdb.c:211-234 | no keys gives EINVAL, a failed cmph gives ENOMEM, otherwise the function cmph built |
| Image.SerializeError | chdb.c:252-292 | the only failure the write pass can produce is EINVAL: no packed hash, a table offset beyond UINT32_MAX, or a record whose offset >> 2 does not fit a slot (no failure implies the first two checks passed) |
| Image.Built | chdb.c:241-317 | the file the write pass leaves: the header with the true file size, the table offset and the count; the packed hash; zeros up to the table; slot hash(key) holding each record's offset >> 2; each record at the next aligned offset with zeros before it; nothing after the last record |
| Builder.Serialize | chdb.c:241-317 | the result is EINVAL exactly when the packed size is 0, the table offset exceeds UINT32_MAX, or some record's offset >> 2 exceeds UINT32_MAX; on success the file is the Built image of the pairs |
| Builder.WriteHead | chdb.c:257-278 | the header with the file size unset, then the packed hash, then the position set just past the table |
| Builder.WriteEntry | chdb.c:282-306 | one loop iteration fails exactly when the aligned offset >> 2 exceeds UINT32_MAX, and then writes nothing and leaves the position; otherwise it writes offset >> 2 into slot hash(key), writes the record at the aligned offset, and leaves the position at the record's end |
| Builder.WriteRecord | chdb.c:301-305 | the three writes of the entry header, the value and the key put the encoded record at the position |
| Builder.RecordWrites | chdb.c:302-304 | the entry header, then the value, then the key, written back to back, are the encoded record |
| Builder.RecordTooFar | chdb.c:291-292 | a record whose offset >> 2 exceeds UINT32_MAX makes the build fail with EINVAL |
| Builder.WriteFileSize | chdb.c:308-314 | patching the final position into file_size completes the Built image |
| Builder.EmptyFinish | chdb.c:276-314 | with no records, the file is the header plus the packed hash, with file_size set to the end of the skipped table |
| Builder.Create | chdb.c:319-350 | the build fails exactly when hash generation or serialisation fails, with that error and no file; otherwise it returns a Built image of a source with at least one pair |
| BuildSteps.PartialInit | chdb.c:257-273 | the header written with a placeholder size, followed by the packed hash, starts the write pass |
| BuildSteps.PartialStep | chdb.c:282-306 | each loop iteration keeps every earlier slot, record and gap and adds its own |
| BuildSteps.FinalSizeFits | chdb.c:308-309 | after the last record the position is below 2^64 |
| BuildSteps.HeaderPatch | chdb.c:310-313 | patching file_size at offset 8 changes only that header field |
| BuildSteps.PartialFinish | chdb.c:308-314 | patching the final position into file_size turns the last partial image into the Built one |
| Properties.Surjective | chdb.c:56-63 | under a minimal perfect hash every table slot belongs to some key |
| Properties.BucketsCard | chdb.c:56-63 | n keys with distinct hashes fill n distinct slots |
| Properties.Find | chdb.h:22-30 | the reference lookup finds a value exactly when some pair has the key, and the value found is that pair's value |
| Properties.FindDistinct | chdb.h:22-30 | with distinct keys, the reference lookup finds each pair's own value |
| Properties.BuiltHeader | chdb.c:252-261 | a built file's header holds the magic number, the version, the file's own length, the aligned table offset and the number of pairs |
| Properties.BuiltAccepted | chdb.c:103-125 | a built file that fits SIZE_MAX passes the header check, which reports the file's true size |
| Properties.HeaderAccepted | chdb.c:103-125 | the header check accepts a file exactly when it holds a whole header that starts with `chdb`, carries the version bytes, and has a file_size within SIZE_MAX |
| Properties.BuiltEntry | chdb.c:69-78 | in a built file the slot of key i leads to the start of record i |
| Properties.GetRoundTrip | chdb.c:158-175 | build, then get: every stored key is found with the value written for it |
| Properties.RecordHoldsUnique | chdb.c:87-96 | only one pair's record can be stored at a given offset |
| Properties.GetMatchesFind | chdb.c:158-175 | in a built file a lookup of ANY key gives what a linear search of the source gives: the stored value, or not found |
| Properties.BuiltUnique | chdb.c:241-317 | two files that are both the Built image of the same pairs and hash function are equal |
| Properties.AsWrittenMisplaces | chdb.c:76-77 | as written, a record at or beyond 4 GiB is looked for at its offset modulo 2^32, which is a lower offset |
| Properties.AsWrittenMissesAtFourGiB | chdb.c:76-77 | as written, a stored key whose record starts at a multiple of 4 GiB is looked for at the header, so it is not found, while the corrected lookup finds it |
| Properties.AsWrittenBelowFourGiB | chdb.c:76-77 | in a built file of at most 4 GiB, the lookup as written and the corrected lookup answer alike for every key |

## Left out

- `chdb_open` and `chdb_close` map and unmap the file with open, mmap, close and munmap. They are not modelled. The reader works on the file's bytes, and `Reader.ReadHeader` models the header check that `chdb_open` runs first.
- System-call failures are left out:
  - `read` returning an error (including the EINTR retry);
  - `fopen`, `fwrite`, `fseek` and `fclose` failing (EIO and errno);
  - `malloc` failing for the packed hash (ENOMEM).
  They come from the environment, not the format.
- The two `ftell() == 0` guards in chdb_serialize cannot fire (the position is always at least 24) and are not modelled.
- `remove(pathname)` after a failure is modelled only as "an error and no file bytes".
- cmph itself is left out: its construction, `cmph_pack`, `cmph_search` and `cmph_search_packed`. The model takes the query function and the packed bytes as given and assumes the two queries agree.
- `chdb_adapter_read`, `chdb_adapter_dispose` and `chdb_adapter_rewind` only copy keys for cmph, free them and rewind the source. They are not modelled.
- The source reader's `next` and `rewind` callbacks become a sequence of pairs, read in order.
- The big-endian build, which flags the version with bit 31, is not modelled. Only the little-endian host is.
- `mem_align` is modelled for the order this file uses (2). Its wrap-around at SIZE_MAX cannot happen here, since positions stay below 2^64.
- The loop counter `int i` would overflow past INT_MAX entries. It is not modelled, because such a source would fail the 16 GiB offset check first.
- Reader.Get: it does not model reads beyond the end of a corrupt file, which the C code performs unchecked; such reads count as a miss here.
- Concurrency and PHP bindings are not part of this model.

## Findings

| source | as written | input that shows it | evidently intended | confidence | as-written member | corrected member |
|---|---|---|---|---|---|---|
| chdb.c:76-77 | `offset << CHDB_ALIGN_ORDER` is computed in the 32-bit type of `offset`, so the entry is read at (slot × 4) mod 2^32 | a build in which a record starts at or beyond 4 GiB, which the builder allows up to 16 GiB; for example, a record starting exactly at 4 GiB is looked for at offset 0, where key_len reads as the magic number, and its key is not found (Properties.AsWrittenMissesAtFourGiB) | widen the offset before the shift, so entries up to 16 GiB are reachable, as the comment at chdb.c:56-63 says; stated by Properties.GetRoundTrip and Properties.GetMatchesFind, which hold for every built file | high; not executed | Reader.GetEntryAsWritten | Reader.GetEntry |
