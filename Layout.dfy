/**
 * The chdb file layout: alignment arithmetic, the packed 24-byte header,
 * the shifted offset table and the key-value record, and where the
 * builder places each record.
 */
module Layout {
  import opened Bytes

  /** CHDB_VERSION of the library. */
  const CHDB_VERSION: uint32 := 0

  /** Records are aligned on 2^CHDB_ALIGN_ORDER = 4 byte boundaries. */
  const CHDB_ALIGN_ORDER: nat := 2

  /** sizeof(struct __chdb): magic, version, file_size, table_offset, entry_count. */
  const HEADER_SIZE: nat := 24

  /** Byte offset of file_size inside the header. */
  const FILE_SIZE_OFFSET: nat := 8

  /** sizeof(struct chdb_entry): key_len and value_len. */
  const ENTRY_HEADER_SIZE: nat := 8

  /** sizeof(uint32_t), the width of one offset-table slot. */
  const SLOT_SIZE: nat := 4

  /** CHDB_FILE_MAGIC: htonl of the four characters 'c' 'h' 'd' 'b'. */
  const FILE_MAGIC: uint32 := Htonl(0x6368_6462)

  /** CHDB_FILE_VERSION on a little-endian host: htonl(CHDB_VERSION), top bit clear. */
  const FILE_VERSION: uint32 := Htonl(CHDB_VERSION)

  /** The size of one alignment unit: 1 << CHDB_ALIGN_ORDER. */
  const ALIGNMENT: nat := 4

  /**
   * mem_align(address, CHDB_ALIGN_ORDER): (address + mask) & ~mask with
   * mask = 3. Clearing the two low bits of a value subtracts its remainder
   * modulo 4. The result is the first multiple of 4 at or after address.
   */
  function MemAlign(address: nat): (r: nat)
    ensures r % ALIGNMENT == 0
    ensures address <= r < address + ALIGNMENT
  {
    var x := address + (ALIGNMENT - 1);
    x - x % ALIGNMENT
  }

  /** Aligning an aligned address changes nothing. */
  lemma MemAlignIdempotent(address: nat)
    ensures MemAlign(MemAlign(address)) == MemAlign(address)
  {
  }

  /** An aligned address survives >> CHDB_ALIGN_ORDER followed by << CHDB_ALIGN_ORDER. */
  lemma ShiftRoundTrip(pos: nat)
    requires pos % ALIGNMENT == 0
    ensures (pos / ALIGNMENT) * ALIGNMENT == pos
  {
  }

  /** struct __chdb, with magic and version as the host reads them. */
  datatype Header = Header(
    magic: uint32,
    version: uint32,
    fileSize: uint64,
    tableOffset: uint32,
    entryCount: uint32)

  /** The packed header as fwrite() puts it on disk. */
  function EncodeHeader(h: Header): (bs: seq<byte>)
    ensures |bs| == HEADER_SIZE
  {
    Le32(h.magic) + Le32(h.version) + Le64(h.fileSize) + Le32(h.tableOffset) + Le32(h.entryCount)
  }

  /** The header read from the first 24 bytes of a mapping. */
  function DecodeHeader(bs: seq<byte>): (h: Header)
    requires |bs| >= HEADER_SIZE
  {
    Header(
      Le32Decode(bs[0..4]),
      Le32Decode(bs[4..8]),
      Le64Decode(bs[8..16]),
      Le32Decode(bs[16..20]),
      Le32Decode(bs[20..24]))
  }

  lemma HeaderRoundTrip(h: Header)
    ensures DecodeHeader(EncodeHeader(h)) == h
  {
    var bs := EncodeHeader(h);
    assert bs[0..4] == Le32(h.magic);
    assert bs[4..8] == Le32(h.version);
    assert bs[8..16] == Le64(h.fileSize);
    assert bs[16..20] == Le32(h.tableOffset);
    assert bs[20..24] == Le32(h.entryCount);
    Le32RoundTrip(h.magic);
    Le32RoundTrip(h.version);
    Le64RoundTrip(h.fileSize);
    Le32RoundTrip(h.tableOffset);
    Le32RoundTrip(h.entryCount);
  }

  /** The magic number lands on disk as the characters "chdb". */
  lemma MagicOnDisk()
    ensures Le32(FILE_MAGIC) == ['c' as byte, 'h' as byte, 'd' as byte, 'b' as byte]
  {
  }

  /** table_offset: the first aligned offset after the header and the packed hash function. */
  function TableOffset(packedSize: nat): (t: nat)
    ensures t % ALIGNMENT == 0
    ensures HEADER_SIZE + packedSize <= t < HEADER_SIZE + packedSize + ALIGNMENT
  {
    MemAlign(HEADER_SIZE + packedSize)
  }

  /** Byte offset of table slot idx (chdb_get_table()[idx]). */
  function SlotOffset(tableOffset: nat, idx: nat): (r: nat)
    ensures tableOffset <= r
    ensures tableOffset % ALIGNMENT == 0 ==> r % ALIGNMENT == 0
  {
    tableOffset + SLOT_SIZE * idx
  }

  /** One key-value pair as the reader hands it to the builder. */
  datatype Pair = Pair(key: seq<byte>, value: seq<byte>)

  /** key_len and value_len are uint32_t. */
  predicate ValidPair(p: Pair)
  {
    |p.key| <= UINT32_MAX && |p.value| <= UINT32_MAX
  }

  function RecordSize(p: Pair): nat
  {
    ENTRY_HEADER_SIZE + |p.value| + |p.key|
  }

  /** struct chdb_entry followed by the value bytes and then the key bytes. */
  function EncodeRecord(p: Pair): (bs: seq<byte>)
    requires ValidPair(p)
    ensures |bs| == RecordSize(p)
  {
    Le32(|p.key|) + Le32(|p.value|) + p.value + p.key
  }

  /** chdb_entry_get_key: the key starts right after the value. */
  function KeyOffset(entry: nat, valueLen: nat): nat
  {
    entry + ENTRY_HEADER_SIZE + valueLen
  }

  /**
   * The fields of an encoded record read back from where it was stored:
   * key_len, value_len, the value at entry + 8 and the key at
   * KeyOffset(entry, value_len).
   */
  lemma RecordFields(mem: seq<byte>, off: nat, p: Pair)
    requires ValidPair(p)
    requires off + RecordSize(p) <= |mem|
    requires mem[off..off + RecordSize(p)] == EncodeRecord(p)
    ensures Le32Decode(mem[off..off + 4]) == |p.key|
    ensures Le32Decode(mem[off + 4..off + 8]) == |p.value|
    ensures mem[off + ENTRY_HEADER_SIZE..off + ENTRY_HEADER_SIZE + |p.value|] == p.value
    ensures mem[KeyOffset(off, |p.value|)..KeyOffset(off, |p.value|) + |p.key|] == p.key
  {
    var r := EncodeRecord(p);
    var vl, kl := |p.value|, |p.key|;
    assert r[0..4] == Le32(kl);
    assert r[4..8] == Le32(vl);
    assert r[8..8 + vl] == p.value;
    assert r[8 + vl..8 + vl + kl] == p.key;
    SliceOfSlice(mem, off, off + RecordSize(p), 0, 4);
    SliceOfSlice(mem, off, off + RecordSize(p), 4, 8);
    SliceOfSlice(mem, off, off + RecordSize(p), 8, 8 + vl);
    SliceOfSlice(mem, off, off + RecordSize(p), 8 + vl, 8 + vl + kl);
    Le32RoundTrip(|p.key|);
    Le32RoundTrip(|p.value|);
  }

  /** A slice of a slice is a slice of the whole. */
  lemma SliceOfSlice(s: seq<byte>, lo: nat, hi: nat, i: nat, j: nat)
    requires lo <= hi <= |s| && i <= j <= hi - lo
    ensures s[lo..hi][i..j] == s[lo + i..lo + j]
  {
    assert forall k :: 0 <= k < j - i ==> s[lo..hi][i..j][k] == s[lo + i + k];
  }

  /**
   * The write cursor before record i when the records are written one
   * after another from first: each record starts at the aligned cursor
   * and the cursor then moves past it.
   */
  function CursorAt(pairs: seq<Pair>, first: nat, i: nat): (c: nat)
    requires i <= |pairs|
    ensures first <= c
    decreases i
  {
    if i == 0 then first
    else MemAlign(CursorAt(pairs, first, i - 1)) + RecordSize(pairs[i - 1])
  }

  /** The (aligned) offset at which record i is written. */
  function RecordStart(pairs: seq<Pair>, first: nat, i: nat): (s: nat)
    requires i < |pairs|
    ensures s % ALIGNMENT == 0
    ensures CursorAt(pairs, first, i) <= s < CursorAt(pairs, first, i) + ALIGNMENT
    ensures s + RecordSize(pairs[i]) == CursorAt(pairs, first, i + 1)
  {
    MemAlign(CursorAt(pairs, first, i))
  }

  /** Records are written in order: the cursor never moves backwards. */
  lemma {:induction false} CursorMonotone(pairs: seq<Pair>, first: nat, i: nat, j: nat)
    requires i <= j <= |pairs|
    ensures CursorAt(pairs, first, i) <= CursorAt(pairs, first, j)
    decreases j - i
  {
    if i < j {
      CursorMonotone(pairs, first, i, j - 1);
      assert CursorAt(pairs, first, j - 1) <= RecordStart(pairs, first, j - 1);
    }
  }

  /** Every byte between the first cursor and the cursor after record n lies in the gap or body of one record. */
  lemma {:induction false} LocateByte(pairs: seq<Pair>, first: nat, n: nat, x: nat) returns (i: nat)
    requires n <= |pairs|
    requires first <= x < CursorAt(pairs, first, n)
    ensures i < n
    ensures CursorAt(pairs, first, i) <= x < CursorAt(pairs, first, i + 1)
  {
    if CursorAt(pairs, first, n - 1) <= x {
      i := n - 1;
    } else {
      i := LocateByte(pairs, first, n - 1, x);
    }
  }
}
