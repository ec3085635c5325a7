/**
 * The read side of chdb: the header check of chdb_read_header and the
 * lookup of chdb_get over the bytes of an opened (mapped) file.
 */
module Reader {
  import opened Bytes
  import opened Layout
  import opened Image

  /**
   * The compatibility checks on a header that was read in full: the
   * magic and the version must match exactly and file_size must fit the
   * host's SIZE_MAX. On success the declared file size is handed back.
   */
  function ValidateHeader(h: Header, sizeMax: nat): (r: Result<uint64>)
    ensures r.Ok? <==> h.magic == FILE_MAGIC && h.version == FILE_VERSION && h.fileSize <= sizeMax
    ensures r.Ok? ==> r.value == h.fileSize
    ensures r.Err? ==> r.error == EINVAL
  {
    if h.magic != FILE_MAGIC || h.version != FILE_VERSION || h.fileSize > sizeMax then Err(EINVAL)
    else Ok(h.fileSize)
  }

  /** What chdb_read_header answers for a file: a file shorter than the header hits end-of-file first. */
  function HeaderCheck(file: seq<byte>, sizeMax: nat): (r: Result<uint64>)
    ensures r.Ok? ==> |file| >= HEADER_SIZE && r.value == DecodeHeader(file[..HEADER_SIZE]).fileSize
    ensures r.Err? ==> r.error == EINVAL
  {
    if |file| < HEADER_SIZE then Err(EINVAL)
    else ValidateHeader(DecodeHeader(file[..HEADER_SIZE]), sizeMax)
  }

  /**
   * chdb_read_header: read() the header until all 24 bytes are in, then
   * check it. The k-th call may hand back any positive number of bytes,
   * sizes(k), up to what is asked for and what is left of the file; a
   * read that returns 0 before the header is full means the file is too
   * short.
   */
  method ReadHeader(file: seq<byte>, sizes: nat -> nat, sizeMax: nat) returns (r: Result<uint64>)
    requires forall k :: sizes(k) > 0
    ensures r == HeaderCheck(file, sizeMax)
  {
    var buf: seq<byte> := [];
    var rd: nat := 0;
    var calls: nat := 0;
    while rd < HEADER_SIZE
      invariant rd <= HEADER_SIZE && rd <= |file|
      invariant buf == file[..rd]
      decreases HEADER_SIZE - rd
    {
      var want := HEADER_SIZE - rd;
      var got := if |file| - rd < want then |file| - rd else want;
      got := if sizes(calls) < got then sizes(calls) else got;
      calls := calls + 1;
      if got == 0 {
        return Err(EINVAL);
      }
      buf := buf + file[rd..rd + got];
      rd := rd + got;
    }
    r := ValidateHeader(DecodeHeader(buf), sizeMax);
  }

  /** A native uint32_t at off, if the file goes that far. */
  function Read32(mem: seq<byte>, off: nat): (r: Option<uint32>)
    ensures r.Some? <==> off + 4 <= |mem|
    ensures r.Some? ==> Le32(r.value) == mem[off..off + 4]
  {
    if off + 4 <= |mem| then
      Le32DecodeRoundTrip(mem[off..off + 4]);
      Some(Le32Decode(mem[off..off + 4]))
    else None
  }

  /** chdb_get_table()[idx], for an index the header admits. */
  function TableSlot(mem: seq<byte>, idx: nat): (r: Option<uint32>)
    ensures r.Some? ==> |mem| >= HEADER_SIZE && idx < DecodeHeader(mem[..HEADER_SIZE]).entryCount
  {
    if |mem| < HEADER_SIZE then None
    else
      var h := DecodeHeader(mem[..HEADER_SIZE]);
      if idx >= h.entryCount then None
      else Read32(mem, SlotOffset(h.tableOffset, idx))
  }

  /**
   * chdb_get_entry with the shift done in full width: the slot value
   * times 4. Entries are always found at aligned offsets.
   */
  function GetEntry(mem: seq<byte>, idx: nat): (r: Option<nat>)
    ensures r.Some? ==> r.value % ALIGNMENT == 0
    ensures r.Some? <==> TableSlot(mem, idx).Some?
  {
    match TableSlot(mem, idx)
    case None => None
    case Some(slot) => Some(slot * ALIGNMENT)
  }

  /**
   * chdb_get_entry as written: offset is a uint32_t, so offset << 2 is
   * computed modulo 2^32 before it is added to the base of the mapping.
   */
  function GetEntryAsWritten(mem: seq<byte>, idx: nat): (r: Option<nat>)
    ensures r.Some? ==> r.value < 0x1_0000_0000
    ensures r.Some? <==> TableSlot(mem, idx).Some?
  {
    match TableSlot(mem, idx)
    case None => None
    case Some(slot) => Some((slot * ALIGNMENT) % 0x1_0000_0000)
  }

  /**
   * Matching the entry at e against key: the stored key_len must equal
   * the key's length and the key bytes, which follow the value, must be
   * equal; the answer is then the value. Reads beyond the end of mem
   * find nothing.
   */
  function EntryAt(mem: seq<byte>, e: nat, key: seq<byte>): (r: Option<seq<byte>>)
    requires |key| <= UINT32_MAX
    ensures r.Some? ==> RecordHolds(mem, e, Pair(key, r.value))
  {
    match (Read32(mem, e), Read32(mem, e + 4))
    case (Some(keyLen), Some(valueLen)) =>
      if keyLen != |key| then None
      else if KeyOffset(e, valueLen) + keyLen > |mem| then None
      else if mem[KeyOffset(e, valueLen)..KeyOffset(e, valueLen) + keyLen] != key then None
      else
        var v := mem[e + ENTRY_HEADER_SIZE..e + ENTRY_HEADER_SIZE + valueLen];
        RecordFromFields(mem, e, Pair(key, v));
        Some(v)
    case _ => None
  }

  /** A record stored for key at e is found there, with its value. */
  lemma EntryAtComplete(mem: seq<byte>, e: nat, key: seq<byte>, v: seq<byte>)
    requires |key| <= UINT32_MAX
    requires RecordHolds(mem, e, Pair(key, v))
    ensures EntryAt(mem, e, key) == Some(v)
  {
    RecordFields(mem, e, Pair(key, v));
  }

  /** The converse of RecordFields: fields that read back as a pair's make up its encoded record. */
  lemma RecordFromFields(mem: seq<byte>, off: nat, p: Pair)
    requires ValidPair(p)
    requires off + RecordSize(p) <= |mem|
    requires mem[off..off + 4] == Le32(|p.key|)
    requires mem[off + 4..off + 8] == Le32(|p.value|)
    requires mem[off + ENTRY_HEADER_SIZE..off + ENTRY_HEADER_SIZE + |p.value|] == p.value
    requires mem[KeyOffset(off, |p.value|)..KeyOffset(off, |p.value|) + |p.key|] == p.key
    ensures RecordHolds(mem, off, p)
  {
    var vl, kl := |p.value|, |p.key|;
    var s := mem[off..off + RecordSize(p)];
    SliceOfSlice(mem, off, off + RecordSize(p), 0, 4);
    SliceOfSlice(mem, off, off + RecordSize(p), 4, 8);
    SliceOfSlice(mem, off, off + RecordSize(p), 8, 8 + vl);
    SliceOfSlice(mem, off, off + RecordSize(p), 8 + vl, 8 + vl + kl);
    assert s == s[0..4] + s[4..8] + s[8..8 + vl] + s[8 + vl..8 + vl + kl];
  }

  /**
   * chdb_get with the full-width shift: hash the key with the file's
   * perfect hash function, find its entry and match it. Not found is
   * None (the C code's EINVAL).
   */
  function Get(mem: seq<byte>, hash: seq<byte> -> uint32, key: seq<byte>): (r: Option<seq<byte>>)
    requires |key| <= UINT32_MAX
    ensures r.Some? ==> exists e: nat :: GetEntry(mem, hash(key)) == Some(e) && RecordHolds(mem, e, Pair(key, r.value))
    ensures hash(key) >= EntryCount(mem) ==> r.None?
  {
    match GetEntry(mem, hash(key))
    case None => None
    case Some(e) => EntryAt(mem, e, key)
  }

  /** chdb_get as written, with the offset shifted in 32 bits. */
  function GetAsWritten(mem: seq<byte>, hash: seq<byte> -> uint32, key: seq<byte>): (r: Option<seq<byte>>)
    requires |key| <= UINT32_MAX
    ensures r.Some? ==> exists e: nat :: GetEntryAsWritten(mem, hash(key)) == Some(e) && RecordHolds(mem, e, Pair(key, r.value))
    ensures hash(key) >= EntryCount(mem) ==> r.None?
  {
    match GetEntryAsWritten(mem, hash(key))
    case None => None
    case Some(e) => EntryAt(mem, e, key)
  }

  /** chdb->entry_count, or 0 when there is no header to read it from. */
  function EntryCount(mem: seq<byte>): nat
  {
    if |mem| < HEADER_SIZE then 0 else DecodeHeader(mem[..HEADER_SIZE]).entryCount
  }
}
