/**
 * What a successful build leaves on disk, stated declaratively, and the
 * conditions under which the builder gives up.
 */
module Image {
  import opened Bytes
  import opened Layout

  /**
   * The perfect hash function cmph builds for the keys: its query
   * (cmph_search, and cmph_search_packed on the packed form, which are
   * assumed to agree) and the bytes cmph_pack produces.
   */
  datatype Mph = Mph(hash: seq<byte> -> uint32, packed: seq<byte>)

  /** struct chdb_reader: count is a uint32_t and next() yields uint32_t lengths. */
  predicate ValidSource(pairs: seq<Pair>)
  {
    |pairs| <= UINT32_MAX && forall i :: 0 <= i < |pairs| ==> ValidPair(pairs[i])
  }

  /**
   * hash restricted to the build keys is minimal and perfect: every key
   * lands in [0, count) and no two pairs share a bucket.
   */
  ghost predicate MinimalPerfect(hash: seq<byte> -> uint32, pairs: seq<Pair>)
  {
    && (forall i :: 0 <= i < |pairs| ==> hash(pairs[i].key) < |pairs|)
    && (forall i, j :: 0 <= i < |pairs| && 0 <= j < |pairs| && hash(pairs[i].key) == hash(pairs[j].key) ==> i == j)
  }

  /** The write cursor after the entry table has been skipped. */
  function FirstCursor(count: nat, packedSize: nat): nat
  {
    TableOffset(packedSize) + SLOT_SIZE * count
  }

  /** Where record i of the source is written. */
  function Start(pairs: seq<Pair>, packedSize: nat, i: nat): (s: nat)
    requires i < |pairs|
  {
    RecordStart(pairs, FirstCursor(|pairs|, packedSize), i)
  }

  /** The write cursor before record i (after the last record when i = count). */
  function Cursor(pairs: seq<Pair>, packedSize: nat, i: nat): (c: nat)
    requires i <= |pairs|
  {
    CursorAt(pairs, FirstCursor(|pairs|, packedSize), i)
  }

  /** The error chdb_serialize returns before finishing, if any. */
  function SerializeError(pairs: seq<Pair>, packedSize: nat): (r: Option<Errno>)
    ensures r.Some? ==> r.value == EINVAL
    ensures r.None? ==> packedSize > 0 && TableOffset(packedSize) <= UINT32_MAX
  {
    if packedSize == 0 || TableOffset(packedSize) > UINT32_MAX then Some(EINVAL)
    else if exists i :: 0 <= i < |pairs| && Start(pairs, packedSize, i) / ALIGNMENT > UINT32_MAX then Some(EINVAL)
    else None
  }

  /**
   * The chdb file the builder is meant to produce from pairs and mph:
   *  - the header holds the magic, the version, the file size, the table
   *    offset and the number of pairs;
   *  - the packed hash function follows the header, then zeros up to the
   *    aligned table offset;
   *  - table slot hash(key) holds the offset of that key's record shifted
   *    right by 2;
   *  - each record starts at the first aligned offset after the previous
   *    one (or after the table), the gap before it reads as zeros, and
   *    the file ends with the last record.
   */
  ghost predicate Built(file: seq<byte>, pairs: seq<Pair>, mph: Mph)
    requires ValidSource(pairs)
  {
    var n, bl := |pairs|, |mph.packed|;
    var t := TableOffset(bl);
    var end := Cursor(pairs, bl, n);
    && t <= UINT32_MAX
    && end < 0x1_0000_0000_0000_0000
    && |file| == end
    && Prefix(file, EncodeHeader(Header(FILE_MAGIC, FILE_VERSION, end, t, n)), mph.packed, t)
    && SlotsUpTo(file, pairs, mph, n)
    && RecordsUpTo(file, pairs, bl, n)
    && GapsUpTo(file, pairs, bl, n)
  }

  /** The header bytes, then the packed hash, then zeros up to the table (as far as the file goes). */
  ghost predicate Prefix(d: seq<byte>, header: seq<byte>, packed: seq<byte>, t: nat)
  {
    && |header| + |packed| <= |d|
    && d[..|header|] == header
    && d[|header|..|header| + |packed|] == packed
    && (forall x :: |header| + |packed| <= x < t && x < |d| ==> d[x] == 0)
  }

  /** Slot idx of the table at t holds pos >> 2. */
  ghost predicate SlotHolds(file: seq<byte>, t: nat, idx: nat, pos: nat)
  {
    && pos / ALIGNMENT <= UINT32_MAX
    && SlotOffset(t, idx) + SLOT_SIZE <= |file|
    && file[SlotOffset(t, idx)..SlotOffset(t, idx) + SLOT_SIZE] == Le32(pos / ALIGNMENT)
  }

  /** The record for p is stored at pos. */
  ghost predicate RecordHolds(file: seq<byte>, pos: nat, p: Pair)
  {
    && ValidPair(p)
    && pos + RecordSize(p) <= |file|
    && file[pos..pos + RecordSize(p)] == EncodeRecord(p)
  }

  /** The slots of pairs 0 .. i-1 are filled. */
  ghost predicate SlotsUpTo(d: seq<byte>, pairs: seq<Pair>, mph: Mph, i: nat)
    requires i <= |pairs|
  {
    forall j :: 0 <= j < i ==> SlotHolds(d, TableOffset(|mph.packed|), mph.hash(pairs[j].key), Start(pairs, |mph.packed|, j))
  }

  /** The records of pairs 0 .. i-1 are in place. */
  ghost predicate RecordsUpTo(d: seq<byte>, pairs: seq<Pair>, bl: nat, i: nat)
    requires i <= |pairs|
  {
    forall j :: 0 <= j < i ==> RecordHolds(d, Start(pairs, bl, j), pairs[j])
  }

  /** The alignment gaps before records 0 .. i-1 read as zeros. */
  ghost predicate GapsUpTo(d: seq<byte>, pairs: seq<Pair>, bl: nat, i: nat)
    requires i <= |pairs|
  {
    forall j :: 0 <= j < i ==> ZerosAt(d, Cursor(pairs, bl, j), Start(pairs, bl, j))
  }

  /** The bytes in [lo, hi) exist and are zero. */
  ghost predicate ZerosAt(d: seq<byte>, lo: nat, hi: nat)
  {
    hi <= |d| && forall x :: lo <= x < hi ==> d[x] == 0
  }

  /**
   * The file after the first i records of the write pass: header (with
   * whatever file_size the placeholder holds), packed hash, and the table
   * slots, records and padding of records 0 .. i-1.
   */
  ghost predicate Partial(d: seq<byte>, pairs: seq<Pair>, mph: Mph, placeholder: uint64, i: nat)
    requires ValidSource(pairs)
    requires i <= |pairs|
  {
    var n, bl := |pairs|, |mph.packed|;
    var t := TableOffset(bl);
    && t <= UINT32_MAX
    && |d| == (if i == 0 then HEADER_SIZE + bl else Cursor(pairs, bl, i))
    && Prefix(d, EncodeHeader(Header(FILE_MAGIC, FILE_VERSION, placeholder, t, n)), mph.packed, t)
    && SlotsUpTo(d, pairs, mph, i)
    && RecordsUpTo(d, pairs, bl, i)
    && GapsUpTo(d, pairs, bl, i)
  }
}
