/**
 * How each step of chdb_serialize's write pass moves the file from one
 * Partial image to the next, and how the final file_size patch turns the
 * last Partial image into the Built one.
 */
module BuildSteps {
  import opened Bytes
  import opened Layout
  import opened Image

  /** The header chdb_serialize writes first, file_size still holding the placeholder. */
  function InitialHeader(pairs: seq<Pair>, mph: Mph, placeholder: uint64): Header
    requires |pairs| <= UINT32_MAX && TableOffset(|mph.packed|) <= UINT32_MAX
  {
    Header(FILE_MAGIC, FILE_VERSION, placeholder, TableOffset(|mph.packed|), |pairs|)
  }

  /** The header and the packed hash, written one after the other, start a Partial image. */
  lemma PartialInit(pairs: seq<Pair>, mph: Mph, placeholder: uint64)
    requires ValidSource(pairs)
    requires TableOffset(|mph.packed|) <= UINT32_MAX
    ensures Partial(WriteAt(WriteAt([], 0, EncodeHeader(InitialHeader(pairs, mph, placeholder))), HEADER_SIZE, mph.packed),
                    pairs, mph, placeholder, 0)
  {
    var hdr := EncodeHeader(InitialHeader(pairs, mph, placeholder));
    var d := WriteAt(WriteAt([], 0, hdr), HEADER_SIZE, mph.packed);
    assert d == hdr + mph.packed;
  }

  /** Offset of the slot that record i's offset goes into. */
  function SlotOf(pairs: seq<Pair>, mph: Mph, i: nat): nat
    requires i < |pairs|
  {
    SlotOffset(TableOffset(|mph.packed|), mph.hash(pairs[i].key))
  }

  /** The file after iteration i has written the table slot of record i. */
  function SlotWritten(d: seq<byte>, pairs: seq<Pair>, mph: Mph, i: nat): seq<byte>
    requires i < |pairs|
    requires Start(pairs, |mph.packed|, i) / ALIGNMENT <= UINT32_MAX
  {
    WriteAt(d, SlotOf(pairs, mph, i), Le32(Start(pairs, |mph.packed|, i) / ALIGNMENT))
  }

  /** The file after iteration i has also written record i. */
  function RecordWritten(d: seq<byte>, pairs: seq<Pair>, mph: Mph, i: nat): seq<byte>
    requires ValidSource(pairs)
    requires i < |pairs|
    requires Start(pairs, |mph.packed|, i) / ALIGNMENT <= UINT32_MAX
  {
    WriteAt(SlotWritten(d, pairs, mph, i), Start(pairs, |mph.packed|, i), EncodeRecord(pairs[i]))
  }

  /** Slots, records and gaps of the records before i all end by Cursor(i). */
  lemma EarlierBelow(pairs: seq<Pair>, bl: nat, j: nat, i: nat)
    requires j < i <= |pairs|
    ensures FirstCursor(|pairs|, bl) <= Cursor(pairs, bl, j)
    ensures Start(pairs, bl, j) + RecordSize(pairs[j]) <= Cursor(pairs, bl, i)
  {
    CursorMonotone(pairs, FirstCursor(|pairs|, bl), j + 1, i);
  }

  /** Where the writes of iteration i fall relative to what is already in the file. */
  lemma StepBounds(d: seq<byte>, pairs: seq<Pair>, mph: Mph, i: nat)
    requires i < |pairs|
    requires |d| == (if i == 0 then HEADER_SIZE + |mph.packed| else Cursor(pairs, |mph.packed|, i))
    requires mph.hash(pairs[i].key) < |pairs|
    ensures TableOffset(|mph.packed|) <= SlotOf(pairs, mph, i)
    ensures SlotOf(pairs, mph, i) + SLOT_SIZE <= FirstCursor(|pairs|, |mph.packed|)
    ensures FirstCursor(|pairs|, |mph.packed|) <= Cursor(pairs, |mph.packed|, i)
    ensures |d| <= Cursor(pairs, |mph.packed|, i) <= Start(pairs, |mph.packed|, i)
  {
  }

  /** Writing at or after the table offset keeps the header, the packed hash and the zeros before the table. */
  lemma PrefixKept(d: seq<byte>, header: seq<byte>, packed: seq<byte>, t: nat, p: nat, b: seq<byte>)
    requires Prefix(d, header, packed, t)
    requires |header| + |packed| <= t <= p
    ensures Prefix(WriteAt(d, p, b), header, packed, t)
  {
    var r := WriteAt(d, p, b);
    WriteAtKeeps(d, p, b, 0, |header|);
    WriteAtKeeps(d, p, b, |header|, |header| + |packed|);
  }

  /** The slot write of iteration i leaves the slot of an earlier record alone. */
  lemma EarlierSlotKept(d: seq<byte>, pairs: seq<Pair>, mph: Mph, i: nat, j: nat)
    requires MinimalPerfect(mph.hash, pairs)
    requires j < i < |pairs|
    requires |d| == Cursor(pairs, |mph.packed|, i)
    requires Start(pairs, |mph.packed|, i) / ALIGNMENT <= UINT32_MAX
    requires SlotHolds(d, TableOffset(|mph.packed|), mph.hash(pairs[j].key), Start(pairs, |mph.packed|, j))
    ensures SlotHolds(SlotWritten(d, pairs, mph, i), TableOffset(|mph.packed|), mph.hash(pairs[j].key), Start(pairs, |mph.packed|, j))
  {
    var s := Start(pairs, |mph.packed|, i);
    var sj := SlotOf(pairs, mph, j);
    StepBounds(d, pairs, mph, i);
    assert mph.hash(pairs[j].key) != mph.hash(pairs[i].key);
    WriteAtKeeps(d, SlotOf(pairs, mph, i), Le32(s / ALIGNMENT), sj, sj + SLOT_SIZE);
  }

  /** The record write of iteration i leaves every slot alone. */
  lemma SlotKeptByRecord(d: seq<byte>, pairs: seq<Pair>, mph: Mph, i: nat, idx: nat, pos: nat)
    requires ValidSource(pairs)
    requires i < |pairs|
    requires |d| == (if i == 0 then HEADER_SIZE + |mph.packed| else Cursor(pairs, |mph.packed|, i))
    requires mph.hash(pairs[i].key) < |pairs|
    requires Start(pairs, |mph.packed|, i) / ALIGNMENT <= UINT32_MAX
    requires idx < |pairs|
    requires SlotHolds(SlotWritten(d, pairs, mph, i), TableOffset(|mph.packed|), idx, pos)
    ensures SlotHolds(RecordWritten(d, pairs, mph, i), TableOffset(|mph.packed|), idx, pos)
  {
    var d1 := SlotWritten(d, pairs, mph, i);
    var so := SlotOffset(TableOffset(|mph.packed|), idx);
    StepBounds(d, pairs, mph, i);
    WriteAtKeeps(d1, Start(pairs, |mph.packed|, i), EncodeRecord(pairs[i]), so, so + SLOT_SIZE);
  }

  lemma StepSlots(d: seq<byte>, pairs: seq<Pair>, mph: Mph, i: nat)
    requires ValidSource(pairs) && MinimalPerfect(mph.hash, pairs)
    requires i < |pairs|
    requires |d| == (if i == 0 then HEADER_SIZE + |mph.packed| else Cursor(pairs, |mph.packed|, i))
    requires Start(pairs, |mph.packed|, i) / ALIGNMENT <= UINT32_MAX
    requires SlotsUpTo(d, pairs, mph, i)
    ensures SlotsUpTo(RecordWritten(d, pairs, mph, i), pairs, mph, i + 1)
  {
    var bl, t, s := |mph.packed|, TableOffset(|mph.packed|), Start(pairs, |mph.packed|, i);
    forall j | 0 <= j < i + 1
      ensures SlotHolds(RecordWritten(d, pairs, mph, i), t, mph.hash(pairs[j].key), Start(pairs, bl, j))
    {
      if j < i {
        EarlierSlotKept(d, pairs, mph, i, j);
      } else {
        StepBounds(d, pairs, mph, i);
        WriteAtReads(d, SlotOf(pairs, mph, i), Le32(s / ALIGNMENT));
      }
      SlotKeptByRecord(d, pairs, mph, i, mph.hash(pairs[j].key), Start(pairs, bl, j));
    }
  }

  /** Neither write of iteration i touches the record of an earlier pair. */
  lemma EarlierRecordKept(d: seq<byte>, pairs: seq<Pair>, mph: Mph, i: nat, j: nat)
    requires ValidSource(pairs)
    requires j < i < |pairs|
    requires mph.hash(pairs[i].key) < |pairs|
    requires |d| == Cursor(pairs, |mph.packed|, i)
    requires Start(pairs, |mph.packed|, i) / ALIGNMENT <= UINT32_MAX
    requires RecordHolds(d, Start(pairs, |mph.packed|, j), pairs[j])
    ensures RecordHolds(RecordWritten(d, pairs, mph, i), Start(pairs, |mph.packed|, j), pairs[j])
  {
    var bl, s := |mph.packed|, Start(pairs, |mph.packed|, i);
    var sj := Start(pairs, bl, j);
    var d1 := SlotWritten(d, pairs, mph, i);
    StepBounds(d, pairs, mph, i);
    EarlierBelow(pairs, bl, j, i);
    WriteAtKeeps(d, SlotOf(pairs, mph, i), Le32(s / ALIGNMENT), sj, sj + RecordSize(pairs[j]));
    WriteAtKeeps(d1, s, EncodeRecord(pairs[i]), sj, sj + RecordSize(pairs[j]));
  }

  /** Iteration i leaves its own record at Start(i). */
  lemma OwnRecordWritten(d: seq<byte>, pairs: seq<Pair>, mph: Mph, i: nat)
    requires ValidSource(pairs)
    requires i < |pairs|
    requires Start(pairs, |mph.packed|, i) / ALIGNMENT <= UINT32_MAX
    ensures RecordHolds(RecordWritten(d, pairs, mph, i), Start(pairs, |mph.packed|, i), pairs[i])
  {
    WriteAtReads(SlotWritten(d, pairs, mph, i), Start(pairs, |mph.packed|, i), EncodeRecord(pairs[i]));
  }

  lemma StepRecords(d: seq<byte>, pairs: seq<Pair>, mph: Mph, i: nat)
    requires ValidSource(pairs)
    requires i < |pairs|
    requires mph.hash(pairs[i].key) < |pairs|
    requires |d| == (if i == 0 then HEADER_SIZE + |mph.packed| else Cursor(pairs, |mph.packed|, i))
    requires Start(pairs, |mph.packed|, i) / ALIGNMENT <= UINT32_MAX
    requires RecordsUpTo(d, pairs, |mph.packed|, i)
    ensures RecordsUpTo(RecordWritten(d, pairs, mph, i), pairs, |mph.packed|, i + 1)
  {
    var bl := |mph.packed|;
    var d2 := RecordWritten(d, pairs, mph, i);
    forall j | 0 <= j < i
      ensures RecordHolds(d2, Start(pairs, bl, j), pairs[j])
    {
      EarlierRecordKept(d, pairs, mph, i, j);
    }
    OwnRecordWritten(d, pairs, mph, i);
    RecordsExtend(d2, pairs, bl, i);
  }

  lemma RecordsExtend(d: seq<byte>, pairs: seq<Pair>, bl: nat, i: nat)
    requires i < |pairs|
    requires forall j :: 0 <= j < i ==> RecordHolds(d, Start(pairs, bl, j), pairs[j])
    requires RecordHolds(d, Start(pairs, bl, i), pairs[i])
    ensures RecordsUpTo(d, pairs, bl, i + 1)
  {
  }

  /** Neither write of iteration i touches the gap before an earlier record. */
  lemma EarlierGapKept(d: seq<byte>, pairs: seq<Pair>, mph: Mph, i: nat, j: nat)
    requires ValidSource(pairs)
    requires j < i < |pairs|
    requires mph.hash(pairs[i].key) < |pairs|
    requires |d| == Cursor(pairs, |mph.packed|, i)
    requires Start(pairs, |mph.packed|, i) / ALIGNMENT <= UINT32_MAX
    requires ZerosAt(d, Cursor(pairs, |mph.packed|, j), Start(pairs, |mph.packed|, j))
    ensures ZerosAt(RecordWritten(d, pairs, mph, i), Cursor(pairs, |mph.packed|, j), Start(pairs, |mph.packed|, j))
  {
    var bl := |mph.packed|;
    var lo, hi := Cursor(pairs, bl, j), Start(pairs, bl, j);
    StepBounds(d, pairs, mph, i);
    EarlierBelow(pairs, bl, j, i);
    var d1 := SlotWritten(d, pairs, mph, i);
    WriteAtKeeps(d, SlotOf(pairs, mph, i), Le32(Start(pairs, bl, i) / ALIGNMENT), lo, hi);
    WriteAtKeeps(d1, Start(pairs, bl, i), EncodeRecord(pairs[i]), lo, hi);
    assert RecordWritten(d, pairs, mph, i)[lo..hi] == d[lo..hi];
    assert forall x :: lo <= x < hi ==> d[x] == d[lo..hi][x - lo];
  }

  /** The bytes between the cursor and Start(i) read as zeros after iteration i. */
  lemma OwnGapZero(d: seq<byte>, pairs: seq<Pair>, mph: Mph, i: nat)
    requires ValidSource(pairs)
    requires i < |pairs|
    requires mph.hash(pairs[i].key) < |pairs|
    requires |d| == (if i == 0 then HEADER_SIZE + |mph.packed| else Cursor(pairs, |mph.packed|, i))
    requires Start(pairs, |mph.packed|, i) / ALIGNMENT <= UINT32_MAX
    ensures ZerosAt(RecordWritten(d, pairs, mph, i), Cursor(pairs, |mph.packed|, i), Start(pairs, |mph.packed|, i))
  {
    StepBounds(d, pairs, mph, i);
    assert |SlotWritten(d, pairs, mph, i)| <= Cursor(pairs, |mph.packed|, i);
  }

  lemma StepGaps(d: seq<byte>, pairs: seq<Pair>, mph: Mph, i: nat)
    requires ValidSource(pairs)
    requires i < |pairs|
    requires mph.hash(pairs[i].key) < |pairs|
    requires |d| == (if i == 0 then HEADER_SIZE + |mph.packed| else Cursor(pairs, |mph.packed|, i))
    requires Start(pairs, |mph.packed|, i) / ALIGNMENT <= UINT32_MAX
    requires GapsUpTo(d, pairs, |mph.packed|, i)
    ensures GapsUpTo(RecordWritten(d, pairs, mph, i), pairs, |mph.packed|, i + 1)
  {
    var bl := |mph.packed|;
    var d2 := RecordWritten(d, pairs, mph, i);
    forall j | 0 <= j < i
      ensures ZerosAt(d2, Cursor(pairs, bl, j), Start(pairs, bl, j))
    {
      EarlierGapKept(d, pairs, mph, i, j);
    }
    OwnGapZero(d, pairs, mph, i);
    GapsExtend(d2, pairs, bl, i);
  }

  lemma GapsExtend(d: seq<byte>, pairs: seq<Pair>, bl: nat, i: nat)
    requires i < |pairs|
    requires forall j :: 0 <= j < i ==> ZerosAt(d, Cursor(pairs, bl, j), Start(pairs, bl, j))
    requires ZerosAt(d, Cursor(pairs, bl, i), Start(pairs, bl, i))
    ensures GapsUpTo(d, pairs, bl, i + 1)
  {
  }

  /**
   * One iteration of the write pass: store Start(i) >> 2 in slot hash(key),
   * then write record i at Start(i).
   */
  lemma PartialStep(d: seq<byte>, pairs: seq<Pair>, mph: Mph, placeholder: uint64, i: nat)
    requires ValidSource(pairs) && MinimalPerfect(mph.hash, pairs)
    requires i < |pairs|
    requires Partial(d, pairs, mph, placeholder, i)
    requires Start(pairs, |mph.packed|, i) / ALIGNMENT <= UINT32_MAX
    ensures Partial(RecordWritten(d, pairs, mph, i), pairs, mph, placeholder, i + 1)
  {
    var bl, t := |mph.packed|, TableOffset(|mph.packed|);
    var hdr := EncodeHeader(InitialHeader(pairs, mph, placeholder));
    StepBounds(d, pairs, mph, i);
    var d1 := SlotWritten(d, pairs, mph, i);
    PrefixKept(d, hdr, mph.packed, t, SlotOf(pairs, mph, i), Le32(Start(pairs, bl, i) / ALIGNMENT));
    PrefixKept(d1, hdr, mph.packed, t, Start(pairs, bl, i), EncodeRecord(pairs[i]));
    StepSlots(d, pairs, mph, i);
    StepRecords(d, pairs, mph, i);
    StepGaps(d, pairs, mph, i);
  }

  /** Patching file_size into an encoded header changes only that field. */
  lemma HeaderPatch(h: Header, size: uint64)
    ensures WriteAt(EncodeHeader(h), FILE_SIZE_OFFSET, Le64(size)) == EncodeHeader(h.(fileSize := size))
  {
  }

  /** After the last record the file is less than 2^64 bytes long, since the last record starts below 16 GiB. */
  lemma FinalSizeFits(d: seq<byte>, pairs: seq<Pair>, mph: Mph, placeholder: uint64)
    requires ValidSource(pairs)
    requires |pairs| > 0
    requires Partial(d, pairs, mph, placeholder, |pairs|)
    ensures |d| == Cursor(pairs, |mph.packed|, |pairs|) < 0x1_0000_0000_0000_0000
  {
    var n, bl := |pairs|, |mph.packed|;
    assert SlotHolds(d, TableOffset(bl), mph.hash(pairs[n - 1].key), Start(pairs, bl, n - 1));
    assert ValidPair(pairs[n - 1]);
  }

  /** Two files that agree after the header agree on every slice there. */
  lemma TailSlice(d: seq<byte>, f: seq<byte>, lo: nat, hi: nat)
    requires |f| == |d| && HEADER_SIZE <= lo <= hi <= |d|
    requires f[HEADER_SIZE..] == d[HEADER_SIZE..]
    ensures f[lo..hi] == d[lo..hi]
  {
    SliceOfSlice(f, HEADER_SIZE, |f|, lo - HEADER_SIZE, hi - HEADER_SIZE);
    SliceOfSlice(d, HEADER_SIZE, |d|, lo - HEADER_SIZE, hi - HEADER_SIZE);
  }

  lemma TailZeros(d: seq<byte>, f: seq<byte>, lo: nat, hi: nat)
    requires |f| == |d| && HEADER_SIZE <= lo && HEADER_SIZE <= |d|
    requires f[HEADER_SIZE..] == d[HEADER_SIZE..]
    requires ZerosAt(d, lo, hi)
    ensures ZerosAt(f, lo, hi)
  {
    forall x | lo <= x < hi ensures f[x] == 0 {
      assert f[x] == f[HEADER_SIZE..][x - HEADER_SIZE];
      assert d[x] == d[HEADER_SIZE..][x - HEADER_SIZE];
    }
  }

  /** Table slots lie after the header, so a file that agrees with d there holds them too. */
  lemma TailSlots(d: seq<byte>, f: seq<byte>, pairs: seq<Pair>, mph: Mph)
    requires |f| == |d| && HEADER_SIZE <= |d|
    requires f[HEADER_SIZE..] == d[HEADER_SIZE..]
    requires SlotsUpTo(d, pairs, mph, |pairs|)
    ensures SlotsUpTo(f, pairs, mph, |pairs|)
  {
    var n, bl := |pairs|, |mph.packed|;
    var t := TableOffset(bl);
    forall i | 0 <= i < n
      ensures SlotHolds(f, t, mph.hash(pairs[i].key), Start(pairs, bl, i))
    {
      var si := SlotOffset(t, mph.hash(pairs[i].key));
      assert SlotHolds(d, t, mph.hash(pairs[i].key), Start(pairs, bl, i));
      TailSlice(d, f, si, si + SLOT_SIZE);
    }
  }

  /** Records lie after the table, so a file that agrees with d after the header holds them too. */
  lemma TailRecords(d: seq<byte>, f: seq<byte>, pairs: seq<Pair>, bl: nat)
    requires |f| == |d| && HEADER_SIZE <= |d|
    requires f[HEADER_SIZE..] == d[HEADER_SIZE..]
    requires RecordsUpTo(d, pairs, bl, |pairs|)
    ensures RecordsUpTo(f, pairs, bl, |pairs|)
  {
    forall i | 0 <= i < |pairs|
      ensures RecordHolds(f, Start(pairs, bl, i), pairs[i])
    {
      var si := Start(pairs, bl, i);
      assert RecordHolds(d, si, pairs[i]);
      EarlierBelow(pairs, bl, i, i + 1);
      TailSlice(d, f, si, si + RecordSize(pairs[i]));
    }
  }

  /** The gaps lie after the table, so a file that agrees with d after the header holds them too. */
  lemma TailGaps(d: seq<byte>, f: seq<byte>, pairs: seq<Pair>, bl: nat)
    requires |f| == |d| && HEADER_SIZE <= |d|
    requires f[HEADER_SIZE..] == d[HEADER_SIZE..]
    requires GapsUpTo(d, pairs, bl, |pairs|)
    ensures GapsUpTo(f, pairs, bl, |pairs|)
  {
    forall i | 0 <= i < |pairs|
      ensures ZerosAt(f, Cursor(pairs, bl, i), Start(pairs, bl, i))
    {
      assert ZerosAt(d, Cursor(pairs, bl, i), Start(pairs, bl, i));
      EarlierBelow(pairs, bl, i, i + 1);
      TailZeros(d, f, Cursor(pairs, bl, i), Start(pairs, bl, i));
    }
  }

  /** Writing the final cursor into file_size completes the file. */
  lemma PartialFinish(d: seq<byte>, pairs: seq<Pair>, mph: Mph, placeholder: uint64)
    requires ValidSource(pairs)
    requires MinimalPerfect(mph.hash, pairs)
    requires |pairs| > 0
    requires Partial(d, pairs, mph, placeholder, |pairs|)
    ensures |d| < 0x1_0000_0000_0000_0000
    ensures Built(WriteAt(d, FILE_SIZE_OFFSET, Le64(|d|)), pairs, mph)
  {
    var n, bl := |pairs|, |mph.packed|;
    var t := TableOffset(bl);
    FinalSizeFits(d, pairs, mph, placeholder);
    var f := WriteAt(d, FILE_SIZE_OFFSET, Le64(|d|));
    var hdr := InitialHeader(pairs, mph, placeholder);
    var hdr' := Header(FILE_MAGIC, FILE_VERSION, |d|, t, n);
    assert hdr.(fileSize := |d|) == hdr';
    PatchPrefix(d, hdr, mph.packed, t);
    WriteAtKeeps(d, FILE_SIZE_OFFSET, Le64(|d|), HEADER_SIZE, |d|);
    assert f[HEADER_SIZE..] == d[HEADER_SIZE..];
    TailSlots(d, f, pairs, mph);
    TailRecords(d, f, pairs, bl);
    TailGaps(d, f, pairs, bl);
  }

  /** Patching file_size keeps the Prefix shape, with the new size in the header. */
  lemma PatchPrefix(d: seq<byte>, h: Header, packed: seq<byte>, t: nat)
    requires Prefix(d, EncodeHeader(h), packed, t)
    requires |d| < 0x1_0000_0000_0000_0000
    ensures Prefix(WriteAt(d, FILE_SIZE_OFFSET, Le64(|d|)), EncodeHeader(h.(fileSize := |d|)), packed, t)
  {
    var f := WriteAt(d, FILE_SIZE_OFFSET, Le64(|d|));
    assert f[..HEADER_SIZE] == WriteAt(d[..HEADER_SIZE], FILE_SIZE_OFFSET, Le64(|d|));
    HeaderPatch(h, |d|);
    WriteAtKeeps(d, FILE_SIZE_OFFSET, Le64(|d|), HEADER_SIZE, HEADER_SIZE + |packed|);
  }
}
