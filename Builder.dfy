/**
 * The build side of chdb: the output FILE*, the zero-key guard of
 * chdb_generate_hash, the two-pass writer chdb_serialize and the error
 * handling of chdb_create.
 */
module Builder {
  import opened Bytes
  import opened Layout
  import opened Image
  import opened BuildSteps

  /**
   * A regular file opened for writing with its stream position. Writing
   * past the end first fills the gap with zeros.
   */
  class OutFile {
    var data: seq<byte>
    var pos: nat

    /** fopen(pathname, "w"): an empty file, positioned at 0. */
    constructor ()
      ensures data == [] && pos == 0
    {
      data := [];
      pos := 0;
    }

    /** ftell(). */
    method Tell() returns (p: nat)
      ensures p == pos
    {
      p := pos;
    }

    /** fseek(out, p, SEEK_SET): moving the position writes nothing. */
    method Seek(p: nat)
      modifies this
      ensures pos == p && data == old(data)
    {
      pos := p;
    }

    /** fwrite(): b replaces the bytes at the position, which moves past them. */
    method Write(b: seq<byte>)
      modifies this
      ensures data == WriteAt(old(data), old(pos), b)
      ensures pos == old(pos) + |b|
    {
      data := WriteAt(data, pos, b);
      pos := pos + |b|;
    }
  }

  /**
   * chdb_generate_hash: a source without keys is refused, since cmph
   * would not terminate on it; otherwise cmph's outcome is passed on, no
   * function (cmph_config_new or cmph_new failing) meaning ENOMEM.
   */
  function GenerateHash(count: nat, cmph: Option<Mph>): (r: Result<Mph>)
    ensures count == 0 ==> r == Err(EINVAL)
    ensures count > 0 && cmph.None? ==> r == Err(ENOMEM)
    ensures count > 0 && cmph.Some? ==> r == Ok(cmph.value)
  {
    if count == 0 then Err(EINVAL)
    else if cmph.None? then Err(ENOMEM)
    else Ok(cmph.value)
  }

  /** The header with file_size patched to the table offset, as a source of no records leaves it. */
  function EmptyImage(mph: Mph): seq<byte>
    requires TableOffset(|mph.packed|) <= UINT32_MAX
  {
    var t := TableOffset(|mph.packed|);
    EncodeHeader(Header(FILE_MAGIC, FILE_VERSION, t, t, 0)) + mph.packed
  }

  /**
   * chdb_serialize writing to a freshly opened out. placeholder stands for
   * the uninitialised file_size written with the first header. The error
   * is the one SerializeError predicts; on success the file is the Built
   * image of the pairs (for a source of no records, which chdb_create
   * never passes, the header and the packed hash with file_size set to
   * the end of the skipped table).
   */
  method Serialize(pairs: seq<Pair>, mph: Mph, out: OutFile, placeholder: uint64) returns (err: Option<Errno>)
    requires ValidSource(pairs)
    requires MinimalPerfect(mph.hash, pairs)
    requires out.data == [] && out.pos == 0
    modifies out
    ensures err == SerializeError(pairs, |mph.packed|)
    ensures err.None? && |pairs| > 0 ==> Built(out.data, pairs, mph)
    ensures err.None? && |pairs| == 0 ==> out.data == EmptyImage(mph)
  {
    var bl := |mph.packed|;
    if bl == 0 || TableOffset(bl) > UINT32_MAX {
      return Some(EINVAL);
    }
    var n := |pairs|;
    WriteHead(pairs, mph, out, placeholder);

    var i := 0;
    while i < n
      invariant 0 <= i <= n
      invariant Partial(out.data, pairs, mph, placeholder, i)
      invariant out.pos == Cursor(pairs, bl, i)
      invariant forall j :: 0 <= j < i ==> Start(pairs, bl, j) / ALIGNMENT <= UINT32_MAX
    {
      ghost var d := out.data;
      var ok := WriteEntry(pairs, mph, out, i);
      if !ok {
        RecordTooFar(pairs, bl, i);
        return Some(EINVAL);
      }
      PartialStep(d, pairs, mph, placeholder, i);
      i := i + 1;
    }

    WriteFileSize(pairs, mph, out, placeholder);
    return None;
  }

  /** The start of chdb_serialize: the header with file_size still unset, the packed hash, then the table is skipped. */
  method WriteHead(pairs: seq<Pair>, mph: Mph, out: OutFile, placeholder: uint64)
    requires ValidSource(pairs)
    requires TableOffset(|mph.packed|) <= UINT32_MAX
    requires out.data == [] && out.pos == 0
    modifies out
    ensures Partial(out.data, pairs, mph, placeholder, 0)
    ensures out.pos == Cursor(pairs, |mph.packed|, 0)
  {
    out.Write(EncodeHeader(InitialHeader(pairs, mph, placeholder)));
    out.Write(mph.packed);
    PartialInit(pairs, mph, placeholder);
    out.Seek(TableOffset(|mph.packed|) + SLOT_SIZE * |pairs|);
  }

  /** A record whose offset does not fit a slot makes the build fail with EINVAL. */
  lemma RecordTooFar(pairs: seq<Pair>, bl: nat, i: nat)
    requires bl > 0 && TableOffset(bl) <= UINT32_MAX
    requires i < |pairs|
    requires Start(pairs, bl, i) / ALIGNMENT > UINT32_MAX
    ensures SerializeError(pairs, bl) == Some(EINVAL)
  {
  }

  /** The end of chdb_serialize: the final position is the file size, patched in at offset 8. */
  method WriteFileSize(pairs: seq<Pair>, mph: Mph, out: OutFile, placeholder: uint64)
    requires ValidSource(pairs)
    requires MinimalPerfect(mph.hash, pairs)
    requires Partial(out.data, pairs, mph, placeholder, |pairs|)
    requires out.pos == Cursor(pairs, |mph.packed|, |pairs|)
    modifies out
    ensures |pairs| > 0 ==> Built(out.data, pairs, mph)
    ensures |pairs| == 0 ==> out.data == EmptyImage(mph)
  {
    var size := out.Tell();
    ghost var d := out.data;
    if |pairs| > 0 {
      FinalSizeFits(d, pairs, mph, placeholder);
    }
    out.Seek(FILE_SIZE_OFFSET);
    out.Write(Le64(size));
    if |pairs| > 0 {
      PartialFinish(d, pairs, mph, placeholder);
    } else {
      EmptyFinish(d, pairs, mph, placeholder);
    }
  }

  /**
   * One iteration of chdb_serialize's loop: align the position, refuse
   * an offset that does not fit a slot, store it shifted in slot
   * hash(key), go back and write record i.
   */
  method WriteEntry(pairs: seq<Pair>, mph: Mph, out: OutFile, i: nat) returns (ok: bool)
    requires ValidSource(pairs)
    requires i < |pairs|
    requires out.pos == Cursor(pairs, |mph.packed|, i)
    modifies out
    ensures ok <==> Start(pairs, |mph.packed|, i) / ALIGNMENT <= UINT32_MAX
    ensures ok ==> out.data == RecordWritten(old(out.data), pairs, mph, i)
    ensures ok ==> out.pos == Cursor(pairs, |mph.packed|, i + 1)
    ensures !ok ==> out.data == old(out.data) && out.pos == old(out.pos)
  {
    var bl := |mph.packed|;
    var t := TableOffset(bl);
    var key, value := pairs[i].key, pairs[i].value;
    var hash := mph.hash(key);

    // Record i goes at the next 4-byte boundary; its slot gets that offset >> 2.
    var pos := out.Tell();
    pos := MemAlign(pos);
    assert pos == Start(pairs, bl, i);
    if pos / ALIGNMENT > UINT32_MAX {
      return false;
    }
    var d := out.data;
    out.Seek(t + SLOT_SIZE * hash);
    out.Write(Le32(pos / ALIGNMENT));
    out.Seek(pos);

    assert out.data == SlotWritten(d, pairs, mph, i);
    WriteRecord(out, pairs[i]);
    ok := true;
  }

  /** Writing the entry: key_len and value_len, the value, the key. */
  method WriteRecord(out: OutFile, p: Pair)
    requires ValidPair(p)
    modifies out
    ensures out.data == WriteAt(old(out.data), old(out.pos), EncodeRecord(p))
    ensures out.pos == old(out.pos) + RecordSize(p)
  {
    ghost var d := out.data;
    out.Write(Le32(|p.key|) + Le32(|p.value|));
    out.Write(p.value);
    out.Write(p.key);
    RecordWrites(d, old(out.pos), p);
  }

  /** The three writes of a record: its two lengths, its value, its key. */
  lemma RecordWrites(d: seq<byte>, pos: nat, p: Pair)
    requires ValidPair(p)
    ensures WriteAt(WriteAt(WriteAt(d, pos, Le32(|p.key|) + Le32(|p.value|)), pos + ENTRY_HEADER_SIZE, p.value),
                    pos + ENTRY_HEADER_SIZE + |p.value|, p.key)
            == WriteAt(d, pos, EncodeRecord(p))
  {
    var lens := Le32(|p.key|) + Le32(|p.value|);
    WriteAtConcat(d, pos, lens, p.value);
    WriteAtConcat(d, pos, lens + p.value, p.key);
  }

  /** With no records, patching file_size leaves the header and the packed hash only. */
  lemma EmptyFinish(d: seq<byte>, pairs: seq<Pair>, mph: Mph, placeholder: uint64)
    requires ValidSource(pairs)
    requires |pairs| == 0
    requires Partial(d, pairs, mph, placeholder, 0)
    ensures WriteAt(d, FILE_SIZE_OFFSET, Le64(FirstCursor(0, |mph.packed|))) == EmptyImage(mph)
  {
    var t := TableOffset(|mph.packed|);
    var h := InitialHeader(pairs, mph, placeholder);
    var f := WriteAt(d, FILE_SIZE_OFFSET, Le64(t));
    assert d == EncodeHeader(h) + mph.packed;
    HeaderPatch(h, t);
    assert h.(fileSize := t) == Header(FILE_MAGIC, FILE_VERSION, t, t, 0);
    assert f[..HEADER_SIZE] == WriteAt(EncodeHeader(h), FILE_SIZE_OFFSET, Le64(t));
    WriteAtKeeps(d, FILE_SIZE_OFFSET, Le64(t), HEADER_SIZE, |d|);
    assert f == f[..HEADER_SIZE] + f[HEADER_SIZE..];
  }

  /** Why chdb_create fails, if it does. */
  function CreateError(pairs: seq<Pair>, cmph: Option<Mph>): Option<Errno>
  {
    match GenerateHash(|pairs|, cmph)
    case Err(e) => Some(e)
    case Ok(mph) => SerializeError(pairs, |mph.packed|)
  }

  /**
   * chdb_create: build the hash, open the output, serialize. On failure
   * the partial file is removed, so the outcome is an error and no bytes;
   * on success the bytes of the finished file. cmph is what cmph_new
   * returns for the keys, a minimal perfect hash function when it returns
   * one.
   */
  method Create(pairs: seq<Pair>, cmph: Option<Mph>, placeholder: uint64) returns (r: Result<seq<byte>>)
    requires ValidSource(pairs)
    requires cmph.Some? ==> MinimalPerfect(cmph.value.hash, pairs)
    ensures r.Err? <==> CreateError(pairs, cmph).Some?
    ensures r.Err? ==> r.error == CreateError(pairs, cmph).value
    ensures r.Ok? ==> |pairs| > 0 && cmph.Some? && Built(r.value, pairs, cmph.value)
  {
    var g := GenerateHash(|pairs|, cmph);
    if g.Err? {
      return Err(g.error);
    }
    var out := new OutFile();
    var err := Serialize(pairs, g.value, out, placeholder);
    if err.Some? {
      return Err(err.value);
    }
    return Ok(out.data);
  }
}
