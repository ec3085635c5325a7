/**
 * What the format promises: a built file passes the header check, every
 * stored key is found with its value, a lookup agrees with a linear
 * search of the source for any key, and the builder's output is uniquely
 * determined by the pairs and the hash function. Also the 32-bit offset
 * shift of chdb_get_entry as written, against the full-width one.
 */
module Properties {
  import opened Bytes
  import opened Layout
  import opened Image
  import opened Reader

  // ---------------------------------------------------------------
  // The perfect hash: minimal and perfect implies onto [0, count).
  // ---------------------------------------------------------------

  /** The buckets the first m keys hash to. */
  ghost function Buckets(hash: seq<byte> -> uint32, pairs: seq<Pair>, m: nat): set<int>
    requires m <= |pairs|
  {
    set j | 0 <= j < m :: hash(pairs[j].key) as int
  }

  /** Distinct keys fill distinct buckets: m keys occupy m buckets. */
  lemma {:induction false} BucketsCard(hash: seq<byte> -> uint32, pairs: seq<Pair>, m: nat)
    requires MinimalPerfect(hash, pairs)
    requires m <= |pairs|
    ensures |Buckets(hash, pairs, m)| == m
  {
    if m > 0 {
      BucketsCard(hash, pairs, m - 1);
      var b := hash(pairs[m - 1].key) as int;
      assert Buckets(hash, pairs, m) == Buckets(hash, pairs, m - 1) + {b};
      assert b !in Buckets(hash, pairs, m - 1);
    }
  }

  /** The slot indices 0 .. n-1. */
  ghost function Range(n: nat): (r: set<int>)
    ensures forall k :: k in r <==> 0 <= k < n
    ensures |r| == n
  {
    if n == 0 then {} else Range(n - 1) + {n - 1}
  }

  lemma SubsetCard(a: set<int>, b: set<int>)
    requires a <= b
    ensures |a| <= |b|
  {
    assert b == a + (b - a);
    assert a * (b - a) == {};
  }

  /** Every slot of the table belongs to some key (pigeonhole). */
  lemma Surjective(hash: seq<byte> -> uint32, pairs: seq<Pair>, k: nat)
    requires MinimalPerfect(hash, pairs)
    requires k < |pairs|
    ensures exists j :: 0 <= j < |pairs| && hash(pairs[j].key) == k
  {
    var n := |pairs|;
    var s := Buckets(hash, pairs, n);
    BucketsCard(hash, pairs, n);
    assert s <= Range(n);
    if k !in s {
      SubsetCard(s, Range(n) - {k});
    }
  }

  /** No two source pairs share a key. */
  ghost predicate DistinctKeys(pairs: seq<Pair>)
  {
    forall i, j :: 0 <= i < j < |pairs| ==> pairs[i].key != pairs[j].key
  }

  lemma PerfectKeysDistinct(hash: seq<byte> -> uint32, pairs: seq<Pair>)
    requires MinimalPerfect(hash, pairs)
    ensures DistinctKeys(pairs)
  {
  }

  // ---------------------------------------------------------------
  // A reference lookup: linear search of the source.
  // ---------------------------------------------------------------

  /** The value of the first pair with the given key. */
  function Find(pairs: seq<Pair>, key: seq<byte>): (r: Option<seq<byte>>)
    ensures r.Some? <==> exists i :: 0 <= i < |pairs| && pairs[i].key == key
    ensures r.Some? ==> exists i :: 0 <= i < |pairs| && pairs[i] == Pair(key, r.value)
  {
    if |pairs| == 0 then None
    else if pairs[0].key == key then Some(pairs[0].value)
    else
      var r := Find(pairs[1..], key);
      assert forall i :: 0 <= i < |pairs| - 1 ==> pairs[1..][i] == pairs[i + 1];
      assert r.None? ==> forall i :: 0 <= i < |pairs| ==> pairs[i].key != key by {
        if r.None? {
          forall i | 0 <= i < |pairs| ensures pairs[i].key != key {
            if i > 0 {
              assert pairs[1..][i - 1] == pairs[i];
            }
          }
        }
      }
      r
  }

  /** With distinct keys, the search finds each pair's own value. */
  lemma {:induction false} FindDistinct(pairs: seq<Pair>, i: nat)
    requires DistinctKeys(pairs)
    requires i < |pairs|
    ensures Find(pairs, pairs[i].key) == Some(pairs[i].value)
  {
    if i > 0 {
      assert pairs[0].key != pairs[i].key;
      var rest := pairs[1..];
      assert rest[i - 1] == pairs[i];
      assert DistinctKeys(rest) by {
        forall a, b | 0 <= a < b < |rest| ensures rest[a].key != rest[b].key {
          assert rest[a] == pairs[a + 1] && rest[b] == pairs[b + 1];
        }
      }
      FindDistinct(rest, i - 1);
    }
  }

  // ---------------------------------------------------------------
  // Reading a built file.
  // ---------------------------------------------------------------

  /**
   * The header of a built file: the magic, the version, the file size
   * (the end of the last record), the aligned table offset and the
   * number of pairs.
   */
  lemma BuiltHeader(file: seq<byte>, pairs: seq<Pair>, mph: Mph)
    requires ValidSource(pairs)
    requires Built(file, pairs, mph)
    ensures |file| >= HEADER_SIZE
    ensures DecodeHeader(file[..HEADER_SIZE])
            == Header(FILE_MAGIC, FILE_VERSION, |file|, TableOffset(|mph.packed|), |pairs|)
  {
    HeaderRoundTrip(Header(FILE_MAGIC, FILE_VERSION, |file|, TableOffset(|mph.packed|), |pairs|));
  }

  /** A built file that fits the address space passes chdb_read_header, which reports its true size. */
  lemma BuiltAccepted(file: seq<byte>, pairs: seq<Pair>, mph: Mph, sizeMax: nat)
    requires ValidSource(pairs)
    requires Built(file, pairs, mph)
    requires |file| <= sizeMax
    ensures HeaderCheck(file, sizeMax) == Ok(|file|)
  {
    BuiltHeader(file, pairs, mph);
  }

  /** A slot holding pos >> 2 for an aligned pos leads the lookup to pos. */
  lemma SlotLookup(file: seq<byte>, h: Header, k: nat, pos: nat)
    requires |file| >= HEADER_SIZE && DecodeHeader(file[..HEADER_SIZE]) == h
    requires k < h.entryCount
    requires SlotHolds(file, h.tableOffset, k, pos)
    requires pos % ALIGNMENT == 0
    ensures TableSlot(file, k) == Some(pos / ALIGNMENT)
    ensures GetEntry(file, k) == Some(pos)
  {
    Le32RoundTrip(pos / ALIGNMENT);
    ShiftRoundTrip(pos);
  }

  /** The table slot of key i leads to the start of record i. */
  lemma BuiltEntry(file: seq<byte>, pairs: seq<Pair>, mph: Mph, i: nat)
    requires ValidSource(pairs)
    requires MinimalPerfect(mph.hash, pairs)
    requires Built(file, pairs, mph)
    requires i < |pairs|
    ensures TableSlot(file, mph.hash(pairs[i].key)) == Some(Start(pairs, |mph.packed|, i) / ALIGNMENT)
    ensures GetEntry(file, mph.hash(pairs[i].key)) == Some(Start(pairs, |mph.packed|, i))
  {
    var bl := |mph.packed|;
    var h := Header(FILE_MAGIC, FILE_VERSION, |file|, TableOffset(bl), |pairs|);
    BuiltHeader(file, pairs, mph);
    assert SlotHolds(file, TableOffset(bl), mph.hash(pairs[i].key), Start(pairs, bl, i));
    SlotLookup(file, h, mph.hash(pairs[i].key), Start(pairs, bl, i));
  }

  /** Build, then get: every stored key is found with the value written for it. */
  lemma GetRoundTrip(file: seq<byte>, pairs: seq<Pair>, mph: Mph, i: nat)
    requires ValidSource(pairs)
    requires MinimalPerfect(mph.hash, pairs)
    requires Built(file, pairs, mph)
    requires i < |pairs|
    ensures Get(file, mph.hash, pairs[i].key) == Some(pairs[i].value)
  {
    BuiltEntry(file, pairs, mph, i);
    assert RecordHolds(file, Start(pairs, |mph.packed|, i), pairs[i]);
    EntryAtComplete(file, Start(pairs, |mph.packed|, i), pairs[i].key, pairs[i].value);
  }

  /** Only one pair's record can be stored at a given offset. */
  lemma RecordHoldsUnique(mem: seq<byte>, e: nat, p: Pair, q: Pair)
    requires RecordHolds(mem, e, p) && RecordHolds(mem, e, q)
    ensures p == q
  {
    RecordFields(mem, e, p);
    RecordFields(mem, e, q);
  }

  /**
   * A lookup in a built file answers exactly what a linear search of the
   * source answers, for every key: the stored value for a stored key and
   * not found for any other.
   */
  lemma GetMatchesFind(file: seq<byte>, pairs: seq<Pair>, mph: Mph, key: seq<byte>)
    requires ValidSource(pairs)
    requires MinimalPerfect(mph.hash, pairs)
    requires Built(file, pairs, mph)
    requires |key| <= UINT32_MAX
    ensures Get(file, mph.hash, key) == Find(pairs, key)
  {
    PerfectKeysDistinct(mph.hash, pairs);
    if i :| 0 <= i < |pairs| && pairs[i].key == key {
      GetRoundTrip(file, pairs, mph, i);
      FindDistinct(pairs, i);
    } else {
      var r := Get(file, mph.hash, key);
      BuiltHeader(file, pairs, mph);
      if r.Some? {
        var k := mph.hash(key);
        assert k < |pairs|;
        Surjective(mph.hash, pairs, k);
        var j :| 0 <= j < |pairs| && mph.hash(pairs[j].key) == k;
        BuiltEntry(file, pairs, mph, j);
        assert RecordHolds(file, Start(pairs, |mph.packed|, j), pairs[j]);
        RecordHoldsUnique(file, Start(pairs, |mph.packed|, j), pairs[j], Pair(key, r.value));
        assert false;
      }
    }
  }

  // ---------------------------------------------------------------
  // Accepting a header.
  // ---------------------------------------------------------------

  /** Four bytes hold a given native uint32_t exactly when they are its encoding. */
  lemma Le32Matches(bs: seq<byte>, x: uint32)
    requires |bs| == 4
    ensures Le32Decode(bs) == x <==> bs == Le32(x)
  {
    Le32DecodeRoundTrip(bs);
    Le32RoundTrip(x);
  }

  /**
   * chdb_read_header accepts a file exactly when it holds a whole header
   * whose first bytes are "chdb", whose version bytes are those of
   * CHDB_FILE_VERSION, and whose file_size fits SIZE_MAX.
   */
  lemma HeaderAccepted(file: seq<byte>, sizeMax: nat)
    ensures HeaderCheck(file, sizeMax).Ok? <==>
              && |file| >= HEADER_SIZE
              && file[0..4] == ['c' as byte, 'h' as byte, 'd' as byte, 'b' as byte]
              && file[4..8] == Le32(FILE_VERSION)
              && Le64Decode(file[8..16]) <= sizeMax
  {
    if |file| >= HEADER_SIZE {
      var hb := file[..HEADER_SIZE];
      assert hb[0..4] == file[0..4] && hb[4..8] == file[4..8] && hb[8..16] == file[8..16];
      Le32Matches(file[0..4], FILE_MAGIC);
      Le32Matches(file[4..8], FILE_VERSION);
      MagicOnDisk();
    }
  }

  // ---------------------------------------------------------------
  // The builder's output is determined by its inputs.
  // ---------------------------------------------------------------

  /** Header, packed hash and the padding before the table agree in two files of the same Prefix. */
  lemma PrefixByte(f1: seq<byte>, f2: seq<byte>, hdr: seq<byte>, packed: seq<byte>, t: nat, x: nat)
    requires Prefix(f1, hdr, packed, t) && Prefix(f2, hdr, packed, t)
    requires x < t && x < |f1| && x < |f2|
    ensures f1[x] == f2[x]
  {
    var hl := |hdr|;
    if x < hl {
      assert f1[..hl][x] == f2[..hl][x];
    } else if x < hl + |packed| {
      assert f1[hl..hl + |packed|][x - hl] == f2[hl..hl + |packed|][x - hl];
    }
  }

  /** The table slot a byte of the table belongs to. */
  lemma SlotIndex(t: nat, n: nat, x: nat) returns (k: nat)
    requires t <= x < t + SLOT_SIZE * n
    ensures k < n && SlotOffset(t, k) <= x < SlotOffset(t, k) + SLOT_SIZE
  {
    k := (x - t) / SLOT_SIZE;
  }

  /** Equal slices agree on each byte. */
  lemma SliceByte(f1: seq<byte>, f2: seq<byte>, lo: nat, hi: nat, x: nat)
    requires lo <= x < hi <= |f1| && hi <= |f2|
    requires f1[lo..hi] == f2[lo..hi]
    ensures f1[x] == f2[x]
  {
    assert f1[lo..hi][x - lo] == f2[lo..hi][x - lo];
  }

  /** The slot of key j holds the same bytes in two files whose slots are filled. */
  lemma SlotsAgree(f1: seq<byte>, f2: seq<byte>, pairs: seq<Pair>, mph: Mph, j: nat, so: nat, x: nat)
    requires SlotsUpTo(f1, pairs, mph, |pairs|) && SlotsUpTo(f2, pairs, mph, |pairs|)
    requires j < |pairs|
    requires so == SlotOffset(TableOffset(|mph.packed|), mph.hash(pairs[j].key))
    requires so <= x < so + SLOT_SIZE
    ensures x < |f1| && x < |f2| && f1[x] == f2[x]
  {
    assert SlotHolds(f1, TableOffset(|mph.packed|), mph.hash(pairs[j].key), Start(pairs, |mph.packed|, j));
    assert SlotHolds(f2, TableOffset(|mph.packed|), mph.hash(pairs[j].key), Start(pairs, |mph.packed|, j));
    SliceByte(f1, f2, so, so + SLOT_SIZE, x);
  }

  /** A byte of the offset table agrees in two files whose slots are filled: every slot belongs to some key. */
  lemma TableByte(f1: seq<byte>, f2: seq<byte>, pairs: seq<Pair>, mph: Mph, x: nat)
    requires MinimalPerfect(mph.hash, pairs)
    requires SlotsUpTo(f1, pairs, mph, |pairs|) && SlotsUpTo(f2, pairs, mph, |pairs|)
    requires TableOffset(|mph.packed|) <= x < FirstCursor(|pairs|, |mph.packed|)
    ensures x < |f1| && x < |f2| && f1[x] == f2[x]
  {
    var t := TableOffset(|mph.packed|);
    var k := SlotIndex(t, |pairs|, x);
    Surjective(mph.hash, pairs, k);
    var j :| 0 <= j < |pairs| && mph.hash(pairs[j].key) == k;
    var so := SlotOffset(t, k);
    SlotsAgree(f1, f2, pairs, mph, j, so, x);
  }

  /** A byte after the table agrees in two files holding the same records: it lies in a record or the gap before it. */
  lemma RecordAreaByte(f1: seq<byte>, f2: seq<byte>, pairs: seq<Pair>, bl: nat, x: nat)
    requires RecordsUpTo(f1, pairs, bl, |pairs|) && RecordsUpTo(f2, pairs, bl, |pairs|)
    requires GapsUpTo(f1, pairs, bl, |pairs|) && GapsUpTo(f2, pairs, bl, |pairs|)
    requires FirstCursor(|pairs|, bl) <= x < Cursor(pairs, bl, |pairs|)
    ensures x < |f1| && x < |f2| && f1[x] == f2[x]
  {
    var n := |pairs|;
    var i := LocateByte(pairs, FirstCursor(n, bl), n, x);
    var s := Start(pairs, bl, i);
    if x < s {
      assert ZerosAt(f1, Cursor(pairs, bl, i), s);
      assert ZerosAt(f2, Cursor(pairs, bl, i), s);
    } else {
      assert RecordHolds(f1, s, pairs[i]);
      assert RecordHolds(f2, s, pairs[i]);
      SliceByte(f1, f2, s, s + RecordSize(pairs[i]), x);
    }
  }

  /** chdb_serialize is deterministic: only one file is the built image of given pairs and hash function. */
  lemma BuiltUnique(f1: seq<byte>, f2: seq<byte>, pairs: seq<Pair>, mph: Mph)
    requires ValidSource(pairs)
    requires MinimalPerfect(mph.hash, pairs)
    requires Built(f1, pairs, mph) && Built(f2, pairs, mph)
    ensures f1 == f2
  {
    var n, bl := |pairs|, |mph.packed|;
    var t := TableOffset(bl);
    var hdr := EncodeHeader(Header(FILE_MAGIC, FILE_VERSION, |f1|, t, n));
    forall x | 0 <= x < |f1| ensures f1[x] == f2[x] {
      if x < t {
        PrefixByte(f1, f2, hdr, mph.packed, t, x);
      } else if x < FirstCursor(n, bl) {
        TableByte(f1, f2, pairs, mph, x);
      } else {
        RecordAreaByte(f1, f2, pairs, bl, x);
      }
    }
  }

  // ---------------------------------------------------------------
  // chdb_get_entry's 32-bit shift.
  // ---------------------------------------------------------------

  /**
   * As written, the entry offset is the slot shifted in 32 bits: a record
   * the builder placed at or beyond 4 GiB, which the shifted table is
   * meant to reach, is looked for 4 GiB (or a multiple) too early.
   */
  lemma AsWrittenMisplaces(file: seq<byte>, pairs: seq<Pair>, mph: Mph, i: nat)
    requires ValidSource(pairs)
    requires MinimalPerfect(mph.hash, pairs)
    requires Built(file, pairs, mph)
    requires i < |pairs|
    requires Start(pairs, |mph.packed|, i) >= 0x1_0000_0000
    ensures GetEntryAsWritten(file, mph.hash(pairs[i].key)) == Some(Start(pairs, |mph.packed|, i) % 0x1_0000_0000)
    ensures Start(pairs, |mph.packed|, i) % 0x1_0000_0000 < Start(pairs, |mph.packed|, i)
  {
    BuiltEntry(file, pairs, mph, i);
    ShiftRoundTrip(Start(pairs, |mph.packed|, i));
  }

  /** At offset 0 lies the header, whose first word, read as a key_len, is the magic number. */
  lemma HeaderIsNoEntry(mem: seq<byte>, key: seq<byte>)
    requires |key| <= UINT32_MAX
    requires |mem| >= HEADER_SIZE && DecodeHeader(mem[..HEADER_SIZE]).magic == FILE_MAGIC
    requires |key| != FILE_MAGIC
    ensures EntryAt(mem, 0, key) == None
  {
    assert mem[..HEADER_SIZE][0..4] == mem[0..4];
  }

  /**
   * A record that starts at exactly 4 GiB (or a multiple) is looked for
   * at offset 0, where key_len reads as the magic number, so the as
   * written lookup misses a key that is stored (unless the key is as
   * long as the magic number is large), while the corrected one finds it.
   */
  lemma AsWrittenMissesAtFourGiB(file: seq<byte>, pairs: seq<Pair>, mph: Mph, i: nat)
    requires ValidSource(pairs)
    requires MinimalPerfect(mph.hash, pairs)
    requires Built(file, pairs, mph)
    requires i < |pairs|
    requires Start(pairs, |mph.packed|, i) % 0x1_0000_0000 == 0
    requires |pairs[i].key| != FILE_MAGIC
    ensures GetAsWritten(file, mph.hash, pairs[i].key) == None
    ensures Get(file, mph.hash, pairs[i].key) == Some(pairs[i].value)
  {
    var s := Start(pairs, |mph.packed|, i);
    assert s >= HEADER_SIZE by {
      assert s >= FirstCursor(|pairs|, |mph.packed|);
    }
    if s < 0x1_0000_0000 {
      SmallMod(s);
    }
    AsWrittenMisplaces(file, pairs, mph, i);
    BuiltHeader(file, pairs, mph);
    HeaderIsNoEntry(file, pairs[i].key);
    GetRoundTrip(file, pairs, mph, i);
  }

  /** Where the full-width entry offset is below 4 GiB, the 32-bit shift finds the same entry. */
  lemma AsWrittenSameEntry(mem: seq<byte>, idx: nat, e: nat)
    requires GetEntry(mem, idx) == Some(e)
    requires e < 0x1_0000_0000
    ensures GetEntryAsWritten(mem, idx) == Some(e)
  {
    SmallMod(e);
  }

  /** Lookups that find the same entry give the same answer. */
  lemma SameEntrySameAnswer(mem: seq<byte>, hash: seq<byte> -> uint32, key: seq<byte>)
    requires |key| <= UINT32_MAX
    requires GetEntryAsWritten(mem, hash(key)) == GetEntry(mem, hash(key))
    ensures GetAsWritten(mem, hash, key) == Get(mem, hash, key)
  {
  }

  lemma SmallMod(s: nat)
    requires s < 0x1_0000_0000
    ensures s % 0x1_0000_0000 == s
  {
  }

  /** In a built file of at most 4 GiB the 32-bit shift is harmless: the as written lookup is the corrected one. */
  lemma AsWrittenBelowFourGiB(file: seq<byte>, pairs: seq<Pair>, mph: Mph, key: seq<byte>)
    requires ValidSource(pairs)
    requires MinimalPerfect(mph.hash, pairs)
    requires Built(file, pairs, mph)
    requires |file| <= 0x1_0000_0000
    requires |key| <= UINT32_MAX
    ensures GetAsWritten(file, mph.hash, key) == Get(file, mph.hash, key)
  {
    var k := mph.hash(key);
    BuiltHeader(file, pairs, mph);
    if k < |pairs| {
      Surjective(mph.hash, pairs, k);
      var j :| 0 <= j < |pairs| && mph.hash(pairs[j].key) == k;
      BuiltEntry(file, pairs, mph, j);
      var s := Start(pairs, |mph.packed|, j);
      assert RecordHolds(file, s, pairs[j]);
      AsWrittenSameEntry(file, k, s);
      SameEntrySameAnswer(file, mph.hash, key);
    }
  }
}
