/** The on-disk sorted table (src/storage/sstable.cpp): file format, writer, index loader, point and range reads. */
module SsTable {
  import opened Bytes
  import opened Collections
  import opened Results
  import opened Keys
  import opened Ranges

  const MAGIC: nat := 0x5354_414C
  const VERSION: nat := 1
  const HEADER_SIZE: nat := 12

  datatype IndexEntry = IndexEntry(key: Key, offset: u64, size: u32)

  // ---------------------------------------------------------------------------
  // Format: what `write` puts into the file.

  /** A 32-bit length, then that many bytes. */
  function Chunk(s: Str): Str
  {
    LittleEndian(|s|, 4) + s[..|s| % TWO_32]
  }

  function TimestampBits(t: i64): u64
  {
    if t < 0 then t + TWO_64 else t
  }

  function TimestampOf(n: u64): i64
  {
    if n < TWO_64 / 2 then n else n - TWO_64
  }

  function Tail(e: Entry): (s: Str)
    ensures |s| == 17
  {
    LittleEndian(e.version, 8) + (LittleEndian(TimestampBits(e.timestamp), 8) + [if e.deleted then 1 else 0])
  }

  function Record(k: Key, e: Entry): Str
  {
    Chunk(k.ToString()) + (Chunk(e.value) + Tail(e))
  }

  function Records(data: seq<(Key, Entry)>): Str
  {
    if data == [] then [] else Record(data[0].0, data[0].1) + Records(data[1..])
  }

  function Header(count: nat): (s: Str)
    ensures |s| == HEADER_SIZE
  {
    LittleEndian(MAGIC, 4) + LittleEndian(VERSION, 4) + LittleEndian(count, 4)
  }

  /** The index `write` builds for records laid out from an offset on; offsets and sizes narrow to their fields. */
  function IndexFrom(data: seq<(Key, Entry)>, offset: nat): (index: seq<IndexEntry>)
    ensures |index| == |data|
    ensures forall i :: 0 <= i < |data| ==> index[i].key == data[i].0
    decreases data
  {
    if data == [] then [] else
      var size := |Record(data[0].0, data[0].1)|;
      [EntryFor(data[0].0, offset, size)] + IndexFrom(data[1..], offset + size)
  }

  function EntryFor(key: Key, offset: nat, size: nat): (e: IndexEntry)
    ensures e.key == key
  {
    IndexEntry(key, offset % TWO_64, size % TWO_32)
  }

  function IndexRecord(e: IndexEntry): Str
  {
    Chunk(e.key.ToString()) + (LittleEndian(e.offset, 8) + LittleEndian(e.size, 4))
  }

  function IndexRecords(index: seq<IndexEntry>): Str
  {
    if index == [] then [] else IndexRecord(index[0]) + IndexRecords(index[1..])
  }

  /** The whole file for a map walked as `data`. */
  function FileOf(data: seq<(Key, Entry)>): Str
  {
    var body := Header(|data|) + Records(data);
    body + (LittleEndian(|data|, 4) + (IndexRecords(IndexFrom(data, HEADER_SIZE)) + LittleEndian(|body|, 8)))
  }

  /** Every length fits its 32-bit field, and the file its 64-bit offsets. */
  ghost predicate Fits(data: seq<(Key, Entry)>)
  {
    && |data| < TWO_32
    && |FileOf(data)| < TWO_64
    && forall i :: 0 <= i < |data| ==> |data[i].0.ToString()| < TWO_32 && |data[i].1.value| < TWO_32
  }

  // ---------------------------------------------------------------------------
  // Reading the bytes.

  function U32At(file: Str, pos: nat): Option<u32>
  {
    if pos + 4 <= |file| then U32Bound(file[pos..pos + 4]); Some(FromLittleEndian(file[pos..pos + 4])) else None
  }

  function U64At(file: Str, pos: nat): Option<u64>
  {
    if pos + 8 <= |file| then U64Bound(file[pos..pos + 8]); Some(FromLittleEndian(file[pos..pos + 8])) else None
  }

  /** A length-prefixed string. */
  function ChunkAt(file: Str, pos: nat): Option<Str>
  {
    var n := U32At(file, pos);
    if n.None? || pos + 4 + n.value > |file| then None else Some(file[pos + 4..pos + 4 + n.value])
  }

  datatype Stored = Stored(keyText: Str, entry: Entry)

  function TailAt(file: Str, value: Str, pos: nat): Option<Entry>
  {
    if pos + 17 > |file| then None
    else Some(Entry(value, U64At(file, pos).value, TimestampOf(U64At(file, pos + 8).value), file[pos + 16] != 0))
  }

  /** The record at an offset, as `read` and `range_scan` take it apart. */
  function RecordAt(file: Str, pos: nat): Option<Stored>
  {
    var key := ChunkAt(file, pos);
    if key.None? then None else
      var valuePos := pos + 4 + |key.value|;
      var value := ChunkAt(file, valuePos);
      if value.None? then None else
        var entry := TailAt(file, value.value, valuePos + 4 + |value.value|);
        if entry.None? then None else Some(Stored(key.value, entry.value))
  }

  function IndexEntryAt(file: Str, pos: nat, key: Key): IndexEntry
    requires pos + 12 <= |file|
  {
    IndexEntry(key, U64At(file, pos).value, U32At(file, pos + 8).value)
  }

  /** `count` index records from a position on. */
  function IndexAt(file: Str, pos: nat, count: nat): Result<seq<IndexEntry>, Status>
    decreases count
  {
    if count == 0 then Ok([]) else
      var key := ChunkAt(file, pos);
      if key.None? then Err(ShortRead) else
        var next := pos + 4 + |key.value|;
        if next + 12 > |file| then Err(ShortRead)
        else Prepend([IndexEntryAt(file, next, ParseKey(key.value))], IndexAt(file, next + 12, count - 1))
  }

  /** What `load_index` makes of a file. */
  function LoadedIndex(file: Str): Result<seq<IndexEntry>, Status>
  {
    if |file| < HEADER_SIZE then Err(ShortRead)
    else if U32At(file, 0) != Some(MAGIC) then Err(StorageError)
    else if U32At(file, 4) != Some(VERSION) then Err(StorageError)
    else
      var indexPos := U64At(file, |file| - 8).value;
      var count := U32At(file, indexPos);
      if count.None? then Err(ShortRead) else IndexAt(file, indexPos + 4, count.value)
  }

  // ---------------------------------------------------------------------------
  // Reading back what was written.

  lemma ChunkWritten(before: Str, s: Str, after: Str)
    requires |s| < TWO_32
    ensures |Chunk(s)| == 4 + |s|
    ensures ChunkAt(before + (Chunk(s) + after), |before|) == Some(s)
  {
    hide LittleEndian, FromLittleEndian;
    var file := before + (Chunk(s) + after);
    U32RoundTrip(|s|);
    assert file[|before|..|before| + 4] == LittleEndian(|s|, 4);
    assert file[|before| + 4..|before| + 4 + |s|] == s;
  }

  lemma TailWritten(before: Str, e: Entry, after: Str)
    ensures TailAt(before + (Tail(e) + after), e.value, |before|) == Some(e)
  {
    hide LittleEndian, FromLittleEndian;
    var file, p := before + (Tail(e) + after), |before|;
    U64RoundTrip(e.version);
    U64RoundTrip(TimestampBits(e.timestamp));
    assert file[p..p + 8] == LittleEndian(e.version, 8);
    assert file[p + 8..p + 16] == LittleEndian(TimestampBits(e.timestamp), 8);
    assert file[p + 16] == if e.deleted then 1 else 0;
  }

  lemma RecordWritten(before: Str, k: Key, e: Entry, after: Str)
    requires |k.ToString()| < TWO_32 && |e.value| < TWO_32
    ensures RecordAt(before + (Record(k, e) + after), |before|) == Some(Stored(k.ToString(), e))
  {
    hide Chunk, Tail, ChunkAt, TailAt, Key.ToString;
    var file := before + (Record(k, e) + after);
    var b1 := before + Chunk(k.ToString());
    var b2 := b1 + Chunk(e.value);
    ChunkWritten(before, k.ToString(), Chunk(e.value) + Tail(e) + after);
    assert file == before + (Chunk(k.ToString()) + (Chunk(e.value) + Tail(e) + after));
    ChunkWritten(b1, e.value, Tail(e) + after);
    assert file == b1 + (Chunk(e.value) + (Tail(e) + after));
    TailWritten(b2, e, after);
    assert file == b2 + (Tail(e) + after);
  }

  /** Each index entry points at its record. */
  lemma {:induction false} OffsetsAreExact(before: Str, data: seq<(Key, Entry)>, after: Str, i: nat)
    requires i < |data| && |before + (Records(data) + after)| < TWO_64
    requires forall j :: 0 <= j < |data| ==> |data[j].0.ToString()| < TWO_32 && |data[j].1.value| < TWO_32
    ensures RecordAt(before + (Records(data) + after), IndexFrom(data, |before|)[i].offset)
         == Some(Stored(data[i].0.ToString(), data[i].1))
    decreases data
  {
    hide Record, RecordAt, Key.ToString;
    var (k, e) := data[0];
    var file := before + (Records(data) + after);
    var rest := Records(data[1..]) + after;
    assert Records(data) + after == Record(k, e) + rest;
    if i == 0 {
      RecordWritten(before, k, e, rest);
    } else {
      var b := before + Record(k, e);
      assert file == b + rest;
      OffsetsAreExact(b, data[1..], after, i - 1);
    }
  }

  function Reparsed(index: seq<IndexEntry>): (r: seq<IndexEntry>)
    ensures |r| == |index|
    ensures forall i :: 0 <= i < |r| ==> r[i] == index[i].(key := ParseKey(index[i].key.ToString()))
  {
    if index == [] then [] else [index[0].(key := ParseKey(index[0].key.ToString()))] + Reparsed(index[1..])
  }

  lemma IndexRecordWritten(before: Str, e: IndexEntry, after: Str)
    requires |e.key.ToString()| < TWO_32
    ensures var file, next := before + (IndexRecord(e) + after), |before| + 4 + |e.key.ToString()|;
      && |before + IndexRecord(e)| == next + 12
      && ChunkAt(file, |before|) == Some(e.key.ToString())
      && U64At(file, next) == Some(e.offset) && U32At(file, next + 8) == Some(e.size)
  {
    hide LittleEndian, FromLittleEndian, Chunk, ChunkAt, Key.ToString;
    var text := e.key.ToString();
    var tail := LittleEndian(e.offset, 8) + LittleEndian(e.size, 4);
    ChunkWritten(before, text, tail + after);
    var file, next := before + (IndexRecord(e) + after), |before| + 4 + |text|;
    assert file == before + (Chunk(text) + (tail + after));
    assert file == (before + Chunk(text)) + (tail + after);
    U64RoundTrip(e.offset);
    U32RoundTrip(e.size);
    assert file[next..next + 8] == LittleEndian(e.offset, 8);
    assert file[next + 8..next + 12] == LittleEndian(e.size, 4);
  }

  lemma {:induction false} IndexWritten(before: Str, index: seq<IndexEntry>, after: Str)
    requires forall i :: 0 <= i < |index| ==> |index[i].key.ToString()| < TWO_32
    ensures IndexAt(before + (IndexRecords(index) + after), |before|, |index|) == Ok(Reparsed(index))
    decreases index
  {
    hide IndexRecord, ChunkAt, U64At, U32At, ParseKey, Key.ToString;
    if index != [] {
      var e, rest := index[0], IndexRecords(index[1..]) + after;
      var file := before + (IndexRecords(index) + after);
      assert IndexRecords(index) + after == IndexRecord(e) + rest;
      IndexRecordWritten(before, e, rest);
      var b := before + IndexRecord(e);
      assert file == b + rest;
      IndexWritten(b, index[1..], after);
    }
  }

  lemma HeaderWritten(count: nat, after: Str)
    ensures U32At(Header(count) + after, 0) == Some(MAGIC)
    ensures U32At(Header(count) + after, 4) == Some(VERSION)
  {
    hide LittleEndian, FromLittleEndian;
    var file := Header(count) + after;
    U32RoundTrip(MAGIC);
    U32RoundTrip(VERSION);
    assert file[0..4] == LittleEndian(MAGIC, 4);
    assert file[4..8] == LittleEndian(VERSION, 4);
  }

  /** Loading the index of a written file gives the index that was written, with its keys parsed again. */
  lemma {:induction false} LoadAfterWrite(data: seq<(Key, Entry)>)
    requires Fits(data)
    ensures LoadedIndex(FileOf(data)) == Ok(Reparsed(IndexFrom(data, HEADER_SIZE)))
  {
    hide LittleEndian, FromLittleEndian, Header, Records, IndexRecords, IndexFrom, IndexAt, Reparsed, Key.ToString;
    var file := FileOf(data);
    var index := IndexFrom(data, HEADER_SIZE);
    var body := Header(|data|) + Records(data);
    var count, offset := LittleEndian(|data|, 4), LittleEndian(|body|, 8);
    assert file == Header(|data|) + (Records(data) + (count + (IndexRecords(index) + offset)));
    HeaderWritten(|data|, Records(data) + (count + (IndexRecords(index) + offset)));
    U64RoundTrip(|body|);
    U32RoundTrip(|data|);
    assert file[|file| - 8..|file| - 8 + 8] == offset;
    assert file[|body|..|body| + 4] == count;
    var b := body + count;
    assert file == b + (IndexRecords(index) + offset);
    IndexWritten(b, index, offset);
  }

  /** The loaded index is the written one exactly when no primary key has a colon. */
  lemma {:induction false} IndexRoundTrip(data: seq<(Key, Entry)>)
    requires Fits(data)
    ensures LoadedIndex(FileOf(data)) == Ok(IndexFrom(data, HEADER_SIZE))
       <==> forall i :: 0 <= i < |data| ==> ColonFree(data[i].0)
  {
    hide LoadedIndex, FileOf, IndexFrom, Reparsed, ParseKey, ColonFree, Key.ToString;
    LoadAfterWrite(data);
    var index := IndexFrom(data, HEADER_SIZE);
    forall i | 0 <= i < |data|
      ensures Reparsed(index)[i] == index[i] <==> ColonFree(data[i].0)
    {
      ParseKeyRoundTrip(data[i].0);
    }
    if Reparsed(index) == index {
      forall i | 0 <= i < |data|
        ensures ColonFree(data[i].0)
      {
        assert Reparsed(index)[i] == index[i];
      }
    }
  }

  // ---------------------------------------------------------------------------
  // The bytes of a file.

  /** A length, lowest byte first, and the bytes. */
  lemma ChunkLayout(s: Str, i: nat)
    requires |s| < TWO_32 && i < 4
    ensures |Chunk(s)| == 4 + |s|
    ensures Chunk(s)[i] == |s| / Power256(i) % 256
    ensures Chunk(s)[4..] == s
  {
    LittleEndianDigit(|s|, 4, i);
  }

  /**
   * A record: the key text, with a colon between its parts, and the value as chunks, then version and time stamp as
   * eight bytes each, the time stamp in two's complement, and a byte for the deletion mark.
   */
  lemma RecordLayout(k: Key, e: Entry, i: nat)
    requires |k.ToString()| < TWO_32 && |e.value| < TWO_32 && i < 8
    ensures var r, n := Record(k, e), 8 + |k.ToString()| + |e.value|;
      && |r| == n + 17
      && r[..n] == Chunk(k.primary + [0x3A] + k.secondary) + Chunk(e.value)
      && r[n + i] == e.version / Power256(i) % 256
      && r[n + 8 + i] == e.timestamp % TWO_64 / Power256(i) % 256
      && r[n + 16] == if e.deleted then 1 else 0
  {
    hide LittleEndian, Chunk, Power256;
    ChunkLayout(k.ToString(), 0);
    ChunkLayout(e.value, 0);
    LittleEndianDigit(e.version, 8, i);
    LittleEndianDigit(TimestampBits(e.timestamp), 8, i);
    TwosComplement(e.timestamp);
    var r, t := Record(k, e), Tail(e);
    var n := 8 + |k.ToString()| + |e.value|;
    assert r == (Chunk(k.ToString()) + Chunk(e.value)) + t;
    assert r[n + i] == t[i] && r[n + 8 + i] == t[8 + i] && r[n + 16] == t[16];
  }

  lemma TwosComplement(t: i64)
    ensures TimestampBits(t) as int == t as int % TWO_64
  {
  }

  /** An index record: the key text as a chunk, the offset in eight bytes and the size in four. */
  lemma IndexRecordLayout(e: IndexEntry, i: nat, j: nat)
    requires |e.key.ToString()| < TWO_32 && i < 8 && j < 4
    ensures var r, n := IndexRecord(e), 4 + |e.key.ToString()|;
      && |r| == n + 12
      && r[..n] == Chunk(e.key.ToString())
      && r[n + i] == e.offset / Power256(i) % 256
      && r[n + 8 + j] == e.size / Power256(j) % 256
  {
    hide LittleEndian, Chunk, Power256;
    ChunkLayout(e.key.ToString(), 0);
    LittleEndianDigit(e.offset, 8, i);
    LittleEndianDigit(e.size, 4, j);
  }

  /**
   * The file: the magic number and version 1, the count, the records, the count again, the index, and in the last eight
   * bytes the position where the index begins.
   */
  lemma FileLayout(data: seq<(Key, Entry)>, i: nat, j: nat)
    requires i < 4 && j < 8
    ensures var f, n := FileOf(data), 12 + |Records(data)|;
      && |f| == n + 12 + |IndexRecords(IndexFrom(data, 12))|
      && f[..8] == [0x4C, 0x41, 0x54, 0x53, 1, 0, 0, 0]
      && f[8 + i] == f[n + i] == |data| / Power256(i) % 256
      && f[12..n] == Records(data)
      && f[n + 4..|f| - 8] == IndexRecords(IndexFrom(data, 12))
      && f[|f| - 8 + j] == n / Power256(j) % 256
  {
    hide LittleEndian, Records, IndexRecords, IndexFrom, FileOf, Power256;
    var f, n := FileOf(data), 12 + |Records(data)|;
    FilePieces(data);
    LittleEndianDigit(|data|, 4, i);
    LittleEndianDigit(n, 8, j);
    assert f[8 + i] == f[8..12][i];
    assert f[n + i] == f[n..n + 4][i];
    assert f[|f| - 8 + j] == f[|f| - 8..][j];
  }

  lemma FilePieces(data: seq<(Key, Entry)>)
    ensures var f, n := FileOf(data), 12 + |Records(data)|;
      && |f| == n + 12 + |IndexRecords(IndexFrom(data, 12))|
      && f[..8] == [0x4C, 0x41, 0x54, 0x53, 1, 0, 0, 0]
      && f[8..12] == f[n..n + 4] == LittleEndian(|data|, 4)
      && f[12..n] == Records(data)
      && f[n + 4..|f| - 8] == IndexRecords(IndexFrom(data, 12))
      && f[|f| - 8..] == LittleEndian(n, 8)
  {
    hide LittleEndian, Records, IndexRecords, IndexFrom, FileOf;
    var count, records := LittleEndian(|data|, 4), Records(data);
    var head, index := LittleEndian(MAGIC, 4) + LittleEndian(VERSION, 4), IndexRecords(IndexFrom(data, 12));
    HeaderBytes();
    FileIs(data);
    SixPieces(head, count, records, count, index, LittleEndian(12 + |records|, 8));
  }

  lemma FileIs(data: seq<(Key, Entry)>)
    ensures var count, records := LittleEndian(|data|, 4), Records(data);
      FileOf(data) == (LittleEndian(MAGIC, 4) + LittleEndian(VERSION, 4)) + count + records + count
        + IndexRecords(IndexFrom(data, 12)) + LittleEndian(12 + |records|, 8)
  {
    hide LittleEndian, Records, IndexRecords, IndexFrom;
    var head, count := LittleEndian(MAGIC, 4) + LittleEndian(VERSION, 4), LittleEndian(|data|, 4);
    var records := Records(data);
    var index, offset := IndexRecords(IndexFrom(data, 12)), LittleEndian(12 + |records|, 8);
    Associate(head + count + records, count, index + offset);
    Associate(head + count + records + count, index, offset);
  }

  lemma SixPieces(a: Str, b: Str, c: Str, d: Str, e: Str, f: Str)
    ensures var all, n := a + b + c + d + e + f, |a| + |b| + |c|;
      && |all| == n + |d| + |e| + |f|
      && all[..|a|] == a && all[|a|..|a| + |b|] == b && all[|a| + |b|..n] == c
      && all[n..n + |d|] == d && all[n + |d|..|all| - |f|] == e && all[|all| - |f|..] == f
  {
  }

  lemma HeaderBytes()
    ensures LittleEndian(MAGIC, 4) + LittleEndian(VERSION, 4) == [0x4C, 0x41, 0x54, 0x53, 1, 0, 0, 0]
  {
    assert LittleEndian(MAGIC, 4) == [0x4C] + ([0x41] + ([0x54] + ([0x53] + []))) by {
      assert LittleEndian(0x53, 1) == [0x53] + [];
      assert LittleEndian(0x5354, 2) == [0x54] + LittleEndian(0x53, 1);
      assert LittleEndian(0x53_5441, 3) == [0x41] + LittleEndian(0x5354, 2);
    }
    assert LittleEndian(VERSION, 4) == [1] + ([0] + ([0] + ([0] + []))) by {
      assert LittleEndian(0, 1) == [0] + [];
      assert LittleEndian(0, 2) == [0] + LittleEndian(0, 1);
      assert LittleEndian(0, 3) == [0] + LittleEndian(0, 2);
    }
  }

  /** A file is refused as corrupt exactly when it holds a header that is not these eight bytes. */
  lemma CorruptIff(file: Str)
    ensures LoadedIndex(file) == Err(StorageError) <==>
      |file| >= 12 && file[..8] != [0x4C, 0x41, 0x54, 0x53, 1, 0, 0, 0]
  {
    hide LittleEndian, FromLittleEndian, IndexAt;
    if |file| >= 12 {
      HeaderBytes();
      assert file[..8] == file[0..4] + file[4..8];
      FourBytesAre(file[0..4], MAGIC);
      FourBytesAre(file[4..8], VERSION);
      assert LittleEndian(MAGIC, 4) == [0x4C, 0x41, 0x54, 0x53, 1, 0, 0, 0][..4];
      assert LittleEndian(VERSION, 4) == [0x4C, 0x41, 0x54, 0x53, 1, 0, 0, 0][4..];
      var indexPos: nat := U64At(file, |file| - 8).value;
      var count := U32At(file, indexPos);
      if count.Some? { IndexIsShort(file, indexPos + 4, count.value); }
    }
  }

  /** Four bytes are the digits of the number they read as. */
  lemma FourBytesAre(s: Str, n: nat)
    requires |s| == 4 && n < TWO_32
    ensures FromLittleEndian(s) == n <==> s == LittleEndian(n, 4)
  {
    U32RoundTrip(n);
    Digits(s);
  }

  lemma {:induction false} Digits(s: Str)
    ensures LittleEndian(FromLittleEndian(s), |s|) == s
  {
    hide LittleEndian, FromLittleEndian;
    if s == [] {
      assert LittleEndian(FromLittleEndian(s), 0) == [];
    } else {
      Digits(s[1..]);
      FirstByte(s);
      LowestDigit(s[0], FromLittleEndian(s[1..]), |s|);
      assert s == [s[0]] + s[1..];
    }
  }

  lemma LowestDigit(x: byte, rest: nat, width: nat)
    requires width > 0
    ensures LittleEndian(x + 256 * rest, width) == [x] + LittleEndian(rest, width - 1)
  {
    hide LittleEndian;
    DigitsStep(x + 256 * rest, width);
    Halves(x, rest);
  }

  lemma DigitsStep(n: nat, width: nat)
    requires width > 0
    ensures LittleEndian(n, width) == [n % 256] + LittleEndian(n / 256, width - 1)
  {
  }

  lemma Halves(x: byte, rest: nat)
    ensures (x + 256 * rest) % 256 == x && (x + 256 * rest) / 256 == rest
  {
  }

  lemma {:induction false} IndexIsShort(file: Str, pos: nat, count: nat)
    ensures IndexAt(file, pos, count).Err? ==> IndexAt(file, pos, count) == Err(ShortRead)
    decreases count
  {
    hide ChunkAt, ParseKey;
    if count > 0 {
      var key := ChunkAt(file, pos);
      if key.Some? && pos + 4 + |key.value| + 12 <= |file| {
        IndexIsShort(file, pos + 4 + |key.value| + 12, count - 1);
      }
    }
  }

  // ---------------------------------------------------------------------------
  // Searching the index: `std::lower_bound` and `std::upper_bound` halve the range whether or not it is sorted.

  function LowerSearch(index: seq<IndexEntry>, k: Key, first: nat, count: nat): (i: nat)
    requires first + count <= |index|
    ensures first <= i <= first + count
    decreases count
  {
    if count == 0 then first
    else if Less(index[first + count / 2].key, k)
    then LowerSearch(index, k, first + count / 2 + 1, count - count / 2 - 1)
    else LowerSearch(index, k, first, count / 2)
  }

  function UpperSearch(index: seq<IndexEntry>, k: Key, first: nat, count: nat): (i: nat)
    requires first + count <= |index|
    ensures first <= i <= first + count
    decreases count
  {
    if count == 0 then first
    else if !Less(k, index[first + count / 2].key)
    then UpperSearch(index, k, first + count / 2 + 1, count - count / 2 - 1)
    else UpperSearch(index, k, first, count / 2)
  }

  lemma {:induction false} LowerSearchIsBound(index: seq<IndexEntry>, keys: seq<Key>, k: Key, first: nat, count: nat)
    requires first + count <= |index|
    requires Sorted(keys) && |keys| == |index| && forall i :: 0 <= i < |keys| ==> index[i].key == keys[i]
    requires first <= LowerBound(keys, k) <= first + count
    ensures LowerSearch(index, k, first, count) == LowerBound(keys, k)
    decreases count
  {
    hide Less, LowerBound;
    if count > 0 {
      BelowLowerBound(keys, k, first + count / 2);
      if Less(keys[first + count / 2], k) {
        LowerSearchIsBound(index, keys, k, first + count / 2 + 1, count - count / 2 - 1);
      } else {
        LowerSearchIsBound(index, keys, k, first, count / 2);
      }
    }
  }

  lemma BelowLowerBound(keys: seq<Key>, k: Key, i: nat)
    requires Sorted(keys) && i < |keys|
    ensures Less(keys[i], k) <==> i < LowerBound(keys, k)
  {
    hide Less, LowerBound;
    var b := LowerBound(keys, k);
    if b < i && Less(keys[i], k) { LessTransitive(keys[b], keys[i], k); }
  }

  lemma BelowUpperBound(keys: seq<Key>, k: Key, i: nat)
    requires Sorted(keys) && i < |keys|
    ensures !Less(k, keys[i]) <==> i < UpperBound(keys, k)
  {
    hide Less, UpperBound;
    var b := UpperBound(keys, k);
    if b < i { LessTransitive(k, keys[b], keys[i]); }
  }

  lemma {:induction false} UpperSearchIsBound(index: seq<IndexEntry>, keys: seq<Key>, k: Key, first: nat, count: nat)
    requires first + count <= |index|
    requires Sorted(keys) && |keys| == |index| && forall i :: 0 <= i < |keys| ==> index[i].key == keys[i]
    requires first <= UpperBound(keys, k) <= first + count
    ensures UpperSearch(index, k, first, count) == UpperBound(keys, k)
    decreases count
  {
    hide Less, UpperBound;
    if count > 0 {
      BelowUpperBound(keys, k, first + count / 2);
      if !Less(k, keys[first + count / 2]) {
        UpperSearchIsBound(index, keys, k, first + count / 2 + 1, count - count / 2 - 1);
      } else {
        UpperSearchIsBound(index, keys, k, first, count / 2);
      }
    }
  }

  // ---------------------------------------------------------------------------
  // Point reads.

  /** `read` once the index is loaded. */
  function ReadFrom(file: Str, index: seq<IndexEntry>, key: Key): Result<Entry, Status>
  {
    var i := LowerSearch(index, key, 0, |index|);
    if i == |index| || index[i].key != key then Err(NotFound) else
      var stored := RecordAt(file, index[i].offset);
      if stored.None? then Err(ShortRead)
      else if stored.value.keyText != key.ToString() then Err(StorageError)
      else if stored.value.entry.deleted then Err(NotFound)
      else Ok(stored.value.entry)
  }

  /** Whatever the bytes are: an entry is answered only under the key text it is stored with. */
  lemma ReadNeverMixesKeys(file: Str, index: seq<IndexEntry>, key: Key)
    ensures ReadFrom(file, index, key).Ok? ==>
      && !ReadFrom(file, index, key).value.deleted
      && exists e :: e in index
                     && RecordAt(file, e.offset) == Some(Stored(key.ToString(), ReadFrom(file, index, key).value))
  {
    hide RecordAt, LowerSearch, Key.ToString;
    var i := LowerSearch(index, key, 0, |index|);
    if i < |index| { assert index[i] in index; }
  }

  /** Behind a sorted index, any bytes: what the record at the key's offset makes of a read. */
  lemma ReadOfAnyBytes(file: Str, index: seq<IndexEntry>, keys: seq<Key>, i: nat)
    requires Sorted(keys) && |keys| == |index| && forall j :: 0 <= j < |keys| ==> index[j].key == keys[j]
    requires i < |index|
    ensures var stored := RecordAt(file, index[i].offset);
      ReadFrom(file, index, keys[i]) ==
        if stored.None? then Err(ShortRead)
        else if stored.value.keyText != keys[i].primary + [0x3A] + keys[i].secondary then Err(StorageError)
        else if stored.value.entry.deleted then Err(NotFound)
        else Ok(stored.value.entry)
  {
    hide RecordAt, LowerSearch, LowerBound, Less;
    var k := keys[i];
    LowerSearchIsBound(index, keys, k, 0, |index|);
    BelowLowerBound(keys, k, i);
    LessIsTotalOrder(k, k);
    var b := LowerBound(keys, k);
    BelowLowerBound(keys, k, b);
  }

  /** A map as `write` walks it. */
  function Entries(data: Table): (s: seq<(Key, Entry)>)
    ensures |s| == |data|
  {
    var keys := SortedKeys(data.Keys);
    assert forall k :: k in keys ==> k in Elements(keys);
    Pairs(data, keys)
  }

  lemma EntriesAreSorted(data: Table)
    ensures var keys := SortedKeys(data.Keys);
      && forall i :: 0 <= i < |data| ==> Entries(data)[i] == (keys[i], data[keys[i]])
  {
    assert forall k :: k in SortedKeys(data.Keys) ==> k in Elements(SortedKeys(data.Keys));
  }

  /** The entries' keys are the keys of the map. */
  lemma EntryKeys(data: Table)
    ensures (forall i :: 0 <= i < |data| ==> ColonFree(Entries(data)[i].0)) <==> forall k :: k in data ==> ColonFree(k)
  {
    hide Entries, SortedKeys, ColonFree;
    var keys := SortedKeys(data.Keys);
    EntriesAreSorted(data);
    forall i | 0 <= i < |keys|
      ensures keys[i] in data
    {
      assert keys[i] in Elements(keys);
    }
    if forall i :: 0 <= i < |data| ==> ColonFree(Entries(data)[i].0) {
      forall k | k in data
        ensures ColonFree(k)
      {
        assert k in Elements(keys);
        var i :| 0 <= i < |keys| && keys[i] == k;
        assert Entries(data)[i].0 == k;
      }
    }
  }

  lemma IndexPosition(data: Table, k: Key) returns (i: nat)
    requires k in data
    ensures i < |data| && Entries(data)[i] == (k, data[k])
    ensures LowerBound(SortedKeys(data.Keys), k) == i
  {
    hide Less, SortedKeys, Entries;
    var keys := SortedKeys(data.Keys);
    EntriesAreSorted(data);
    assert k in Elements(keys);
    i :| 0 <= i < |keys| && keys[i] == k;
    var b := LowerBound(keys, k);
    LessIsTotalOrder(k, k);
  }

  /** `file` and `index` are what `write` leaves for a map. */
  ghost predicate Holds(file: Str, index: seq<IndexEntry>, data: Table)
  {
    && Fits(Entries(data))
    && file == FileOf(Entries(data))
    && index == IndexFrom(Entries(data), HEADER_SIZE)
  }

  lemma RecordInFile(file: Str, index: seq<IndexEntry>, data: Table, i: nat)
    requires Holds(file, index, data) && i < |data|
    ensures RecordAt(file, index[i].offset) == Some(Stored(Entries(data)[i].0.ToString(), Entries(data)[i].1))
  {
    hide Entries, Records, RecordAt, IndexFrom, Header, IndexRecords, LittleEndian, Key.ToString;
    var d := Entries(data);
    var body := Header(|d|) + Records(d);
    var after := LittleEndian(|d|, 4) + (IndexRecords(IndexFrom(d, HEADER_SIZE)) + LittleEndian(|body|, 8));
    assert FileOf(d) == Header(|d|) + (Records(d) + after);
    OffsetsAreExact(Header(|d|), d, after, i);
  }

  lemma IndexKeys(file: Str, index: seq<IndexEntry>, data: Table)
    requires Holds(file, index, data)
    ensures |index| == |data|
    ensures forall i :: 0 <= i < |index| ==> index[i].key == SortedKeys(data.Keys)[i]
  {
    hide Entries, IndexFrom, SortedKeys;
    EntriesAreSorted(data);
  }

  /** Reading a written table agrees with its map: the entry if live, NOT_FOUND if deleted or absent. */
  lemma {:induction false} ReadAgrees(file: Str, index: seq<IndexEntry>, data: Table, k: Key)
    requires Holds(file, index, data)
    ensures ReadFrom(file, index, k) == if Live(data, k) then Ok(data[k]) else Err(NotFound)
  {
    hide Holds, Entries, SortedKeys, LowerSearch, LowerBound, RecordAt, Key.ToString, Less;
    var keys := SortedKeys(data.Keys);
    IndexKeys(file, index, data);
    LowerSearchIsBound(index, keys, k, 0, |index|);
    if k in data {
      var i := IndexPosition(data, k);
      RecordInFile(file, index, data, i);
      EntriesAreSorted(data);
    } else {
      forall i | 0 <= i < |index|
        ensures index[i].key != k
      {
        assert keys[i] in Elements(keys);
      }
    }
  }

  /** The same through an index loaded back from the file, when no primary key has a colon. */
  lemma {:induction false} ReadAgreesAfterLoad(data: Table, k: Key)
    requires Fits(Entries(data)) && forall x :: x in data ==> ColonFree(x)
    ensures LoadedIndex(FileOf(Entries(data))).Ok?
    ensures ReadFrom(FileOf(Entries(data)), LoadedIndex(FileOf(Entries(data))).value, k)
         == if Live(data, k) then Ok(data[k]) else Err(NotFound)
  {
    hide Entries, FileOf, LoadedIndex, IndexFrom, SortedKeys, ReadFrom, Fits;
    var d := Entries(data);
    EntriesAreSorted(data);
    forall i | 0 <= i < |d|
      ensures ColonFree(d[i].0)
    {
      assert SortedKeys(data.Keys)[i] in Elements(SortedKeys(data.Keys));
    }
    IndexRoundTrip(d);
    ReadAgrees(FileOf(d), IndexFrom(d, HEADER_SIZE), data, k);
  }

  /** After a reload a key with a colon in its primary part is never found, live or not. */
  lemma {:induction false} ColonKeyIsLost(data: Table, k: Key)
    requires Fits(Entries(data)) && !ColonFree(k)
    ensures LoadedIndex(FileOf(Entries(data))).Ok?
    ensures ReadFrom(FileOf(Entries(data)), LoadedIndex(FileOf(Entries(data))).value, k) == Err(NotFound)
  {
    hide Entries, FileOf, LoadedIndex, IndexFrom, Fits, Key.ToString, ParseKey, ColonFree, LowerSearch, RecordAt;
    LoadAfterWrite(Entries(data));
    var index := Reparsed(IndexFrom(Entries(data), HEADER_SIZE));
    forall i | 0 <= i < |index|
      ensures ColonFree(index[i].key)
    {
      ParseKeyRoundTrip(IndexFrom(Entries(data), HEADER_SIZE)[i].key);
    }
  }

  /** And the entry shows up under the key it is parsed as, which was never written. */
  lemma {:induction false} ColonKeyIsMisread(k: Key, e: Entry)
    requires !ColonFree(k) && !e.deleted && Fits(Entries(map[k := e]))
    ensures var file := FileOf(Entries(map[k := e]));
      && LoadedIndex(file).Ok?
      && ParseKey(k.ToString()) !in map[k := e]
      && ReadFrom(file, LoadedIndex(file).value, ParseKey(k.ToString())) == Ok(e)
  {
    hide FileOf, LoadedIndex, Key.ToString, ParseKey, ColonFree, RecordAt, Less, Fits, Entries;
    var data := map[k := e];
    var d := Entries(data);
    assert k in data.Keys && |data| == 1;
    EntriesAreSorted(data);
    assert SortedKeys(data.Keys)[0] in Elements(SortedKeys(data.Keys));
    assert d[0] == (k, e);
    LoadAfterWrite(d);
    ParseKeyRoundTrip(k);
    SameText(k);
    RecordInFile(FileOf(d), IndexFrom(d, HEADER_SIZE), data, 0);
    var index := Reparsed(IndexFrom(d, HEADER_SIZE));
    LessIsTotalOrder(index[0].key, index[0].key);
    assert LowerSearch(index, index[0].key, 0, 1) == LowerSearch(index, index[0].key, 0, 0);
  }

  /** What a point read answers once the index has been loaded back from the file. */
  function AfterReload(data: Table, k: Key): Result<Entry, Status>
  {
    var file := FileOf(Entries(data));
    var loaded := LoadedIndex(file);
    if loaded.Err? then Err(loaded.error) else ReadFrom(file, loaded.value, k)
  }

  ghost predicate ReloadAgrees(data: Table)
  {
    forall k :: AfterReload(data, k) == if Live(data, k) then Ok(data[k]) else Err(NotFound)
  }

  /** Where the binary search for `k` ends in the reloaded index. */
  function ReloadedPosition(data: Table, k: Key): (i: nat)
    ensures i <= |data|
  {
    var index := Reparsed(IndexFrom(Entries(data), HEADER_SIZE));
    LowerSearch(index, k, 0, |index|)
  }

  /** The entry there answers if its key is parsed as `k` and it is live. */
  lemma AfterReloadIs(data: Table, k: Key)
    requires Fits(Entries(data))
    ensures var keys, i := SortedKeys(data.Keys), ReloadedPosition(data, k);
      AfterReload(data, k) ==
        if i < |keys| && ParseKey(keys[i].ToString()) == k && Live(data, keys[i]) then Ok(data[keys[i]])
        else Err(NotFound)
  {
    hide Entries, FileOf, LoadedIndex, IndexFrom, Fits, Key.ToString, ParseKey, LowerSearch, RecordAt, SortedKeys,
      Live;
    var d, keys, i := Entries(data), SortedKeys(data.Keys), ReloadedPosition(data, k);
    LoadAfterWrite(d);
    EntriesAreSorted(data);
    if i < |keys| {
      assert keys[i] in Elements(keys);
      RecordInFile(FileOf(d), IndexFrom(d, HEADER_SIZE), data, i);
      SameText(keys[i]);
      LiveEntry(data, keys[i]);
    }
  }

  lemma LiveEntry(data: Table, k: Key)
    requires k in data
    ensures Live(data, k) <==> !data[k].deleted
  {
  }

  /** The search for the key ends on its own entry although all keys were parsed again. */
  predicate FoundAfterReload(data: Table, k: Key)
  {
    var i := ReloadedPosition(data, k);
    i < |data| && SortedKeys(data.Keys)[i] == k
  }

  /**
   * Any table, with or without tombstones, reads the same after a reload, for every key, exactly when each live key has
   * no colon in its primary part and the search over the parsed keys still ends on it.
   */
  lemma ReloadAgreesExactly(data: Table)
    requires Fits(Entries(data))
    ensures ReloadAgrees(data) <==> forall k :: Live(data, k) ==> ColonFree(k) && FoundAfterReload(data, k)
  {
    hide Entries, AfterReload, Fits, ColonFree, ReloadedPosition, SortedKeys, ParseKey, Key.ToString;
    var keys := SortedKeys(data.Keys);
    if ReloadAgrees(data) {
      forall k | Live(data, k)
        ensures ColonFree(k)
      {
        LiveIsColonFree(data, k);
      }
      forall k | Live(data, k)
        ensures FoundAfterReload(data, k)
      {
        AfterReloadIs(data, k);
        ParseKeyRoundTrip(keys[ReloadedPosition(data, k)]);
      }
    }
    if forall k :: Live(data, k) ==> ColonFree(k) && FoundAfterReload(data, k) {
      forall k
        ensures AfterReload(data, k) == if Live(data, k) then Ok(data[k]) else Err(NotFound)
      {
        AfterReloadIs(data, k);
        var i := ReloadedPosition(data, k);
        if i < |keys| { ParseKeyRoundTrip(keys[i]); }
      }
    }
  }

  lemma LiveIsColonFree(data: Table, k: Key)
    requires Fits(Entries(data)) && ReloadAgrees(data) && Live(data, k)
    ensures ColonFree(k)
  {
    hide Entries, AfterReload, Fits, ColonFree;
    if !ColonFree(k) { LostAfterReload(data, k); }
  }

  lemma LostAfterReload(data: Table, k: Key)
    requires Fits(Entries(data)) && !ColonFree(k)
    ensures AfterReload(data, k) == Err(NotFound)
  {
    hide Entries, FileOf, LoadedIndex, ReadFrom, Fits, ColonFree;
    ColonKeyIsLost(data, k);
  }

  /** Without tombstones a table reads the same after a reload exactly when no primary key has a colon. */
  lemma ReloadAgreesIff(data: Table)
    requires Fits(Entries(data)) && forall x :: x in data ==> !data[x].deleted
    ensures ReloadAgrees(data) <==> forall x :: x in data ==> ColonFree(x)
  {
    hide Entries, FileOf, LoadedIndex, ReadFrom, Fits, ColonFree;
    if forall x :: x in data ==> ColonFree(x) {
      forall k
        ensures AfterReload(data, k) == if Live(data, k) then Ok(data[k]) else Err(NotFound)
      {
        ReadAgreesAfterLoad(data, k);
      }
    }
    if ReloadAgrees(data) {
      forall x | x in data
        ensures ColonFree(x)
      {
        assert Live(data, x) && AfterReload(data, x) == Ok(data[x]);
        if !ColonFree(x) { ColonKeyIsLost(data, x); }
      }
    }
  }

  /**
   * A colon key can take other keys with it: parsed again it may stand out of order, and then the binary search misses
   * a live key without any colon.
   */
  lemma NeighbourIsLost(e: Entry, f: Entry)
    requires !e.deleted && !f.deleted
    requires Fits(Entries(map[Key([97], [122]) := e, Key([97, COLON, 98], []) := f]))
    ensures var data := map[Key([97], [122]) := e, Key([97, COLON, 98], []) := f];
      var k := Key([97], [122]);
      ColonFree(k) && Live(data, k) && AfterReload(data, k) == Err(NotFound)
  {
    hide Entries, FileOf, LoadedIndex, IndexFrom, Fits, RecordAt, ParseKey, Key.ToString, SortedKeys;
    var a, ab, moved := Key([97], [122]), Key([97, COLON, 98], []), Key([97], [98, COLON]);
    var data := map[a := e, ab := f];
    var d := Entries(data);
    assert data.Keys == {a, ab};
    assert Less(a, ab) && Less(moved, a) by { InOrder(); }
    SortedPair(a, ab);
    EntriesAreSorted(data);
    assert |data| == 2;
    LoadAfterWrite(d);
    var index := Reparsed(IndexFrom(d, HEADER_SIZE));
    ParseKeyRoundTrip(a);
    ParsedElsewhere();
    assert index[0].key == a && index[1].key == moved && |index| == 2;
    assert LowerSearch(index, a, 0, 2) == LowerSearch(index, a, 2, 0) == 2;
  }

  lemma InOrder()
    ensures Less(Key([97], [122]), Key([97, COLON, 98], [])) && Less(Key([97], [98, COLON]), Key([97], [122]))
  {
    var short, long: Str := [97], [97, COLON, 98];
    assert short[1..] == [] && long[1..] == [COLON, 98];
    assert LexLess(short[1..], long[1..]);
    assert LexLess(short, long);
    var b, z: Str := [98, COLON], [122];
    assert LexLess(b, z);
    assert |short| != |long|;
  }

  lemma ParsedElsewhere()
    ensures ParseKey(Key([97, COLON, 98], []).ToString()) == Key([97], [98, COLON])
  {
    var s := Key([97, COLON, 98], []).ToString();
    assert s == [97] + [COLON] + [98, COLON];
    IndexOfFirst([97], COLON, [98, COLON]);
  }

  lemma SameText(k: Key)
    ensures ParseKey(k.ToString()).ToString() == k.ToString()
  {
    hide IndexOf;
    var s := k.ToString();
    var i := IndexOf(s, COLON);
    assert s[|k.primary|] == COLON;
    assert forall j :: 0 <= j < i ==> s[j] in s[..i];
  }

  // ---------------------------------------------------------------------------
  // Range reads.

  function Shown(key: Key, e: Entry): seq<(Key, Entry)>
  {
    if e.deleted then [] else [(key, e)]
  }

  /** The records behind a slice of the index, deleted ones left out. */
  function ScanSlice(file: Str, slice: seq<IndexEntry>): Result<seq<(Key, Entry)>, Status>
  {
    if slice == [] then Ok([]) else
      var stored := RecordAt(file, slice[0].offset);
      if stored.None? then Err(ShortRead)
      else Prepend(Shown(slice[0].key, stored.value.entry), ScanSlice(file, slice[1..]))
  }

  /** Where `range_scan` starts in the index. */
  function ScanStart(index: seq<IndexEntry>, q: RangeQuery): (i: nat)
    ensures i <= |index|
  {
    var lo := LowerSearch(index, q.start, 0, |index|);
    if !q.inclusiveStart && lo < |index| && index[lo].key == q.start then lo + 1 else lo
  }

  function ScanEnd(index: seq<IndexEntry>, q: RangeQuery): (i: nat)
    ensures i <= |index|
  {
    UpperSearch(index, q.end, 0, |index|)
  }

  /** The loop stops before it runs off the index. */
  predicate IndexWalkEnds(index: seq<IndexEntry>, q: RangeQuery)
  {
    ScanStart(index, q) <= ScanEnd(index, q) || ScanStart(index, q) + q.limit <= |index|
  }

  /** The index entries the loop visits; with the start behind the end it never meets the end. */
  function IndexVisited(index: seq<IndexEntry>, q: RangeQuery): seq<IndexEntry>
  {
    var end := if ScanStart(index, q) <= ScanEnd(index, q) then ScanEnd(index, q) else |index|;
    Take(index[ScanStart(index, q)..end], q.limit)
  }

  /** `range_scan` once the index is loaded; past the end of the index the source's iterator is invalid. */
  function ScanFrom(file: Str, index: seq<IndexEntry>, q: RangeQuery): Result<seq<(Key, Entry)>, Status>
  {
    if IndexWalkEnds(index, q) then ScanSlice(file, IndexVisited(index, q)) else Err(ShortRead)
  }

  lemma FilterStep(data: Table, keys: seq<Key>)
    requires keys != [] && forall k :: k in keys ==> k in data
    ensures forall k :: k in Filter(data, keys) || k in Filter(data, keys[1..]) ==> k in data
    ensures Pairs(data, Filter(data, keys)) == Shown(keys[0], data[keys[0]]) + Pairs(data, Filter(data, keys[1..]))
  {
    FilterMembers(data, keys);
    FilterMembers(data, keys[1..]);
    if Live(data, keys[0]) {
      assert Filter(data, keys)[1..] == Filter(data, keys[1..]);
    } else {
      assert Filter(data, keys) == Filter(data, keys[1..]);
    }
  }

  lemma {:induction false} SliceScanned(file: Str, slice: seq<IndexEntry>, data: Table, keys: seq<Key>)
    requires |slice| == |keys| && forall k :: k in keys ==> k in data
    requires forall i :: 0 <= i < |slice| ==>
      slice[i].key == keys[i] && RecordAt(file, slice[i].offset) == Some(Stored(keys[i].ToString(), data[keys[i]]))
    ensures forall k :: k in Filter(data, keys) ==> k in data
    ensures ScanSlice(file, slice) == Ok(Pairs(data, Filter(data, keys)))
    decreases keys
  {
    hide RecordAt, Key.ToString, Pairs;
    FilterMembers(data, keys);
    if keys != [] {
      SliceScanned(file, slice[1..], data, keys[1..]);
      FilterStep(data, keys);
      assert slice[0].key == keys[0];
    }
  }

  /** A range scan of a written table is the range scan of the map it was written from. */
  lemma {:induction false} ScanAgrees(file: Str, index: seq<IndexEntry>, data: Table, q: RangeQuery)
    requires Holds(file, index, data)
    ensures IndexWalkEnds(index, q) <==> WalkEnds(data, q)
    ensures WalkEnds(data, q) ==> ScanFrom(file, index, q) == Ok(Scan(data, q))
  {
    hide Holds, Entries, SortedKeys, LowerSearch, UpperSearch, StartIndex, UpperBound, RecordAt, Key.ToString, Less,
      Filter, Pairs, ScanSlice, ScanStart, ScanEnd;
    var keys := SortedKeys(data.Keys);
    IndexKeys(file, index, data);
    ScanBounds(index, keys, q);
    var lo := StartIndex(keys, q);
    var hi := if Forward(data, q) then UpperBound(keys, q.end) else |keys|;
    VisitedRecords(file, index, data, lo, hi, q.limit);
    SliceScanned(file, Take(index[lo..hi], q.limit), data, Take(keys[lo..hi], q.limit));
  }

  lemma ScanBounds(index: seq<IndexEntry>, keys: seq<Key>, q: RangeQuery)
    requires Sorted(keys) && |keys| == |index| && forall i :: 0 <= i < |keys| ==> index[i].key == keys[i]
    ensures ScanStart(index, q) == StartIndex(keys, q)
    ensures ScanEnd(index, q) == UpperBound(keys, q.end)
  {
    hide LowerSearch, UpperSearch, LowerBound, UpperBound, Less;
    LowerSearchIsBound(index, keys, q.start, 0, |index|);
    UpperSearchIsBound(index, keys, q.end, 0, |index|);
  }

  lemma VisitedRecords(file: Str, index: seq<IndexEntry>, data: Table, lo: nat, hi: nat, limit: nat)
    requires Holds(file, index, data) && |index| == |data| && lo <= hi <= |data|
    ensures var keys := Take(SortedKeys(data.Keys)[lo..hi], limit);
      var slice := Take(index[lo..hi], limit);
      && |slice| == |keys|
      && (forall k :: k in keys ==> k in data)
      && forall i :: 0 <= i < |slice| ==>
           slice[i].key == keys[i] && RecordAt(file, slice[i].offset) == Some(Stored(keys[i].ToString(), data[keys[i]]))
  {
    hide Holds, Entries, SortedKeys, RecordAt, Key.ToString, Take;
    var some, slice := Take(SortedKeys(data.Keys)[lo..hi], limit), Take(index[lo..hi], limit);
    TakenSlice(SortedKeys(data.Keys), lo, hi, limit);
    TakenSlice(index, lo, hi, limit);
    forall i | 0 <= i < |some|
      ensures some[i] in data && slice[i].key == some[i]
      ensures RecordAt(file, slice[i].offset) == Some(Stored(some[i].ToString(), data[some[i]]))
    {
      PositionHolds(file, index, data, lo + i);
    }
  }

  lemma TakenSlice<T>(s: seq<T>, lo: nat, hi: nat, limit: nat)
    requires lo <= hi <= |s|
    ensures |Take(s[lo..hi], limit)| == if limit < hi - lo then limit else hi - lo
    ensures forall i :: 0 <= i < |Take(s[lo..hi], limit)| ==> Take(s[lo..hi], limit)[i] == s[lo + i]
  {
  }

  lemma PositionHolds(file: Str, index: seq<IndexEntry>, data: Table, i: nat)
    requires Holds(file, index, data) && |index| == |data| && i < |data|
    ensures var k := SortedKeys(data.Keys)[i];
      k in data && index[i].key == k && RecordAt(file, index[i].offset) == Some(Stored(k.ToString(), data[k]))
  {
    hide Holds, Entries, SortedKeys, RecordAt, Key.ToString;
    var keys := SortedKeys(data.Keys);
    assert keys[i] in Elements(keys);
    IndexKeys(file, index, data);
    EntriesAreSorted(data);
    RecordInFile(file, index, data, i);
  }

  // ---------------------------------------------------------------------------
  // The code.

  /** `ensure the index is loaded`, then answer from it. */
  function ReadResult(file: Option<Str>, index: seq<IndexEntry>, key: Key): Result<Entry, Status>
  {
    if file.None? then
      var i := LowerSearch(index, key, 0, |index|);
      if index != [] && (i == |index| || index[i].key != key) then Err(NotFound) else Err(StorageError)
    else if index == [] then
      var loaded := LoadedIndex(file.value);
      if loaded.Err? then Err(loaded.error) else ReadFrom(file.value, loaded.value, key)
    else ReadFrom(file.value, index, key)
  }

  function ScanResult(file: Option<Str>, index: seq<IndexEntry>, q: RangeQuery): Result<seq<(Key, Entry)>, Status>
  {
    if file.None? then Err(StorageError)
    else if index == [] then
      var loaded := LoadedIndex(file.value);
      if loaded.Err? then Err(loaded.error) else ScanFrom(file.value, loaded.value, q)
    else ScanFrom(file.value, index, q)
  }

  class SsTable {
    /** The file on disk, if there is one. */
    var file: Option<Str>
    var index: seq<IndexEntry>
    var size: nat

    constructor (onDisk: Option<Str>)
      ensures file == onDisk && index == [] && size == 0
    {
      file, index, size := onDisk, [], 0;
    }

    /** `canOpen` is whether the file can be opened for writing. */
    method Write(data: Table, canOpen: bool) returns (r: Result<(), Status>)
      modifies this
      ensures r == if data.Keys == {} then Err(InvalidArgument) else if canOpen then Ok(()) else Err(StorageError)
      ensures r.Ok? ==> file == Some(FileOf(Entries(data))) && index == IndexFrom(Entries(data), HEADER_SIZE)
      ensures r.Ok? ==> size == |data|
      ensures r.Err? ==> unchanged(this)
    {
      hide LittleEndian, Entries, Records, IndexRecords, IndexFrom;
      if data.Keys == {} { return Err(InvalidArgument); }
      if !canOpen { return Err(StorageError); }
      var entries := Entries(data);
      var out := LittleEndian(MAGIC, 4);
      out := out + LittleEndian(VERSION, 4);
      out := out + LittleEndian(|data|, 4);
      assert out == Header(|data|);
      var built: seq<IndexEntry>;
      out, built := WriteRecords(out, entries);
      var indexOffset := |out|;
      out := WriteIndex(out + LittleEndian(|built|, 4), built);
      out := out + LittleEndian(indexOffset, 8);
      assert out == FileOf(entries);
      file, index, size := Some(out), built, |data|;
      return Ok(());
    }

    method LoadIndex() returns (r: Result<(), Status>)
      modifies this`index, this`size
      ensures file.None? ==> r == Err(StorageError)
      ensures file.Some? ==> r == if LoadedIndex(file.value).Ok? then Ok(()) else Err(LoadedIndex(file.value).error)
      ensures r.Ok? ==> index == LoadedIndex(file.value).value && size == |index|
      ensures r == Err(StorageError) ==> index == old(index) && size == old(size)
    {
      hide U32At, U64At, ChunkAt, ParseKey, IndexEntryAt;
      if file.None? { return Err(StorageError); }
      var bytes := file.value;
      if |bytes| < HEADER_SIZE { return Err(ShortRead); }
      if U32At(bytes, 0) != Some(MAGIC) { return Err(StorageError); }
      if U32At(bytes, 4) != Some(VERSION) { return Err(StorageError); }
      FooterPresent(bytes);
      var pos: nat := U64At(bytes, |bytes| - 8).value;
      var count := U32At(bytes, pos);
      if count.None? { return Err(ShortRead); }
      pos := pos + 4;
      ghost var all := IndexAt(bytes, pos, count.value);
      PrependNothing(all);
      index := [];
      var i := 0;
      while i < count.value
        invariant 0 <= i <= count.value
        invariant all == Prepend(index, IndexAt(bytes, pos, count.value - i))
      {
        var key := ChunkAt(bytes, pos);
        if key.None? { return Err(ShortRead); }
        var next := pos + 4 + |key.value|;
        if next + 12 > |bytes| { return Err(ShortRead); }
        var entry := IndexEntryAt(bytes, next, ParseKey(key.value));
        PrependTwice(index, [entry], IndexAt(bytes, next + 12, count.value - i - 1));
        index := index + [entry];
        pos := next + 12;
        i := i + 1;
      }
      assert index + [] == index;
      size := |index|;
      return Ok(());
    }

    method Read(key: Key) returns (r: Result<Entry, Status>)
      modifies this`index, this`size
      ensures r == ReadResult(file, old(index), key)
      ensures old(index) != [] ==> unchanged(this)
      ensures file.Some? && LoadedIndex(file.value) == Ok(old(index)) ==> index == old(index)
    {
      hide LoadedIndex, RecordAt, LowerSearch, Key.ToString;
      if index == [] {
        var loaded := LoadIndex();
        if loaded.Err? { return Err(loaded.error); }
      }
      var i := LowerSearch(index, key, 0, |index|);
      if i == |index| || index[i].key != key { return Err(NotFound); }
      if file.None? { return Err(StorageError); }
      var stored := RecordAt(file.value, index[i].offset);
      if stored.None? { return Err(ShortRead); }
      if stored.value.keyText != key.ToString() { return Err(StorageError); }
      if stored.value.entry.deleted { return Err(NotFound); }
      return Ok(stored.value.entry);
    }

    method RangeScan(q: RangeQuery) returns (r: Result<seq<(Key, Entry)>, Status>)
      modifies this`index, this`size
      ensures r == ScanResult(file, old(index), q)
      ensures old(index) != [] ==> unchanged(this)
      ensures file.Some? && LoadedIndex(file.value) == Ok(old(index)) ==> index == old(index)
    {
      hide LoadedIndex, RecordAt, IndexWalkEnds, IndexVisited;
      if index == [] {
        var loaded := LoadIndex();
        if loaded.Err? { return Err(loaded.error); }
      }
      if file.None? { return Err(StorageError); }
      var bytes := file.value;
      var entries := index;
      if !IndexWalkEnds(entries, q) { return Err(ShortRead); }
      var slice := IndexVisited(entries, q);
      var results: seq<(Key, Entry)> := [];
      PrependNothing(ScanSlice(bytes, slice));
      assert slice[0..] == slice;
      var n := 0;
      while n < |slice|
        invariant 0 <= n <= |slice|
        invariant index == entries && (old(index) != [] ==> unchanged(this))
        invariant ScanSlice(bytes, slice) == Prepend(results, ScanSlice(bytes, slice[n..]))
      {
        assert slice[n..][0] == slice[n] && slice[n..][1..] == slice[n + 1..];
        var stored := RecordAt(bytes, slice[n].offset);
        if stored.None? { return Err(ShortRead); }
        PrependTwice(results, Shown(slice[n].key, stored.value.entry), ScanSlice(bytes, slice[n + 1..]));
        assert results + [] == results;
        if !stored.value.entry.deleted {
          results := results + [(slice[n].key, stored.value.entry)];
        }
        n := n + 1;
      }
      assert results + [] == results;
      return Ok(results);
    }
  }

  lemma FooterPresent(file: Str)
    requires |file| >= 8
    ensures U64At(file, |file| - 8).Some?
  {
  }

  lemma RecordsStep(out: Str, entries: seq<(Key, Entry)>, i: nat)
    requires i < |entries|
    ensures var r := Record(entries[i].0, entries[i].1);
      out + Records(entries[i..]) == (out + r) + Records(entries[i + 1..])
  {
    hide Record;
    assert entries[i..][0] == entries[i] && entries[i..][1..] == entries[i + 1..];
    Associate(out, Record(entries[i].0, entries[i].1), Records(entries[i + 1..]));
  }

  lemma IndexStep(offset: nat, built: seq<IndexEntry>, entries: seq<(Key, Entry)>, i: nat)
    requires i < |entries|
    ensures var (key, size) := (entries[i].0, |Record(entries[i].0, entries[i].1)|);
      built + IndexFrom(entries[i..], offset)
      == (built + [EntryFor(key, offset, size)]) + IndexFrom(entries[i + 1..], offset + size)
  {
    hide Record, EntryFor;
    assert entries[i..][0] == entries[i] && entries[i..][1..] == entries[i + 1..];
    var size := |Record(entries[i].0, entries[i].1)|;
    var e, rest := EntryFor(entries[i].0, offset, size), IndexFrom(entries[i + 1..], offset + size);
    assert IndexFrom(entries[i..], offset) == [e] + rest;
    Associate(built, [e], rest);
  }

  /** The loop that writes the records and remembers where each begins. */
  method WriteRecords(start: Str, entries: seq<(Key, Entry)>) returns (out: Str, built: seq<IndexEntry>)
    ensures out == start + Records(entries)
    ensures built == IndexFrom(entries, |start|)
  {
    hide Records, IndexFrom;
    out, built := start, [];
    var i := 0;
    assert entries[0..] == entries;
    ghost var all, index := start + Records(entries), IndexFrom(entries, |start|);
    assert [] + index == index;
    while i < |entries|
      invariant 0 <= i <= |entries|
      invariant out + Records(entries[i..]) == all
      invariant built + IndexFrom(entries[i..], |out|) == index
    {
      out, built := WriteRecord(out, built, entries, i);
      i := i + 1;
    }
    assert entries[i..] == [];
    NoRecords(|out|);
    assert out + [] == out && built + [] == built;
  }

  method WriteRecord(start: Str, before: seq<IndexEntry>, entries: seq<(Key, Entry)>, i: nat)
    returns (out: Str, built: seq<IndexEntry>)
    requires i < |entries|
    ensures out == start + Record(entries[i].0, entries[i].1)
    ensures built == before + [EntryFor(entries[i].0, |start|, |out| - |start|)]
    ensures out + Records(entries[i + 1..]) == start + Records(entries[i..])
    ensures built + IndexFrom(entries[i + 1..], |out|) == before + IndexFrom(entries[i..], |start|)
  {
    hide Record, Records, IndexFrom, EntryFor, NewEntry;
    RecordsStep(start, entries, i);
    IndexStep(|start|, before, entries, i);
    out := AppendRecord(start, entries[i].0, entries[i].1);
    built := before + [NewEntry(entries[i].0, |start|, |out|)];
  }

  /** The index entry of a record written from `offset` to `end`. */
  function NewEntry(key: Key, offset: nat, end: nat): IndexEntry
    requires offset <= end
    ensures NewEntry(key, offset, end) == EntryFor(key, offset, end - offset)
  {
    IndexEntry(key, offset % TWO_64, (end - offset) % TWO_32)
  }

  lemma NoRecords(offset: nat)
    ensures Records([]) == [] && IndexFrom([], offset) == []
  {
  }

  method WriteIndex(start: Str, index: seq<IndexEntry>) returns (out: Str)
    ensures out == start + IndexRecords(index)
  {
    hide IndexRecord;
    out := start;
    var i := 0;
    assert index[0..] == index;
    while i < |index|
      invariant 0 <= i <= |index|
      invariant out + IndexRecords(index[i..]) == start + IndexRecords(index)
    {
      assert index[i..][0] == index[i] && index[i..][1..] == index[i + 1..];
      assert out + IndexRecords(index[i..]) == out + IndexRecord(index[i]) + IndexRecords(index[i + 1..]);
      out := AppendIndexRecord(out, index[i]);
      i := i + 1;
    }
  }

  /** The file writes for one record. */
  method AppendRecord(out: Str, key: Key, entry: Entry) returns (r: Str)
    ensures r == out + Record(key, entry)
  {
    hide LittleEndian, Key.ToString;
    var keyText := key.ToString();
    r := out + LittleEndian(|keyText|, 4);
    r := r + keyText[..|keyText| % TWO_32];
    r := r + LittleEndian(|entry.value|, 4);
    r := r + entry.value[..|entry.value| % TWO_32];
    r := r + LittleEndian(entry.version, 8);
    r := r + LittleEndian(TimestampBits(entry.timestamp), 8);
    r := r + [if entry.deleted then 1 else 0];
  }

  method AppendIndexRecord(out: Str, e: IndexEntry) returns (r: Str)
    ensures r == out + IndexRecord(e)
  {
    hide LittleEndian, Key.ToString;
    var keyText := e.key.ToString();
    r := out + LittleEndian(|keyText|, 4);
    r := r + keyText[..|keyText| % TWO_32];
    r := r + LittleEndian(e.offset, 8);
    r := r + LittleEndian(e.size, 4);
  }
}
