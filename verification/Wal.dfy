/** The write-ahead log (src/storage/wal.cpp): record format, append, replay, truncation. */
module Wal {
  import opened Bytes
  import opened Collections
  import opened Keys
  import opened Results
  import Crc = Crc32c

  const NUL: byte := 0
  const PUT: byte := 1
  const DELETE: byte := 2
  const CHECKPOINT: byte := 4

  /** Largest payload `replay_from` accepts. */
  const MAX_RECORD: nat := 1024 * 1024

  datatype WalEntry = WalEntry(kind: byte, key: Key, data: Entry, sequence: u64)

  datatype LogError = NotOpen | InvalidLength | Incomplete | CrcMismatch | BadEntry

  type Result<+T> = Results.Result<T, LogError>

  // ---------------------------------------------------------------------------
  // One entry.

  /** Only the type, sequence number, key and value are logged. */
  function Serialize(e: WalEntry): Str
  {
    [e.kind] + LittleEndian(e.sequence, 8) + (e.key.primary + [NUL] + (e.key.secondary + [NUL] + e.data.value))
  }

  /** A default-constructed `DataEntry` with the value filled in; `now` is the clock at replay. */
  function ReplayedData(value: Str, now: i64): Entry
  {
    Entry(value, 0, now, false)
  }

  function Deserialize(s: Str, now: i64): Result<WalEntry>
  {
    if |s| < 9 then Err(BadEntry) else
      U64Bound(s[1..9]);
      var t := s[9..];
      var i := IndexOf(t, NUL);
      if i == |t| then Err(BadEntry) else
        var u := t[i + 1..];
        var j := IndexOf(u, NUL);
        if j == |u| then Err(BadEntry) else
          Ok(WalEntry(s[0], Key(t[..i], u[..j]), ReplayedData(u[j + 1..], now), FromLittleEndian(s[1..9])))
  }

  predicate NulFree(k: Key)
  {
    NUL !in k.primary && NUL !in k.secondary
  }

  /** What the log carries of an entry. */
  function Logged(e: WalEntry, now: i64): WalEntry
  {
    e.(data := ReplayedData(e.data.value, now))
  }

  /** Splitting at the first NUL gives back the part in front of a NUL exactly when that part has none. */
  lemma SplitAtNul(head: Str, rest: Str)
    ensures var s := head + [NUL] + rest;
      && IndexOf(s, NUL) <= |head|
      && (NUL !in head ==> s[..IndexOf(s, NUL)] == head && s[IndexOf(s, NUL) + 1..] == rest)
      && (NUL in head ==> s[..IndexOf(s, NUL)] != head)
      && (NUL in head ==> s[IndexOf(s, NUL) + 1..] == head[IndexOf(s, NUL) + 1..] + [NUL] + rest)
  {
    hide IndexOf;
    var s := head + [NUL] + rest;
    assert s[|head|] == NUL;
    assert forall j :: 0 <= j < IndexOf(s, NUL) ==> s[j] in s[..IndexOf(s, NUL)];
    if NUL !in head { IndexOfFirst(head, NUL, rest); }
  }

  lemma SerializedFields(e: WalEntry)
    ensures var s := Serialize(e);
      && |s| > 9
      && s[0] == e.kind
      && s[1..9] == LittleEndian(e.sequence, 8)
      && s[9..] == e.key.primary + [NUL] + (e.key.secondary + [NUL] + e.data.value)
  {
    hide LittleEndian;
  }

  /**
   * The payload byte by byte: the type, the sequence number with its lowest byte first, both parts of the key, each
   * closed by a zero byte, and the value.
   */
  lemma PayloadLayout(e: WalEntry, i: nat)
    requires i < 8
    ensures var s, p, q := Serialize(e), |e.key.primary|, |e.key.secondary|;
      && |s| == 11 + p + q + |e.data.value|
      && s[0] == e.kind && s[1 + i] == e.sequence / Power256(i) % 256
      && s[9..9 + p] == e.key.primary && s[9 + p] == 0
      && s[10 + p..10 + p + q] == e.key.secondary && s[10 + p + q] == 0
      && s[11 + p + q..] == e.data.value
  {
    hide LittleEndian;
    SerializedFields(e);
    LittleEndianDigit(e.sequence, 8, i);
    var s := Serialize(e);
    assert s[1 + i] == s[1..9][i];
    var t := s[9..];
    assert forall j :: 0 <= j < |t| ==> s[9 + j] == t[j];
  }

  /** A serialized entry always parses, and parses to what was logged exactly when its key has no NUL byte. */
  lemma {:induction false} EntryRoundTrip(e: WalEntry, now: i64)
    ensures Deserialize(Serialize(e), now).Ok?
    ensures Deserialize(Serialize(e), now) == Ok(Logged(e, now)) <==> NulFree(e.key)
    ensures Logged(e, now) == WalEntry(e.kind, e.key, Entry(e.data.value, 0, now, false), e.sequence)
  {
    hide Serialize, LittleEndian, FromLittleEndian, IndexOf;
    var s := Serialize(e);
    var u := e.key.secondary + [NUL] + e.data.value;
    SerializedFields(e);
    U64RoundTrip(e.sequence);
    SplitAtNul(e.key.primary, u);
    if NUL in e.key.primary {
      assert IndexOf(s[9..], NUL) < |e.key.primary|;
      SplitAtNul(e.key.primary[IndexOf(s[9..], NUL) + 1..], u);
    } else {
      SplitAtNul(e.key.secondary, e.data.value);
    }
  }

  lemma ParsedKeyIsNulFree(s: Str, now: i64)
    requires Deserialize(s, now).Ok?
    ensures NulFree(Deserialize(s, now).value.key)
    ensures Logged(Deserialize(s, now).value, now) == Deserialize(s, now).value
  {
  }

  // ---------------------------------------------------------------------------
  // The file.

  function Header(e: WalEntry): (s: Str)
    ensures |s| == 8
  {
    LittleEndian(|Serialize(e)|, 4) + Crc.ToBytes(Crc.Crc(Serialize(e)))
  }

  function Record(e: WalEntry): Str
  {
    Header(e) + Serialize(e)
  }

  /** The bytes that appending the entries one after another produces. */
  function Log(es: seq<WalEntry>): Str
  {
    if es == [] then [] else Record(es[0]) + Log(es[1..])
  }

  datatype Frame = EndOfLog | Bad(error: LogError) | Good(entry: WalEntry, next: nat)

  /** One turn of the replay loop: the record at a position, or why there is none. */
  function ReadFrame(file: Str, pos: nat, now: i64): (f: Frame)
    requires pos <= |file|
    ensures f.Good? ==> pos + 8 <= f.next <= |file|
  {
    if |file| - pos < 8 then EndOfLog else
      var length := FromLittleEndian(file[pos..pos + 4]);
      if length > MAX_RECORD then Bad(InvalidLength)
      else if |file| - (pos + 8) < length then Bad(Incomplete)
      else
        var payload := file[pos + 8..pos + 8 + length];
        if Crc.Crc(payload) != Crc.Bits(file[pos + 4..pos + 8]) then Bad(CrcMismatch) else
          var parsed := Deserialize(payload, now);
          if parsed.Err? then Bad(BadEntry) else Good(parsed.value, pos + 8 + length)
  }

  function Since(e: WalEntry, from: u64): seq<WalEntry>
  {
    if e.sequence >= from then [e] else []
  }

  /** What `replay_from` makes of the bytes of a file. */
  function Replay(file: Str, from: u64, now: i64): Result<seq<WalEntry>>
    decreases |file|
  {
    var f := ReadFrame(file, 0, now);
    if f.EndOfLog? then Ok([])
    else if f.Bad? then Err(f.error)
    else Prepend(Since(f.entry, from), Replay(file[f.next..], from, now))
  }

  lemma FrameOfSuffix(file: Str, pos: nat, now: i64)
    requires pos <= |file|
    ensures var f := ReadFrame(file, pos, now);
      ReadFrame(file[pos..], 0, now) == if f.Good? then Good(f.entry, f.next - pos) else f
  {
    hide Crc.Crc, Crc.Bits, FromLittleEndian, Deserialize;
    if |file| - pos >= 8 {
      var rest := file[pos..];
      assert rest[0..4] == file[pos..pos + 4] && rest[4..8] == file[pos + 4..pos + 8];
      var length := FromLittleEndian(rest[0..4]);
      if length <= |rest| - 8 {
        assert rest[8..8 + length] == file[pos + 8..pos + 8 + length];
      }
    }
  }

  lemma ReplayAt(file: Str, pos: nat, from: u64, now: i64)
    requires pos <= |file|
    ensures var f := ReadFrame(file, pos, now);
      Replay(file[pos..], from, now)
      == if f.EndOfLog? then Ok([])
         else if f.Bad? then Err(f.error)
         else Prepend(Since(f.entry, from), Replay(file[f.next..], from, now))
  {
    hide ReadFrame;
    FrameOfSuffix(file, pos, now);
    var f := ReadFrame(file, pos, now);
    if f.Good? { assert file[pos..][f.next - pos..] == file[f.next..]; }
  }

  /** Whether `replay_from` accepts the record of an entry. */
  predicate Small(e: WalEntry)
  {
    |Serialize(e)| <= MAX_RECORD
  }

  /** Payloads whose size fits the 32-bit length field. */
  ghost predicate FitsLength(es: seq<WalEntry>)
  {
    forall e :: e in es ==> |Serialize(e)| < TWO_32
  }

  ghost predicate AllSmall(es: seq<WalEntry>)
  {
    forall e :: e in es ==> Small(e)
  }

  /** The entries as the log carries them. */
  function Parsed(es: seq<WalEntry>, now: i64): (r: seq<WalEntry>)
    ensures |r| == |es|
  {
    if es == [] then [] else [ParsedEntry(es[0], now)] + Parsed(es[1..], now)
  }

  function ParsedEntry(e: WalEntry, now: i64): WalEntry
  {
    EntryRoundTrip(e, now);
    Deserialize(Serialize(e), now).value
  }

  function From(es: seq<WalEntry>, from: u64): seq<WalEntry>
  {
    if es == [] then [] else Since(es[0], from) + From(es[1..], from)
  }

  /** A record is the length of the payload, lowest byte first, its checksum, and the payload. */
  lemma RecordLayout(e: WalEntry, i: nat)
    requires i < 4
    ensures |Record(e)| == 8 + |Serialize(e)|
    ensures Record(e)[i] == |Serialize(e)| / Power256(i) % 256
    ensures Crc.Bits(Record(e)[4..8]) == Crc.Crc(Serialize(e))
    ensures Record(e)[8..] == Serialize(e)
  {
    hide LittleEndian, Crc.Crc, Crc.Bits, Crc.ToBytes, Serialize;
    LittleEndianDigit(|Serialize(e)|, 4, i);
    Crc.ToBytesRoundTrip(Crc.Crc(Serialize(e)));
    assert Record(e)[4..8] == Crc.ToBytes(Crc.Crc(Serialize(e)));
  }

  /** The bound of 1 MiB on what a caller passes. */
  lemma SmallIff(e: WalEntry)
    ensures Small(e) <==> |e.key.primary| + |e.key.secondary| + |e.data.value| <= 1_048_565
  {
    PayloadLayout(e, 0);
  }

  /** A replay from a sequence number on hands out the entries from that number on, in log order. */
  lemma {:induction false} FromConcat(a: seq<WalEntry>, b: seq<WalEntry>, from: u64)
    ensures From(a + b, from) == From(a, from) + From(b, from)
    decreases a
  {
    hide From, Since;
    if a == [] {
      assert a + b == b;
      FromNothing(from);
      assert [] + From(b, from) == From(b, from);
    } else {
      var rest := a[1..];
      FromConcat(rest, b, from);
      FromCons(a, from);
      FromCons(a + b, from);
      assert (a + b)[0] == a[0] && (a + b)[1..] == rest + b;
      Associate(Since(a[0], from), From(rest, from), From(b, from));
    }
  }

  lemma FromSingle(e: WalEntry, from: u64)
    ensures From([e], from) == if e.sequence >= from then [e] else []
  {
    assert [e][1..] == [];
  }

  lemma FromNothing(from: u64)
    ensures From([], from) == []
  {
  }

  lemma FromCons(es: seq<WalEntry>, from: u64)
    requires es != []
    ensures From(es, from) == Since(es[0], from) + From(es[1..], from)
  {
  }

  lemma HeaderFields(e: WalEntry, tail: Str)
    requires |Serialize(e)| < TWO_32
    ensures var file := Header(e) + tail;
      && FromLittleEndian(file[0..4]) == |Serialize(e)|
      && Crc.Bits(file[4..8]) == Crc.Crc(Serialize(e))
      && file[8..] == tail
  {
    var file := Header(e) + tail;
    U32RoundTrip(|Serialize(e)|);
    Crc.ToBytesRoundTrip(Crc.Crc(Serialize(e)));
    assert file[0..4] == LittleEndian(|Serialize(e)|, 4);
    assert file[4..8] == Crc.ToBytes(Crc.Crc(Serialize(e)));
  }

  /** Replay of a complete record followed by anything. */
  lemma ReplayRecord(e: WalEntry, tail: Str, from: u64, now: i64)
    requires |Serialize(e)| < TWO_32
    ensures Replay(Record(e) + tail, from, now)
      == if !Small(e) then Err(InvalidLength)
         else Prepend(Since(ParsedEntry(e, now), from), Replay(tail, from, now))
  {
    hide Crc.Crc, Crc.Bits, Crc.ToBytes, Serialize, Deserialize, LittleEndian, FromLittleEndian;
    EntryRoundTrip(e, now);
    var file := Record(e) + tail;
    var payload := Serialize(e);
    assert file == Header(e) + (payload + tail);
    HeaderFields(e, payload + tail);
    if Small(e) {
      var p := Deserialize(payload, now).value;
      assert From([p], from) == Since(p, from);
      assert file[8..8 + |payload|] == (payload + tail)[..|payload|] == payload;
      assert file[8 + |payload|..] == (payload + tail)[|payload|..] == tail;
    }
  }

  /** Replay of a record cut short. */
  lemma ReplayCutRecord(e: WalEntry, n: nat, from: u64, now: i64)
    requires |Serialize(e)| < TWO_32 && n < |Record(e)|
    ensures Replay(Record(e)[..n], from, now)
      == if n < 8 then Ok([]) else if !Small(e) then Err(InvalidLength) else Err(Incomplete)
  {
    hide Crc.Crc, Crc.Bits, Crc.ToBytes, Serialize, Deserialize, LittleEndian, FromLittleEndian;
    if n >= 8 {
      var tail := Serialize(e)[..n - 8];
      assert Record(e)[..n] == Header(e) + tail;
      HeaderFields(e, tail);
    }
  }

  /** A log of acceptable records in front of any bytes replays to its entries, then whatever those bytes replay to. */
  lemma {:induction false} ReplayLogThen(es: seq<WalEntry>, tail: Str, from: u64, now: i64)
    requires FitsLength(es)
    ensures Replay(Log(es) + tail, from, now)
      == if AllSmall(es) then Prepend(From(Parsed(es, now), from), Replay(tail, from, now)) else Err(InvalidLength)
    decreases es
  {
    hide Replay, Record, Log, ParsedEntry, Parsed, From, FitsLength, AllSmall, Small, Since, Serialize, Prepend;
    if es == [] {
      NoEntries(now, from);
      assert [] + tail == tail;
      PrependNothing(Replay(tail, from, now));
    } else {
      var e, rest := es[0], es[1..];
      FirstEntry(es, now, from);
      Associate(Record(e), Log(rest), tail);
      ReplayRecord(e, Log(rest) + tail, from, now);
      ReplayLogThen(rest, tail, from, now);
      PrependTwice(Since(ParsedEntry(e, now), from), From(Parsed(rest, now), from), Replay(tail, from, now));
      PrependFailure(Since(ParsedEntry(e, now), from), InvalidLength);
    }
  }

  lemma PrependFailure(done: seq<WalEntry>, error: LogError)
    ensures Prepend(done, Err(error)) == Err(error)
  {
  }

  lemma NoEntries(now: i64, from: u64)
    ensures Log([]) == [] && From(Parsed([], now), from) == [] && AllSmall([])
  {
  }

  lemma FirstEntry(es: seq<WalEntry>, now: i64, from: u64)
    requires es != []
    ensures Log(es) == Record(es[0]) + Log(es[1..])
    ensures From(Parsed(es, now), from) == Since(ParsedEntry(es[0], now), from) + From(Parsed(es[1..], now), from)
    ensures AllSmall(es) <==> Small(es[0]) && AllSmall(es[1..])
    ensures FitsLength(es) ==> |Serialize(es[0])| < TWO_32 && FitsLength(es[1..])
  {
    hide Record, ParsedEntry, Serialize, Since;
    var all := Parsed(es, now);
    assert all[0] == ParsedEntry(es[0], now) && all[1..] == Parsed(es[1..], now);
    assert forall x :: x in es <==> x == es[0] || x in es[1..];
  }

  /** A log written by `append` is replayed without error iff none of its records is over 1 MiB. */
  lemma {:induction false} WholeLogReplays(es: seq<WalEntry>, from: u64, now: i64)
    requires FitsLength(es)
    ensures Replay(Log(es), from, now).Ok? <==> AllSmall(es)
    ensures AllSmall(es) ==> Replay(Log(es), from, now) == Ok(From(Parsed(es, now), from))
  {
    hide Record, Parsed, Serialize, From, Log;
    ReplayLogThen(es, [], from, now);
    assert Log(es) + [] == Log(es);
    var all := From(Parsed(es, now), from);
    assert all + [] == all;
  }

  /** How many records lie entirely in the first `n` bytes of a log. */
  function Complete(es: seq<WalEntry>, n: nat): (k: nat)
    ensures k <= |es|
  {
    if es == [] || n < |Record(es[0])| then 0 else 1 + Complete(es[1..], n - |Record(es[0])|)
  }

  lemma {:induction false} CutPoint(es: seq<WalEntry>, n: nat)
    requires n <= |Log(es)|
    ensures var k := Complete(es, n);
      && |Log(es[..k])| <= n
      && (k == |es| ==> n == |Log(es)|)
      && (k < |es| ==> n - |Log(es[..k])| < |Record(es[k])|
                       && Log(es)[..n] == Log(es[..k]) + Record(es[k])[..n - |Log(es[..k])|])
    decreases es
  {
    hide Record;
    var k := Complete(es, n);
    if es == [] {
    } else if n < |Record(es[0])| {
      assert es[..0] == [];
    } else {
      var rest, m := es[1..], n - |Record(es[0])|;
      CutPoint(rest, m);
      assert es[..k] == [es[0]] + rest[..k - 1];
      assert Log(es[..k]) == Record(es[0]) + Log(rest[..k - 1]);
      assert Log(es)[..n] == Record(es[0]) + Log(rest)[..m];
    }
  }

  /**
   * A log cut after any number of bytes, as a crash during an append leaves it: replay returns exactly the entries of
   * the complete records, in order, when the cut is on a record boundary or inside an eight-byte header, and reports
   * an error when the cut is inside a payload.
   */
  lemma {:induction false} ReplayOfCutLog(es: seq<WalEntry>, n: nat, from: u64, now: i64)
    requires AllSmall(es) && n <= |Log(es)|
    ensures |Log(es[..Complete(es, n)])| <= n
    ensures Replay(Log(es)[..n], from, now)
      == if n - |Log(es[..Complete(es, n)])| < 8 then Ok(From(Parsed(es[..Complete(es, n)], now), from))
         else Err(Incomplete)
  {
    hide Record, Log, Parsed, Complete, Serialize, Replay, From;
    var k := Complete(es, n);
    CutPoint(es, n);
    if k == |es| {
      assert Log(es)[..n] == Log(es) && es[..k] == es;
      WholeLogReplays(es, from, now);
    } else {
      var r := n - |Log(es[..k])|;
      var done := From(Parsed(es[..k], now), from);
      assert es[k] in es && forall x :: x in es[..k] ==> x in es;
      ReplayLogThen(es[..k], Record(es[k])[..r], from, now);
      ReplayCutRecord(es[k], r, from, now);
      assert done + [] == done;
    }
  }

  // ---------------------------------------------------------------------------
  // A log that goes on after a torn header.

  /** The part of a record's header that a crash left, then the records appended after the next start. */
  function TornTail(lost: WalEntry, t: nat, es: seq<WalEntry>): Str
    requires t <= 8
  {
    Header(lost)[..t] + Log(es)
  }

  /** The length that replay reads there. */
  function MisreadLength(lost: WalEntry, t: nat, e: WalEntry): int
    requires t < 8
  {
    if t >= 4 then |Serialize(lost)|
    else FromLittleEndian(LittleEndian(|Serialize(lost)|, t)) + Power256(t) * |Serialize(e)|
  }

  /** From four torn bytes on it is the lost record's length; below that the next record's length is shifted into it. */
  lemma TornLength(lost: WalEntry, t: nat, es: seq<WalEntry>)
    requires 0 < t < 8 && es != [] && |Serialize(lost)| < TWO_32
    requires t < 4 ==> |Serialize(es[0])| < Power256(4 - t)
    ensures |TornTail(lost, t, es)| >= 8
    ensures FromLittleEndian(TornTail(lost, t, es)[0..4]) == MisreadLength(lost, t, es[0])
  {
    hide Serialize, FromLittleEndian, LittleEndian, Crc.Crc, Crc.ToBytes, Log;
    var tail, n := TornTail(lost, t, es), |Serialize(lost)|;
    assert Log(es) == Header(es[0]) + (Serialize(es[0]) + Log(es[1..])) by { RecordFirst(es); }
    SerializedFields(es[0]);
    if t >= 4 {
      U32RoundTrip(n);
      assert tail[0..4] == LittleEndian(n, 4);
    } else {
      var m := |Serialize(es[0])|;
      LittleEndianPrefix(n, 4, t);
      LittleEndianPrefix(m, 4, 4 - t);
      LittleEndianRoundTrip(m, 4 - t);
      assert tail[0..4] == LittleEndian(n, t) + LittleEndian(m, 4 - t);
      FromLittleEndianConcat(LittleEndian(n, t), LittleEndian(m, 4 - t));
    }
  }

  lemma RecordFirst(es: seq<WalEntry>)
    requires es != []
    ensures Log(es) == Header(es[0]) + (Serialize(es[0]) + Log(es[1..]))
  {
    hide Header, Serialize;
    Associate(Header(es[0]), Serialize(es[0]), Log(es[1..]));
  }

  /**
   * What replay does with such a log: an error if the misread length is over 1 MiB or more than is left, and otherwise
   * it goes on only if the bytes taken for the payload happen to have the checksum read in front of them.
   */
  lemma TornHeader(lost: WalEntry, t: nat, es: seq<WalEntry>, from: u64, now: i64)
    requires 0 < t < 8 && es != [] && |Serialize(lost)| < TWO_32
    requires t < 4 ==> |Serialize(es[0])| < Power256(4 - t)
    ensures var tail, n := TornTail(lost, t, es), MisreadLength(lost, t, es[0]);
      && (n > MAX_RECORD ==> Replay(tail, from, now) == Err(InvalidLength))
      && (|tail| - 8 < n <= MAX_RECORD ==> Replay(tail, from, now) == Err(Incomplete))
      && (0 <= n <= MAX_RECORD && n <= |tail| - 8 && Crc.Crc(tail[8..8 + n]) != Crc.Bits(tail[4..8]) ==>
           Replay(tail, from, now) == Err(CrcMismatch))
  {
    hide Serialize, FromLittleEndian, Crc.Crc, Crc.Bits, Deserialize, MisreadLength, TornTail;
    TornLength(lost, t, es);
    var tail := TornTail(lost, t, es);
    assert tail[0..] == tail;
  }

  /** With two or three torn bytes a short record of the usual size is always misread as too long. */
  lemma TornLengthTooLong(lost: WalEntry, t: nat, e: WalEntry)
    requires t == 2 || t == 3
    requires 16 < |Serialize(e)| < Power256(4 - t)
    ensures MisreadLength(lost, t, e) > MAX_RECORD
  {
    hide Serialize;
    assert Power256(2) == 65536 && Power256(3) == 256 * Power256(2);
    var m := |Serialize(e)|;
    if t == 2 { assert 65536 * m >= 65536 * 17; } else { assert 16777216 * m >= 16777216 * 17; }
  }

  /** With NUL-free keys the entries come back with everything the format logs. */
  lemma {:induction false} ParsedIsLogged(es: seq<WalEntry>, i: nat, now: i64)
    requires i < |es|
    ensures Parsed(es, now)[i] == Logged(es[i], now) <==> NulFree(es[i].key)
    decreases es
  {
    EntryRoundTrip(es[0], now);
    if i > 0 { ParsedIsLogged(es[1..], i - 1, now); }
  }

  // ---------------------------------------------------------------------------
  // Corruption.

  /** A record whose payload suffered a burst of at most 32 bits, behind good records: replay reports it. */
  lemma {:induction false} CorruptPayloadReported(
      es: seq<WalEntry>, e: WalEntry, payload: Str, bit: nat, tail: Str, from: u64, now: i64)
    requires AllSmall(es) && Small(e)
    requires Crc.DifferInBurst(Serialize(e), payload, bit)
    ensures Replay(Log(es) + (Header(e) + (payload + tail)), from, now) == Err(CrcMismatch)
  {
    hide Crc.Crc, Crc.Bits, Crc.ToBytes, Serialize, Deserialize, Header, FromLittleEndian, Log, Parsed;
    var bad := Header(e) + (payload + tail);
    ReplayLogThen(es, bad, from, now);
    HeaderFields(e, payload + tail);
    assert bad[8..8 + |payload|] == (payload + tail)[..|payload|] == payload;
    Crc.BurstDetected(Serialize(e), payload, bit);
  }

  /** Four consecutive payload bytes changed in any way. */
  lemma {:induction false} FourCorruptBytesReported(
      es: seq<WalEntry>, e: WalEntry, at: nat, bytes: Str, tail: Str, from: u64, now: i64)
    requires AllSmall(es) && Small(e)
    requires |bytes| <= 4 && at + |bytes| <= |Serialize(e)| && Serialize(e)[at..at + |bytes|] != bytes
    ensures var p := Serialize(e)[..at] + bytes + Serialize(e)[at + |bytes|..];
      Replay(Log(es) + (Header(e) + (p + tail)), from, now) == Err(CrcMismatch)
  {
    hide Crc.Crc, Crc.Bits, Crc.ToBytes, Serialize, Deserialize, Header, FromLittleEndian, Log, Parsed;
    var s := Serialize(e);
    var p := s[..at] + bytes + s[at + |bytes|..];
    var bad := Header(e) + (p + tail);
    ReplayLogThen(es, bad, from, now);
    HeaderFields(e, p + tail);
    assert bad[8..8 + |p|] == (p + tail)[..|p|] == p;
    Crc.FourByteChangeDetected(s[..at], s[at..at + |bytes|], bytes, s[at + |bytes|..]);
    ThreePieces(s, at, |bytes|);
  }

  lemma ThreePieces(s: Str, at: nat, n: nat)
    requires at + n <= |s|
    ensures s[..at] + s[at..at + n] + s[at + n..] == s
  {
  }

  // ---------------------------------------------------------------------------
  // The code.

  class Wal {
    var file: Str
    var isOpen: bool
    var sequenceNumber: nat
    const crc32c: Crc.Engine

    ghost predicate Valid()
      reads this, crc32c, crc32c.table
    {
      crc32c.Valid()
    }

    constructor (existing: Str)
      ensures Valid() && fresh(crc32c) && fresh(crc32c.table)
      ensures file == existing && !isOpen && sequenceNumber == 0
    {
      file, isOpen, sequenceNumber := existing, false, 0;
      crc32c := new Crc.Engine();
    }

    /** `canOpen` is whether the file can be opened or created. */
    method Open(canOpen: bool) returns (r: Result<()>)
      requires Valid()
      modifies this`isOpen
      ensures Valid() && isOpen == (old(isOpen) || canOpen)
      ensures r == if isOpen then Ok(()) else Err(NotOpen)
    {
      if isOpen { return Ok(()); }
      if !canOpen { return Err(NotOpen); }
      isOpen := true;
      return Ok(());
    }

    method Close()
      requires Valid()
      modifies this`isOpen
      ensures Valid() && !isOpen
    {
      isOpen := false;
    }

    method Append(e: WalEntry) returns (r: Result<()>)
      requires Valid()
      modifies this`file, this`sequenceNumber, crc32c, crc32c.table
      ensures Valid()
      ensures r == if isOpen then Ok(()) else Err(NotOpen)
      ensures file == old(file) + (if isOpen then Record(e) else [])
      ensures sequenceNumber == old(sequenceNumber) + (if isOpen then 1 else 0)
    {
      hide Crc.Crc, Crc.ToBytes, Crc.Engine.Valid, LittleEndian, Serialize;
      if !isOpen { return Err(NotOpen); }
      var serialized := Serialize(e);
      var crc := crc32c.Compute(serialized);
      file := file + LittleEndian(|serialized|, 4);
      file := file + Crc.ToBytes(crc);
      file := file + serialized;
      assert file == old(file) + Record(e);
      sequenceNumber := sequenceNumber + 1;
      return Ok(());
    }

    /** The body of the replay loop. */
    method NextRecord(pos: nat, now: i64) returns (f: Frame)
      requires Valid() && pos <= |file|
      modifies crc32c, crc32c.table
      ensures Valid()
      ensures f == ReadFrame(file, pos, now)
    {
      hide Crc.Crc, Crc.Bits, Crc.Engine.Valid, FromLittleEndian, Deserialize;
      if |file| - pos < 4 { return EndOfLog; }
      var length := FromLittleEndian(file[pos..pos + 4]);
      if |file| - (pos + 4) < 4 { return EndOfLog; }
      var expected := Crc.Bits(file[pos + 4..pos + 8]);
      if length > MAX_RECORD { return Bad(InvalidLength); }
      if |file| - (pos + 8) < length { return Bad(Incomplete); }
      var record := file[pos + 8..pos + 8 + length];
      var actual := crc32c.Compute(record);
      if actual != expected { return Bad(CrcMismatch); }
      var parsed := Deserialize(record, now);
      if parsed.Err? { return Bad(BadEntry); }
      return Good(parsed.value, pos + 8 + length);
    }

    method ReplayFrom(from: u64, now: i64) returns (r: Result<seq<WalEntry>>)
      requires Valid()
      modifies crc32c, crc32c.table
      ensures Valid()
      ensures r == if isOpen then Replay(file, from, now) else Err(NotOpen)
    {
      hide ReadFrame, Replay, Crc.Engine.Valid;
      if !isOpen { return Err(NotOpen); }
      var entries: seq<WalEntry> := [];
      var pos := 0;
      assert file[0..] == file;
      PrependNothing(Replay(file, from, now));
      while true
        invariant 0 <= pos <= |file|
        invariant Valid()
        invariant Replay(file, from, now) == Prepend(entries, Replay(file[pos..], from, now))
        decreases |file| - pos
      {
        ReplayAt(file, pos, from, now);
        assert entries + [] == entries;
        var f := NextRecord(pos, now);
        if f.EndOfLog? { return Ok(entries); }
        if f.Bad? { return Err(f.error); }
        PrependTwice(entries, Since(f.entry, from), Replay(file[f.next..], from, now));
        if f.entry.sequence >= from {
          entries := entries + [f.entry];
        }
        pos := f.next;
      }
    }

    /** Rewrites the file with the entries replayed from a sequence number on. */
    method Truncate(from: u64, now: i64) returns (r: Result<()>)
      requires Valid()
      modifies this`file, crc32c, crc32c.table
      ensures Valid()
      ensures r.Ok? <==> isOpen && Replay(old(file), from, now).Ok?
      ensures r.Err? ==> file == old(file)
      ensures r.Ok? ==> file == Log(Replay(old(file), from, now).value)
      ensures r.Ok? ==> Replay(file, 0, now) == Replay(old(file), from, now)
    {
      hide Crc.Crc, Crc.Bits, Crc.ToBytes, Crc.Engine.Valid, Serialize, Replay, LittleEndian;
      var replayed := ReplayFrom(from, now);
      if replayed.Err? { return Err(replayed.error); }
      var es := replayed.value;
      ReplayedReplays(file, from, now);
      var output: Str := [];
      var i := 0;
      while i < |es|
        invariant 0 <= i <= |es|
        invariant Valid()
        invariant output + Log(es[i..]) == Log(es)
      {
        var serialized := Serialize(es[i]);
        var crc := crc32c.Compute(serialized);
        assert output + Log(es[i..]) == output + (Record(es[i]) + Log(es[i + 1..]));
        output := output + (LittleEndian(|serialized|, 4) + Crc.ToBytes(crc) + serialized);
        i := i + 1;
      }
      assert es[i..] == [];
      file := output;
      return Ok(());
    }
  }

  /** What replay returned can be logged again and replays to itself. */
  lemma {:induction false} ReplayedReplays(file: Str, from: u64, now: i64)
    requires Replay(file, from, now).Ok?
    ensures Replay(Log(Replay(file, from, now).value), 0, now) == Replay(file, from, now)
    decreases |file|
  {
    ReplayedIsSmall(file, from, now);
    var es := Replay(file, from, now).value;
    WholeLogReplays(es, 0, now);
    ParsedIsSame(es, now);
    FromZero(es);
  }

  lemma {:induction false} FromZero(es: seq<WalEntry>)
    ensures From(es, 0) == es
  {
    if es != [] { FromZero(es[1..]); }
  }

  lemma {:induction false} ParsedIsSame(es: seq<WalEntry>, now: i64)
    requires forall e :: e in es ==> NulFree(e.key) && Logged(e, now) == e
    ensures Parsed(es, now) == es
  {
    hide Serialize, Deserialize;
    if es != [] {
      EntryRoundTrip(es[0], now);
      ParsedIsSame(es[1..], now);
    }
  }

  lemma SerializedAgain(s: Str, now: i64)
    requires Deserialize(s, now).Ok?
    ensures |Serialize(Deserialize(s, now).value)| == |s|
  {
  }

  lemma {:induction false} ReplayedIsSmall(file: Str, from: u64, now: i64)
    requires Replay(file, from, now).Ok?
    ensures forall e :: e in Replay(file, from, now).value ==> Small(e) && NulFree(e.key) && Logged(e, now) == e
    decreases |file|
  {
    hide Deserialize, Serialize, FromLittleEndian, Crc.Crc, Crc.Bits;
    var f := ReadFrame(file, 0, now);
    if f.Good? {
      var payload := file[8..f.next];
      ParsedKeyIsNulFree(payload, now);
      SerializedAgain(payload, now);
      ReplayedIsSmall(file[f.next..], from, now);
    }
  }
}
