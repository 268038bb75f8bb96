/** The on-disk layout of one key record, as the `Key` class of the fix script
    writes and reads it.

    A record is five packed words -- the pod size, then the lengths of the key
    id, the key type, the user id and the key bits -- followed by those four
    byte strings and by null bytes up to the next multiple of 8 of the
    ABSOLUTE file offset.  `EncodeRecord` is what `Key.write` appends at a given
    offset; `DecodeRecord` is what `Key.read` returns and where it leaves the
    file position.
 */
module KeyFormat {
  import opened Bytes
  import opened Sequences

  /** Number of packed words in front of a record's fields. */
  const HEADER_WORDS: nat := 5

  /** `struct.calcsize('QQQQQ')`. */
  const HEADER_SIZE: nat := HEADER_WORDS * WORD_SIZE

  /** The value of a key: four opaque byte strings.  An empty `userId` marks a
      system key. */
  datatype KeyRecord = KeyRecord(keyId: seq<byte>, keyType: seq<byte>, userId: seq<byte>, key: seq<byte>)

  function Min(a: nat, b: nat): nat {
    if a <= b then a else b
  }

  /** Where a file read of `n` bytes that starts at `pos` stops: a read past the
      end of the data returns the bytes that remain, and no error. */
  function ReadEnd(data: seq<byte>, pos: nat, n: nat): (end: nat)
    requires pos <= |data|
    ensures pos <= end <= |data|
    ensures end == pos + n || end == |data|
    ensures end - pos <= n
  {
    Min(pos + n, |data|)
  }

  /** The "POD size": the four length words, the four fields, and the pod size
      word itself. */
  function PodSize(k: KeyRecord): (n: nat)
    ensures n >= HEADER_SIZE
  {
    4 * WORD_SIZE + |k.keyId| + |k.keyType| + |k.userId| + |k.key| + WORD_SIZE
  }

  /** Every word of the record fits in the 64 bits `struct.pack('Q')` accepts. */
  predicate Packable(k: KeyRecord) {
    PodSize(k) < WORD_LIMIT
  }

  /** A key whose pod size and lengths all fit the 64-bit words. */
  type PackedKey = k: KeyRecord | Packable(k) witness KeyRecord([], [], [], [])

  /** Number of null bytes that bring the absolute offset `offset` up to the
      next multiple of 8. */
  function Padding(offset: nat): (p: nat)
    ensures p < WORD_SIZE
    ensures (offset + p) % WORD_SIZE == 0
  {
    (8 - offset % 8) % 8
  }

  /** The only padding with those two properties: padding is the least number
      of bytes that realigns the offset. */
  lemma PaddingIsLeast(offset: nat, q: nat)
    requires q < WORD_SIZE && (offset + q) % WORD_SIZE == 0
    ensures q == Padding(offset)
  {
  }

  /** The five words `Key.write` packs in front of the fields, in order. */
  function LengthWords(k: KeyRecord): (ws: seq<nat>)
    requires Packable(k)
    ensures AllWords(ws)
  {
    [PodSize(k), |k.keyId|, |k.keyType|, |k.userId|, |k.key|]
  }

  /** The pod-size word, the four length words and the four fields, in the
      order `Key.write` writes them. */
  function Unpadded(k: KeyRecord): (r: seq<byte>)
    requires Packable(k)
    ensures |r| == PodSize(k)
  {
    Pack(LengthWords(k)) + k.keyId + k.keyType + k.userId + k.key
  }

  /** The bytes `Key.write` appends to an output whose `tell()` is `offset`:
      the record, then null bytes up to the next multiple of 8 of the absolute
      offset reached. */
  function EncodeRecord(k: PackedKey, offset: nat): (r: seq<byte>)
    ensures PodSize(k) <= |r| < PodSize(k) + WORD_SIZE
    ensures (offset + |r|) % WORD_SIZE == 0
  {
    Unpadded(k) + Zeros(Padding(offset + PodSize(k)))
  }

  /** `file.read(n)` in Python 2 takes `n` as a C long and allocates an
      `n`-byte buffer before it reads anything.  A count of 2^63 or more
      raises `OverflowError`, and a count too large for the memory available
      raises `MemoryError` (or `OverflowError` just below 2^63), however few
      bytes the file still holds.  `limit`, the largest count the
      interpreter can serve, depends on the machine and is a parameter. */
  const READ_LIMIT: nat := 0x8000_0000_0000_0000

  /** A largest servable read count: below 2^63, and enough for the 40 bytes
      of length words. */
  predicate ValidLimit(limit: nat) {
    HEADER_SIZE <= limit < READ_LIMIT
  }

  /** Every count in `lengths` can be read. */
  predicate WithinLimit(lengths: seq<nat>, limit: nat) {
    forall i | 0 <= i < |lengths| :: lengths[i] <= limit
  }

  /** Every field of `k` can be read back with a single read. */
  predicate Readable(k: KeyRecord, limit: nat) {
    |k.keyId| <= limit && |k.keyType| <= limit && |k.userId| <= limit && |k.key| <= limit
  }

  /** What `Key.read` ends with: the end marker (`False` in the script), a
      key, or a field read that raised (the script then stops). */
  datatype ReadResult = EndOfKeys | Loaded(record: KeyRecord) | ReadFailed

  /** The total length of a list of fields. */
  function TotalLength(fields: seq<seq<byte>>): nat {
    if fields == [] then 0 else |fields[0]| + TotalLength(fields[1..])
  }

  /** Consecutive reads from `start`, as `Key.read` makes them after the
      length words: the i-th asks for `lengths[i]` bytes and gets what is left
      when the data runs out.  The fields read and the position after the
      last one. */
  function ReadFields(data: seq<byte>, start: nat, lengths: seq<nat>): (r: (seq<seq<byte>>, nat))
    requires start <= |data|
    ensures |r.0| == |lengths|
    ensures start <= r.1 <= |data|
    decreases |lengths|
  {
    if lengths == [] then ([], start)
    else
      var end := ReadEnd(data, start, lengths[0]);
      var (rest, last) := ReadFields(data, end, lengths[1..]);
      assert ([data[start..end]] + rest)[1..] == rest;
      ([data[start..end]] + rest, last)
  }

  /** The reads advance by exactly the bytes they return. */
  lemma {:induction false} ReadFieldsAdvance(data: seq<byte>, start: nat, lengths: seq<nat>)
    requires start <= |data|
    ensures var r := ReadFields(data, start, lengths);
      r.1 == start + TotalLength(r.0)
    decreases |lengths|
  {
    if lengths != [] {
      var end := ReadEnd(data, start, lengths[0]);
      ReadFieldsAdvance(data, end, lengths[1..]);
      var r := ReadFields(data, start, lengths);
      assert r.0[1..] == ReadFields(data, end, lengths[1..]).0;
    }
  }

  /** Four reads in a row, spelled out. */
  lemma ReadFourFields(data: seq<byte>, start: nat, lengths: seq<nat>)
    requires start <= |data| && |lengths| == 4
    ensures var a := ReadEnd(data, start, lengths[0]);
      var b := ReadEnd(data, a, lengths[1]);
      var c := ReadEnd(data, b, lengths[2]);
      var d := ReadEnd(data, c, lengths[3]);
      ReadFields(data, start, lengths) == ([data[start..a], data[a..b], data[b..c], data[c..d]], d)
  {
    var a := ReadEnd(data, start, lengths[0]);
    var b := ReadEnd(data, a, lengths[1]);
    var c := ReadEnd(data, b, lengths[2]);
    var d := ReadEnd(data, c, lengths[3]);
    var l1, l2, l3 := lengths[1..], lengths[2..], lengths[3..];
    assert l3[1..] == [] && l2[1..] == l3 && l1[1..] == l2;
    assert l3[0] == lengths[3] && l2[0] == lengths[2] && l1[0] == lengths[1];
    assert ReadFields(data, d, []) == ([], d);
    ReadFieldsCons(data, c, l3);
    assert [data[c..d]] + [] == [data[c..d]];
    assert ReadFields(data, c, l3) == ([data[c..d]], d);
    ReadFieldsCons(data, b, l2);
    assert [data[b..c]] + [data[c..d]] == [data[b..c], data[c..d]];
    assert ReadFields(data, b, l2) == ([data[b..c], data[c..d]], d);
    ReadFieldsCons(data, a, l1);
    assert [data[a..b]] + [data[b..c], data[c..d]] == [data[a..b], data[b..c], data[c..d]];
    assert ReadFields(data, a, l1) == ([data[a..b], data[b..c], data[c..d]], d);
    ReadFieldsCons(data, start, lengths);
    assert [data[start..a]] + [data[a..b], data[b..c], data[c..d]] == [data[start..a], data[a..b], data[b..c], data[c..d]];
  }

  lemma TotalLengthOfFour(fields: seq<seq<byte>>)
    requires |fields| == 4
    ensures TotalLength(fields) == |fields[0]| + |fields[1]| + |fields[2]| + |fields[3]|
  {
    var rest1, rest2, rest3 := fields[1..], fields[2..], fields[3..];
    assert rest3[1..] == [] && rest2[1..] == rest3 && rest1[1..] == rest2;
    assert TotalLength(rest3) == |fields[3]|;
    assert TotalLength(rest2) == |fields[2]| + TotalLength(rest3);
    assert TotalLength(rest1) == |fields[1]| + TotalLength(rest2);
  }

  /** One read, then the rest. */
  lemma ReadFieldsCons(data: seq<byte>, start: nat, lengths: seq<nat>)
    requires start <= |data| && lengths != []
    ensures var end := ReadEnd(data, start, lengths[0]);
      var rest := ReadFields(data, end, lengths[1..]);
      ReadFields(data, start, lengths) == ([data[start..end]] + rest.0, rest.1)
  {
  }

  /** `Key.read` on a file holding `data` positioned at `pos`: the result and
      the position it leaves.  The five words are unpacked only when the read of
      40 bytes returns 40 bytes (otherwise `struct.unpack` fails and the end
      marker is returned); a field length beyond `limit` makes its read raise,
      and the position is then of no further use; the stored pod size is never
      consulted; the padding skipped is computed from the position reached. */
  function DecodeRecord(data: seq<byte>, pos: nat, limit: nat): (r: (ReadResult, nat))
    requires pos <= |data| && ValidLimit(limit)
    ensures pos <= r.1 <= |data|
    ensures r.0.EndOfKeys? <==> |data| - pos < HEADER_SIZE
    ensures r.0.EndOfKeys? ==> r.1 == |data|
    ensures r.0.Loaded? ==> pos + HEADER_SIZE <= r.1
  {
    var headerEnd := ReadEnd(data, pos, HEADER_SIZE);
    if headerEnd - pos != HEADER_SIZE then
      (EndOfKeys, headerEnd)
    else
      var lengths := Unpack(data[pos..headerEnd]);
      if !WithinLimit(lengths[1..], limit) then
        (ReadFailed, headerEnd)
      else
        var (fields, fieldsEnd) := ReadFields(data, headerEnd, lengths[1..]);
        var record := KeyRecord(fields[0], fields[1], fields[2], fields[3]);
        (Loaded(record), ReadEnd(data, fieldsEnd, Padding(fieldsEnd)))
  }

  /** `Key.read` read by read, once the 40 bytes of words are there: each
      field is the slice between consecutive read ends, unless one of the
      lengths is beyond what a read can serve. */
  lemma DecodeRecordReads(data: seq<byte>, pos: nat, limit: nat)
    requires pos + HEADER_SIZE <= |data| && ValidLimit(limit)
    ensures var h := pos + HEADER_SIZE;
      var ls := Unpack(data[pos..h]);
      var a := ReadEnd(data, h, ls[1]);
      var b := ReadEnd(data, a, ls[2]);
      var c := ReadEnd(data, b, ls[3]);
      var d := ReadEnd(data, c, ls[4]);
      DecodeRecord(data, pos, limit)
        == if ls[1] > limit || ls[2] > limit || ls[3] > limit || ls[4] > limit then (ReadFailed, h)
           else (Loaded(KeyRecord(data[h..a], data[a..b], data[b..c], data[c..d])), ReadEnd(data, d, Padding(d)))
  {
    var h := pos + HEADER_SIZE;
    var ls := Unpack(data[pos..h]);
    var tail := ls[1..];
    assert tail[0] == ls[1] && tail[1] == ls[2] && tail[2] == ls[3] && tail[3] == ls[4];
    ReadFourFields(data, h, tail);
  }

  /** A read fails exactly when the 40 bytes of words are there and one of the
      four field lengths they hold is beyond what a read can serve, however
      few bytes follow. */
  lemma ReadFailsOnOversizedLength(data: seq<byte>, pos: nat, limit: nat)
    requires pos <= |data| && ValidLimit(limit)
    ensures DecodeRecord(data, pos, limit).0.ReadFailed?
        <==> pos + HEADER_SIZE <= |data|
             && var lengths := Unpack(data[pos..pos + HEADER_SIZE]);
                lengths[1] > limit || lengths[2] > limit || lengths[3] > limit || lengths[4] > limit
  {
    if pos + HEADER_SIZE <= |data| {
      var lengths := Unpack(data[pos..pos + HEADER_SIZE]);
      var tail := lengths[1..];
      assert tail[0] == lengths[1] && tail[1] == lengths[2] && tail[2] == lengths[3] && tail[3] == lengths[4];
    }
  }

  /** A key id length word of 2^64 - 1 followed by only 3 bytes: the script's
      `read` raises instead of returning a key with a 3-byte id, whatever the
      memory available. */
  lemma HugeKeyIdLengthFails(limit: nat)
    requires ValidLimit(limit)
    ensures AllWords([0, WORD_LIMIT - 1, 0, 0, 0])
    ensures DecodeRecord(Pack([0, WORD_LIMIT - 1, 0, 0, 0]) + [1, 2, 3], 0, limit).0.ReadFailed?
  {
    var words := [0, WORD_LIMIT - 1, 0, 0, 0];
    var data := Pack(words) + [1, 2, 3];
    UnpackPack(words);
    assert data[0..HEADER_SIZE] == Pack(words);
    ReadFailsOnOversizedLength(data, 0, limit);
  }

  /** `fields` lie one after another in `data`, the first at `start`. */
  predicate FieldsAt(data: seq<byte>, start: nat, fields: seq<seq<byte>>)
    decreases |fields|
  {
    fields != [] ==>
      && start + |fields[0]| <= |data|
      && data[start..start + |fields[0]|] == fields[0]
      && FieldsAt(data, start + |fields[0]|, fields[1..])
  }

  /** The length of each field. */
  function Lengths(fields: seq<seq<byte>>): (ls: seq<nat>)
    ensures |ls| == |fields| && forall i | 0 <= i < |fields| :: ls[i] == |fields[i]|
  {
    seq(|fields|, i requires 0 <= i < |fields| => |fields[i]|)
  }

  /** A key read is no longer than the data it was read from: its pod size
      counts the 40 bytes of words and the fields' bytes, all consumed. */
  lemma DecodedWithinData(data: seq<byte>, pos: nat, limit: nat)
    requires pos <= |data| && ValidLimit(limit)
    ensures var r := DecodeRecord(data, pos, limit);
      r.0.Loaded? ==> pos + PodSize(r.0.record) <= r.1
  {
    var headerEnd := ReadEnd(data, pos, HEADER_SIZE);
    if headerEnd - pos == HEADER_SIZE && WithinLimit(Unpack(data[pos..headerEnd])[1..], limit) {
      var lengths := Unpack(data[pos..headerEnd]);
      var (fields, fieldsEnd) := ReadFields(data, headerEnd, lengths[1..]);
      ReadFieldsAdvance(data, headerEnd, lengths[1..]);
      TotalLengthOfFour(fields);
    }
  }

  /** Fields that are all there are read back exactly, each with its own
      length, and the reads stop right after the last one. */
  lemma {:induction false} ReadFieldsExact(data: seq<byte>, start: nat, fields: seq<seq<byte>>)
    requires start <= |data| && FieldsAt(data, start, fields)
    ensures ReadFields(data, start, Lengths(fields)) == (fields, start + TotalLength(fields))
    decreases |fields|
  {
    if fields != [] {
      var end := start + |fields[0]|;
      assert Lengths(fields)[1..] == Lengths(fields[1..]);
      ReadFieldsExact(data, end, fields[1..]);
      ReadFieldsCons(data, start, Lengths(fields));
      assert [fields[0]] + fields[1..] == fields;
    }
  }

  /** The four fields of a key, in the order they are written. */
  function Fields(k: KeyRecord): (fs: seq<seq<byte>>)
    ensures |fs| == 4
  {
    [k.keyId, k.keyType, k.userId, k.key]
  }

  /** A key's four fields found one after another. */
  lemma FourFieldsAt(data: seq<byte>, start: nat, k: KeyRecord)
    requires start + |k.keyId| + |k.keyType| + |k.userId| + |k.key| <= |data|
    requires var a := start + |k.keyId|;
      var b := a + |k.keyType|;
      var c := b + |k.userId|;
      && data[start..a] == k.keyId && data[a..b] == k.keyType
      && data[b..c] == k.userId && data[c..c + |k.key|] == k.key
    ensures FieldsAt(data, start, Fields(k))
  {
    var fs := Fields(k);
    var a := start + |k.keyId|;
    var b := a + |k.keyType|;
    var c := b + |k.userId|;
    assert fs[1..][1..][1..][1..] == [];
    assert FieldsAt(data, c, fs[3..]) by { assert fs[3..][0] == k.key; }
    assert fs[1..][1..][1..] == fs[3..] && fs[1..][1..] == fs[2..];
    assert FieldsAt(data, b, fs[2..]) by { assert fs[2..][0] == k.userId; }
    assert FieldsAt(data, a, fs[1..]) by { assert fs[1..][0] == k.keyType; }
  }

  /** The fields read depend only on the data from where the reads start. */
  lemma {:induction false} ReadFieldsSuffix(data: seq<byte>, other: seq<byte>, from: nat, start: nat, lengths: seq<nat>)
    requires from <= start <= |data| == |other|
    requires data[from..] == other[from..]
    ensures ReadFields(data, start, lengths) == ReadFields(other, start, lengths)
    decreases |lengths|
  {
    if lengths != [] {
      var end := ReadEnd(data, start, lengths[0]);
      SameSuffixSlice(data, other, from, start, end);
      ReadFieldsSuffix(data, other, from, end, lengths[1..]);
    }
  }

  /** The pod size is the length of the record before its padding; the
      padding is null bytes and brings the absolute offset to a multiple of 8. */
  lemma EncodeRecordSize(k: KeyRecord, offset: nat)
    requires Packable(k)
    ensures |Unpadded(k)| == PodSize(k)
    ensures var enc := EncodeRecord(k, offset);
      && |enc| == PodSize(k) + Padding(offset + PodSize(k))
      && (offset + |enc|) % WORD_SIZE == 0
      && enc[..PodSize(k)] == Unpadded(k)
      && forall i | PodSize(k) <= i < |enc| :: enc[i] == 0
  {
    var u, z := Unpadded(k), Zeros(Padding(offset + PodSize(k)));
    assert (u + z)[..|u|] == u;
  }

  /** What `Key.write` puts before the padding: the first word is the pod size
      recomputed from the current fields, the next four are the field lengths,
      and each field follows at the offset those lengths declare. */
  lemma UnpaddedLayout(k: KeyRecord)
    requires Packable(k)
    ensures var u := Unpadded(k);
      var a := HEADER_SIZE + |k.keyId|;
      var b := a + |k.keyType|;
      var c := b + |k.userId|;
      && |u| == c + |k.key|
      && Unpack(u[..HEADER_SIZE]) == [PodSize(k), |k.keyId|, |k.keyType|, |k.userId|, |k.key|]
      && u[HEADER_SIZE..a] == k.keyId
      && u[a..b] == k.keyType
      && u[b..c] == k.userId
      && u[c..|u|] == k.key
  {
    FiveParts(Pack(LengthWords(k)), k.keyId, k.keyType, k.userId, k.key);
    UnpackPack(LengthWords(k));
  }

  /** What the bytes of an encoded record, found at `pos` in `data`, tell the
      reader: the length words, the fields one after another behind them, and
      room for the padding. */
  lemma EncodedRecordAt(k: KeyRecord, data: seq<byte>, pos: nat)
    requires Packable(k)
    requires pos + |EncodeRecord(k, pos)| <= |data|
    requires data[pos..pos + |EncodeRecord(k, pos)|] == EncodeRecord(k, pos)
    ensures var d := pos + PodSize(k);
      && d + Padding(d) == pos + |EncodeRecord(k, pos)|
      && Unpack(data[pos..pos + HEADER_SIZE]) == LengthWords(k)
      && FieldsAt(data, pos + HEADER_SIZE, Fields(k))
  {
    EncodedUnpadded(k, data, pos);
    EncodeRecordSize(k, pos);
    hide EncodeRecord, Unpadded, Zeros, Pack;
    UnpaddedAt(k, data, pos);
  }

  /** An encoded record found at `pos` starts with its bytes before the
      padding. */
  lemma EncodedUnpadded(k: KeyRecord, data: seq<byte>, pos: nat)
    requires Packable(k)
    requires pos + |EncodeRecord(k, pos)| <= |data|
    requires data[pos..pos + |EncodeRecord(k, pos)|] == EncodeRecord(k, pos)
    ensures pos + PodSize(k) <= |data| && data[pos..pos + PodSize(k)] == Unpadded(k)
  {
    var u, z := Unpadded(k), Zeros(Padding(pos + PodSize(k)));
    assert EncodeRecord(k, pos) == u + z;
    hide EncodeRecord, Unpadded, Zeros, Pack;
    SplitEmbedded(data, pos, EncodeRecord(k, pos), u, z);
  }

  /** The same, once the record's bytes before the padding are found at `pos`. */
  lemma UnpaddedAt(k: KeyRecord, data: seq<byte>, pos: nat)
    requires Packable(k)
    requires pos + PodSize(k) <= |data|
    requires data[pos..pos + PodSize(k)] == Unpadded(k)
    ensures Unpack(data[pos..pos + HEADER_SIZE]) == LengthWords(k)
    ensures FieldsAt(data, pos + HEADER_SIZE, Fields(k))
  {
    var words := Pack(LengthWords(k));
    assert |words| == HEADER_SIZE;
    hide Pack, Unpack, PodSize, FieldsAt, Fields;
    FivePartsAt(data, pos, words, k.keyId, k.keyType, k.userId, k.key);
    UnpackPack(LengthWords(k));
    FourFieldsAt(data, pos + HEADER_SIZE, k);
  }

  /** Round trip: reading, at absolute offset `pos`, the bytes `Key.write`
      produced at that same offset, with fields short enough to be read,
      yields the same four fields and leaves the reader just past the
      padding, at the start of the next record. */
  lemma DecodeEncodedRecord(k: KeyRecord, data: seq<byte>, pos: nat, limit: nat)
    requires Packable(k) && ValidLimit(limit) && Readable(k, limit)
    requires pos + |EncodeRecord(k, pos)| <= |data|
    requires data[pos..pos + |EncodeRecord(k, pos)|] == EncodeRecord(k, pos)
    ensures DecodeRecord(data, pos, limit) == (Loaded(k), pos + |EncodeRecord(k, pos)|)
  {
    ReadableFields(k, limit);
    EncodedRecordAt(k, data, pos);
    hide Readable, WithinLimit, EncodeRecord, Unpack, FieldsAt;
    var h := pos + HEADER_SIZE;
    assert Unpack(data[pos..h])[1..] == Lengths(Fields(k));
    ReadFieldsExact(data, h, Fields(k));
    TotalLengthOfFour(Fields(k));
  }

  /** The lengths of a readable key's fields are all within the limit. */
  lemma ReadableFields(k: KeyRecord, limit: nat)
    requires Readable(k, limit)
    ensures WithinLimit(Lengths(Fields(k)), limit)
  {
    assert Lengths(Fields(k)) == [|k.keyId|, |k.keyType|, |k.userId|, |k.key|];
  }

  /** Two inputs that differ only in the pod size word decode to the same key
      and the same position: the stored pod size is read but never used. */
  lemma DecodeIgnoresPodSize(data: seq<byte>, other: seq<byte>, pos: nat, limit: nat)
    requires pos + HEADER_SIZE <= |data| == |other| && ValidLimit(limit)
    requires data[pos + WORD_SIZE..] == other[pos + WORD_SIZE..]
    ensures DecodeRecord(data, pos, limit) == DecodeRecord(other, pos, limit)
  {
    var h := pos + HEADER_SIZE;
    var s, t := data[pos..h], other[pos..h];
    SameSuffixSlice(data, other, pos + WORD_SIZE, pos + WORD_SIZE, h);
    SliceOfSlice(data, pos, h, WORD_SIZE, HEADER_SIZE);
    SliceOfSlice(other, pos, h, WORD_SIZE, HEADER_SIZE);
    UnpackTail(s);
    UnpackTail(t);
    ReadFieldsSuffix(data, other, pos + WORD_SIZE, h, Unpack(s)[1..]);
  }
}
