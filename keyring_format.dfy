/** The whole keyring file: a textual version header, the key records one after
    another, and the literal trailer `EOF`; together with the rename the fix
    script applies and the file it writes back.
 */
module KeyringFormat {
  import opened Bytes
  import opened KeyFormat
  import opened Sequences

  const COLON: byte := 58

  /** Bytes of version text that follow the header's colon (`1.0`). */
  const VERSION_SIZE: nat := 3

  /** The trailer written after the last record. */
  const EOF_MARKER: seq<byte> := Ascii("EOF")

  /** The unversioned binlog key id written by older servers ... */
  const TARGET_ID: seq<byte> := Ascii("percona_binlog")

  /** ... and the versioned id newer servers expect instead. */
  const FIXED_ID: seq<byte> := Ascii("percona_binlog:0")

  /** The header every keyring file of this format starts with. */
  const KNOWN_HEADER: seq<byte> := Ascii("Keyring file version:1.0")

  /** Files are addressed with signed 64-bit offsets, so no file is larger. */
  const MAX_FILE_SIZE: nat := 0x8000_0000_0000_0000

  // ---------------------------------------------------------------------------
  // Header

  predicate HasColon(data: seq<byte>, pos: nat) {
    exists i | pos <= i < |data| :: data[i] == COLON
  }

  /** The index of the first colon at or after `pos`. */
  function FirstColon(data: seq<byte>, pos: nat): (c: nat)
    requires pos <= |data| && HasColon(data, pos)
    ensures pos <= c < |data| && data[c] == COLON
    ensures forall i | pos <= i < c :: data[i] != COLON
    decreases |data| - pos
  {
    if data[pos] == COLON then pos
    else
      assert HasColon(data, pos + 1) by {
        var i :| pos <= i < |data| && data[i] == COLON;
        assert i != pos;
      }
      FirstColon(data, pos + 1)
  }

  /** `read_keyring_header` on a file holding `data` positioned at `pos`: the
      bytes it returns and the position it leaves.  Everything up to and
      including the first colon, then a read of 3 bytes (short at the end of
      the data). */
  function ReadHeader(data: seq<byte>, pos: nat): (r: (seq<byte>, nat))
    requires pos <= |data| && HasColon(data, pos)
    ensures FirstColon(data, pos) < r.1 <= FirstColon(data, pos) + 1 + VERSION_SIZE
    ensures r.1 <= |data| && r.0 == data[pos..r.1]
  {
    var end := ReadEnd(data, FirstColon(data, pos) + 1, VERSION_SIZE);
    (data[pos..end], end)
  }

  /** A header as written: text without a colon, one colon, 3 bytes of version. */
  predicate IsHeader(h: seq<byte>) {
    && |h| >= 1 + VERSION_SIZE
    && h[|h| - 1 - VERSION_SIZE] == COLON
    && forall i | 0 <= i < |h| - 1 - VERSION_SIZE :: h[i] != COLON
  }

  /** The bytes `read_keyring_header` returns are exactly the bytes it
      consumed, and, when 3 bytes follow the colon, they form a header. */
  lemma ReadHeaderIsConsumedPrefix(data: seq<byte>, pos: nat)
    requires pos <= |data| && HasColon(data, pos)
    ensures var (h, end) := ReadHeader(data, pos);
      && pos <= end <= |data| && h == data[pos..end]
      && (FirstColon(data, pos) + VERSION_SIZE < |data| ==> IsHeader(h) && end == FirstColon(data, pos) + 1 + VERSION_SIZE)
  {
    var c := FirstColon(data, pos);
    var (h, end) := ReadHeader(data, pos);
    if c + VERSION_SIZE < |data| {
      assert h[|h| - 1 - VERSION_SIZE] == data[c];
      forall i | 0 <= i < |h| - 1 - VERSION_SIZE ensures h[i] != COLON {
        assert h[i] == data[pos + i];
      }
    }
  }

  /** Replaying a header: reading a file that starts with a header returns
      that header verbatim and leaves the position just after it. */
  lemma ReadHeaderOfHeader(h: seq<byte>, rest: seq<byte>)
    requires IsHeader(h)
    ensures HasColon(h + rest, 0)
    ensures ReadHeader(h + rest, 0) == (h, |h|)
  {
    var data := h + rest;
    var c := |h| - 1 - VERSION_SIZE;
    assert data[c] == COLON;
    assert HasColon(data, 0);
    var first := FirstColon(data, 0);
    assert first == c by {
      assert forall i | 0 <= i < c :: data[i] == h[i];
    }
    assert data[..|h|] == h;
  }

  lemma KnownHeaderIsHeader()
    ensures IsHeader(KNOWN_HEADER) && |KNOWN_HEADER| == 24
  {
    var s := "Keyring file version:1.0";
    forall i | 0 <= i < 20 ensures KNOWN_HEADER[i] != COLON {
      assert KNOWN_HEADER[i] as int == s[i] as int;
    }
  }

  /** `read_keyring_header` on a file starting `Keyring file version:1.0`
      returns those 24 bytes and stops at offset 24. */
  lemma ReadKnownHeader(rest: seq<byte>)
    ensures HasColon(KNOWN_HEADER + rest, 0)
    ensures ReadHeader(KNOWN_HEADER + rest, 0) == (KNOWN_HEADER, 24)
  {
    KnownHeaderIsHeader();
    ReadHeaderOfHeader(KNOWN_HEADER, rest);
  }

  // ---------------------------------------------------------------------------
  // The rename of the unversioned binlog key

  /** The write loop's treatment of one key. */
  function Rename(k: KeyRecord, fix: bool): (r: KeyRecord)
    ensures r.keyId != k.keyId <==> fix && k.keyId == TARGET_ID
    ensures r.keyId != k.keyId ==> r.keyId == FIXED_ID
    ensures r.keyType == k.keyType && r.userId == k.userId && r.key == k.key
  {
    if k.keyId == TARGET_ID && fix then k.(keyId := FIXED_ID) else k
  }

  function RenameAll(ks: seq<KeyRecord>, fix: bool): (r: seq<KeyRecord>)
    ensures |r| == |ks|
  {
    if ks == [] then [] else [Rename(ks[0], fix)] + RenameAll(ks[1..], fix)
  }

  /** The rename keeps the number and the order of the keys; with `fix` set it
      gives every key whose id is `percona_binlog` the id `percona_binlog:0`;
      any other id, and every id without `fix`, is unchanged; the key type, user
      id and key bits never change. */
  lemma {:induction false} RenameAllSpec(ks: seq<KeyRecord>, fix: bool)
    ensures var r := RenameAll(ks, fix);
      && |r| == |ks|
      && forall i | 0 <= i < |ks| ::
        && r[i].keyType == ks[i].keyType
        && r[i].userId == ks[i].userId
        && r[i].key == ks[i].key
        && (fix && ks[i].keyId == TARGET_ID ==> r[i].keyId == FIXED_ID)
        && (!fix || ks[i].keyId != TARGET_ID ==> r[i].keyId == ks[i].keyId)
  {
    if ks != [] {
      RenameAllSpec(ks[1..], fix);
      var r := RenameAll(ks, fix);
      assert forall i | 1 <= i < |ks| :: r[i] == RenameAll(ks[1..], fix)[i - 1] && ks[i] == ks[1..][i - 1];
    }
  }

  /** The rename applies `Rename` to each key at its own index. */
  lemma {:induction false} RenameAllAt(ks: seq<KeyRecord>, fix: bool)
    ensures var r := RenameAll(ks, fix);
      |r| == |ks| && forall i | 0 <= i < |ks| :: r[i] == Rename(ks[i], fix)
  {
    if ks != [] {
      RenameAllAt(ks[1..], fix);
      var r := RenameAll(ks, fix);
      assert forall i | 1 <= i < |ks| :: r[i] == RenameAll(ks[1..], fix)[i - 1] && ks[i] == ks[1..][i - 1];
    }
  }

  /** Without `fix` nothing is renamed. */
  lemma {:induction false} RenameAllWithoutFix(ks: seq<KeyRecord>)
    ensures RenameAll(ks, false) == ks
  {
    if ks != [] {
      RenameAllWithoutFix(ks[1..]);
      assert ks == [ks[0]] + ks[1..];
    }
  }

  /** Running the fix on its own output changes nothing more. */
  lemma {:induction false} RenameAllIdempotent(ks: seq<KeyRecord>, fix: bool)
    ensures RenameAll(RenameAll(ks, fix), fix) == RenameAll(ks, fix)
  {
    if ks != [] {
      assert FIXED_ID != TARGET_ID by {
        assert |FIXED_ID| != |TARGET_ID|;
      }
      RenameAllIdempotent(ks[1..], fix);
      var r := RenameAll(ks, fix);
      assert r[1..] == RenameAll(ks[1..], fix);
    }
  }

  /** A renamed key grows by two bytes, and its recomputed pod size with it. */
  lemma RenamedPodSize(k: KeyRecord)
    requires k.keyId == TARGET_ID
    ensures PodSize(Rename(k, true)) == PodSize(k) + 2
    ensures PodSize(Rename(k, false)) == PodSize(k)
  {
  }

  // ---------------------------------------------------------------------------
  // Sequences of records

  predicate AllPackable(ks: seq<KeyRecord>) {
    forall i | 0 <= i < |ks| :: Packable(ks[i])
  }

  /** What the write loop appends for the keys `ks` when the output's `tell()`
      is `offset`: each record encoded at the absolute offset where the
      previous one ended. */
  function Records(ks: seq<PackedKey>, offset: nat): (r: seq<byte>)
    ensures r == [] <==> ks == []
  {
    Chain(EncodeRecord, ks, offset)
  }

  /** One more key appends its record at the offset reached. */
  lemma RecordsSnoc(ks: seq<PackedKey>, k: PackedKey, offset: nat)
    ensures Records(ks + [k], offset) == Records(ks, offset) + EncodeRecord(k, offset + |Records(ks, offset)|)
  {
    ChainSnoc(EncodeRecord, ks, k, offset);
  }

  /** The last record's padding ends on an 8-aligned absolute offset. */
  lemma {:induction false} RecordsEndAligned(ks: seq<PackedKey>, offset: nat)
    requires ks != []
    ensures (offset + |Records(ks, offset)|) % WORD_SIZE == 0
  {
    var first := EncodeRecord(ks[0], offset);
    EncodeRecordSize(ks[0], offset);
    assert Records(ks, offset) == first + Records(ks[1..], offset + |first|);
    if |ks| > 1 {
      RecordsEndAligned(ks[1..], offset + |first|);
    } else {
      assert ks[1..] == [];
    }
  }

  /** After each of the records written, not only the last, the absolute
      offset is a multiple of 8: the first `n` records' bytes begin the output
      and end aligned. */
  lemma RecordBoundariesAligned(ks: seq<PackedKey>, n: nat, offset: nat)
    requires 0 < n <= |ks|
    ensures Records(ks[..n], offset) <= Records(ks, offset)
    ensures (offset + |Records(ks[..n], offset)|) % WORD_SIZE == 0
  {
    assert ks == ks[..n] + ks[n..];
    ChainAppend(EncodeRecord, ks[..n], ks[n..], offset);
    RecordsEndAligned(ks[..n], offset);
  }

  /** What the load loop ends with: the keys loaded, and whether it stopped
      at the end marker (`ok`) rather than at a read that raised. */
  datatype LoadResult = LoadResult(keys: seq<KeyRecord>, ok: bool)

  /** `loaded` followed by what the loop goes on to load. */
  function Prepend(loaded: seq<KeyRecord>, rest: LoadResult): LoadResult {
    LoadResult(loaded + rest.keys, rest.ok)
  }

  /** The load loop: `Key.read` until it returns the end marker, or until a
      read raises. */
  function DecodeAll(data: seq<byte>, pos: nat, limit: nat): (r: LoadResult)
    requires pos <= |data| && ValidLimit(limit)
    ensures HEADER_SIZE * |r.keys| <= |data| - pos
    decreases |data| - pos
  {
    var (res, next) := DecodeRecord(data, pos, limit);
    match res
    case EndOfKeys => LoadResult([], true)
    case ReadFailed => LoadResult([], false)
    case Loaded(k) => Prepend([k], DecodeAll(data, next, limit))
  }

  /** Every key loaded from `pos` on fits, pod size and all, between `pos`
      and the end of the data. */
  lemma {:induction false} DecodeAllWithinData(data: seq<byte>, pos: nat, limit: nat)
    requires pos <= |data| && ValidLimit(limit)
    ensures var ks := DecodeAll(data, pos, limit).keys;
      forall i | 0 <= i < |ks| :: pos + PodSize(ks[i]) <= |data|
    decreases |data| - pos
  {
    hide DecodeRecord;
    DecodeAllStep(data, pos, limit);
    hide DecodeAll;
    var (res, next) := DecodeRecord(data, pos, limit);
    if res.Loaded? {
      DecodedWithinData(data, pos, limit);
      DecodeAllWithinData(data, next, limit);
      var ks := DecodeAll(data, pos, limit).keys;
      assert forall i | 1 <= i < |ks| :: ks[i] == DecodeAll(data, next, limit).keys[i - 1];
    }
  }

  /** One turn of the load loop: what is loaded from `pos` on is the record
      read there followed by what is loaded from where it stops; nothing more
      at the end marker; and a failure when the read raised. */
  lemma DecodeAllStep(data: seq<byte>, pos: nat, limit: nat)
    requires pos <= |data| && ValidLimit(limit)
    ensures var (res, next) := DecodeRecord(data, pos, limit);
      && (res.EndOfKeys? ==> DecodeAll(data, pos, limit) == LoadResult([], true))
      && (res.ReadFailed? ==> DecodeAll(data, pos, limit) == LoadResult([], false))
      && (res.Loaded? ==> DecodeAll(data, pos, limit) == Prepend([res.record], DecodeAll(data, next, limit)))
  {
  }

  /** Round trip of a whole run of records: loading, at offset `pos`, what the
      write loop wrote there, followed by a trailer too short to hold the five
      length words (such as `EOF`), gives back the same keys in the same order
      and ends at the end marker, provided every field can be read. */
  lemma {:induction false} DecodeAllOfRecords(ks: seq<PackedKey>, data: seq<byte>, pos: nat, limit: nat)
    requires ValidLimit(limit) && AllReadable(ks, limit)
    requires pos + |Records(ks, pos)| <= |data|
    requires data[pos..pos + |Records(ks, pos)|] == Records(ks, pos)
    requires |data| - (pos + |Records(ks, pos)|) < HEADER_SIZE
    ensures DecodeAll(data, pos, limit) == LoadResult(ks, true)
  {
    hide DecodeRecord, EncodeRecord, DecodeAll, Readable;
    DecodeAllStep(data, pos, limit);
    if ks == [] {
      assert DecodeRecord(data, pos, limit).0.EndOfKeys?;
    } else {
      var next := pos + |EncodeRecord(ks[0], pos)|;
      FirstOfRecords(ks, data, pos, limit);
      hide Records, AllReadable;
      DecodeAllOfRecords(ks[1..], data, next, limit);
      assert ks == [ks[0]] + ks[1..];
    }
  }

  /** The first step of that round trip: the first record reads back as the
      first key, and the rest of the run follows it. */
  lemma FirstOfRecords(ks: seq<PackedKey>, data: seq<byte>, pos: nat, limit: nat)
    requires ks != [] && ValidLimit(limit) && AllReadable(ks, limit)
    requires pos + |Records(ks, pos)| <= |data|
    requires data[pos..pos + |Records(ks, pos)|] == Records(ks, pos)
    ensures var next := pos + |EncodeRecord(ks[0], pos)|;
      && DecodeRecord(data, pos, limit) == (Loaded(ks[0]), next)
      && AllReadable(ks[1..], limit)
      && next + |Records(ks[1..], next)| == pos + |Records(ks, pos)|
      && data[next..next + |Records(ks[1..], next)|] == Records(ks[1..], next)
  {
    hide DecodeRecord, Readable, EncodeRecord, DecodeAll;
    var next := pos + |EncodeRecord(ks[0], pos)|;
    assert Records(ks, pos) == Chain(EncodeRecord, ks, pos);
    assert Records(ks[1..], next) == Chain(EncodeRecord, ks[1..], next);
    hide Records;
    ChainEmbeddedFirst(EncodeRecord, ks, data, pos);
    hide Chain;
    DecodeEncodedRecord(ks[0], data, pos, limit);
  }

  predicate AllReadable(ks: seq<KeyRecord>, limit: nat) {
    forall i | 0 <= i < |ks| :: Readable(ks[i], limit)
  }

  /** The keys loaded from a file, renamed or not, fit the 64-bit words of
      the output: their pod sizes are bounded by the file's size. */
  lemma LoadedKeysPackable(data: seq<byte>, pos: nat, fix: bool, limit: nat)
    requires pos <= |data| < MAX_FILE_SIZE && ValidLimit(limit)
    ensures var ks := DecodeAll(data, pos, limit).keys;
      AllPackable(ks) && AllPackable(RenameAll(ks, fix))
  {
    var ks := DecodeAll(data, pos, limit).keys;
    DecodeAllWithinData(data, pos, limit);
    RenameAllSpec(ks, fix);
    assert |FIXED_ID| == |TARGET_ID| + 2;
  }

  // ---------------------------------------------------------------------------
  // The rewrite

  /** The file `main` writes for an input file holding `input`, when a read
      can serve at most `limit` bytes: the header it read, verbatim, then every
      loaded key, renamed when `fix` asks for it and re-encoded with a fresh
      pod size and padding, then `EOF`.  When a read raises during loading,
      the script stops before its first write and the output stays empty. */
  function Rewritten(input: seq<byte>, fix: bool, limit: nat): (r: seq<byte>)
    requires HasColon(input, 0) && |input| < MAX_FILE_SIZE && ValidLimit(limit)
    ensures r == [] <==> !DecodeAll(input, ReadHeader(input, 0).1, limit).ok
    ensures r != [] ==> ReadHeader(input, 0).0 <= r && |EOF_MARKER| <= |r| && r[|r| - |EOF_MARKER|..] == EOF_MARKER
  {
    var (header, pos) := ReadHeader(input, 0);
    var loaded := DecodeAll(input, pos, limit);
    LoadedKeysPackable(input, pos, fix, limit);
    if loaded.ok then header + Records(RenameAll(loaded.keys, fix), pos) + EOF_MARKER else []
  }

  /** `Rewritten` once the header and the outcome of loading are known: the
      header, the renamed records and `EOF` after a load that reached the end
      marker, and nothing after one that raised. */
  lemma RewrittenFromParts(input: seq<byte>, fix: bool, limit: nat, header: seq<byte>, keys: seq<KeyRecord>, ok: bool)
    requires HasColon(input, 0) && |input| < MAX_FILE_SIZE && ValidLimit(limit)
    requires ReadHeader(input, 0) == (header, |header|)
    requires DecodeAll(input, |header|, limit) == LoadResult(keys, ok)
    ensures AllPackable(RenameAll(keys, fix))
    ensures ok ==> Rewritten(input, fix, limit) == header + Records(RenameAll(keys, fix), |header|) + EOF_MARKER
    ensures !ok ==> Rewritten(input, fix, limit) == []
  {
    LoadedKeysPackable(input, |header|, fix, limit);
  }

  /** Rewriting a file this writer produced, whose fields can all be read
      back: the header is kept, the same keys come out in the same order with
      only the rename applied, and the trailer follows. */
  lemma RewriteOfWrittenFile(h: seq<byte>, ks: seq<PackedKey>, fix: bool, limit: nat)
    requires IsHeader(h) && ValidLimit(limit) && AllReadable(ks, limit)
    requires |h + Records(ks, |h|) + EOF_MARKER| < MAX_FILE_SIZE
    ensures HasColon(h + Records(ks, |h|) + EOF_MARKER, 0)
    ensures AllPackable(RenameAll(ks, fix))
    ensures Rewritten(h + Records(ks, |h|) + EOF_MARKER, fix, limit) == h + Records(RenameAll(ks, fix), |h|) + EOF_MARKER
  {
    var body := Records(ks, |h|);
    var input := h + body + EOF_MARKER;
    assert input == h + (body + EOF_MARKER);
    ReadHeaderOfHeader(h, body + EOF_MARKER);
    assert input[|h|..|h| + |body|] == body;
    DecodeAllOfRecords(ks, input, |h|, limit);
    RewrittenFromParts(input, fix, limit, h, ks, true);
  }

  /** Without `fix`, rewriting a file this writer produced reproduces it byte
      for byte. */
  lemma RewriteWithoutFixIsIdentity(h: seq<byte>, ks: seq<PackedKey>, limit: nat)
    requires IsHeader(h) && ValidLimit(limit) && AllReadable(ks, limit)
    requires |h + Records(ks, |h|) + EOF_MARKER| < MAX_FILE_SIZE
    ensures HasColon(h + Records(ks, |h|) + EOF_MARKER, 0)
    ensures Rewritten(h + Records(ks, |h|) + EOF_MARKER, false, limit) == h + Records(ks, |h|) + EOF_MARKER
  {
    RewriteOfWrittenFile(h, ks, false, limit);
    RenameAllWithoutFix(ks);
  }

  /** A file whose first record declares a key id of 2^64 - 1 bytes but holds
      only 3: the script's read raises before anything is written, so the
      output stays empty, whatever the memory available. */
  lemma HugeKeyIdLengthLeavesOutputEmpty(h: seq<byte>, fix: bool, limit: nat)
    requires IsHeader(h) && ValidLimit(limit) && |h| < MAX_FILE_SIZE - HEADER_SIZE - 3
    ensures AllWords([0, WORD_LIMIT - 1, 0, 0, 0])
    ensures HasColon(h + Pack([0, WORD_LIMIT - 1, 0, 0, 0]) + [1, 2, 3], 0)
    ensures Rewritten(h + Pack([0, WORD_LIMIT - 1, 0, 0, 0]) + [1, 2, 3], fix, limit) == []
  {
    var words := [0, WORD_LIMIT - 1, 0, 0, 0];
    var rest := Pack(words) + [1, 2, 3];
    var input := h + rest;
    assert h + Pack(words) + [1, 2, 3] == input;
    ReadHeaderOfHeader(h, rest);
    UnpackPack(words);
    assert input[|h|..|h| + HEADER_SIZE] == Pack(words);
    ReadFailsOnOversizedLength(input, |h|, limit);
    DecodeAllStep(input, |h|, limit);
    RewrittenFromParts(input, fix, limit, h, [], false);
  }
}
