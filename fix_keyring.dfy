/** The fix script itself: the `Key` class with its codec methods, the header
    reader, and the load and write loops of `main`, run against the file
    objects of `Streams`.  Each method is proved against the functions of
    `KeyFormat` and `KeyringFormat`.
 */
module FixKeyring {
  import opened Bytes
  import opened Sequences
  import opened KeyFormat
  import opened KeyringFormat
  import opened Streams

  /** A key of the keyring.  Its fields are updated in place: the write loop
      renames a key by assigning its `keyId`. */
  class Key {
    var keyId: seq<byte>
    var keyType: seq<byte>
    var userId: seq<byte>
    var key: seq<byte>

    /** The value the key currently holds. */
    function Value(): KeyRecord
      reads this
    {
      KeyRecord(keyId, keyType, userId, key)
    }

    constructor (keyId: seq<byte>, keyType: seq<byte>, userId: seq<byte>, key: seq<byte>)
      ensures Value() == KeyRecord(keyId, keyType, userId, key)
    {
      this.keyId := keyId;
      this.keyType := keyType;
      this.userId := userId;
      this.key := key;
    }

    /** `pod_size()`: the length of the record without its padding. */
    method PodSize() returns (n: nat)
      ensures n == KeyFormat.PodSize(Value())
      ensures Packable(Value()) ==> n == |Unpadded(Value())|
    {
      n := 4 * WORD_SIZE + |keyId| + |keyType| + |userId| + |key| + WORD_SIZE;
    }

    /** `write(outfile)`: the five words, the four fields, then the padding,
        which depends on where in the output the record lands. */
    method Write(w: Writer)
      requires Packable(Value())
      modifies w
      ensures w.out == old(w.out) + EncodeRecord(Value(), old(|w.out|))
    {
      var size := PodSize();
      var lengths := [size, |keyId|, |keyType|, |userId|, |key|];
      assert lengths == LengthWords(Value());
      ghost var before := w.out;
      w.Write(Pack(lengths));
      w.Write(keyId);
      w.Write(keyType);
      w.Write(userId);
      w.Write(key);
      AppendFive(before, Pack(lengths), keyId, keyType, userId, key);
      assert Unpadded(Value()) == Pack(lengths) + keyId + keyType + userId + key;
      hide Unpadded, Pack;
      WritePadding(w);
      assert w.out == before + (Unpadded(Value()) + Zeros(Padding(|before| + size)));
    }

    /** `Key.read(infile)`: `null` (the script's `False`) when fewer than 40
        bytes are left for the length words; otherwise a new key holding the
        four fields read with the lengths found, after which the padding up to
        the next multiple of 8 is skipped.  A field read that raises ends it
        with `ok` false and no key.  Agrees with `DecodeRecord`. */
    static method Read(r: Reader) returns (k: Key?, ok: bool)
      requires r.Valid()
      modifies r
      ensures r.Valid()
      ensures var (res, next) := DecodeRecord(r.data, old(r.pos), r.limit);
        && (ok <==> !res.ReadFailed?)
        && (ok ==> r.pos == next)
        && (k == null <==> !res.Loaded?)
        && (k != null ==> fresh(k) && k.Value() == res.record)
    {
      ghost var start := r.pos;
      var header, _ := r.Read(HEADER_SIZE);
      if |header| != HEADER_SIZE {
        return null, true;
      }
      DecodeRecordReads(r.data, start, r.limit);
      hide DecodeRecord;
      var lengths := Unpack(header);
      hide Unpack;
      var keyId, keyType, userId, key;
      keyId, ok := r.Read(lengths[1]);
      if !ok {
        return null, false;
      }
      keyType, ok := r.Read(lengths[2]);
      if !ok {
        return null, false;
      }
      userId, ok := r.Read(lengths[3]);
      if !ok {
        return null, false;
      }
      key, ok := r.Read(lengths[4]);
      if !ok {
        return null, false;
      }
      var _ := ReadPadding(r);
      k := new Key(keyId, keyType, userId, key);
    }

    /** `read_padding(infile)`: skips to the next multiple of 8 of the
        position, or to the end of the file when that comes first. */
    static method ReadPadding(r: Reader) returns (b: seq<byte>)
      requires r.Valid()
      modifies r
      ensures r.Valid()
      ensures r.pos == ReadEnd(r.data, old(r.pos), Padding(old(r.pos)))
      ensures b == r.data[old(r.pos)..r.pos]
      ensures r.pos < |r.data| ==> r.pos % WORD_SIZE == 0
    {
      var t := r.Tell();
      var padding := (8 - t % 8) % 8;
      var served;
      b, served := r.Read(padding);
    }

    /** `write_padding(outfile)`: null bytes up to the next multiple of 8 of
        the output offset. */
    static method WritePadding(w: Writer)
      modifies w
      ensures w.out == old(w.out) + Zeros(Padding(old(|w.out|)))
      ensures |w.out| % WORD_SIZE == 0 && |w.out| - old(|w.out|) < WORD_SIZE
    {
      var t := w.Tell();
      var padding := (8 - t % 8) % 8;
      w.Write(Zeros(padding));
    }
  }

  /** `read_keyring_header(infile)`: reads one byte at a time up to and
      including the first colon, then 3 bytes of version, and returns all of
      them.  Without a colon ahead the script's loop never ends, so one is
      required. */
  method ReadKeyringHeader(r: Reader) returns (header: seq<byte>)
    requires r.Valid() && HasColon(r.data, r.pos)
    modifies r
    ensures r.Valid()
    ensures (header, r.pos) == ReadHeader(r.data, old(r.pos))
  {
    ghost var start := r.pos;
    ghost var colon := FirstColon(r.data, start);
    var buf: seq<byte> := [];
    header := [];
    while buf != [COLON]
      invariant r.Valid() && start <= r.pos <= colon + 1
      invariant header == r.data[start..r.pos]
      invariant buf == if r.pos == start then [] else [r.data[r.pos - 1]]
      invariant buf == [COLON] <==> r.pos == colon + 1
      decreases colon + 1 - r.pos
    {
      var served;
      buf, served := r.Read(1);
      header := header + buf;
    }
    var version, _ := r.Read(VERSION_SIZE);
    assert r.data[start..r.pos] == r.data[start..colon + 1] + r.data[colon + 1..r.pos];
    header := header + version;
  }

  /** The keys' current values, in order. */
  function Values(keys: seq<Key>): seq<KeyRecord>
    reads keys
  {
    if keys == [] then [] else [keys[0].Value()] + Values(keys[1..])
  }

  /** Lists of keys whose elements are pairwise different objects. */
  ghost predicate Distinct(keys: seq<Key>) {
    forall i, j | 0 <= i < j < |keys| :: keys[i] != keys[j]
  }

  /** The load loop of `main`: `Key.read` until it returns the end marker,
      collecting new keys.  Agrees with `DecodeAll`: `ok` is false when a read
      raised, and otherwise the input is left at its end. */
  method LoadKeys(r: Reader) returns (keys: seq<Key>, ok: bool)
    requires r.Valid()
    modifies r
    ensures r.Valid() && (ok ==> r.pos == |r.data|)
    ensures DecodeAll(r.data, old(r.pos), r.limit) == LoadResult(Values(keys), ok)
    ensures Distinct(keys) && forall i | 0 <= i < |keys| :: fresh(keys[i])
  {
    hide DecodeRecord, DecodeAll;
    keys := [];
    ghost var start := r.pos;
    while true
      invariant r.Valid() && start <= r.pos
      invariant Prepend(Values(keys), DecodeAll(r.data, r.pos, r.limit)) == DecodeAll(r.data, start, r.limit)
      invariant Distinct(keys) && forall i | 0 <= i < |keys| :: fresh(keys[i])
      decreases |r.data| - r.pos
    {
      ghost var before := r.pos;
      ghost var values := Values(keys);
      var key;
      key, ok := Key.Read(r);
      LoadStep(r.data, r.limit, start, before, values);
      if key == null {
        return;
      }
      var loaded: Key := key;
      ValuesSnoc(keys, loaded);
      DistinctSnoc(keys, loaded);
      keys := keys + [loaded];
    }
  }

  /** The keys hold the values `vs`, one for one. */
  ghost predicate Hold(keys: seq<Key>, vs: seq<KeyRecord>)
    reads keys
  {
    |keys| == |vs| && forall j | 0 <= j < |keys| :: keys[j].Value() == vs[j]
  }

  /** One turn of the write loop of `main`, on the `i`-th key: with `fix`
      set, a key whose id is `percona_binlog` is renamed in place to
      `percona_binlog:0`; then the key, renamed or not, is written.  No other
      key changes. */
  method FixAndWrite(w: Writer, keys: seq<Key>, i: nat, fix: bool, ghost vs: seq<KeyRecord>)
    requires Distinct(keys) && i < |keys| && Hold(keys, vs)
    requires Packable(Rename(vs[i], fix))
    modifies w, keys[i]
    ensures Hold(keys, vs[i := Rename(vs[i], fix)])
    ensures w.out == old(w.out) + EncodeRecord(Rename(vs[i], fix), old(|w.out|))
  {
    var key := keys[i];
    if key.keyId == TARGET_ID && fix {
      key.keyId := FIXED_ID;
    }
    key.Write(w);
  }

  /** The write loop of `main`: every key is renamed when `fix` asks for it
      and written.  The keys end up holding the renamed values, and the output
      grows by their records in order, each padded for the offset it lands
      on. */
  method WriteKeys(w: Writer, keys: seq<Key>, fix: bool)
    requires Distinct(keys)
    requires AllPackable(RenameAll(Values(keys), fix))
    modifies w, keys
    ensures Values(keys) == RenameAll(old(Values(keys)), fix)
    ensures w.out == old(w.out) + Records(RenameAll(old(Values(keys)), fix), old(|w.out|))
  {
    ghost var values := Values(keys);
    ValuesHold(keys);
    hide EncodeRecord, RenameAll, Rename, Distinct, Values;
    assert |values| == |keys|;
    hide Hold;
    ghost var renamed: seq<PackedKey> := RenameAll(values, fix);
    ghost var start := |w.out|;
    ghost var current := values;
    assert Records(renamed[..0], start) == [];
    RenameAllAt(values, fix);
    hide Records, AllPackable;
    for i := 0 to |keys|
      invariant Hold(keys, current) && |current| == |keys|
      invariant forall j | 0 <= j < |keys| :: current[j] == if j < i then renamed[j] else values[j]
      invariant i < |keys| ==> Rename(values[i], fix) == renamed[i]
      invariant w.out == old(w.out) + Records(renamed[..i], start)
    {
      ghost var out := w.out;
      WriteStep(old(w.out), renamed, i, out);
      FixAndWrite(w, keys, i, fix, current);
      current := current[i := renamed[i]];
    }
    assert current == renamed;
    assert renamed[..|keys|] == renamed;
    ValuesFrom(keys, renamed);
  }

  /** The output after one more turn of the write loop: when the output held
      `before` and then the records of the first `i` keys, writing the `i`-th
      key at the offset reached leaves it holding the records of the first
      `i + 1`. */
  lemma WriteStep(before: seq<byte>, ks: seq<PackedKey>, i: nat, out: seq<byte>)
    requires i < |ks|
    requires out == before + Records(ks[..i], |before|)
    ensures out + EncodeRecord(ks[i], |out|) == before + Records(ks[..i + 1], |before|)
  {
    var written := Records(ks[..i], |before|);
    RecordsSnoc(ks[..i], ks[i], |before|);
    assert ks[..i + 1] == ks[..i] + [ks[i]];
    assert before + written + EncodeRecord(ks[i], |before| + |written|)
      == before + (written + EncodeRecord(ks[i], |before| + |written|));
  }

  /** `main` from the opened files on, when a read can serve at most `limit`
      bytes: the header is read and every key loaded; then, unless a read
      raised (`ok` false, nothing written), the header, each key (renamed when
      `fix` asks for it) and `EOF` are written to the empty output.  The
      output file ends up holding `Rewritten(input, fix, limit)`. */
  method FixKeyringFile(input: seq<byte>, fix: bool, limit: nat) returns (output: seq<byte>, ok: bool)
    requires HasColon(input, 0) && |input| < MAX_FILE_SIZE && ValidLimit(limit)
    ensures ok == DecodeAll(input, ReadHeader(input, 0).1, limit).ok
    ensures output == Rewritten(input, fix, limit)
  {
    hide Rewritten, ReadHeader, FirstColon, DecodeAll, DecodeRecord, RenameAll, Records, EncodeRecord, Values, Distinct;
    var rh := new Reader(input, limit);
    var wh := new Writer();
    var header := ReadKeyringHeader(rh);
    ReadHeaderIsConsumedPrefix(input, 0);
    var keys;
    keys, ok := LoadKeys(rh);
    RewrittenFromParts(input, fix, limit, header, Values(keys), ok);
    if !ok {
      return wh.out, false;
    }
    wh.Write(header);
    WriteKeys(wh, keys, fix);
    wh.Write(EOF_MARKER);
    output := wh.out;
  }

  /** What one turn of the load loop does to its invariant. */
  lemma LoadStep(data: seq<byte>, limit: nat, start: nat, pos: nat, loaded: seq<KeyRecord>)
    requires start <= pos <= |data| && ValidLimit(limit)
    requires Prepend(loaded, DecodeAll(data, pos, limit)) == DecodeAll(data, start, limit)
    ensures var (res, next) := DecodeRecord(data, pos, limit);
      && (res.EndOfKeys? ==> DecodeAll(data, start, limit) == LoadResult(loaded, true) && next == |data|)
      && (res.ReadFailed? ==> DecodeAll(data, start, limit) == LoadResult(loaded, false))
      && (res.Loaded? ==> Prepend(loaded + [res.record], DecodeAll(data, next, limit)) == DecodeAll(data, start, limit))
  {
    var (res, next) := DecodeRecord(data, pos, limit);
    DecodeAllStep(data, pos, limit);
    if res.Loaded? {
      assert loaded + [res.record] + DecodeAll(data, next, limit).keys
        == loaded + ([res.record] + DecodeAll(data, next, limit).keys);
    } else {
      assert loaded + [] == loaded;
    }
  }

  lemma DistinctSnoc(keys: seq<Key>, key: Key)
    requires Distinct(keys) && key !in keys
    ensures Distinct(keys + [key])
    ensures forall i | 0 <= i < |keys| :: (keys + [key])[i] == keys[i]
  {
  }

  /** The keys hold their `Values`. */
  lemma {:induction false} ValuesHold(keys: seq<Key>)
    ensures Hold(keys, Values(keys))
    decreases |keys|
  {
    if keys != [] {
      ValuesHold(keys[1..]);
    }
  }

  /** Keys holding the values `vs` have `Values` equal to `vs`. */
  lemma ValuesFrom(keys: seq<Key>, vs: seq<KeyRecord>)
    requires Hold(keys, vs)
    ensures Values(keys) == vs
  {
    ValuesHold(keys);
  }

  lemma {:induction false} ValuesSnoc(keys: seq<Key>, key: Key)
    ensures Values(keys + [key]) == Values(keys) + [key.Value()]
    decreases |keys|
  {
    if keys != [] {
      assert (keys + [key])[1..] == keys[1..] + [key];
      ValuesSnoc(keys[1..], key);
    }
  }
}
