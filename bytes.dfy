/** Raw bytes and the fixed-width unsigned words the keyring format is built from.

    The keyring writer packs its length words with the `struct` format code `Q`
    (an unsigned 64-bit integer in the machine's native byte order).  This model
    fixes that order to little-endian, as on x86-64; files written on a
    big-endian host are not modelled.
 */
module Bytes {

  newtype byte = b: int | 0 <= b < 0x100

  /** Width in bytes of one packed `Q` word. */
  const WORD_SIZE: nat := 8

  /** Exclusive upper bound of a value `struct.pack('Q', ...)` accepts. */
  const WORD_LIMIT: nat := 0x1_0000_0000_0000_0000

  function Pow256(n: nat): (r: nat)
    ensures r > 0
  {
    if n == 0 then 1 else 256 * Pow256(n - 1)
  }

  lemma WordLimitIsPow256()
    ensures Pow256(WORD_SIZE) == WORD_LIMIT
  {
    assert Pow256(1) == 0x100;
    assert Pow256(2) == 0x1_0000;
    assert Pow256(3) == 0x100_0000;
    assert Pow256(4) == 0x1_0000_0000;
    assert Pow256(5) == 0x100_0000_0000;
    assert Pow256(6) == 0x1_0000_0000_0000;
    assert Pow256(7) == 0x100_0000_0000_0000;
  }

  /** `n` written in `width` bytes, least significant byte first. */
  function LittleEndian(n: nat, width: nat): (r: seq<byte>)
    requires n < Pow256(width)
    ensures |r| == width
  {
    if width == 0 then [] else [(n % 256) as byte] + LittleEndian(n / 256, width - 1)
  }

  /** The number a little-endian byte string stands for. */
  function FromLittleEndian(s: seq<byte>): (n: nat)
    ensures n < Pow256(|s|)
  {
    if s == [] then 0 else s[0] as nat + 256 * FromLittleEndian(s[1..])
  }

  lemma {:induction false} FromLittleEndianOfLittleEndian(n: nat, width: nat)
    requires n < Pow256(width)
    ensures FromLittleEndian(LittleEndian(n, width)) == n
  {
    if width > 0 {
      var s := LittleEndian(n, width);
      assert s[1..] == LittleEndian(n / 256, width - 1);
      FromLittleEndianOfLittleEndian(n / 256, width - 1);
    }
  }

  lemma {:induction false} LittleEndianOfFromLittleEndian(s: seq<byte>)
    ensures LittleEndian(FromLittleEndian(s), |s|) == s
  {
    if s != [] {
      var x := FromLittleEndian(s[1..]);
      var n := s[0] as nat + 256 * x;
      assert n % 256 == s[0] as nat && n / 256 == x;
      LittleEndianOfFromLittleEndian(s[1..]);
    }
  }

  /** `struct.pack('Q', n)`. */
  function U64(n: nat): (r: seq<byte>)
    requires n < WORD_LIMIT
    ensures |r| == WORD_SIZE
  {
    WordLimitIsPow256();
    LittleEndian(n, WORD_SIZE)
  }

  /** `struct.unpack('Q', s)`. */
  function Word(s: seq<byte>): (n: nat)
    requires |s| == WORD_SIZE
    ensures n < WORD_LIMIT
  {
    WordLimitIsPow256();
    FromLittleEndian(s)
  }

  /** Packing and unpacking one word are inverse bijections. */
  lemma WordOfU64(n: nat)
    requires n < WORD_LIMIT
    ensures Word(U64(n)) == n
  {
    WordLimitIsPow256();
    FromLittleEndianOfLittleEndian(n, WORD_SIZE);
  }

  lemma U64OfWord(s: seq<byte>)
    requires |s| == WORD_SIZE
    ensures U64(Word(s)) == s
  {
    LittleEndianOfFromLittleEndian(s);
  }

  predicate AllWords(words: seq<nat>) {
    forall i | 0 <= i < |words| :: words[i] < WORD_LIMIT
  }

  /** `struct.pack('QQ...Q', w0, w1, ...)`: the words one after the other. */
  function Pack(words: seq<nat>): (r: seq<byte>)
    requires AllWords(words)
    ensures |r| == WORD_SIZE * |words|
  {
    if words == [] then [] else U64(words[0]) + Pack(words[1..])
  }

  /** `struct.unpack('QQ...Q', s)` for a string of whole words. */
  function Unpack(s: seq<byte>): (r: seq<nat>)
    requires |s| % WORD_SIZE == 0
    ensures |r| == |s| / WORD_SIZE && AllWords(r)
  {
    if s == [] then [] else [Word(s[..WORD_SIZE])] + Unpack(s[WORD_SIZE..])
  }

  lemma {:induction false} UnpackPack(words: seq<nat>)
    requires AllWords(words)
    ensures Unpack(Pack(words)) == words
  {
    if words != [] {
      var s := Pack(words);
      assert s[..WORD_SIZE] == U64(words[0]);
      assert s[WORD_SIZE..] == Pack(words[1..]);
      WordOfU64(words[0]);
      UnpackPack(words[1..]);
    }
  }

  lemma {:induction false} PackUnpack(s: seq<byte>)
    requires |s| % WORD_SIZE == 0
    ensures Pack(Unpack(s)) == s
  {
    if s != [] {
      U64OfWord(s[..WORD_SIZE]);
      PackUnpack(s[WORD_SIZE..]);
      assert s == s[..WORD_SIZE] + s[WORD_SIZE..];
    }
  }

  /** Only the first word's bytes decide the first unpacked word. */
  lemma UnpackTail(s: seq<byte>)
    requires |s| % WORD_SIZE == 0 && |s| > 0
    ensures Unpack(s)[1..] == Unpack(s[WORD_SIZE..])
  {
  }

  /** `n` null bytes, as `struct.pack('{n}x')` produces. */
  function Zeros(n: nat): (r: seq<byte>)
    ensures |r| == n && forall i | 0 <= i < n :: r[i] == 0
  {
    seq(n, _ => 0)
  }

  predicate IsAscii(s: string) {
    forall i | 0 <= i < |s| :: s[i] as int < 0x80
  }

  /** The bytes of an ASCII string literal. */
  function Ascii(s: string): (r: seq<byte>)
    requires IsAscii(s)
    ensures |r| == |s| && forall i | 0 <= i < |s| :: r[i] as int == s[i] as int
  {
    seq(|s|, i requires 0 <= i < |s| => s[i] as int as byte)
  }
}
