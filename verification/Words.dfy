/** Byte strings and little-endian 32-bit words: blocks of a volume, indirect blocks, memory. */
module Words {

  type Byte = x: int | 0 <= x < 256

  type Block = seq<Byte>

  /** Bytes in a block of the volume: a power of two from 1024 up, of which only this much matters here. */
  type BlockSize = n: nat | n >= 1024 && n % 4 == 0 && n % 512 == 0 witness 1024

  /** How many block addresses an indirect block holds. */
  function AddrsPerBlock(bs: BlockSize): (n: nat)
    ensures n > 0 && 4 * n == bs
  {
    bs / 4
  }

  const WORD_LIMIT := 0x1_0000_0000

  /** The four bytes of a word, least significant first. */
  function Encode(v: nat): (s: Block)
    requires v < WORD_LIMIT
    ensures |s| == 4
  {
    [v % 256, v / 256 % 256, v / 65536 % 256, v / 16777216]
  }

  function Decode(s: Block): (v: nat)
    requires |s| == 4
    ensures v < WORD_LIMIT
  {
    (s[0] as int) + 256 * (s[1] as int) + 65536 * (s[2] as int) + 16777216 * (s[3] as int)
  }

  /** Address slot `k` of an indirect block; slots past the end of the block read as zero. */
  function Entry(b: Block, k: nat): (v: nat)
    ensures v < WORD_LIMIT
  {
    if 4 * k + 4 <= |b| then Decode(b[4 * k..4 * k + 4]) else 0
  }

  function SetEntry(b: Block, k: nat, v: nat): (b': Block)
    requires 4 * k + 4 <= |b| && v < WORD_LIMIT
    ensures |b'| == |b|
  {
    b[..4 * k] + Encode(v) + b[4 * k + 4..]
  }

  /** The bytes with those of `part` put at `at`. */
  function Splice(bytes: Block, at: nat, part: Block): (r: Block)
    requires at + |part| <= |bytes|
    ensures |r| == |bytes|
  {
    bytes[..at] + part + bytes[at + |part|..]
  }

  function Zeros(n: nat): (b: Block)
    ensures |b| == n && forall i :: 0 <= i < n ==> b[i] == 0
  {
    seq(n, _ => 0)
  }

  ghost predicate AllZero(b: Block) {
    forall i :: 0 <= i < |b| ==> b[i] == 0
  }

  /** No address slot of the block is in use. */
  ghost predicate NoEntries(b: Block) {
    forall k: nat :: Entry(b, k) == 0
  }

  lemma DecodeEncode(v: nat)
    requires v < WORD_LIMIT
    ensures Decode(Encode(v)) == v
  {
    var q1 := v / 256;
    var q2 := v / 65536;
    assert q2 == q1 / 256;
    assert v / 16777216 == q2 / 256;
  }

  lemma DecodeIsZero(s: Block)
    requires |s| == 4
    ensures Decode(s) == 0 <==> s == [0, 0, 0, 0]
  {
  }

  /** Storing a slot changes that slot and no other. */
  lemma StoredEntry(b: Block, k: nat, v: nat, j: nat)
    requires 4 * k + 4 <= |b| && v < WORD_LIMIT
    ensures Entry(SetEntry(b, k, v), j) == if j == k then v else Entry(b, j)
  {
    hide Decode, Encode;
    var b' := SetEntry(b, k, v);
    if j == k {
      assert b'[4 * k..4 * k + 4] == Encode(v);
      DecodeEncode(v);
    } else if 4 * j + 4 <= |b| {
      assert 4 * j + 4 <= 4 * k || 4 * j >= 4 * k + 4;
      assert b'[4 * j..4 * j + 4] == b[4 * j..4 * j + 4];
    }
  }

  /** A slot in the bytes of its block, least significant byte first. */
  lemma EntryInBytes(b: Block, k: nat)
    requires 4 * k + 4 <= |b|
    ensures Entry(b, k) == b[4 * k] as int + 0x100 * b[4 * k + 1] as int + 0x1_0000 * b[4 * k + 2] as int
                           + 0x100_0000 * b[4 * k + 3] as int
  {
  }

  /** The bytes of a part put in, and the bytes around it. */
  lemma SpliceAt(bytes: Block, at: nat, part: Block)
    requires at + |part| <= |bytes|
    ensures forall i :: 0 <= i < |bytes| ==>
              Splice(bytes, at, part)[i] == if at <= i < at + |part| then part[i - at] else bytes[i]
  {
  }

  lemma LowByte(a: int, b: int, x: int, y: int)
    requires 0 <= a < 256 && 0 <= b < 256 && a + 256 * x == b + 256 * y
    ensures a == b && x == y
  {
  }

  lemma DecodeOnce(s: Block, t: Block)
    requires |s| == |t| == 4 && Decode(s) == Decode(t)
    ensures s == t
  {
    var a: seq<int>, b: seq<int> := [s[0], s[1], s[2], s[3]], [t[0], t[1], t[2], t[3]];
    LowByte(a[0], b[0], a[1] + 256 * (a[2] + 256 * a[3]), b[1] + 256 * (b[2] + 256 * b[3]));
    LowByte(a[1], b[1], a[2] + 256 * a[3], b[2] + 256 * b[3]);
    LowByte(a[2], b[2], a[3], b[3]);
  }

  /** Blocks with the same entries are the same. */
  lemma EntriesAreAll(a: Block, b: Block)
    requires |a| == |b| && |a| % 4 == 0 && forall k: nat :: Entry(a, k) == Entry(b, k)
    ensures a == b
  {
    hide Decode;
    forall i | 0 <= i < |a|
      ensures a[i] == b[i]
    {
      var k := i / 4;
      assert Entry(a, k) == Entry(b, k);
      DecodeOnce(a[4 * k..4 * k + 4], b[4 * k..4 * k + 4]);
      assert a[4 * k..4 * k + 4][i - 4 * k] == b[4 * k..4 * k + 4][i - 4 * k];
    }
  }

  lemma EntryIsZero(b: Block, k: nat)
    requires 4 * k + 4 <= |b|
    ensures Entry(b, k) == 0 <==> b[4 * k..4 * k + 4] == [0, 0, 0, 0]
  {
    hide Decode;
    DecodeIsZero(b[4 * k..4 * k + 4]);
  }

  lemma EntriesOfAllZero(b: Block)
    requires AllZero(b)
    ensures NoEntries(b)
  {
    hide Decode;
    forall k: nat
      ensures Entry(b, k) == 0
    {
      if 4 * k + 4 <= |b| {
        assert b[4 * k..4 * k + 4] == [0, 0, 0, 0];
        EntryIsZero(b, k);
      }
    }
  }

  lemma ByteOfZeroEntry(b: Block, k: nat, m: nat)
    requires 4 * k + 4 <= |b| && m < 4 && Entry(b, k) == 0
    ensures b[4 * k + m] == 0
  {
    hide Entry, Decode;
    EntryIsZero(b, k);
    assert b[4 * k..4 * k + 4][m] == 0;
  }

  /** The byte scan of `ext2_block_empty` and "no address slot is in use" are the same test. */
  lemma AllZeroIsNoEntries(b: Block)
    requires |b| % 4 == 0
    ensures AllZero(b) <==> NoEntries(b)
  {
    hide Entry;
    if NoEntries(b) {
      forall i | 0 <= i < |b|
        ensures b[i] == 0
      {
        assert Entry(b, i / 4) == 0;
        ByteOfZeroEntry(b, i / 4, i % 4);
      }
    }
    if AllZero(b) {
      EntriesOfAllZero(b);
    }
  }
}
