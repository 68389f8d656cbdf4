/**
  One block of an ext2 directory: records of varying length end to end, then zeros. A record with inode 0 is
  a hole. Each record is followed here as the run of bytes it occupies, so that a block is the concatenation of
  its records and a tail.
 */
module Ext2Dirent {
  import opened Words

  const HDR := 8

  /** The bytes of a record header: inode, record length, name length, file type. */
  function Header(inode: nat, len: nat, nameLen: nat, fileType: Byte): (h: Block)
    requires inode < WORD_LIMIT && len < 65536 && nameLen < 256
    ensures |h| == HDR
  {
    Encode(inode) + [len % 256, len / 256, nameLen, fileType]
  }

  function InodeOf(c: Block): nat
    requires |c| >= HDR
  {
    Decode(c[0..4])
  }

  function LenOf(c: Block): nat
    requires |c| >= HDR
  {
    (c[4] as int) + 256 * (c[5] as int)
  }

  function NameLenOf(c: Block): nat
    requires |c| >= HDR
  {
    c[6]
  }

  lemma HeaderParts(inode: nat, len: nat, nameLen: nat, fileType: Byte, rest: Block)
    requires inode < WORD_LIMIT && len < 65536 && nameLen < 256
    ensures var c := Header(inode, len, nameLen, fileType) + rest;
            InodeOf(c) == inode && LenOf(c) == len && NameLenOf(c) == nameLen && c[HDR..] == rest
  {
    hide Decode, Encode;
    var c := Header(inode, len, nameLen, fileType) + rest;
    assert c[0..4] == Encode(inode);
    DecodeEncode(inode);
  }

  /** Bytes a record needs for a name of this length, a multiple of four. */
  function Need(nameLen: nat): (n: nat)
    ensures n % 4 == 0 && HDR + nameLen <= n < HDR + nameLen + 4
  {
    (HDR + nameLen + 3) / 4 * 4
  }

  // ---------- records ----------

  predicate Live(c: Block) {
    |c| >= HDR && InodeOf(c) != 0
  }

  /** The run of bytes `c` is one record, and if it is in use its name fits. */
  predicate Record(c: Block) {
    && HDR <= |c| < 65536 && |c| % 4 == 0 && LenOf(c) == |c|
    && (Live(c) ==> 0 < NameLenOf(c) <= |c| - HDR)
  }

  function NameOf(c: Block): Block
    requires Record(c) && Live(c)
  {
    c[HDR..HDR + NameLenOf(c)]
  }

  datatype Entry = Entry(name: Block, inode: nat)

  /** The names in use and their inodes, in the order of the records. */
  function Entries(cs: seq<Block>): seq<Entry> {
    if cs == [] then []
    else (if Record(cs[0]) && Live(cs[0]) then [Entry(NameOf(cs[0]), InodeOf(cs[0]))] else []) + Entries(cs[1..])
  }

  ghost predicate Records(cs: seq<Block>) {
    forall i :: 0 <= i < |cs| ==> Record(cs[i])
  }

  lemma {:induction false} EntriesConcat(a: seq<Block>, b: seq<Block>)
    ensures Entries(a + b) == Entries(a) + Entries(b)
  {
    hide Record, Live, NameOf, InodeOf;
    if a == [] {
      assert a + b == b;
    } else {
      assert (a + b)[1..] == a[1..] + b;
      EntriesConcat(a[1..], b);
    }
  }

  ghost predicate HasName(es: seq<Entry>, name: Block) {
    exists i :: 0 <= i < |es| && es[i].name == name
  }

  function Concat(cs: seq<Block>): Block {
    if cs == [] then [] else cs[0] + Concat(cs[1..])
  }

  lemma {:induction false} ConcatAppend(a: seq<Block>, b: seq<Block>)
    ensures Concat(a + b) == Concat(a) + Concat(b)
  {
    if a == [] {
      assert a + b == b;
    } else {
      assert (a + b)[1..] == a[1..] + b;
      ConcatAppend(a[1..], b);
    }
  }

  lemma ConcatOne(c: Block)
    ensures Concat([c]) == c
  {
    var one := [c];
    assert one[1..] == [];
  }

  // ---------- reading a block ----------

  datatype At = End | Bad | Rec(len: nat)

  /** `ext2_dirent_at`: what stands at `off`. */
  function RecordAt(b: Block, off: nat): (at: At)
    ensures at.Rec? ==> HDR <= at.len && off + at.len <= |b| && at.len % 4 == 0
  {
    if off + HDR > |b| then End
    else
      var len := LenOf(b[off..]);
      if len == 0 then End
      else if len < HDR || len % 4 != 0 || len > |b| || off + len > |b| then Bad
      else Rec(len)
  }

  datatype Parsed = Broken | Good(cs: seq<Block>)

  /** The records of a block from `off` on, or `Broken` if one of them cannot be trusted. */
  function Parse(b: Block, off: nat): (p: Parsed)
    requires |b| < 65536
    ensures p.Good? ==> forall i :: 0 <= i < |p.cs| ==> Record(p.cs[i])
    decreases |b| - off
  {
    match RecordAt(b, off)
    case End => Good([])
    case Bad => Broken
    case Rec(len) =>
      var c := b[off..off + len];
      HeaderSlice(b, off, len);
      if Live(c) && !(0 < NameLenOf(c) <= len - HDR) then Broken
      else
        var rest := Parse(b, off + len);
        if rest.Broken? then Broken else Good([c] + rest.cs)
  }

  lemma HeaderSlice(b: Block, off: nat, len: nat)
    requires HDR <= len && off + len <= |b|
    ensures LenOf(b[off..off + len]) == LenOf(b[off..]) && InodeOf(b[off..off + len]) == InodeOf(b[off..])
    ensures NameLenOf(b[off..off + len]) == NameLenOf(b[off..])
  {
    hide Decode;
    assert b[off..off + len][0..4] == b[off..][0..4];
  }

  /** Nothing that would read as a record stands in the tail. */
  predicate Tail(t: Block) {
    |t| < HDR || LenOf(t) == 0
  }

  /** A concatenation of records and a tail parses into just those records. */
  lemma {:induction false} ParseConcat(pre: Block, cs: seq<Block>, tail: Block)
    requires Records(cs) && Tail(tail) && |pre + Concat(cs) + tail| < 65536
    ensures Parse(pre + Concat(cs) + tail, |pre|) == Good(cs)
    decreases |cs|
  {
    hide Live, NameOf, InodeOf, LenOf, NameLenOf;
    var b := pre + Concat(cs) + tail;
    if cs == [] {
      assert b[|pre|..] == tail;
    } else {
      var c := cs[0];
      var rest := Concat(cs[1..]) + tail;
      assert Record(c);
      assert b == pre + (c + rest);
      assert b[|pre|..|pre| + |c|] == c;
      HeaderSlice(b, |pre|, |c|);
      assert b == (pre + c) + Concat(cs[1..]) + tail;
      ParseConcat(pre + c, cs[1..], tail);
    }
  }

  /** What parses is what is there: the records side by side, then a tail. */
  lemma {:induction false} ParseIsConcat(b: Block, off: nat)
    requires |b| < 65536 && off <= |b| && Parse(b, off).Good?
    ensures var cs := Parse(b, off).cs;
            off + |Concat(cs)| <= |b| && b[off..off + |Concat(cs)|] == Concat(cs) && Tail(b[off + |Concat(cs)|..])
    decreases |b| - off
  {
    hide Live, NameOf, InodeOf, LenOf, NameLenOf, Record;
    var cs := Parse(b, off).cs;
    if cs != [] {
      ParseIsConcat(b, off + |cs[0]|);
    }
  }

  /** A block whose records are followed by nothing but zeros. */
  ghost predicate WellFormed(b: Block) {
    && |b| < 65536
    && Parse(b, 0).Good?
    && |Concat(Parse(b, 0).cs)| <= |b|
    && AllZero(b[|Concat(Parse(b, 0).cs)|..])
  }

  /** `es'` is `es` with `e` put in somewhere. */
  ghost predicate Inserted(es: seq<Entry>, es': seq<Entry>, e: Entry) {
    exists k :: 0 <= k <= |es| && es' == es[..k] + [e] + es[k..]
  }

  // ---------- edits ----------

  /** A fresh record of `len` bytes. */
  function NewRecord(name: Block, inum: nat, fileType: Byte, len: nat): (c: Block)
    requires inum < WORD_LIMIT && len < 65536 && |name| < 256 && HDR + |name| <= len
    ensures |c| == len
  {
    Header(inum, len, |name|, fileType) + name + Zeros(len - HDR - |name|)
  }

  /** The bytes of a record: inode and length with the least significant byte first, the name, and zeros. */
  lemma NewRecordBytes(name: Block, inum: nat, fileType: Byte, len: nat)
    requires inum < WORD_LIMIT && len < 65536 && |name| < 256 && HDR + |name| <= len
    ensures var c := NewRecord(name, inum, fileType, len);
            && c[0] as int + 0x100 * c[1] as int + 0x1_0000 * c[2] as int + 0x100_0000 * c[3] as int == inum
            && c[4] as int + 0x100 * c[5] as int == len && c[6] == |name| && c[7] == fileType
            && c[8..8 + |name|] == name && forall i :: 8 + |name| <= i < len ==> c[i] == 0
  {
    hide Encode;
    var c, e := NewRecord(name, inum, fileType, len), Encode(inum);
    DecodeEncode(inum);
    assert c[0] == e[0] && c[1] == e[1] && c[2] == e[2] && c[3] == e[3];
  }

  lemma NewRecordIsRecord(name: Block, inum: nat, fileType: Byte, len: nat)
    requires 0 < inum < WORD_LIMIT && len < 65536 && 0 < |name| < 256 && HDR + |name| <= len && len % 4 == 0
    ensures var c := NewRecord(name, inum, fileType, len);
            Record(c) && Live(c) && NameOf(c) == name && InodeOf(c) == inum
    ensures Entries([NewRecord(name, inum, fileType, len)]) == [Entry(name, inum)]
  {
    hide Decode, Encode, InodeOf, LenOf, NameLenOf, Header;
    var rest := name + Zeros(len - HDR - |name|);
    var c := NewRecord(name, inum, fileType, len);
    assert c == Header(inum, len, |name|, fileType) + rest;
    HeaderParts(inum, len, |name|, fileType, rest);
    assert c[HDR..HDR + |name|] == c[HDR..][..|name|] == name;
    var one := [c];
    assert one[1..] == [];
  }

  lemma WellFormedBy(b: Block, cs: seq<Block>, tail: Block)
    requires |b| < 65536 && Parse(b, 0) == Good(cs) && b == Concat(cs) + tail
    ensures AllZero(tail) <==> WellFormed(b)
  {
    hide Parse, Concat;
    assert b[|Concat(cs)|..] == tail;
  }

  /** Records `a`, `m` and `z` side by side and a tail make up a block that parses into them. */
  lemma Assembled(a: seq<Block>, m: seq<Block>, z: seq<Block>, tail: Block, b: Block)
    requires Records(a) && Records(m) && Records(z) && Tail(tail)
    requires b == Concat(a) + Concat(m) + Concat(z) + tail && |b| < 65536
    ensures Parse(b, 0) == Good(a + m + z) && b == Concat(a + m + z) + tail
    ensures Entries(a + m + z) == Entries(a) + Entries(m) + Entries(z)
    ensures AllZero(tail) ==> WellFormed(b)
  {
    hide Record, Entries, Concat, Parse, AllZero, Tail, WellFormed;
    ConcatAppend(a, m);
    ConcatAppend(a + m, z);
    EntriesConcat(a, m);
    EntriesConcat(a + m, z);
    assert Records(a + m + z);
    assert b == [] + Concat(a + m + z) + tail;
    ParseConcat([], a + m + z, tail);
    WellFormedBy(b, a + m + z, tail);
  }

  // ---------- writing into the block ----------

  /** Copies `bytes` into the buffer at `off`. */
  method Put(buf: array<Byte>, off: nat, bytes: Block)
    requires off + |bytes| <= buf.Length
    modifies buf
    ensures buf[..] == old(buf[..off]) + bytes + old(buf[off + |bytes|..])
  {
    for i := 0 to |bytes|
      invariant buf[..off] == old(buf[..off])
      invariant buf[off..off + i] == bytes[..i]
      invariant buf[off + i..] == old(buf[off + i..])
    {
      buf[off + i] := bytes[i];
    }
    assert buf[..] == buf[..off] + buf[off..off + |bytes|] + buf[off + |bytes|..];
  }

  lemma SpliceInside(a: Block, c: Block, z: Block, k: nat, bytes: Block)
    requires k + |bytes| <= |c|
    ensures Splice(a + c + z, |a| + k, bytes) == a + Splice(c, k, bytes) + z
  {
    var b := a + c + z;
    assert b[..|a| + k] == a + c[..k];
    assert b[|a| + k + |bytes|..] == c[k + |bytes|..] + z;
  }

  method PutIn(buf: array<Byte>, ghost a: Block, ghost c: Block, ghost z: Block, off: nat, k: nat, bytes: Block)
    requires buf[..] == a + c + z && off == |a| && k + |bytes| <= |c|
    modifies buf
    ensures buf[..] == a + Splice(c, k, bytes) + z
  {
    SpliceInside(a, c, z, k, bytes);
    Put(buf, off + k, bytes);
  }

  lemma RecordByPatches(c: Block, h: Block, name: Block)
    requires |h| == HDR && HDR + |name| <= |c|
    ensures Splice(Splice(Splice(c, 0, Zeros(|c|)), 0, h), HDR, name) == h + name + Zeros(|c| - HDR - |name|)
  {
  }

  /** `ext2_dirent_write`: a whole record, zeros first. */
  method DirentWrite(buf: array<Byte>, off: nat, inum: nat, name: Block, fileType: Byte, hasType: bool, len: nat)
    requires inum < WORD_LIMIT && len < 65536 && |name| < 256 && HDR + |name| <= len && off + len <= buf.Length
    modifies buf
    ensures buf[..] == old(buf[..off]) + NewRecord(name, inum, if hasType then fileType else 0, len) + old(buf[off + len..])
    ensures buf[off + 6] == |name| && buf[off + 7] == if hasType then fileType else 0
    ensures buf[off + 8..off + 8 + |name|] == name && forall i :: off + 8 + |name| <= i < off + len ==> buf[i] == 0
  {
    NewRecordBytes(name, inum, if hasType then fileType else 0, len);
    hide Header, Splice, Zeros;
    ghost var a, c, z := buf[..off], buf[off..off + len], buf[off + len..];
    var h := Header(inum, len, |name|, if hasType then fileType else 0);
    assert buf[..] == a + c + z;
    PutIn(buf, a, c, z, off, 0, Zeros(len));
    PutIn(buf, a, Splice(c, 0, Zeros(len)), z, off, 0, h);
    PutIn(buf, a, Splice(Splice(c, 0, Zeros(len)), 0, h), z, off, HDR, name);
    RecordByPatches(c, h, name);
    RecordInBlock(buf[..], a, NewRecord(name, inum, if hasType then fileType else 0, len), z);
    assert buf[..][off + 8..off + 8 + |name|] == buf[off + 8..off + 8 + |name|];
  }

  lemma RecordInBlock(b: Block, a: Block, c: Block, z: Block)
    requires b == a + c + z
    ensures forall i :: 0 <= i < |c| ==> b[|a| + i] == c[i]
    ensures forall i, j :: 0 <= i <= j <= |c| ==> b[|a| + i..|a| + j] == c[i..j]
  {
  }

  method AllZeroFrom(buf: array<Byte>, off: nat) returns (zero: bool)
    requires off <= buf.Length
    ensures zero <==> AllZero(buf[off..])
  {
    zero := true;
    for i := off to buf.Length
      invariant zero && forall j :: off <= j < i ==> buf[j] == 0
    {
      if buf[i] != 0 {
        assert buf[off..][i - off] != 0;
        return false;
      }
    }
  }
}
