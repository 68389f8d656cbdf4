/** Byte windows over a device that only moves whole blocks. */
module BlockBytes {
  import opened Arith
  import opened Words

  datatype Status = Ok | Invalid | IoError

  class BlockDev {
    const blks: nat          // bytes in a device block
    const count: nat         // blocks on the device
    const writable: bool     // the driver has a write operation
    var bytes: seq<Byte>     // what the device holds

    ghost predicate Valid()
      reads this
    {
      blks > 0 && |bytes| == Times(count, blks)
    }

    /** The driver's read: whole blocks, or an I/O error. */
    method ReadBlocks(start: nat, n: nat) returns (rc: Status, buf: seq<Byte>)
      requires Valid() && start + n <= count
      ensures rc == Ok || rc == IoError
      ensures rc == Ok ==> Times(start + n, blks) <= |bytes| && buf == bytes[Times(start, blks)..Times(start + n, blks)]
    {
      hide Times;
      var fails: bool := *;
      if fails {
        return IoError, [];
      }
      TimesMono(start, start + n, blks);
      TimesMono(start + n, count, blks);
      return Ok, bytes[Times(start, blks)..Times(start + n, blks)];
    }

    /** The driver's write: whole blocks, or an I/O error that leaves the device as it was. */
    method WriteBlocks(start: nat, buf: seq<Byte>, n: nat) returns (rc: Status)
      requires Valid() && start + n <= count && |buf| == Times(n, blks)
      modifies this
      ensures Valid() && (rc == Ok || rc == IoError)
      ensures rc != Ok ==> bytes == old(bytes)
      ensures rc == Ok ==> Times(start, blks) + |buf| <= |old(bytes)| && bytes == Splice(old(bytes), Times(start, blks), buf)
    {
      hide Times;
      var fails: bool := *;
      if fails {
        return IoError;
      }
      TimesMono(start + n, count, blks);
      TimesSum(start, n, blks);
      bytes := Splice(bytes, Times(start, blks), buf);
      return Ok;
    }

    /** Reads `len` bytes from any offset: straight into the caller's buffer when aligned, else through a scratch copy. */
    method BlockReadBytes(offset: nat, len: nat) returns (rc: Status, buf: seq<Byte>)
      requires Valid()
      ensures rc == Ok && len > 0 ==> offset + len <= |bytes| && buf == bytes[offset..offset + len]
      ensures rc == Ok && len == 0 ==> buf == []
      ensures rc == Invalid <==> len > 0 && offset + len > |bytes|
    {
      hide Times, Quot, Rem;
      if len == 0 {
        return Ok, [];
      }
      var startblk := Quot(offset, blks);
      var endblk := Quot(offset + len - 1, blks);
      Covers(offset, len, blks);
      var blkc := endblk - startblk + 1;
      DivBound(offset + len - 1, blks, count);
      TimesIsProduct(count, blks);
      if endblk >= count {
        return Invalid, [];
      }
      if Rem(offset, blks) == 0 && Rem(len, blks) == 0 {
        AlignedCount(offset, len, blks);
        rc, buf := ReadBlocks(startblk, Quot(len, blks));
        return;
      }
      var scratch: seq<Byte>;
      rc, scratch := ReadBlocks(startblk, blkc);
      if rc == Ok {
        var skip := offset - Times(startblk, blks);
        buf := scratch[skip..skip + len];
      } else {
        buf := [];
      }
    }

    /** Writes bytes at any offset; a block the window covers only in part is read, patched and written whole. */
    method BlockWriteBytes(offset: nat, buf: seq<Byte>) returns (rc: Status)
      requires Valid()
      modifies this
      ensures Valid()
      ensures rc == Ok && |buf| > 0 ==> offset + |buf| <= |old(bytes)| && bytes == Splice(old(bytes), offset, buf)
      ensures rc == Ok && |buf| > 0 ==> forall i :: 0 <= i < |bytes| ==>
                bytes[i] == if offset <= i < offset + |buf| then buf[i - offset] else old(bytes)[i]
      ensures rc != Ok || |buf| == 0 ==> bytes == old(bytes)
      ensures rc == Invalid <==> |buf| > 0 && (!writable || offset + |buf| > |old(bytes)|)
    {
      hide Times, Quot, Rem, Splice;
      var len := |buf|;
      if len == 0 {
        return Ok;
      }
      if !writable {
        return Invalid;
      }
      var startblk := Quot(offset, blks);
      var endblk := Quot(offset + len - 1, blks);
      Covers(offset, len, blks);
      var blkc := endblk - startblk + 1;
      DivBound(offset + len - 1, blks, count);
      TimesIsProduct(count, blks);
      if endblk >= count {
        return Invalid;
      }
      if Rem(offset, blks) == 0 && Rem(len, blks) == 0 {
        AlignedCount(offset, len, blks);
        rc := WriteBlocks(startblk, buf, Quot(len, blks));
        if rc == Ok {
          SpliceAt(old(bytes), offset, buf);
        }
        return;
      }
      var scratch: seq<Byte>;
      rc, scratch := ReadBlocks(startblk, blkc);
      if rc == Ok {
        var skip := offset - Times(startblk, blks);
        scratch := Splice(scratch, skip, buf);
        TimesSum(startblk, blkc, blks);
        rc := WriteBlocks(startblk, scratch, blkc);
        if rc == Ok {
          PatchThroughScratch(old(bytes), Times(startblk, blks), Times(blkc, blks), skip, buf);
          SpliceAt(old(bytes), offset, buf);
        }
      }
    }
  }

  lemma TimesMono(a: nat, b: nat, d: nat)
    requires a <= b
    ensures Times(a, d) <= Times(b, d)
  {
    MulMono(a, b, d);
  }

  lemma TimesSum(a: nat, b: nat, d: nat)
    ensures Times(a + b, d) == Times(a, d) + Times(b, d)
  {
    Distribute(a, b, d);
  }

  /** The blocks from the first to the last one touched cover the window. */
  lemma Covers(offset: nat, len: nat, blks: nat)
    requires blks > 0 && len > 0
    ensures var startblk, endblk := Quot(offset, blks), Quot(offset + len - 1, blks);
            startblk <= endblk && Times(startblk, blks) <= offset && offset + len <= Times(endblk + 1, blks)
  {
    hide Quot, Rem;
    var startblk, endblk := Quot(offset, blks), Quot(offset + len - 1, blks);
    DivMod(offset, blks);
    DivMod(offset + len - 1, blks);
    TimesSum(endblk, 1, blks);
    MulMono(endblk + 1, startblk, blks);
    Distribute(endblk, 1, blks);
  }

  lemma AlignedCount(offset: nat, len: nat, blks: nat)
    requires blks > 0 && len > 0 && Rem(offset, blks) == 0 && Rem(len, blks) == 0
    ensures var startblk, endblk := Quot(offset, blks), Quot(offset + len - 1, blks);
            && Times(startblk, blks) == offset && Times(startblk + Quot(len, blks), blks) == offset + len
            && Times(Quot(len, blks), blks) == len && startblk + Quot(len, blks) == endblk + 1
  {
    hide Quot, Rem;
    var a, n := Quot(offset, blks), Quot(len, blks);
    DivMod(offset, blks);
    DivMod(len, blks);
    TimesSum(a, n, blks);
    Distribute(a + n, -1, blks);
    QuotientIsUnique(offset + len - 1, blks, a + n - 1, blks - 1);
  }

  /** Patching a copied run of blocks and putting it back patches the device. */
  lemma PatchThroughScratch(bytes: seq<Byte>, from: nat, n: nat, skip: nat, data: seq<Byte>)
    requires from + n <= |bytes| && skip + |data| <= n
    ensures Splice(bytes, from, Splice(bytes[from..from + n], skip, data)) == Splice(bytes, from + skip, data)
  {
  }

  // ---------- the volume's blocks as windows ----------

  /** The device seen as blocks of `bs` bytes, the way the filesystem numbers them. */
  ghost function View(bytes: seq<Byte>, bs: BlockSize): seq<Block> {
    seq(Quot(|bytes|, bs), b requires 0 <= b < Quot(|bytes|, bs) =>
      (BlockInside(b, |bytes|, bs); bytes[Times(b, bs)..Times(b, bs) + bs]))
  }

  lemma BlockInside(b: nat, n: nat, bs: BlockSize)
    requires b < Quot(n, bs)
    ensures Times(b, bs) + bs <= n
  {
    hide Quot, Rem;
    DivMod(n, bs);
    MulMono(b + 1, Quot(n, bs), bs);
    Distribute(b, 1, bs);
  }

  /** Reading one block's window gives that block of the view. */
  lemma ReadIsBlock(bytes: seq<Byte>, bs: BlockSize, b: nat)
    requires b < Quot(|bytes|, bs)
    ensures Times(b, bs) + bs <= |bytes| && bytes[Times(b, bs)..Times(b, bs) + bs] == View(bytes, bs)[b]
  {
    hide Quot, Rem, Times;
    BlockInside(b, |bytes|, bs);
  }

  /** Writing one block's window changes that block of the view and no other. */
  lemma WriteIsUpdate(bytes: seq<Byte>, bs: BlockSize, b: nat, data: Block)
    requires b < Quot(|bytes|, bs) && |data| == bs
    ensures Times(b, bs) + bs <= |bytes|
    ensures View(Splice(bytes, Times(b, bs), data), bs) == View(bytes, bs)[b := data]
  {
    hide Quot, Rem, Times;
    BlockInside(b, |bytes|, bs);
    var bytes' := Splice(bytes, Times(b, bs), data);
    forall c | 0 <= c < Quot(|bytes|, bs)
      ensures View(bytes', bs)[c] == View(bytes, bs)[b := data][c]
    {
      BlockInside(c, |bytes|, bs);
      Apart(b, c, bs);
      if c == b {
        assert bytes'[Times(b, bs)..Times(b, bs) + bs] == data;
      } else {
        assert bytes'[Times(c, bs)..Times(c, bs) + bs] == bytes[Times(c, bs)..Times(c, bs) + bs];
      }
    }
  }

  lemma Apart(b: nat, c: nat, bs: nat)
    ensures b < c ==> Times(b, bs) + bs <= Times(c, bs)
    ensures c < b ==> Times(c, bs) + bs <= Times(b, bs)
  {
    MulMono(b + 1, c, bs);
    MulMono(c + 1, b, bs);
    Distribute(b, 1, bs);
    Distribute(c, 1, bs);
  }
}
