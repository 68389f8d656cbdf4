/**
  Reading and writing a regular file. Through the block tree, with its holes, a file is to look like one flat
  array of bytes: writes land where they are told, growing the array with zeros if need be, and reads give back
  what was written.
 */
module Ext2File {
  import opened Arith
  import opened Words
  import opened Ext2Tree
  import opened Ext2State
  import opened Ext2Room
  import opened Ext2Volume

  // ---------- the flat array a file stands for ----------

  /** `flat` with `data` written at `offset`, zeros filling any gap in between. */
  function Overwrite(flat: seq<Byte>, offset: nat, data: seq<Byte>): (flat': seq<Byte>)
    ensures |flat'| == if offset + |data| > |flat| then offset + |data| else |flat|
    ensures forall i :: 0 <= i < |data| ==> flat'[offset + i] == data[i]
    ensures forall i :: 0 <= i < |flat'| && (i < offset || i >= offset + |data|) ==>
              flat'[i] == if i < |flat| then flat[i] else 0
  {
    seq(if offset + |data| > |flat| then offset + |data| else |flat|,
        i => if offset <= i < offset + |data| then data[i - offset] else if 0 <= i < |flat| then flat[i] else 0)
  }

  /** At most `len` bytes of `flat` from `offset` on. */
  function Extract(flat: seq<Byte>, offset: nat, len: nat): (part: seq<Byte>)
    ensures |part| == if offset >= |flat| then 0 else if len > |flat| - offset then |flat| - offset else len
    ensures forall i :: 0 <= i < |part| ==> part[i] == flat[offset + i]
  {
    if offset >= |flat| then []
    else if len > |flat| - offset then flat[offset..]
    else flat[offset..offset + len]
  }

  // ---------- the bytes of the inode ----------

  /** Byte `i` of the file: of the block mapped there, or zero in a hole. */
  ghost function ByteAt(s: State, i: nat): Byte {
    var b := s.Mapped(Quot(i, s.bs));
    if b != 0 && b < |s.disk| && Rem(i, s.bs) < |s.disk[b]| then s.disk[b][Rem(i, s.bs)] else 0
  }

  /** The `n` bytes from byte `pos` on. */
  ghost function Window(s: State, pos: nat, n: nat): (w: seq<Byte>)
    ensures |w| == n && forall j :: 0 <= j < n ==> w[j] == ByteAt(s, pos + j)
  {
    seq<Byte>(n, j requires 0 <= j => ByteAt(s, pos + j))
  }

  ghost function Content(s: State, size: nat): seq<Byte> {
    Window(s, 0, size)
  }

  ghost predicate SameBytes(s: State, s': State) {
    forall i: nat :: ByteAt(s', i) == ByteAt(s, i)
  }

  /** Nothing but zeros lies past the size. */
  ghost predicate SlackZero(s: State, size: nat) {
    forall i: nat :: i >= size ==> ByteAt(s, i) == 0
  }

  lemma SameContent(s: State, s': State, size: nat)
    requires SameBytes(s, s')
    ensures Content(s', size) == Content(s, size)
    ensures SlackZero(s, size) ==> SlackZero(s', size)
  {
    hide ByteAt;
  }

  lemma MappedBlock(s: State, index: nat)
    requires s.Sound() && s.Mapped(index) != 0
    ensures var b := s.Mapped(index);
            && index < Capacity(s.Apb()) && b in s.own && s.own[b] == PosOf(index, s.Apb())
            && b < |s.disk| && |s.disk[b]| == s.bs
  {
    hide AddrsPerBlock, NodeAt, Entry, NoEntries, Capacity, BlockSlot;
    MappedIsNode(s, index);
    NodeOwner(s, PosOf(index, s.Apb()));
  }

  /** Two logical blocks never share a physical one. */
  lemma MappedOnce(s: State, i: nat, j: nat)
    requires s.Sound() && s.Mapped(i) == s.Mapped(j) != 0
    ensures i == j
  {
    hide AddrsPerBlock, NodeAt, Entry, NoEntries, Capacity, BlockSlot, State.Mapped, State.Sound;
    MappedBlock(s, i);
    MappedBlock(s, j);
    SlotOfIndex(i, s.Apb());
    SlotOfIndex(j, s.Apb());
  }

  /** Mapping and data unchanged but for one hole, filled with zeros or made a hole again. */
  lemma HoleFilled(s: State, s': State, index: nat)
    requires s.Sound() && s'.Sound() && DataKept(s, s')
    requires forall i: nat :: i != index ==> s'.Mapped(i) == s.Mapped(i)
    requires s.Mapped(index) == 0 || s'.Mapped(index) == s.Mapped(index)
    requires s.Mapped(index) == 0 && s'.Mapped(index) != 0 ==> s'.Mapped(index) < |s'.disk| && AllZero(s'.disk[s'.Mapped(index)])
    ensures SameBytes(s, s')
  {
    hide AddrsPerBlock, NodeAt, Entry, NoEntries, Capacity, BlockSlot, Quot, Rem, State.Mapped, State.Sound,
         State.NoEmpty;
    forall i: nat
      ensures ByteAt(s', i) == ByteAt(s, i)
    {
      var q := Quot(i, s.bs);
      if s.Mapped(q) != 0 {
        MappedBlock(s, q);
        MappedBlock(s', q);
        PosIsLeaf(q, s.Apb());
      }
    }
  }

  lemma PosIsLeaf(index: nat, apb: nat)
    requires apb > 0
    ensures IsLeaf(PosOf(index, apb))
  {
  }

  // ---------- writing the data ----------

  /** `chunk` is written into the block mapped at `index`, `within` bytes into it. */
  ghost function Patched(s: State, index: nat, within: nat, chunk: seq<Byte>): State
    requires s.Mapped(index) < |s.disk| && within + |chunk| <= |s.disk[s.Mapped(index)]|
  {
    var b := s.Mapped(index);
    s.(disk := s.disk[b := Splice(s.disk[b], within, chunk)])
  }

  lemma DataWriteKeeps(s: State, b: nat, block: Block)
    requires s.Sound() && s.NoEmpty() && b in s.own && IsLeaf(s.own[b]) && |block| == s.bs
    ensures b < |s.disk|
    ensures var s' := s.(disk := s.disk[b := block]);
            s'.Sound() && s'.NoEmpty() && forall i: nat :: s'.Mapped(i) == s.Mapped(i)
  {
    hide AddrsPerBlock, NodeAt, Entry, NoEntries, BlockSlot;
    var s' := s.(disk := s.disk[b := block]);
    RepFramed(s.disk, s'.disk, s.slots, s.own, s.Apb());
    forall i: nat
      ensures s'.Mapped(i) == s.Mapped(i)
    {
      if i < Capacity(s.Apb()) {
        SlotOfIndex(i, s.Apb());
      }
    }
  }

  lemma BlockOfByte(i: nat, index: nat, bs: nat, r: nat)
    requires bs > 0 && r < bs && i == index * bs + r
    ensures Quot(i, bs) == index && Rem(i, bs) == r
  {
    QuotientIsUnique(i, bs, index, r);
  }

  /** A chunk written into one block changes the bytes of its window and no others. */
  lemma PatchedBytes(s: State, index: nat, within: nat, chunk: seq<Byte>, i: nat)
    requires s.Sound() && s.NoEmpty() && s.Mapped(index) != 0 && within + |chunk| <= s.bs
    ensures s.Mapped(index) < |s.disk| && |s.disk[s.Mapped(index)]| == s.bs
    ensures ByteAt(Patched(s, index, within, chunk), i)
         == var from := index * s.bs + within; if from <= i < from + |chunk| then chunk[i - from] else ByteAt(s, i)
  {
    hide AddrsPerBlock, NodeAt, Entry, NoEntries, Capacity, BlockSlot, Quot, Rem, State.Mapped, State.Sound,
         State.NoEmpty;
    MappedBlock(s, index);
    PosIsLeaf(index, s.Apb());
    var b := s.Mapped(index);
    var s' := Patched(s, index, within, chunk);
    DataWriteKeeps(s, b, s'.disk[b]);
    var q, r := Quot(i, s.bs), Rem(i, s.bs);
    DivMod(i, s.bs);
    if q == index {
      assert i - index * s.bs == r;
    } else {
      if s.Mapped(q) == b {
        MappedOnce(s, q, index);
      }
      OutsideWindow(i, q, index, s.bs, r);
    }
  }

  /** `s'` holds `data` at `offset`, and elsewhere what `s` holds. */
  ghost predicate Written(s: State, s': State, offset: int, data: seq<Byte>) {
    forall i: nat :: ByteAt(s', i) == if offset <= i < offset + |data| then data[i - offset] else ByteAt(s, i)
  }

  /** A chunk put into the block mapped at `index`: all is in order, and `at` is where its bytes go. */
  lemma ChunkLands(s: State, mid: State, index: nat, within: nat, chunk: seq<Byte>)
    requires SameBytes(s, mid) && mid.Sound() && mid.NoEmpty() && mid.Mapped(index) != 0 && within + |chunk| <= mid.bs
    ensures mid.Mapped(index) < |mid.disk| && |mid.disk[mid.Mapped(index)]| == mid.bs
    ensures var s' := Patched(mid, index, within, chunk);
            && s'.Sound() && s'.NoEmpty() && (forall i: nat :: s'.Mapped(i) == mid.Mapped(i))
            && Written(s, s', index * mid.bs + within, chunk)
  {
    hide AddrsPerBlock, NodeAt, Entry, NoEntries, Capacity, Quot, Rem, State.Mapped, State.Sound, State.NoEmpty,
         ByteAt, Splice;
    hide SameBytes, IsLeaf;
    MappedBlock(mid, index);
    PosIsLeaf(index, mid.Apb());
    DataWriteKeeps(mid, mid.Mapped(index), Splice(mid.disk[mid.Mapped(index)], within, chunk));
    forall i: nat
      ensures ByteAt(Patched(mid, index, within, chunk), i)
           == var from := index * mid.bs + within; if from <= i < from + |chunk| then chunk[i - from] else ByteAt(s, i)
    {
      PatchedBytes(mid, index, within, chunk, i);
      SameByte(s, mid, i);
    }
  }

  lemma WholeSplice(block: Block, chunk: Block)
    requires |chunk| == |block|
    ensures Splice(block, 0, chunk) == chunk
  {
  }

  lemma OutsideWindow(i: nat, q: nat, index: nat, bs: nat, r: nat)
    requires i == q * bs + r && r < bs && q != index
    ensures i < index * bs || i >= index * bs + bs
  {
    MulMono(q + 1, index, bs);
    MulMono(index + 1, q, bs);
    Distribute(q, 1, bs);
    Distribute(index, 1, bs);
  }

  lemma SameDisk(s: State, s': State)
    requires s'.disk == s.disk && s'.slots == s.slots && s'.bs == s.bs
    ensures SameBytes(s, s') && forall i: nat :: s'.Mapped(i) == s.Mapped(i)
  {
    hide NodeAt, Capacity, Quot, Rem;
  }

  lemma SameBytesTrans(s: State, s': State, s'': State)
    requires SameBytes(s, s') && SameBytes(s', s'')
    ensures SameBytes(s, s'')
  {
    hide ByteAt;
  }

  lemma SameWindow(s: State, s': State, pos: nat, n: nat)
    requires SameBytes(s, s')
    ensures Window(s', pos, n) == Window(s, pos, n)
  {
    hide ByteAt;
  }

  lemma WindowAppend(s: State, pos: nat, n: nat, m: nat)
    ensures Window(s, pos, n) + Window(s, pos + n, m) == Window(s, pos, n + m)
  {
    hide ByteAt;
    var a, b, c := Window(s, pos, n), Window(s, pos + n, m), Window(s, pos, n + m);
    forall j | 0 <= j < n + m
      ensures (a + b)[j] == c[j]
    {
      if j >= n {
        assert b[j - n] == ByteAt(s, pos + n + (j - n));
      }
    }
  }

  lemma WindowOfContent(s: State, size: nat, pos: nat, n: nat)
    requires pos + n <= size
    ensures Content(s, size)[pos..pos + n] == Window(s, pos, n)
  {
    hide ByteAt;
    var c, w := Content(s, size), Window(s, pos, n);
    forall j | 0 <= j < n
      ensures c[pos..pos + n][j] == w[j]
    {
      assert c[pos + j] == ByteAt(s, 0 + (pos + j));
    }
  }

  /** The bytes a read takes from one block, or from a hole. */
  lemma ChunkBytes(s: State, pos: nat, chunk: nat)
    requires s.Sound() && Rem(pos, s.bs) + chunk <= s.bs
    ensures var b := s.Mapped(Quot(pos, s.bs));
            var within := Rem(pos, s.bs);
            if b == 0 then Window(s, pos, chunk) == Zeros(chunk)
            else b < |s.disk| && |s.disk[b]| == s.bs && Window(s, pos, chunk) == s.disk[b][within..within + chunk]
  {
    hide AddrsPerBlock, NodeAt, Entry, NoEntries, Capacity, Quot, Rem, State.Mapped, State.Sound;
    var index, within := Quot(pos, s.bs), Rem(pos, s.bs);
    DivMod(pos, s.bs);
    if s.Mapped(index) != 0 {
      MappedBlock(s, index);
    }
    var w := Window(s, pos, chunk);
    forall j | 0 <= j < chunk
      ensures w[j] == if s.Mapped(index) != 0 then s.disk[s.Mapped(index)][within + j] else 0
    {
      BlockOfByte(pos + j, index, s.bs, within + j);
      assert w[j] == ByteAt(s, pos + j);
    }
  }

  // ---------- the file ----------

  const INT_MAX := 0x7FFF_FFFF
  const SIZE_LIMIT := 0x1_0000_0000   // one past the largest size_t

  function Clamped(len: nat): nat {
    if len > INT_MAX then INT_MAX else len
  }

  /** With 32-bit offsets no logical block lies past the ones the tree can hold. */
  lemma OffsetsFit(i: nat, bs: BlockSize)
    requires i < 2 * SIZE_LIMIT
    ensures Quot(i, bs) < Capacity(AddrsPerBlock(bs))
  {
    var apb := AddrsPerBlock(bs);
    MulMono(256, apb, apb);
    assert Square(apb) >= 65536;
    MulMono(65536, Square(apb), apb);
    assert apb * Square(apb) >= apb * 65536 >= 16777216;
    DivMod(i, bs);
    var q := Quot(i, bs);
    MulMono(1024, bs, q);
    assert q * 1024 <= i;
  }

  /** The positions on the ways to the blocks of bytes `offset` up to `end` at which the tree has no block yet. */
  ghost function Lacking(s: State, offset: nat, end: nat): set<Pos>
    requires offset < end
  {
    Missing(s.own, Ways(Quot(offset, s.bs), Quot(end - 1, s.bs) + 1, s.Apb()))
  }

  /** From `s` to `now` the tree has got blocks at just the positions of `w` that it lacked, each a free one. */
  ghost predicate Taken(s: State, now: State, w: set<Pos>) {
    && FreeCount(now.bitmap, now.first) + |now.own| == FreeCount(s.bitmap, s.first) + |s.own|
    && Extends(s.own, now.own, w) && Single(now.own) && forall q :: q in w ==> Owned(now.own, q)
  }

  lemma TakenNone(s: State, lo: nat)
    requires s.Sound()
    ensures Taken(s, s, Ways(lo, lo, s.Apb()))
  {
    hide State.Sound, Single;
    SingleOwn(s);
  }

  lemma TakenNext(s: State, before: State, now: State, lo: nat, index: nat)
    requires lo <= index && before.bs == s.bs && Taken(s, before, Ways(lo, index, s.Apb()))
    requires Taken(before, now, Way(PosOf(index, s.Apb())))
    ensures Taken(s, now, Ways(lo, index + 1, s.Apb()))
  {
    hide Extends, Single, Owned, Way, Ways, FreeCount;
    WaysNext(lo, index, s.Apb());
    ExtendsTwice(s.own, before.own, now.own, Ways(lo, index, s.Apb()), Way(PosOf(index, s.Apb())));
    OwnedInBoth(before.own, now.own, Ways(lo, index, s.Apb()), Way(PosOf(index, s.Apb())));
  }

  /** When the way to a block lacks more than is free, the whole run does. */
  lemma TakenShort(s: State, before: State, lo: nat, index: nat, hi: nat)
    requires lo <= index < hi && Taken(s, before, Ways(lo, index, s.Apb()))
    requires FreeCount(before.bitmap, before.first) < |Missing(before.own, Way(PosOf(index, s.Apb())))|
    ensures FreeCount(s.bitmap, s.first) < |Missing(s.own, Ways(lo, hi, s.Apb()))|
  {
    hide Extends, Single, Owned, Way, Ways, FreeCount, Missing;
    WaysNext(lo, index, s.Apb());
    WaysGrow(lo, index + 1, hi, s.Apb());
    MissingMore(s.own, before.own, Ways(lo, index, s.Apb()), Way(PosOf(index, s.Apb())), Ways(lo, hi, s.Apb()));
  }

  lemma TakenAll(s: State, now: State, w: set<Pos>)
    requires Taken(s, now, w)
    ensures |Missing(s.own, w)| <= FreeCount(s.bitmap, s.first)
  {
    hide Extends, Single, Owned, FreeCount, Missing;
    ExtraCount(s.own, now.own, w);
  }

  lemma WaysNext(lo: nat, index: nat, apb: nat)
    requires apb > 0 && lo <= index
    ensures Ways(lo, index + 1, apb) == Ways(lo, index, apb) + Way(PosOf(index, apb))
  {
    hide Way;
  }

  lemma QuotMono(a: nat, b: nat, d: nat)
    requires a <= b && d > 0
    ensures Quot(a, d) <= Quot(b, d)
  {
    hide Quot, Rem;
    DivMod(a, d);
    DivBound(b, d, Quot(a, d));
  }

  /** Where the next chunk starts, and which block the last byte of this one is in. */
  lemma ChunkEnds(p: nat, chunk: nat, bs: nat)
    requires bs > 0 && 0 < chunk <= bs - Rem(p, bs)
    ensures Quot(p + chunk - 1, bs) == Quot(p, bs)
    ensures chunk == bs - Rem(p, bs) ==> Quot(p + chunk, bs) == Quot(p, bs) + 1
  {
    hide Quot, Rem;
    DivMod(p, bs);
    QuotientIsUnique(p + chunk - 1, bs, Quot(p, bs), Rem(p, bs) + chunk - 1);
    if chunk == bs - Rem(p, bs) {
      Distribute(Quot(p, bs), 1, bs);
      QuotientIsUnique(p + chunk, bs, Quot(p, bs) + 1, 0);
    }
  }

  /** The holes of `s` listed in `claimed` may be mapped in `s'`; every other logical block is as it was. */
  ghost predicate Claimed(s: State, s': State, claimed: seq<nat>) {
    && s'.bs == s.bs && |s'.disk| == |s.disk|
    && (forall i: nat :: i !in claimed ==> s'.Mapped(i) == s.Mapped(i))
    && (forall i :: 0 <= i < |claimed| ==>
          claimed[i] < |s.disk| && claimed[i] < Capacity(s.Apb()) && s.Mapped(claimed[i]) == 0)
  }

  lemma ClaimedNone(s: State)
    ensures Claimed(s, s, [])
  {
  }

  lemma ClaimStep(s: State, before: State, s': State, claimed: seq<nat>, index: nat, made: bool)
    requires Claimed(s, before, claimed) && s'.bs == s.bs && |s'.disk| == |s.disk|
    requires index < |s.disk| && index < Capacity(s.Apb())
    requires forall i: nat :: i != index ==> s'.Mapped(i) == before.Mapped(i)
    requires if made then before.Mapped(index) == 0 else s'.Mapped(index) == before.Mapped(index)
    ensures made ==> Claimed(s, s', claimed + [index])
    ensures !made ==> Claimed(s, s', claimed)
  {
    hide State.Mapped, Capacity, AddrsPerBlock;
    if made {
      assert s.Mapped(index) == 0;
    }
  }

  lemma ClaimedHole(s: State, before: State, s': State, claimed: seq<nat>, index: nat)
    requires Claimed(s, before, claimed) && before.Mapped(index) == 0
    requires s'.bs == s.bs && |s'.disk| == |s.disk| && forall i: nat :: s'.Mapped(i) == before.Mapped(i)
    ensures s.Mapped(index) == 0 && Claimed(s, s', claimed)
  {
    hide State.Mapped, Capacity, AddrsPerBlock;
  }

  lemma InsideVolume(p: nat, bs: BlockSize, n: nat)
    requires p < Times(n, bs) && p < 2 * SIZE_LIMIT
    ensures Quot(p, bs) < n && Quot(p, bs) < Capacity(AddrsPerBlock(bs))
  {
    hide Capacity, Quot, AddrsPerBlock;
    DivBound(p, bs, n);
    OffsetsFit(p, bs);
  }

  function Sum32(a: nat, b: nat): nat {
    (a + b) % SIZE_LIMIT
  }

  /** The index at which a directory of `size` bytes grows, by the 32-bit sum of `ext2_dirent_add`. */
  function NextIndex(size: nat, bs: BlockSize): nat {
    Quot(Sum32(size, bs - 1), bs)
  }

  /**
    A directory no longer than the volume grows at an index the tree can hold; it is the block count, which the rollback
    refuses, exactly when the size reaches into the last block of the volume.
   */
  lemma DirectoryGrows(size: nat, bs: BlockSize, n: nat)
    requires size < SIZE_LIMIT && size <= Times(n, bs) && n > 0
    ensures NextIndex(size, bs) <= n && NextIndex(size, bs) < Capacity(AddrsPerBlock(bs))
    ensures NextIndex(size, bs) == n <==> size + bs - 1 < SIZE_LIMIT && Times(n, bs) < size + bs
  {
    hide Capacity, Quot, AddrsPerBlock, Times;
    var sum := Sum32(size, bs - 1);
    assert 0 <= sum < SIZE_LIMIT && sum < size + bs && (sum == size + bs - 1 || sum < bs);
    OffsetsFit(sum, bs);
    TimesNext(n, bs);
    GrowsAt(sum, bs, n);
    GrowsAt(sum, bs, n + 1);
    TimesOfMore(n, bs);
  }

  lemma GrowsAt(sum: nat, bs: nat, n: nat)
    requires bs > 0
    ensures Quot(sum, bs) < n <==> sum < Times(n, bs)
  {
    hide Quot, Times;
    DivBound(sum, bs, n);
    TimesIsProduct(n, bs);
  }

  lemma TimesOfMore(n: nat, bs: nat)
    requires n > 0
    ensures bs <= Times(n, bs)
  {
    hide Times;
    TimesNext(n - 1, bs);
  }

  lemma MappedRun(before: State, s: State, index: nat, p: nat, chunk: nat)
    requires s.bs == before.bs && index == Quot(p, s.bs) && Rem(p, s.bs) + chunk <= s.bs && s.Mapped(index) != 0
    requires forall i: nat :: i != index ==> s.Mapped(i) == before.Mapped(i)
    ensures forall i: nat :: p <= i < p + chunk ==> s.Mapped(Quot(i, s.bs)) != 0
    ensures forall i: nat :: before.Mapped(Quot(i, s.bs)) != 0 ==> s.Mapped(Quot(i, s.bs)) != 0
  {
    hide Quot, Rem, State.Mapped;
    DivMod(p, s.bs);
    forall i: nat | p <= i < p + chunk
      ensures Quot(i, s.bs) == index
    {
      BlockOfByte(i, index, s.bs, Rem(p, s.bs) + (i - p));
    }
  }

  lemma SameTreeSameMap(s: State, s': State, index: nat)
    requires s.Sound() && s'.Sound() && s.bs == s'.bs && s.own == s'.own
    ensures s'.Mapped(index) == s.Mapped(index)
  {
    hide AddrsPerBlock, NodeAt, Entry, NoEntries, Capacity, BlockSlot;
    MappedIsNode(s, index);
    MappedIsNode(s', index);
    if index < Capacity(s.Apb()) {
      NodeOwner(s, PosOf(index, s.Apb()));
      NodeOwner(s', PosOf(index, s.Apb()));
    }
  }

  lemma SameByte(s: State, s': State, i: nat)
    requires SameBytes(s, s')
    ensures ByteAt(s', i) == ByteAt(s, i)
  {
    hide ByteAt;
  }

  /** With zeros past the size, a write makes of the file what it makes of the flat array. */
  lemma WrittenContent(s: State, ready: State, done: State, size: nat, size': nat, offset: nat, data: seq<Byte>)
    requires SameBytes(s, ready) && Written(ready, done, offset, data) && SlackZero(s, size)
    requires size' == if offset + |data| > size then offset + |data| else size
    ensures Content(done, size') == Overwrite(Content(s, size), offset, data) && SlackZero(done, size')
  {
    hide ByteAt;
    var c, flat := Content(done, size'), Content(s, size);
    forall i | 0 <= i < size'
      ensures c[i] == Overwrite(flat, offset, data)[i]
    {
      assert c[i] == ByteAt(done, 0 + i);
      if i < size {
        assert flat[i] == ByteAt(s, 0 + i);
      }
    }
  }

  lemma WrittenStep(s: State, before: State, s': State, offset: nat, data: seq<Byte>, done: nat, chunk: nat)
    requires done + chunk <= |data| && Written(s, before, offset, data[..done])
    requires Written(before, s', offset + done, data[done..done + chunk])
    ensures Written(s, s', offset, data[..done + chunk])
  {
    hide ByteAt;
  }

  lemma ClaimedAt(s: State, s': State, claimed: seq<nat>)
    requires Claimed(s, s', claimed) && claimed != []
    ensures claimed[0] < |s'.disk| && claimed[0] < Capacity(s'.Apb()) && s.Mapped(claimed[0]) == 0
  {
    hide State.Mapped, Capacity, AddrsPerBlock;
  }

  lemma NothingClaimed(s: State, s': State)
    requires Claimed(s, s', [])
    ensures (forall i: nat :: s'.Mapped(i) == s.Mapped(i)) && |s'.disk| == |s.disk|
  {
    hide State.Mapped, Capacity, AddrsPerBlock;
  }

  /** One claimed block is released: its logical block is a hole again, the others stay. */
  lemma UnclaimStep(s: State, before: State, s': State, claimed: seq<nat>)
    requires Claimed(s, before, claimed) && claimed != [] && SameBytes(s, before)
    requires before.Sound() && s'.Sound() && DataKept(before, s')
    requires Released(before.own, s'.own, PosOf(claimed[0], s'.Apb()))
    ensures Claimed(s, s', claimed[1..]) && SameBytes(s, s')
  {
    hide AddrsPerBlock, NodeAt, Entry, NoEntries, Capacity, Quot, Rem, ByteAt, SameBytes, DataKept, State.Mapped,
         State.Sound;
    var index := claimed[0];
    SameGeometry(before, s');
    OthersMapped(s', before, index);
    HoleAgain(before, s', index);
    forall i: nat | i !in claimed[1..]
      ensures s'.Mapped(i) == s.Mapped(i)
    {
    }
    HoleCut(s, before, s', index);
  }

  lemma HoleAgain(before: State, s': State, index: nat)
    requires before.Sound() && s'.Sound() && Released(before.own, s'.own, PosOf(index, s'.Apb())) && before.bs == s'.bs
    ensures s'.Mapped(index) == 0
  {
    hide AddrsPerBlock, NodeAt, Entry, NoEntries, Capacity, BlockSlot;
    MappedIsNode(s', index);
    if index < Capacity(s'.Apb()) {
      NodeOwner(s', PosOf(index, s'.Apb()));
    }
  }

  /** A block that holds what the hole in `s` reads as can go without any byte changing. */
  lemma HoleCut(s: State, before: State, s': State, index: nat)
    requires before.Sound() && s'.Sound() && DataKept(before, s') && s.bs == before.bs
    requires SameBytes(s, before) && s.Mapped(index) == 0 == s'.Mapped(index)
    requires forall i: nat :: i != index ==> before.Mapped(i) == s'.Mapped(i)
    ensures SameBytes(s, s')
  {
    hide AddrsPerBlock, NodeAt, Entry, NoEntries, Capacity, BlockSlot, Quot, Rem, State.Mapped, State.Sound;
    forall i: nat
      ensures ByteAt(s', i) == ByteAt(s, i)
    {
      var q := Quot(i, s.bs);
      assert ByteAt(before, i) == ByteAt(s, i);
      if q != index && before.Mapped(q) != 0 {
        MappedBlock(before, q);
        MappedBlock(s', q);
        PosIsLeaf(q, s.Apb());
      }
    }
  }

  class File {
    const v: Volume
    const large: bool     // the volume keeps 64-bit sizes
    var size: nat

    constructor (v: Volume, size: nat, large: bool)
      ensures this.v == v && this.size == size && this.large == large
    {
      this.v, this.size, this.large := v, size, large;
    }

    ghost predicate Valid()
      reads this, v
    {
      v.Valid() && SlackZero(v.S(), size)
    }

    ghost function Bytes(): seq<Byte>
      reads this, v
    {
      Content(v.S(), size)
    }

    /**
      When bytes `offset` up to `end` can be written: they lie within the volume, the size can be recorded, and there
      are as many free blocks as the tree lacks, data and indirect, on the ways to their blocks.
     */
    ghost predicate Fits(s: State, was: nat, offset: nat, end: nat) {
      && offset < end <= Times(|s.disk|, s.bs) && (end > was && !large ==> end < SIZE_LIMIT)
      && |Lacking(s, offset, end)| <= FreeCount(s.bitmap, s.first)
    }

    /** The part of a read that lies in one block: its bytes, or zeros for a hole. */
    method ReadChunk(pos: nat, chunk: nat) returns (part: seq<Byte>)
      requires v.Valid() && Rem(pos, v.bs) + chunk <= v.bs
      modifies v`cached, v`cachedBuf
      ensures v.Valid() && SameBytes(old(v.S()), v.S())
      ensures part == Window(v.S(), pos, chunk)
    {
      hide AddrsPerBlock, NodeAt, Entry, NoEntries, Capacity, Quot, Rem, ByteAt, Times;
      hide State.Mapped, State.Sound, State.NoEmpty;
      ghost var s := v.S();
      var index, within := Quot(pos, v.bs), Rem(pos, v.bs);
      var ok, phys := v.MapBlock(index);
      SameDisk(s, v.S());
      ChunkBytes(v.S(), pos, chunk);
      if ok {
        return v.disk[phys][within..within + chunk];
      }
      // inside the file but unmapped: a hole
      return Zeros(chunk);
    }

    /** Reads up to `len` bytes from `offset`; `stamp` says that the access time moves and the inode is written. */
    method Read(len: nat, offset: nat, stamp: bool) returns (buf: seq<Byte>)
      requires Valid() && len < SIZE_LIMIT && offset < SIZE_LIMIT
      modifies v`cached, v`cachedBuf, v`bitmap, v`pending
      ensures Valid() && Bytes() == old(Bytes())
      ensures buf == Extract(Bytes(), offset, Clamped(len))
      ensures var n := if len > 0x7FFF_FFFF then 0x7FFF_FFFF else len;
              |buf| == if offset >= size then 0 else if n > size - offset then size - offset else n
      ensures forall i :: 0 <= i < |buf| ==> buf[i] == Bytes()[offset + i]
    {
      hide AddrsPerBlock, NodeAt, Entry, NoEntries, Capacity, Quot, Rem, ByteAt, SameBytes, Times;
      hide State.Mapped, State.Sound, State.NoEmpty;
      ghost var s := v.S();
      buf := [];
      SameDisk(s, s);
      if offset < size {
        var n := Clamped(len);
        if n > size - offset {
          n := size - offset;
        }
        var pos := offset;
        while |buf| < n
          invariant pos == offset + |buf| && |buf| <= n
          invariant v.Valid() && SameBytes(s, v.S())
          invariant buf == Window(s, offset, |buf|)
          decreases n - |buf|
        {
          var within := Rem(pos, v.bs);
          DivMod(pos, v.bs);
          var chunk := v.bs - within;
          if chunk > n - |buf| {
            chunk := n - |buf|;
          }
          ghost var before := v.S();
          var part := ReadChunk(pos, chunk);
          SameBytesTrans(s, before, v.S());
          SameWindow(s, v.S(), pos, chunk);
          WindowAppend(s, offset, |buf|, chunk);
          buf := buf + part;
          pos := pos + chunk;
        }
        WindowOfContent(s, size, offset, n);
      }
      if stamp {
        v.PendingFreeFlush();
      }
      SameDisk(s, v.S());
      SameContent(s, v.S(), size);
      assert buf == Extract(Content(s, size), offset, Clamped(len));
    }

    /** The block of one logical block of a write, made if it is a hole; `made` says that it was. */
    method MapOne(index: nat) returns (ok: bool, made: bool)
      requires v.Valid() && index < |v.disk| && index < Capacity(v.Apb())
      modifies v
      ensures v.Valid() && SameBytes(old(v.S()), v.S()) && |v.disk| == |old(v.disk)|
      ensures forall i: nat :: i != index ==> v.S().Mapped(i) == old(v.S()).Mapped(i)
      ensures ok ==> v.S().Mapped(index) != 0
      ensures made <==> ok && old(v.S()).Mapped(index) == 0
      ensures !made ==> v.S().Mapped(index) == old(v.S()).Mapped(index)
      ensures !ok ==> !v.HasFree(v.bitmap) && v.S().Mapped(index) == 0
      ensures ok ==> Taken(old(v.S()), v.S(), Way(PosOf(index, v.Apb())))
      ensures !ok ==> old(FreeCount(v.bitmap, v.first)) < |Missing(old(v.own), Way(PosOf(index, v.Apb())))|
    {
      hide AddrsPerBlock, NodeAt, Entry, NoEntries, Capacity, Quot, Rem, ByteAt, Times, DataKept, CutAlong, SameBytes;
      hide State.Mapped, State.Sound, State.NoEmpty, FreeCount, Extends, Single, Owned, Way, Missing;
      ghost var s := v.S();
      var phys: nat;
      ok, phys := v.MapBlock(index);
      SameDisk(s, v.S());
      if ok {
        NothingCut(s, PosOf(index, v.Apb()));
        AllOnWay(s, v.S(), index);
        return true, false;
      }
      ghost var mid := v.S();
      ok, phys := v.MapBlockAlloc(index);
      made := ok;
      SameGeometry(mid, v.S());
      if !ok {
        SameTreeSameMap(mid, v.S(), index);
      } else {
        AllOnWay(s, v.S(), index);
      }
      HoleFilled(mid, v.S(), index);
      SameBytesTrans(s, mid, v.S());
    }

    /**
      The first pass of a write: every logical block of the range is mapped, made if it is a hole. It goes through
      exactly when there are as many free blocks as the tree lacks on the ways to the blocks of the range.
     */
    method MapRange(offset: nat, end: nat) returns (ok: bool, claimed: seq<nat>)
      requires v.Valid() && offset < end <= Times(|v.disk|, v.bs) && end < 2 * SIZE_LIMIT
      modifies v
      ensures v.Valid() && SameBytes(old(v.S()), v.S()) && |v.disk| == |old(v.disk)|
      ensures ok ==> forall i: nat :: offset <= i < end ==> v.S().Mapped(Quot(i, v.bs)) != 0
      ensures !ok ==> !v.HasFree(v.bitmap) && exists i: nat :: offset <= i < end && old(v.S()).Mapped(Quot(i, v.bs)) == 0
      ensures Claimed(old(v.S()), v.S(), claimed)
      ensures ok <==> |Lacking(old(v.S()), offset, end)| <= old(FreeCount(v.bitmap, v.first))
    {
      hide AddrsPerBlock, NodeAt, Entry, NoEntries, Capacity, Quot, Rem, ByteAt, Times, SameBytes;
      hide State.Mapped, State.Sound, State.NoEmpty, FreeCount, Taken, Way, Ways, Missing, Claimed;
      ghost var s := v.S();
      ghost var lo := Quot(offset, v.bs);
      ghost var next, hi := lo, Quot(end - 1, v.bs) + 1;
      claimed := [];
      SameDisk(s, s);
      ClaimedNone(s);
      TakenNone(s, lo);
      var p := offset;
      while p < end
        invariant offset <= p <= end && |v.disk| == |s.disk|
        invariant v.Valid() && SameBytes(s, v.S()) && Claimed(s, v.S(), claimed)
        invariant forall i: nat :: offset <= i < p ==> v.S().Mapped(Quot(i, v.bs)) != 0
        invariant lo <= next && (p < end ==> next == Quot(p, v.bs)) && (p == end ==> next == hi)
        invariant Taken(s, v.S(), Ways(lo, next, v.Apb()))
        decreases end - p
      {
        var index, within := Quot(p, v.bs), Rem(p, v.bs);
        DivMod(p, v.bs);
        var chunk := v.bs - within;
        if chunk > end - p {
          chunk := end - p;
        }
        InsideVolume(p, v.bs, |v.disk|);
        ghost var before := v.S();
        var made: bool;
        ok, made := MapOne(index);
        SameBytesTrans(s, before, v.S());
        if !ok {
          assert before.Mapped(Quot(p, v.bs)) == 0;
          ClaimedHole(s, before, v.S(), claimed, index);
          QuotMono(p, end - 1, v.bs);
          TakenShort(s, before, lo, index, hi);
          return;
        }
        ClaimStep(s, before, v.S(), claimed, index, made);
        if made {
          claimed := claimed + [index];
        }
        MappedRun(before, v.S(), index, p, chunk);
        TakenNext(s, before, v.S(), lo, index);
        ChunkEnds(p, chunk, v.bs);
        p := p + chunk;
        next := index + 1;
      }
      ok := true;
      TakenAll(s, v.S(), Ways(lo, next, v.Apb()));
    }

    /** Undoes a write that could not go through: what it mapped becomes holes again. */
    method Unclaim(claimed: seq<nat>, ghost s: State)
      requires v.Valid() && SameBytes(s, v.S()) && Claimed(s, v.S(), claimed)
      modifies v
      ensures v.Valid() && SameBytes(s, v.S()) && |v.disk| == |s.disk|
      ensures forall i: nat :: v.S().Mapped(i) == s.Mapped(i)
    {
      hide AddrsPerBlock, NodeAt, Entry, NoEntries, Capacity, Quot, Rem, ByteAt, Times, SameBytes, DataKept, Released;
      hide State.Mapped, State.Sound, State.NoEmpty, UnfinishedAt, Claimed;
      var freed: nat := 0;
      ghost var full := |v.own|;
      for n := 0 to |claimed|
        invariant v.S().Sound() && v.S().NoEmpty() && SameBytes(s, v.S()) && Claimed(s, v.S(), claimed[n..])
        invariant v.sectors == Times(full, v.Spb()) && |v.own| + freed == full
      {
        ghost var before := v.S();
        ClaimedAt(s, before, claimed[n..]);
        var ok, got := v.FreeSlot(claimed[n], 0);
        freed := freed + got;
        SameGeometry(before, v.S());
        UnclaimStep(s, before, v.S(), claimed[n..]);
        assert claimed[n..][1..] == claimed[n + 1..];
      }
      if freed > 0 {
        var drop := freed * v.Spb();
        TimesAdd(|v.own|, freed, v.Spb());
        v.sectors := if drop > v.sectors then 0 else v.sectors - drop;
      }
      assert claimed[|claimed|..] == [];
      NothingClaimed(s, v.S());
      ghost var last := v.S();
      assert v.sectors == Times(|v.own|, v.Spb());
      assert v.S().Sound() && v.S().NoEmpty();
      v.PendingFreeFlush();
      SameDisk(last, v.S());
      SameBytesTrans(s, last, v.S());
    }

    /** Puts a chunk into the block mapped at `index`: the whole block at once, or read, patched and written back. */
    method WriteChunk(index: nat, within: nat, chunk: seq<Byte>)
      requires v.Valid() && v.S().Mapped(index) != 0 && within + |chunk| <= v.bs
      modifies v
      ensures v.Valid() && v.S().bs == old(v.S()).bs
      ensures forall i: nat :: v.S().Mapped(i) == old(v.S()).Mapped(i)
      ensures Written(old(v.S()), v.S(), index * v.bs + within, chunk)
    {
      hide AddrsPerBlock, NodeAt, Entry, NoEntries, Capacity, Quot, Rem, ByteAt, Times, SameBytes, Splice, Written;
      hide State.Mapped, State.Sound, State.NoEmpty;
      ghost var s := v.S();
      var ok, phys := v.MapBlock(index);
      ghost var mid := v.S();
      SameDisk(s, mid);
      ChunkLands(s, mid, index, within, chunk);
      var tmp: Block;
      if within == 0 && |chunk| == v.bs {
        tmp := chunk;
        WholeSplice(v.disk[phys], chunk);
      } else {
        tmp := v.disk[phys];
        tmp := Splice(tmp, within, chunk);
      }
      v.disk := v.disk[phys := tmp];
      assert v.S() == Patched(mid, index, within, chunk);
    }

    /** The last pass of a write: the data lands in the mapped blocks, one block at a time. */
    method WriteData(data: seq<Byte>, offset: nat)
      requires v.Valid()
      requires forall i: nat :: offset <= i < offset + |data| ==> v.S().Mapped(Quot(i, v.bs)) != 0
      modifies v
      ensures v.Valid()
      ensures Written(old(v.S()), v.S(), offset, data)
    {
      hide AddrsPerBlock, NodeAt, Entry, NoEntries, Capacity, Quot, Rem, ByteAt, Times, SameBytes;
      hide State.Mapped, State.Sound, State.NoEmpty;
      ghost var s := v.S();
      var done, pos := 0, offset;
      assert data[..0] == [];
      while done < |data|
        invariant done <= |data| && pos == offset + done
        invariant v.Valid() && forall i: nat :: v.S().Mapped(i) == s.Mapped(i)
        invariant Written(s, v.S(), offset, data[..done])
        decreases |data| - done
      {
        var index, within := Quot(pos, v.bs), Rem(pos, v.bs);
        DivMod(pos, v.bs);
        var chunk := v.bs - within;
        if chunk > |data| - done {
          chunk := |data| - done;
        }
        ghost var before := v.S();
        WriteChunk(index, within, data[done..done + chunk]);
        WrittenStep(s, before, v.S(), offset, data, done, chunk);
        done := done + chunk;
        pos := pos + chunk;
      }
      assert data[..done] == data;
    }

    /**
      Writes `buf` at `offset`. All of it lands exactly when it ends within the volume, the new size can be recorded
      and there are as many free blocks as the tree needs more; else none of it does and the file reads as before.
     */
    method Write(buf: seq<Byte>, offset: nat) returns (rc: int)
      requires Valid() && |buf| < SIZE_LIMIT && offset < SIZE_LIMIT
      modifies this, v
      ensures Valid()
      ensures rc == -1 || rc == Clamped(|buf|)
      ensures rc == -1 || rc == if |buf| > 0x7FFF_FFFF then 0x7FFF_FFFF else |buf|
      ensures rc >= 0 ==> Bytes() == if rc == 0 then old(Bytes()) else Overwrite(old(Bytes()), offset, buf[..rc])
      ensures rc < 0 ==> Bytes() == old(Bytes())
      ensures rc >= 0 <==> buf == [] || Fits(old(v.S()), old(size), offset, offset + Clamped(|buf|))
    {
      hide AddrsPerBlock, NodeAt, Entry, NoEntries, Capacity, Quot, Rem, ByteAt, Times, SameBytes, Window;
      hide State.Mapped, State.Sound, State.NoEmpty, Claimed, Written, FreeCount, Lacking;
      ghost var s, flat := v.S(), Bytes();
      if |buf| == 0 {
        return 0;
      }
      var n := Clamped(|buf|);
      var end := offset + n;
      TimesIsProduct(|v.disk|, v.bs);
      if end > |v.disk| * v.bs {
        return -1;
      }
      var ok, claimed := MapRange(offset, end);
      if !ok || (end > size && !large && end > 0xFFFF_FFFF) {
        if claimed != [] {
          Unclaim(claimed, s);
        }
        SameContent(s, v.S(), size);
        return -1;
      }
      ghost var mapped, size0 := v.S(), size;
      var wroteMeta := false;
      if claimed != [] || end > size {
        if end > size {
          size := end;
        }
        v.PendingFreeFlush();
        wroteMeta := true;
      }
      ghost var ready := v.S();
      SameDisk(mapped, ready);
      SameBytesTrans(s, mapped, ready);
      WriteData(buf[..n], offset);
      ghost var done := v.S();
      if !wroteMeta {
        v.PendingFreeFlush();
      }
      SameDisk(done, v.S());
      WrittenContent(s, ready, done, size0, size, offset, buf[..n]);
      SameContent(done, v.S(), size);
      return n;
    }
  }

  // ---------- runs ----------

  datatype Op = ReadOp(len: nat, at: nat, stamp: bool) | WriteOp(buf: seq<Byte>, at: nat)

  predicate OpOk(op: Op) {
    op.at < SIZE_LIMIT && if op.ReadOp? then op.len < SIZE_LIMIT else |op.buf| < SIZE_LIMIT
  }

  /** The flat array after one operation; `rc` is what a write returned. */
  function FlatStep(flat: seq<Byte>, op: Op, rc: int): seq<Byte> {
    match op
    case ReadOp(_, _, _) => flat
    case WriteOp(buf, at) => if 0 < rc <= |buf| then Overwrite(flat, at, buf[..rc]) else flat
  }

  /** What a run of operations on the flat array reads, one entry an operation. */
  function FlatReads(flat: seq<Byte>, ops: seq<Op>, rcs: seq<int>): seq<seq<Byte>>
    requires |ops| == |rcs|
    decreases |ops|
  {
    if ops == [] then []
    else
      var op, rc := ops[0], rcs[0];
      [if op.ReadOp? then Extract(flat, op.at, Clamped(op.len)) else []] + FlatReads(FlatStep(flat, op, rc), ops[1..], rcs[1..])
  }

  lemma {:induction false} FlatReadsAppend(flat: seq<Byte>, ops: seq<Op>, rcs: seq<int>, op: Op, rc: int)
    requires |ops| == |rcs|
    ensures |FlatReads(flat, ops, rcs)| == |ops|
    ensures FlatReads(flat, ops + [op], rcs + [rc])
         == FlatReads(flat, ops, rcs)
          + [if op.ReadOp? then Extract(FlatAfter(flat, ops, rcs), op.at, Clamped(op.len)) else []]
    ensures FlatAfter(flat, ops + [op], rcs + [rc]) == FlatStep(FlatAfter(flat, ops, rcs), op, rc)
    decreases |ops|
  {
    hide Extract, FlatStep;
    if ops != [] {
      assert (ops + [op])[1..] == ops[1..] + [op] && (rcs + [rc])[1..] == rcs[1..] + [rc];
      FlatReadsAppend(FlatStep(flat, ops[0], rcs[0]), ops[1..], rcs[1..], op, rc);
    }
  }

  function FlatAfter(flat: seq<Byte>, ops: seq<Op>, rcs: seq<int>): seq<Byte>
    requires |ops| == |rcs|
    decreases |ops|
  {
    if ops == [] then flat else FlatAfter(FlatStep(flat, ops[0], rcs[0]), ops[1..], rcs[1..])
  }

  /** What was written is read back, and a window the write did not touch reads as before. */
  lemma ReadBack(flat: seq<Byte>, offset: nat, data: seq<Byte>, from: nat, n: nat)
    requires data != []
    ensures Extract(Overwrite(flat, offset, data), offset, |data|) == data
    ensures from + n <= offset && from + n <= |flat| ==> Extract(Overwrite(flat, offset, data), from, n) == Extract(flat, from, n)
    ensures from >= offset + |data| ==> Extract(Overwrite(flat, offset, data), from, n) == Extract(flat, from, n)
    ensures |flat| <= from && from + n <= offset && n > 0 ==> Extract(Overwrite(flat, offset, data), from, n) == Zeros(n)
  {
  }

  lemma FlatNone(flat: seq<Byte>)
    ensures FlatReads(flat, [], []) == [] && FlatAfter(flat, [], []) == flat
  {
  }

  /** A state of a run. */
  datatype View = View(s: State, size: nat)

  /** A write returns how much it was asked to write, clamped, exactly when it fits. */
  ghost predicate Explained(f: File, op: Op, rc: int, v: View) {
    match op
    case ReadOp(_, _, _) => rc == 0
    case WriteOp(buf, at) =>
      rc == if buf == [] || f.Fits(v.s, v.size, at, at + Clamped(|buf|)) then Clamped(|buf|) else -1
  }

  /**
    Any run of reads and writes reads exactly what the same run on a flat byte array reads, and every write in it goes
    through exactly when it fits.
   */
  method Run(f: File, ops: seq<Op>) returns (got: seq<seq<Byte>>, rcs: seq<int>, ghost trace: seq<View>)
    requires f.Valid() && forall i :: 0 <= i < |ops| ==> OpOk(ops[i])
    modifies f, f.v
    ensures f.Valid() && |rcs| == |ops| && |trace| == |ops| + 1
    ensures got == FlatReads(old(f.Bytes()), ops, rcs)
    ensures trace[0] == View(old(f.v.S()), old(f.size)) && trace[|ops|] == View(f.v.S(), f.size)
    ensures forall i :: 0 <= i <= |ops| ==> Content(trace[i].s, trace[i].size) == FlatAfter(old(f.Bytes()), ops[..i], rcs[..i])
    ensures forall i :: 0 <= i < |ops| ==> Explained(f, ops[i], rcs[i], trace[i])
    ensures |got| == |ops|
    ensures forall i :: 0 <= i < |ops| && ops[i].ReadOp? ==>
              var n, flat := if ops[i].len > 0x7FFF_FFFF then 0x7FFF_FFFF else ops[i].len, Content(trace[i].s, trace[i].size);
              && |got[i]| == (if ops[i].at >= |flat| then 0 else if n > |flat| - ops[i].at then |flat| - ops[i].at else n)
              && forall j :: 0 <= j < |got[i]| ==> got[i][j] == flat[ops[i].at + j]
  {
    hide Extract, Overwrite, Clamped, FlatReads, FlatAfter, File.Valid, File.Fits, OpOk, Content;
    ghost var flat := f.Bytes();
    FlatNone(flat);
    got, rcs := [], [];
    trace := [View(f.v.S(), f.size)];
    assert ops[..0] == [] && rcs[..0] == [];
    for i := 0 to |ops|
      invariant f.Valid() && |rcs| == i && |trace| == i + 1
      invariant got == FlatReads(flat, ops[..i], rcs)
      invariant trace[0] == View(old(f.v.S()), old(f.size)) && trace[i] == View(f.v.S(), f.size)
      invariant forall j :: 0 <= j <= i ==> Content(trace[j].s, trace[j].size) == FlatAfter(flat, ops[..j], rcs[..j])
      invariant forall j :: 0 <= j < i ==> Explained(f, ops[j], rcs[j], trace[j])
      invariant |got| == i && forall j :: 0 <= j < i && ops[j].ReadOp? ==>
                  got[j] == Extract(Content(trace[j].s, trace[j].size), ops[j].at, Clamped(ops[j].len))
    {
      assert ops[..i + 1] == ops[..i] + [ops[i]] && rcs[..i] == rcs;
      ghost var was := rcs;
      match ops[i] {
        case ReadOp(len, at, stamp) =>
          OpFits(ops[i]);
          var part := f.Read(len, at, stamp);
          FlatReadsAppend(flat, ops[..i], rcs, ops[i], 0);
          got, rcs := got + [part], rcs + [0];
        case WriteOp(buf, at) =>
          OpFits(ops[i]);
          var rc := f.Write(buf, at);
          ClampedIsSmaller(|buf|);
          FlatReadsAppend(flat, ops[..i], rcs, ops[i], rc);
          got, rcs := got + [[]], rcs + [rc];
      }
      trace := trace + [View(f.v.S(), f.size)];
      assert rcs[..i + 1] == rcs && forall j :: 0 <= j <= i ==> rcs[..j] == was[..j];
    }
    assert ops[..|ops|] == ops && rcs[..|ops|] == rcs;
    ClampedAtIntMax();
  }

  lemma OpFits(op: Op)
    requires OpOk(op)
    ensures op.at < SIZE_LIMIT && if op.ReadOp? then op.len < SIZE_LIMIT else |op.buf| < SIZE_LIMIT
  {
  }

  lemma ClampedAtIntMax()
    ensures forall n: nat :: Clamped(n) == if n > 0x7FFF_FFFF then 0x7FFF_FFFF else n
  {
  }

  lemma ClampedIsSmaller(n: nat)
    ensures Clamped(n) <= n
  {
  }
}
