/**
  The block allocator: block groups with a bitmap each, one bitmap block held in a write-back cache, free counts
  in the superblock and in the group descriptors, and frees queued until a flush.

  The device may fail any transfer; a failed write leaves it as it was.
 */
module Ext2Bitmap {
  import opened Arith
  import opened Bits

  const UINT16_MAX := 0xFFFF
  const UINT32_MAX := 0xFFFF_FFFF

  /**
    The layout of the volume: bytes in a block, blocks in all and in a group, the first block that counts, where
    each group's bitmap lives, and the first block of group 0 past its tables.
   */
  datatype Geo = Geo(bs: nat, total: nat, bpg: nat, base: nat, bitmapAt: seq<nat>, firstAlloc: nat) {

    predicate Ok() {
      && 1024 <= bs <= 4096 && total <= UINT32_MAX && bpg > 0 && bitmapAt != []
      && (forall g :: 0 <= g < |bitmapAt| ==> 0 < bitmapAt[g] < total)
      && (forall g, h :: 0 <= g < h < |bitmapAt| ==> bitmapAt[g] != bitmapAt[h])
    }

    function Groups(): nat {
      |bitmapAt|
    }

    /** `ext2_group_blocks`: the last group may be short, and a group past the end is empty. */
    function GroupBlocks(g: nat): nat {
      var start := Times(g, bpg) + base;
      if start >= total then 0 else if total - start > bpg then bpg else total - start
    }

    /** How many blocks of the group its one bitmap block can speak for. */
    function Avail(g: nat): (n: nat)
      ensures n <= 8 * bs && n <= GroupBlocks(g)
    {
      if GroupBlocks(g) > 8 * bs then 8 * bs else GroupBlocks(g)
    }

    function BlockAt(g: nat, i: nat): nat {
      Times(g, bpg) + base + i
    }

    /** Bit `i` of group `g` stands for a block that may be handed out. */
    predicate Usable(g: nat, i: nat) {
      g < Groups() && i < Avail(g) && !(g == 0 && BlockAt(g, i) < firstAlloc)
    }
  }

  /** The cache is empty when `cached` is 0, else it holds block `cached - 1`. */
  datatype State = State(
    geo: Geo,
    disk: seq<BitBlock>,
    buf: BitBlock,
    cached: nat,
    dirty: bool,
    sbFree: nat,
    gdFree: seq<nat>,
    pending: seq<nat>)
  {
    ghost predicate Shaped() {
      && geo.Ok() && |disk| == geo.total && |buf| == geo.bs
      && forall b :: 0 <= b < |disk| ==> |disk[b]| == geo.bs
    }

    /** The bitmap of group `g`: the cached copy if it is the one cached, else what the disk holds. */
    ghost function Bitmap(g: nat): (block: BitBlock)
      requires Shaped() && g < geo.Groups()
      ensures |block| == geo.bs
    {
      if cached == geo.bitmapAt[g] + 1 then buf else disk[geo.bitmapAt[g]]
    }

    ghost function GroupBits(g: nat): (bits: seq<bool>)
      requires Shaped() && g < geo.Groups()
      ensures |bits| == geo.Avail(g)
    {
      BitsOf(Bitmap(g), geo.Avail(g))
    }

    /** The logical bitmap, group by group. */
    ghost function Logical(): (groups: seq<seq<bool>>)
      requires Shaped()
      ensures |groups| == geo.Groups()
      ensures forall g :: 0 <= g < |groups| ==> groups[g] == GroupBits(g)
    {
      seq(geo.Groups(), g requires 0 <= g < geo.Groups() => GroupBits(g))
    }

    ghost predicate CacheOk()
      requires Shaped()
    {
      && (cached != 0 ==> exists g :: 0 <= g < geo.Groups() && cached == geo.bitmapAt[g] + 1)
      && (cached != 0 && !dirty ==> cached - 1 < |disk| && buf == disk[cached - 1])
      && (dirty ==> cached != 0)
    }

    /** The free counts are the numbers of clear bits of `groups`. */
    ghost predicate Counted(groups: seq<seq<bool>>) {
      && |gdFree| == |groups|
      && sbFree == ClearIn(groups)
      && forall g :: 0 <= g < |groups| ==> gdFree[g] == Clear(groups[g])
    }

    /** No bitmap block is itself up for use. */
    ghost predicate TablesHeld(groups: seq<seq<bool>>) {
      forall g, i :: 0 <= g < |groups| && 0 <= i < |groups[g]| ==>
        geo.Usable(g, i) && geo.BlockAt(g, i) in geo.bitmapAt ==> groups[g][i]
    }

    ghost predicate TablesNotQueued() {
      forall n :: 0 <= n < |pending| ==> pending[n] !in geo.bitmapAt
    }

    /** The cache is the disk's, or newer and to be written, and the counts are those of the logical bitmap. */
    ghost predicate Sound() {
      Shaped() && CacheOk() && Counted(Logical())
    }

    /** Everything but what is queued. */
    ghost predicate Core() {
      Sound() && TablesHeld(Logical())
    }

    ghost predicate Valid() {
      Core() && TablesNotQueued()
    }
  }

  /** The bytes of every group's bitmap are the same, cached or not. */
  ghost predicate SameBitmaps(s: State, s': State)
    requires s.Shaped() && s'.Shaped()
  {
    s'.geo == s.geo && forall g :: 0 <= g < s.geo.Groups() ==> s'.Bitmap(g) == s.Bitmap(g)
  }

  lemma SameBitmapsTwice(s: State, t: State, u: State)
    requires s.Shaped() && t.Shaped() && u.Shaped() && SameBitmaps(s, t) && SameBitmaps(t, u)
    ensures SameBitmaps(s, u)
  {
    hide Geo.Ok, State.Bitmap;
  }

  lemma SameBitmapsAt(s: State, s': State, g: nat)
    requires s.Shaped() && s'.Shaped() && SameBitmaps(s, s') && g < s.geo.Groups()
    ensures s'.Bitmap(g) == s.Bitmap(g)
  {
  }

  /** A bit of the logical bitmap in the bytes of its group's bitmap. */
  lemma LogicalIsBytes(s: State, g: nat, i: nat)
    requires s.Shaped() && g < s.geo.Groups() && i < s.geo.Avail(g)
    ensures s.Logical()[g][i] <==> (s.Bitmap(g)[i / 8] >> (i % 8)) & 1 == 1
  {
    hide BitsOf, Geo.Avail, State.Bitmap;
    BitsAt(s.Bitmap(g), i, s.geo.Avail(g));
    BitInByte(s.Bitmap(g), i);
  }

  function Blank(n: nat): (block: BitBlock)
    ensures |block| == n
  {
    seq(n, _ => 0)
  }

  // ---------- what cache traffic does to the logical bitmap: nothing ----------

  ghost function Synced(s: State): State
    requires s.cached != 0 && s.cached - 1 < |s.disk|
  {
    s.(disk := s.disk[s.cached - 1 := s.buf], dirty := false)
  }

  lemma SyncedSame(s: State)
    requires s.Shaped() && s.CacheOk() && s.dirty
    ensures s.cached != 0 && s.cached - 1 < |s.disk|
    ensures var s' := Synced(s); s'.Shaped() && s'.CacheOk() && s'.Logical() == s.Logical() && SameBitmaps(s, s')
  {
    hide BitsOf, Geo.Avail;
    var s' := Synced(s);
    forall g | 0 <= g < s.geo.Groups()
      ensures s'.GroupBits(g) == s.GroupBits(g)
    {
    }
  }

  lemma LoadedSame(s: State, g: nat)
    requires s.Shaped() && s.CacheOk() && !s.dirty && g < s.geo.Groups()
    ensures var s' := s.(buf := s.disk[s.geo.bitmapAt[g]], cached := s.geo.bitmapAt[g] + 1);
            s'.Shaped() && s'.CacheOk() && s'.Logical() == s.Logical() && SameBitmaps(s, s')
  {
    hide BitsOf, Geo.Avail;
    var s' := s.(buf := s.disk[s.geo.bitmapAt[g]], cached := s.geo.bitmapAt[g] + 1);
    forall h | 0 <= h < s.geo.Groups()
      ensures s'.GroupBits(h) == s.GroupBits(h)
    {
    }
  }

  /** A failed read spoils the buffer, so the cache is given up. */
  lemma SpoiledSame(s: State, junk: BitBlock)
    requires s.Shaped() && s.CacheOk() && !s.dirty && |junk| == s.geo.bs
    ensures var s' := s.(buf := junk, cached := 0);
            s'.Shaped() && s'.CacheOk() && s'.Logical() == s.Logical() && SameBitmaps(s, s')
  {
    hide BitsOf, Geo.Avail;
    var s' := s.(buf := junk, cached := 0);
    forall h | 0 <= h < s.geo.Groups()
      ensures s'.GroupBits(h) == s.GroupBits(h)
    {
    }
  }

  /** Changing a bit of the cached bitmap changes that bit of the logical one. */
  lemma BitChanged(s: State, g: nat, i: nat, v: bool)
    requires s.Shaped() && s.CacheOk() && g < s.geo.Groups() && i < s.geo.Avail(g)
    requires s.cached == s.geo.bitmapAt[g] + 1
    ensures var s' := s.(buf := if v then SetBit(s.buf, i) else ClearBit(s.buf, i), dirty := true);
            && s'.Shaped() && s'.CacheOk()
            && s'.Logical() == s.Logical()[g := s.Logical()[g][i := v]]
    ensures BitAt(s.buf, i) == s.Logical()[g][i]
  {
    hide BitsOf, SetBit, ClearBit, BitAt, Geo.Avail, Geo.Ok;
    var s' := s.(buf := if v then SetBit(s.buf, i) else ClearBit(s.buf, i), dirty := true);
    BitsChanged(s.buf, i, s.geo.Avail(g));
    BitsAt(s.buf, i, s.geo.Avail(g));
    GeoOk(s.geo);
    forall h | 0 <= h < s.geo.Groups()
      ensures s'.GroupBits(h) == if h == g then s.GroupBits(g)[i := v] else s.GroupBits(h)
    {
    }
  }

  lemma BitsAt(block: BitBlock, i: nat, n: nat)
    requires i < n <= 8 * |block|
    ensures BitsOf(block, n)[i] == BitAt(block, i)
  {
  }

  /** Setting a clear bit of the cached bitmap, in the bytes of its group's bitmap. */
  lemma TakenInBytes(was: State, s: State, s': State, g: nat, i: nat)
    requires was.Shaped() && s.Shaped() && s'.Shaped() && s'.geo == s.geo && g < s.geo.Groups() && i < s.geo.Avail(g)
    requires SameBitmaps(was, s)
    requires s.cached == s'.cached == s.geo.bitmapAt[g] + 1 && !BitAt(s.buf, i) && s'.buf == SetBit(s.buf, i)
    ensures ByteTaken(was.Bitmap(g), s'.Bitmap(g), i)
  {
    hide BitAt, SetBit, Geo.Ok, Geo.Avail;
    SetInByte(s.buf, i);
  }

  /** Clearing a set bit of the cached bitmap, in the bytes of its group's bitmap. */
  lemma ClearedInBytes(s: State, s': State, g: nat, i: nat)
    requires s.Shaped() && s'.Shaped() && s'.geo == s.geo && g < s.geo.Groups() && i < s.geo.Avail(g)
    requires s.cached == s'.cached == s.geo.bitmapAt[g] + 1 && BitAt(s.buf, i) && s'.buf == ClearBit(s.buf, i)
    ensures ByteTaken(s'.Bitmap(g), s.Bitmap(g), i)
  {
    hide BitAt, ClearBit, Geo.Ok, Geo.Avail;
    ClearInByte(s.buf, i);
  }

  lemma BitIsSet(block: BitBlock, i: nat)
    requires i < 8 * |block|
    ensures BitAt(SetBit(block, i), i)
  {
    OneBitChanged(block, i, i);
  }

  lemma GeoOk(geo: Geo)
    requires geo.Ok()
    ensures forall g, h :: 0 <= g < |geo.bitmapAt| && 0 <= h < |geo.bitmapAt| && g != h ==> geo.bitmapAt[g] != geo.bitmapAt[h]
    ensures forall g :: 0 <= g < |geo.bitmapAt| ==> 0 < geo.bitmapAt[g] < geo.total
  {
    forall g, h | 0 <= g < |geo.bitmapAt| && 0 <= h < |geo.bitmapAt| && g != h
      ensures geo.bitmapAt[g] != geo.bitmapAt[h]
    {
      if h < g {
        assert geo.bitmapAt[h] != geo.bitmapAt[g];
      }
    }
  }

  // ---------- a bitmap block handed out ----------

  ghost function AllClear(n: nat): (bits: seq<bool>)
    ensures |bits| == n && forall i :: 0 <= i < n ==> !bits[i]
  {
    seq(n, i => false)
  }

  /** The bitmaps when zeros have been written over the block, with no copy of it in the cache. */
  ghost function Wiped(geo: Geo, groups: seq<seq<bool>>, block: nat): seq<seq<bool>>
    requires |groups| == geo.Groups()
  {
    seq(|groups|, g requires 0 <= g < |groups| => if geo.bitmapAt[g] == block then AllClear(|groups[g]|) else groups[g])
  }

  /**
    Zeros over the block do harm: it holds the bitmap of group `g`, of which the cache has a copy, or that of another
    group, in which some bit is set.
   */
  ghost predicate Harmful(geo: Geo, groups: seq<seq<bool>>, g: nat, block: nat) {
    exists h :: 0 <= h < |groups| && h < geo.Groups() && geo.bitmapAt[h] == block && (h == g || SomeSet(groups[h]))
  }

  ghost predicate SomeSet(bits: seq<bool>) {
    exists i :: 0 <= i < |bits| && bits[i]
  }

  lemma ZeroBits(n: nat, bs: nat)
    requires n <= 8 * bs
    ensures BitsOf(Blank(bs), n) == AllClear(n)
  {
    hide Quot, Rem;
    forall i | 0 <= i < n
      ensures !BitAt(Blank(bs), i)
    {
      DivMod(i, 8);
      DivBound(i, 8, bs);
    }
  }

  /** Zeros written over a block while the cache holds the bitmap of group `g`, bit `i` set, written back. */
  lemma ZeroedSays(s: State, g: nat, i: nat, block: nat)
    requires s.Shaped() && s.CacheOk() && !s.dirty && g < s.geo.Groups() && s.cached == s.geo.bitmapAt[g] + 1
    requires i < s.geo.Avail(g) && BitAt(s.buf, i) && block < |s.disk|
    ensures var s' := s.(disk := s.disk[block := Blank(s.geo.bs)]);
            && s'.Shaped() && (s'.CacheOk() <==> block != s.geo.bitmapAt[g])
            && (block != s.geo.bitmapAt[g] ==> s'.Logical() == Wiped(s.geo, s.Logical(), block))
  {
    hide BitsOf, BitAt, Geo.Avail, State.GroupBits;
    var zeros := Blank(s.geo.bs);
    var s' := s.(disk := s.disk[block := zeros]);
    ZeroBits(s.geo.Avail(g), s.geo.bs);
    BitsAt(zeros, i, s.geo.Avail(g));
    assert s.buf != zeros;
    if block != s.geo.bitmapAt[g] {
      forall h | 0 <= h < s.geo.Groups()
        ensures s'.GroupBits(h) == if s.geo.bitmapAt[h] == block then AllClear(s.geo.Avail(h)) else s.GroupBits(h)
      {
        ZeroedGroup(s, g, h, block);
      }
      assert s'.Logical() == Wiped(s.geo, s.Logical(), block);
    }
  }

  lemma ZeroedGroup(s: State, g: nat, h: nat, block: nat)
    requires s.Shaped() && g < s.geo.Groups() && h < s.geo.Groups() && s.cached == s.geo.bitmapAt[g] + 1
    requires block < |s.disk| && block != s.geo.bitmapAt[g]
    ensures var s' := s.(disk := s.disk[block := Blank(s.geo.bs)]);
            s'.Shaped() && s'.GroupBits(h) == if s.geo.bitmapAt[h] == block then AllClear(s.geo.Avail(h)) else s.GroupBits(h)
  {
    hide BitsOf, Geo.Avail;
    GeoOk(s.geo);
    ZeroBits(s.geo.Avail(h), s.geo.bs);
  }

  lemma NoneSet(bits: seq<bool>)
    requires !SomeSet(bits)
    ensures bits == AllClear(|bits|)
  {
  }

  /** Counts that are right stay right exactly when no set bit is wiped out. */
  lemma WipedCounted(s: State, groups: seq<seq<bool>>, block: nat)
    requires |groups| == s.geo.Groups() && s.Counted(groups)
    ensures s.Counted(Wiped(s.geo, groups, block)) <==>
            forall h :: 0 <= h < |groups| && s.geo.bitmapAt[h] == block ==> !SomeSet(groups[h])
    ensures s.Counted(Wiped(s.geo, groups, block)) ==> Wiped(s.geo, groups, block) == groups
  {
    hide ClearIn, SomeSet, AllClear;
    var wiped := Wiped(s.geo, groups, block);
    if h :| 0 <= h < |groups| && s.geo.bitmapAt[h] == block && SomeSet(groups[h]) {
      FewerClear(groups[h]);
      assert wiped[h] == AllClear(|groups[h]|);
      assert s.gdFree[h] != Clear(wiped[h]);
    } else {
      forall h | 0 <= h < |groups|
        ensures wiped[h] == groups[h]
      {
        if s.geo.bitmapAt[h] == block {
          NoneSet(groups[h]);
        }
      }
      assert wiped == groups;
    }
  }

  lemma FewerClear(bits: seq<bool>)
    requires SomeSet(bits)
    ensures Clear(bits) < |bits| && Clear(AllClear(|bits|)) == |bits|
  {
    ClearBound(bits);
    ClearOfNone(|bits|);
  }

  lemma {:induction false} ClearOfNone(n: nat)
    ensures Clear(AllClear(n)) == n
  {
    if n > 0 {
      ClearOfNone(n - 1);
      assert AllClear(n)[1..] == AllClear(n - 1);
    }
  }

  // ---------- the counts ----------

  lemma CountTaken(s: State, groups: seq<seq<bool>>, g: nat, i: nat)
    requires s.Counted(groups) && g < |groups| && i < |groups[g]| && !groups[g][i]
    ensures s.sbFree > 0 && s.gdFree[g] > 0
    ensures s.(sbFree := s.sbFree - 1, gdFree := s.gdFree[g := s.gdFree[g] - 1]).Counted(groups[g := groups[g][i := true]])
  {
    hide Clear, ClearIn;
    ClearChanged(groups[g], i, true);
    ClearInChanged(groups, g, groups[g][i := true]);
  }

  lemma {:induction false} ClearFrom(geo: Geo, groups: seq<seq<bool>>, g: nat)
    requires g <= |groups| && forall h :: 0 <= h < |groups| ==> |groups[h]| <= geo.GroupBlocks(h)
    ensures var start := Times(g, geo.bpg) + geo.base;
            ClearIn(groups[g..]) <= if start >= geo.total then 0 else geo.total - start
    decreases |groups| - g
  {
    hide Times;
    if g < |groups| {
      ClearBound(groups[g]);
      assert groups[g..][0] == groups[g] && groups[g..][1..] == groups[g + 1..];
      ClearFrom(geo, groups, g + 1);
      TimesNext(g, geo.bpg);
    }
  }

  lemma CountFreed(s: State, groups: seq<seq<bool>>, g: nat, i: nat)
    requires s.geo.Ok() && s.Counted(groups) && g < |groups| && i < |groups[g]| && groups[g][i]
    requires forall h :: 0 <= h < |groups| ==> |groups[h]| == s.geo.Avail(h)
    ensures s.sbFree < UINT32_MAX && s.gdFree[g] < UINT16_MAX
    ensures s.(sbFree := s.sbFree + 1, gdFree := s.gdFree[g := s.gdFree[g] + 1]).Counted(groups[g := groups[g][i := false]])
  {
    hide Clear, ClearIn, Times;
    var groups' := groups[g := groups[g][i := false]];
    ClearChanged(groups[g], i, false);
    ClearInChanged(groups, g, groups[g][i := false]);
    ClearBound(groups[g]);
    ClearFrom(s.geo, groups', 0);
    assert groups'[0..] == groups';
  }

  lemma TablesStillHeld(s: State, groups: seq<seq<bool>>, g: nat, i: nat, v: bool)
    requires s.TablesHeld(groups) && g < |groups| && i < |groups[g]|
    requires v || s.geo.BlockAt(g, i) !in s.geo.bitmapAt
    ensures s.TablesHeld(groups[g := groups[g][i := v]])
  {
  }

  // ---------- block numbers ----------

  datatype Place = Nowhere | Place(g: nat, i: nat)

  /** `ext2_block_freeable`: the group and bit of a block that may be freed. */
  function Freeable(geo: Geo, block: nat): (p: Place)
    requires geo.Ok()
    ensures p.Place? ==> geo.Usable(p.g, p.i) && geo.BlockAt(p.g, p.i) == block
  {
    if block < geo.base then Nowhere else
    var rel := block - geo.base;
    var g, i := Quot(rel, geo.bpg), Rem(rel, geo.bpg);
    DivMod(rel, geo.bpg);
    if g >= geo.Groups() || i >= 8 * geo.bs || i >= geo.GroupBlocks(g) then Nowhere
    else if g == 0 && block < geo.firstAlloc then Nowhere
    else Place(g, i)
  }

  /** Exactly the blocks the allocator may hand out can be freed, and a block has one place only. */
  lemma PlaceOfBlock(geo: Geo, g: nat, i: nat)
    requires geo.Ok() && geo.Usable(g, i)
    ensures Freeable(geo, geo.BlockAt(g, i)) == Place(g, i) && geo.BlockAt(g, i) < geo.total
  {
    hide Quot, Rem;
    QuotientIsUnique(Times(g, geo.bpg) + i, geo.bpg, g, i);
  }

  /** The place of a block by the arithmetic of the layout. */
  lemma PlaceIsQuotient(geo: Geo, block: nat, g: nat, i: nat)
    requires geo.Ok() && Freeable(geo, block) == Place(g, i)
    ensures block >= geo.base && g == (block - geo.base) / geo.bpg && i == (block - geo.base) % geo.bpg
    ensures block == geo.base + g * geo.bpg + i
  {
  }

  /** The bit of the block, by the arithmetic of the layout, was clear in the bytes of its bitmap, and it alone is set now. */
  ghost predicate TakenOf(s: State, s': State, block: nat)
    requires s.Shaped() && s'.Shaped() && s'.geo == s.geo
  {
    && block >= s.geo.base
    && var g := (block - s.geo.base) / s.geo.bpg;
       g < s.geo.Groups() && ByteTaken(s.Bitmap(g), s'.Bitmap(g), (block - s.geo.base) % s.geo.bpg)
  }

  /** Just the blocks of the volume that are in a group, have a bit, and lie behind the tables of group 0 can be freed. */
  lemma FreeableExactly(geo: Geo, block: nat)
    requires geo.Ok()
    ensures Freeable(geo, block).Place? <==>
            && geo.base <= block < geo.total
            && (block - geo.base) / geo.bpg < |geo.bitmapAt| && (block - geo.base) % geo.bpg < 8 * geo.bs
            && !((block - geo.base) / geo.bpg == 0 && block < geo.firstAlloc)
  {
    hide Quot, Rem;
    if geo.base <= block {
      var rel := block - geo.base;
      DivMod(rel, geo.bpg);
      QuotIsDiv(rel, geo.bpg);
    }
  }

  lemma TakenInGroup(was: State, s: State, s': State, block: nat, g: nat, i: nat)
    requires was.Shaped() && s.Shaped() && s'.Shaped() && s'.geo == s.geo && g < s.geo.Groups() && SameBitmaps(was, s)
    requires Freeable(s.geo, block) == Place(g, i) && ByteTaken(s.Bitmap(g), s'.Bitmap(g), i)
    ensures TakenOf(was, s', block)
  {
    hide ByteTaken, State.Bitmap, Freeable;
    PlaceIsQuotient(s.geo, block, g, i);
    SameBitmapsAt(was, s, g);
  }

  lemma TakenFrom(was: State, s: State, s': State, block: nat, g: nat, i: nat)
    requires was.Shaped() && s.Shaped() && s'.Shaped() && s'.geo == s.geo && g < s.geo.Groups() && SameBitmaps(was, s)
    requires Freeable(s.geo, block) == Place(g, i) && ByteTaken(s'.Bitmap(g), s.Bitmap(g), i)
    ensures TakenOf(s', was, block)
  {
    hide ByteTaken, State.Bitmap, Freeable;
    PlaceIsQuotient(s.geo, block, g, i);
    SameBitmapsAt(was, s, g);
  }

  lemma QuotIsDiv(x: nat, d: nat)
    requires d > 0
    ensures Quot(x, d) == x / d && Rem(x, d) == x % d
  {
  }

  // ---------- the allocator ----------

  class Allocator {
    const geo: Geo
    const faulty: bool           // whether the device may fail a transfer
    var disk: seq<BitBlock>
    var buf: BitBlock
    var cached: nat
    var dirty: bool
    var sbFree: nat
    var gdFree: seq<nat>
    var pending: seq<nat>
    var hint: nat

    ghost function S(): State
      reads this
    {
      State(geo, disk, buf, cached, dirty, sbFree, gdFree, pending)
    }

    /** The allocator of a volume just mounted: nothing in the cache, nothing queued. */
    constructor (geo: Geo, faulty: bool, disk: seq<BitBlock>, sbFree: nat, gdFree: seq<nat>)
      requires geo.Ok() && |disk| == geo.total && forall b :: 0 <= b < |disk| ==> |disk[b]| == geo.bs
      ensures this.geo == geo && this.faulty == faulty && hint == 0
      ensures S() == State(geo, disk, Blank(geo.bs), 0, false, sbFree, gdFree, [])
    {
      this.geo, this.faulty, this.disk := geo, faulty, disk;
      buf, cached, dirty := Blank(geo.bs), 0, false;
      this.sbFree, this.gdFree, pending, hint := sbFree, gdFree, [], 0;
    }

    ghost predicate Valid()
      reads this
    {
      S().Valid() && hint < geo.Groups()
    }

    /** What holds whatever has been freed. */
    ghost predicate Sound()
      reads this
    {
      S().Sound() && hint < geo.Groups()
    }

    ghost function Logical(): seq<seq<bool>>
      requires S().Shaped()
      reads this
    {
      S().Logical()
    }

    /** Writes the cached bitmap back if it is dirty. */
    method BitmapSync() returns (ok: bool)
      requires S().Shaped() && S().CacheOk()
      modifies `disk, `dirty
      ensures S().Shaped() && S().CacheOk() && S().Logical() == old(S()).Logical() && SameBitmaps(old(S()), S())
      ensures ok ==> !dirty
      ensures !ok ==> faulty && S() == old(S())
      ensures |disk| == |old(disk)| && forall b :: 0 <= b < |disk| && b != cached - 1 ==> disk[b] == old(disk)[b]
    {
      hide BitsOf, Geo.Ok;
      if !dirty {
        return true;
      }
      SyncedSame(S());
      if faulty {
        var fails: bool := *;
        if fails {
          return false;
        }
      }
      disk := disk[cached - 1 := buf];
      dirty := false;
      assert S() == Synced(old(S()));
      return true;
    }

    /** Brings the bitmap of group `g` into the cache. */
    method BitmapGet(g: nat) returns (ok: bool)
      requires S().Shaped() && S().CacheOk() && g < geo.Groups()
      modifies `disk, `dirty, `buf, `cached
      ensures S().Shaped() && S().CacheOk() && S().Logical() == old(S()).Logical() && SameBitmaps(old(S()), S())
      ensures ok ==> cached == geo.bitmapAt[g] + 1
      ensures !ok ==> faulty
    {
      hide BitsOf, State.Logical;
      var bitmapBlock := geo.bitmapAt[g];
      if cached == bitmapBlock + 1 {
        return true;
      }
      ok := BitmapSync();
      if !ok {
        return;
      }
      ghost var synced := S();
      if faulty {
        var fails: bool := *;
        if fails {
          var junk: BitBlock := *;
          if |junk| == geo.bs {
            buf := junk;
          }
          SpoiledSame(synced, buf);
          cached := 0;
          return false;
        }
      }
      LoadedSame(synced, g);
      buf := disk[bitmapBlock];
      cached := bitmapBlock + 1;
      dirty := false;
    }

    /**
      Queues a block to be cleared at the next flush; a block that holds a bitmap should not be among them. `room`
      says that the queue is long enough or can be made longer.
     */
    method FreeBlock(block: nat, room: bool) returns (ok: bool)
      requires S().Sound()
      modifies `pending
      ensures S().Shaped() && S().Sound() && Logical() == old(Logical())
      ensures Valid() <==> old(Valid()) && !(ok && block in geo.bitmapAt)
      ensures ok <==> Freeable(geo, block).Place? && block !in old(pending) && room
      ensures pending == if ok then old(pending) + [block] else old(pending)
    {
      hide BitsOf, State.CacheOk, State.Counted, State.TablesHeld, State.Logical, Freeable, Geo.Ok;
      SoundParts(S());
      if Freeable(geo, block).Nowhere? {
        return false;
      }
      for n := 0 to |pending|
        invariant block !in pending[..n]
      {
        if pending[n] == block {
          return false;
        }
      }
      if !room {
        return false;
      }
      PendingSound(S(), pending + [block]);
      QueuedTables(S(), block);
      pending := pending + [block];
      return true;
    }

    /** Writes zeros over a block about to be handed out. */
    method ZeroBlock(block: nat) returns (ok: bool)
      requires block < |disk|
      modifies `disk
      ensures ok ==> disk == old(disk)[block := Blank(geo.bs)]
      ensures !ok ==> faulty && disk == old(disk)
    {
      if faulty {
        var fails: bool := *;
        if fails {
          return false;
        }
      }
      disk := disk[block := Blank(geo.bs)];
      return true;
    }

    /** Sets bit `i` of the cached bitmap of group `g` and writes zeros over its block, or puts everything back. */
    method MarkAndZero(g: nat, i: nat) returns (ok: bool)
      requires S().Sound() && geo.Usable(g, i) && cached == geo.bitmapAt[g] + 1 && !Logical()[g][i]
      modifies `disk, `buf, `dirty
      ensures S().Shaped()
      ensures ok ==> geo.BlockAt(g, i) < |disk| && disk[geo.BlockAt(g, i)] == Blank(geo.bs)
      ensures ok ==> !dirty && (S().CacheOk() <==> geo.BlockAt(g, i) != geo.bitmapAt[g]) && buf == SetBit(old(buf), i)
      ensures ok && geo.BlockAt(g, i) != geo.bitmapAt[g] ==>
                Logical() == Wiped(geo, old(Logical())[g := old(Logical())[g][i := true]], geo.BlockAt(g, i))
      ensures !ok ==> faulty && S().Sound() && Logical() == old(Logical()) && SameBitmaps(old(S()), S())
    {
      hide BitsOf, State.Logical, BitAt, SetBit, Clear, ClearIn, Geo.Avail, Geo.Ok, Geo.BlockAt, State.Counted, Wiped;
      ghost var s := S();
      SoundParts(s);
      PlaceOfBlock(geo, g, i);
      BitChanged(s, g, i, true);
      BitIsSet(buf, i);
      var block := geo.BlockAt(g, i);
      var saved := buf;
      buf := SetBit(buf, i);
      dirty := true;
      ok := BitmapSync();
      if ok {
        ghost var marked := S();
        ZeroedSays(marked, g, i, block);
        ok := ZeroBlock(block);
        if ok {
          assert S() == marked.(disk := marked.disk[block := Blank(geo.bs)]);
        }
      }
      if !ok {
        buf := saved;
        dirty := true;
        PutBackSound(s, S());
      }
    }

    /** Takes bit `i` of group `g`, whose bitmap is cached. */
    method TakeBit(g: nat, i: nat) returns (ok: bool)
      requires Sound() && geo.Usable(g, i) && cached == geo.bitmapAt[g] + 1 && !Logical()[g][i]
      modifies `disk, `buf, `dirty, `sbFree, `gdFree, `hint
      ensures S().Shaped() && hint < geo.Groups() && (old(Valid()) ==> Valid())
      ensures ok ==> geo.BlockAt(g, i) < |disk| && disk[geo.BlockAt(g, i)] == Blank(geo.bs)
      ensures ok ==> !dirty && (S().CacheOk() <==> geo.BlockAt(g, i) != geo.bitmapAt[g]) && buf == SetBit(old(buf), i)
      ensures ok ==> (Sound() <==> !Harmful(geo, old(Logical()), g, geo.BlockAt(g, i)))
      ensures ok && Sound() ==> Logical() == old(Logical())[g := old(Logical())[g][i := true]]
      ensures hint == if ok then g else old(hint)
      ensures !ok ==> faulty && Sound() && Logical() == old(Logical()) && SameBitmaps(old(S()), S())
    {
      hide BitsOf, State.Logical, Clear, ClearIn, Geo.Avail, Geo.Ok, Geo.BlockAt, State.TablesHeld, State.Counted,
           Harmful, Wiped;
      ghost var s := S();
      SoundParts(s);
      ok := MarkAndZero(g, i);
      if !ok {
        StillValid(s, S());
        return;
      }
      if sbFree > 0 {
        sbFree := sbFree - 1;
      }
      if gdFree[g] > 0 {
        gdFree := gdFree[g := gdFree[g] - 1];
      }
      hint := g;
      TakenSays(s, S(), g, i);
    }

    /** Looks for a clear bit in group `g`, in order. */
    method AllocInGroup(g: nat) returns (r: Attempt)
      requires Sound() && g < geo.Groups()
      modifies `disk, `buf, `cached, `dirty, `sbFree, `gdFree, `hint
      ensures S().Shaped() && hint < geo.Groups() && (old(Valid()) ==> Valid())
      ensures r.Got? ==> Freeable(geo, r.block) == Place(g, r.i) && r.i < |old(Logical())[g]| && !old(Logical())[g][r.i]
      ensures r.Got? ==> r.block == geo.base + g * geo.bpg + r.i && ByteTaken(old(S().Bitmap(g)), S().Bitmap(g), r.i)
      ensures r.Got? ==> hint == g && forall j :: 0 <= j < r.i && geo.Usable(g, j) ==> old(Logical())[g][j]
      ensures r.Got? ==> r.block < |disk| && disk[r.block] == Blank(geo.bs)
      ensures r.Got? ==> !dirty && cached == geo.bitmapAt[g] + 1 && (S().CacheOk() <==> r.block != geo.bitmapAt[g])
      ensures r.Got? ==> (Sound() <==> !Harmful(geo, old(Logical()), g, r.block))
      ensures r.Got? && Sound() ==> Took(old(Logical()), Logical(), g, r.i)
      ensures !r.Got? ==> Sound() && Logical() == old(Logical()) && hint == old(hint) && SameBitmaps(old(S()), S())
      ensures r.Full? ==> forall i :: 0 <= i < |Logical()[g]| && geo.Usable(g, i) ==> Logical()[g][i]
      ensures r.Failed? ==> faulty
    {
      hide BitsOf, State.Logical, Clear, ClearIn, BitAt, State.Counted, State.TablesHeld, State.TablesNotQueued,
           Freeable, Geo.Ok, Harmful, ByteTaken, State.Bitmap, Geo.BlockAt;
      ghost var s := S();
      if geo.GroupBlocks(g) == 0 {
        return Full;
      }
      var ok := BitmapGet(g);
      CacheMovedSound(s, S());
      StillValid(s, S());
      if !ok {
        return Failed;
      }
      ghost var loaded := S();
      var avail := geo.Avail(g);
      var i := 0;
      while i < avail
        invariant 0 <= i <= avail && S() == loaded && hint == old(hint)
        invariant forall j :: 0 <= j < i && geo.Usable(g, j) ==> Logical()[g][j]
      {
        var block := geo.BlockAt(g, i);
        BitChanged(S(), g, i, true);
        if !(g == 0 && block < geo.firstAlloc) && !BitAt(buf, i) {
          PlaceOfBlock(geo, g, i);
          ok := TakeBit(g, i);
          if !ok {
            SameBitmapsTwice(s, loaded, S());
            return Failed;
          }
          TakenInBytes(s, loaded, S(), g, i);
          PlaceIsQuotient(geo, block, g, i);
          return Got(block, i);
        }
        i := i + 1;
      }
      return Full;
    }

    /**
      Hands out a clear block, trying the groups in turn from the last one that had room. Afterwards cache and counts
      are right exactly when the zeros written over the block did no harm; and the cached bitmap, said to be that on
      disk, is so exactly when it is not the one that the block holds.
     */
    method AllocBlock() returns (ok: bool, out: nat)
      requires Sound()
      modifies `disk, `buf, `cached, `dirty, `sbFree, `gdFree, `hint
      ensures S().Shaped() && hint < geo.Groups() && (old(Valid()) ==> Valid())
      ensures ok ==> IsClear(geo, old(Logical()), out) && out < |disk| && disk[out] == Blank(geo.bs)
      ensures ok ==> TakenOf(old(S()), S(), out) && hint == Freeable(geo, out).g
      ensures ok ==> FirstInTurn(geo, old(Logical()), old(hint), Freeable(geo, out).g, Freeable(geo, out).i)
      ensures ok ==> !dirty && cached == geo.bitmapAt[Freeable(geo, out).g] + 1
                     && (S().CacheOk() <==> out != geo.bitmapAt[Freeable(geo, out).g])
      ensures ok ==> (Sound() <==> !Harmful(geo, old(Logical()), Freeable(geo, out).g, out))
      ensures ok && Sound() ==> Took(old(Logical()), Logical(), Freeable(geo, out).g, Freeable(geo, out).i)
      ensures !ok ==> Sound() && Logical() == old(Logical()) && (faulty || NoneFree(geo, Logical()))
    {
      hide BitsOf, State.Logical, Clear, ClearIn, State.Core, State.Counted, Freeable, Geo.Usable, Took, Turn,
           GroupFull, NoneFree, Harmful, ByteTaken, State.Bitmap, TakenOf, FirstInTurn;
      SoundParts(S());
      var n := 0;
      var start := hint;
      while n < geo.Groups()
        invariant 0 <= n <= geo.Groups() && hint == start && (old(Valid()) ==> Valid())
        invariant Sound() && Logical() == old(Logical()) && SameBitmaps(old(S()), S())
        invariant forall m :: 0 <= m < n ==> GroupFull(geo, Logical(), Turn(start, m, geo.Groups()))
      {
        var group := (start + n) % geo.Groups();
        TurnIs(start, n, geo.Groups());
        ghost var before := S();
        var r := AllocInGroup(group);
        match r {
          case Failed => return false, 0;
          case Got(block, i) =>
            TakenInGroup(old(S()), before, S(), block, group, i);
            TurnFound(geo, old(Logical()), start, n, i);
            return true, block;
          case Full =>
            SameBitmapsTwice(old(S()), before, S());
        }
        TriedFull(geo, Logical(), group);
        n := n + 1;
      }
      AllGroupsTried(geo, Logical(), start);
      return false, 0;
    }

    /** Clears one queued block in the bitmap. */
    method FreeBlockNow(block: nat) returns (ok: bool)
      requires S().Sound()
      modifies `disk, `buf, `cached, `dirty, `sbFree, `gdFree
      ensures S().Sound() && (S().Core() <==> old(S().Core()) && !(ok && block in geo.bitmapAt))
      ensures ok ==> Freeable(geo, block).Place?
      ensures S().Logical() == if ok then ClearedAt(old(S().Logical()), geo, block) else old(S().Logical())
      ensures ok ==> SetAt(old(S().Logical()), geo, block) && TakenOf(S(), old(S()), block)
      ensures !ok ==> faulty || !SetAt(S().Logical(), geo, block)
    {
      hide BitsOf, State.Logical, Clear, ClearIn, BitAt, ClearBit, State.Core, Freeable, SetAt, ClearedAt, Geo.Ok,
           Geo.Avail, Geo.Usable, Geo.BlockAt, State.Counted, State.TablesHeld, ByteTaken, TakenOf, State.Bitmap;
      SoundParts(S());
      var place := Freeable(geo, block);
      if place.Nowhere? {
        NowhereBit(S().Logical(), geo, block);
        return false;
      }
      PlaceBit(S(), block);
      ghost var s := S();
      ok := BitmapGet(place.g);
      CacheMovedSound(s, S());
      if ok {
        PlaceBit(S(), block);
        ghost var before := S();
        ok := GiveBack(place.g, place.i);
        if ok {
          TakenFrom(s, before, S(), block, place.g, place.i);
        }
      }
    }

    /** Clears bit `i` of the cached bitmap of group `g`, unless it is clear already. */
    method GiveBack(g: nat, i: nat) returns (ok: bool)
      requires S().Sound() && geo.Usable(g, i) && cached == geo.bitmapAt[g] + 1
      modifies `buf, `dirty, `sbFree, `gdFree
      ensures S().Sound() && (S().Core() <==> old(S().Core()) && !(ok && geo.BlockAt(g, i) in geo.bitmapAt))
      ensures ok <==> old(S().Logical())[g][i]
      ensures if ok then ByteTaken(S().Bitmap(g), old(S().Bitmap(g)), i) else S() == old(S())
      ensures S().Logical() == if ok then old(S().Logical())[g := old(S().Logical())[g][i := false]] else old(S().Logical())
    {
      hide BitsOf, State.Logical, Clear, ClearIn, BitAt, ClearBit, State.Core, Geo.Ok, Geo.Avail, Geo.BlockAt,
           State.Counted, State.TablesHeld, ByteTaken;
      ghost var s := S();
      SoundParts(s);
      BitChanged(s, g, i, false);
      if !BitAt(buf, i) {
        return false;
      }
      buf := ClearBit(buf, i);
      dirty := true;
      if sbFree < UINT32_MAX {
        sbFree := sbFree + 1;
      }
      if gdFree[g] < UINT16_MAX {
        gdFree := gdFree[g := gdFree[g] + 1];
      }
      FreedSays(s, S(), g, i);
      ClearedInBytes(s, S(), g, i);
      return true;
    }

    /** Clears every queued block, empties the queue and writes the bitmap back. */
    method PendingFreeFlush() returns (ok: bool)
      requires Sound()
      modifies `disk, `buf, `cached, `dirty, `sbFree, `gdFree, `pending
      ensures S().Shaped() && Sound() && pending == [] && (old(Valid()) ==> Valid())
      ensures OnlyCleared(geo, old(Logical()), Logical(), old(pending))
      ensures !faulty ==> ok && forall n :: 0 <= n < |old(pending)| ==> !SetAt(Logical(), geo, old(pending)[n])
    {
      hide BitsOf, State.Logical, Clear, ClearIn, State.Core, State.Counted, Freeable, Geo.Ok, OnlyCleared, SetAt,
           ClearedAt;
      SoundParts(S());
      if |pending| == 0 {
        NoneCleared(geo, Logical(), []);
        return true;
      }
      NoneCleared(geo, Logical(), pending[..0]);
      ghost var queue := pending;
      for n := 0 to |pending|
        invariant Sound() && pending == queue && (old(Valid()) ==> Valid())
        invariant OnlyCleared(geo, old(Logical()), Logical(), queue[..n])
        invariant !faulty ==> forall m :: 0 <= m < n ==> !SetAt(Logical(), geo, queue[m])
      {
        ghost var before := Logical();
        if S().TablesNotQueued() {
          NotTableAt(S(), n);
        }
        SoundParts(S());
        var freed := FreeBlockNow(pending[n]);
        ClearedStep(geo, old(Logical()), before, Logical(), queue, n);
        StaysCleared(before, Logical(), geo, queue, n, freed);
      }
      assert queue[..|queue|] == queue;
      ghost var full := S();
      PendingSound(full, []);
      pending := [];
      ghost var emptied := S();
      StillValid(full, emptied);
      ok := BitmapSync();
      CacheMovedSound(emptied, S());
      StillValid(emptied, S());
    }
  }

  datatype Attempt = Full | Failed | Got(block: nat, i: nat)

  /** Bit `i` of group `g` was clear and has been taken; nothing else changed. */
  ghost predicate Took(groups: seq<seq<bool>>, groups': seq<seq<bool>>, g: nat, i: nat) {
    g < |groups| && i < |groups[g]| && !groups[g][i] && groups' == groups[g := groups[g][i := true]]
  }

  /** The block has a place, and its bit is clear. */
  ghost predicate IsClear(geo: Geo, groups: seq<seq<bool>>, block: nat)
    requires geo.Ok()
  {
    var p := Freeable(geo, block);
    p.Place? && p.g < |groups| && p.i < |groups[p.g]| && !groups[p.g][p.i]
  }

  ghost predicate GroupFull(geo: Geo, groups: seq<seq<bool>>, g: nat) {
    g < |groups| ==> forall i :: 0 <= i < |groups[g]| && geo.Usable(g, i) ==> groups[g][i]
  }

  /** Every bit before `i` of group `g` is taken, and every group tried before it, from group `start` on, is full. */
  ghost predicate FirstInTurn(geo: Geo, groups: seq<seq<bool>>, start: nat, g: nat, i: nat) {
    && g < |groups| && (forall j :: 0 <= j < i && j < |groups[g]| && geo.Usable(g, j) ==> groups[g][j])
    && exists n :: 0 <= n < |groups| && Turn(start, n, |groups|) == g
         && forall m :: 0 <= m < n ==> GroupFull(geo, groups, Turn(start, m, |groups|))
  }

  lemma TurnFound(geo: Geo, groups: seq<seq<bool>>, start: nat, n: nat, i: nat)
    requires n < |groups| && forall m :: 0 <= m < n ==> GroupFull(geo, groups, Turn(start, m, |groups|))
    requires var g := Turn(start, n, |groups|);
             forall j :: 0 <= j < i && j < |groups[g]| && geo.Usable(g, j) ==> groups[g][j]
    ensures FirstInTurn(geo, groups, start, Turn(start, n, |groups|), i)
  {
    hide Turn, GroupFull, Geo.Usable;
  }

  ghost predicate NoneFree(geo: Geo, groups: seq<seq<bool>>) {
    forall g :: 0 <= g < |groups| ==> GroupFull(geo, groups, g)
  }

  /** The bit of a block that has a place, as the logical bitmap has it. */
  ghost predicate SetAt(groups: seq<seq<bool>>, geo: Geo, block: nat)
    requires geo.Ok()
  {
    var p := Freeable(geo, block);
    p.Place? && p.g < |groups| && p.i < |groups[p.g]| && groups[p.g][p.i]
  }

  ghost function ClearedAt(groups: seq<seq<bool>>, geo: Geo, block: nat): seq<seq<bool>>
    requires geo.Ok()
  {
    var p := Freeable(geo, block);
    if p.Place? && p.g < |groups| && p.i < |groups[p.g]| then groups[p.g := groups[p.g][p.i := false]] else groups
  }

  /** The group tried in turn `n`, counting from group `start` and wrapping around. */
  function Turn(start: nat, n: nat, groups: nat): (g: nat)
    requires groups > 0
    ensures g < groups
  {
    (start + n) % groups
  }

  lemma TurnIs(start: nat, n: nat, groups: nat)
    requires groups > 0
    ensures Turn(start, n, groups) == (start + n) % groups
  {
  }

  lemma SoundParts(s: State)
    requires s.Sound()
    ensures s.Shaped() && s.CacheOk() && s.Counted(s.Logical()) && s.geo.Ok() && s.geo.Groups() > 0 && |s.Logical()| == s.geo.Groups() == |s.gdFree|
  {
    hide BitsOf, Clear, ClearIn;
  }

  lemma TriedFull(geo: Geo, groups: seq<seq<bool>>, g: nat)
    requires g < |groups| && forall i :: 0 <= i < |groups[g]| && geo.Usable(g, i) ==> groups[g][i]
    ensures GroupFull(geo, groups, g)
  {
  }

  /** Some of the blocks of `queue` have had their bit cleared; nothing else changed. */
  ghost predicate OnlyCleared(geo: Geo, groups: seq<seq<bool>>, groups': seq<seq<bool>>, queue: seq<nat>)
    requires geo.Ok()
  {
    && |groups'| == |groups|
    && (forall g :: 0 <= g < |groups| ==> |groups'[g]| == |groups[g]|)
    && (forall g, i :: 0 <= g < |groups| && 0 <= i < |groups[g]| && groups'[g][i] != groups[g][i] ==>
          groups[g][i] && geo.BlockAt(g, i) in queue)
  }

  lemma NoneCleared(geo: Geo, groups: seq<seq<bool>>, queue: seq<nat>)
    requires geo.Ok()
    ensures OnlyCleared(geo, groups, groups, queue)
  {
  }

  lemma ClearedStep(geo: Geo, start: seq<seq<bool>>, groups: seq<seq<bool>>, groups': seq<seq<bool>>, queue: seq<nat>, n: nat)
    requires geo.Ok() && n < |queue| && OnlyCleared(geo, start, groups, queue[..n])
    requires groups' == groups || groups' == ClearedAt(groups, geo, queue[n])
    ensures OnlyCleared(geo, start, groups', queue[..n + 1])
  {
    hide Freeable, Geo.Ok;
    assert queue[..n + 1] == queue[..n] + [queue[n]];
  }

  lemma ClearedKeeps(groups: seq<seq<bool>>, geo: Geo, b: nat, c: nat)
    requires geo.Ok()
    ensures SetAt(ClearedAt(groups, geo, b), geo, c) ==> SetAt(groups, geo, c)
    ensures !SetAt(ClearedAt(groups, geo, b), geo, b)
  {
    hide Freeable, Geo.Ok;
  }

  lemma NowhereBit(groups: seq<seq<bool>>, geo: Geo, block: nat)
    requires geo.Ok() && Freeable(geo, block).Nowhere?
    ensures !SetAt(groups, geo, block)
  {
  }

  lemma StaysCleared(groups: seq<seq<bool>>, groups': seq<seq<bool>>, geo: Geo, queue: seq<nat>, n: nat, freed: bool)
    requires geo.Ok() && n < |queue| && groups' == if freed then ClearedAt(groups, geo, queue[n]) else groups
    ensures (forall m :: 0 <= m < n ==> !SetAt(groups, geo, queue[m])) && (freed || !SetAt(groups, geo, queue[n])) ==>
              forall m :: 0 <= m < n + 1 ==> !SetAt(groups', geo, queue[m])
  {
    hide SetAt, ClearedAt, Geo.Ok;
    forall m | 0 <= m < |queue|
      ensures SetAt(ClearedAt(groups, geo, queue[n]), geo, queue[m]) ==> m != n && SetAt(groups, geo, queue[m])
    {
      ClearedKeeps(groups, geo, queue[n], queue[m]);
    }
  }

  /** The bit of a block with a place. */
  lemma PlaceBit(s: State, block: nat)
    requires s.Sound() && Freeable(s.geo, block).Place?
    ensures var p := Freeable(s.geo, block);
            && p.g < s.geo.Groups() && p.i < s.geo.Avail(p.g) && s.geo.Usable(p.g, p.i) && s.geo.BlockAt(p.g, p.i) == block
            && |s.Logical()[p.g]| == s.geo.Avail(p.g)
            && (SetAt(s.Logical(), s.geo, block) <==> s.Logical()[p.g][p.i])
            && ClearedAt(s.Logical(), s.geo, block) == s.Logical()[p.g := s.Logical()[p.g][p.i := false]]
  {
    hide BitsOf, State.Logical, Clear, ClearIn, Freeable;
  }

  lemma NotTableAt(s: State, n: nat)
    requires s.TablesNotQueued() && n < |s.pending|
    ensures s.pending[n] !in s.geo.bitmapAt
  {
  }

  /** A block given back: its bit clear, one more in both counts. */
  lemma FreedSays(s: State, s': State, g: nat, i: nat)
    requires s.Sound() && s.geo.Usable(g, i) && s.Logical()[g][i]
    requires s'.Shaped() && s'.CacheOk() && s'.Logical() == s.Logical()[g := s.Logical()[g][i := false]]
    requires s'.geo == s.geo
    requires s'.sbFree == (if s.sbFree < UINT32_MAX then s.sbFree + 1 else s.sbFree)
    requires |s'.gdFree| == |s.gdFree| && s'.gdFree == s.gdFree[g := if s.gdFree[g] < UINT16_MAX then s.gdFree[g] + 1 else s.gdFree[g]]
    ensures s'.Sound() && (s'.Core() <==> s.Core() && s.geo.BlockAt(g, i) !in s.geo.bitmapAt)
  {
    hide BitsOf, State.Logical, Clear, ClearIn;
    CountFreed(s, s.Logical(), g, i);
    TablesAfter(s, s'.geo, s.Logical(), g, i);
  }

  lemma TablesAfter(s: State, geo: Geo, groups: seq<seq<bool>>, g: nat, i: nat)
    requires s.geo == geo && geo.Usable(g, i) && g < |groups| && i < |groups[g]| && groups[g][i]
    ensures s.TablesHeld(groups[g := groups[g][i := false]]) <==> s.TablesHeld(groups) && geo.BlockAt(g, i) !in geo.bitmapAt
  {
    var groups' := groups[g := groups[g][i := false]];
    if s.TablesHeld(groups') {
      forall h, j | 0 <= h < |groups| && 0 <= j < |groups[h]| && geo.Usable(h, j) && geo.BlockAt(h, j) in geo.bitmapAt
        ensures groups[h][j]
      {
        assert groups'[h][j];
      }
      assert !groups'[g][i];
    }
  }

  lemma AllGroupsTried(geo: Geo, groups: seq<seq<bool>>, start: nat)
    requires start < geo.Groups() == |groups|
    requires forall m :: 0 <= m < geo.Groups() ==> GroupFull(geo, groups, Turn(start, m, geo.Groups()))
    ensures NoneFree(geo, groups)
  {
    hide GroupFull, Turn;
    forall g | 0 <= g < |groups|
      ensures GroupFull(geo, groups, g)
    {
      var m := if g >= start then g - start else g + geo.Groups() - start;
      TurnOf(start, m, geo.Groups(), g);
      assert GroupFull(geo, groups, Turn(start, m, geo.Groups()));
    }
  }

  lemma TurnOf(start: nat, m: nat, n: nat, g: nat)
    requires g < n && (start + m == g || start + m == g + n)
    ensures Turn(start, m, n) == g
  {
    hide Quot, Rem;
    var x := start + m;
    QuotientIsUnique(x, n, if x == g then 0 else 1, g);
    RemIsMod(x, n);
  }

  lemma RemIsMod(x: nat, n: nat)
    requires n > 0
    ensures Rem(x, n) == x % n
  {
  }

  lemma CacheMovedSound(s: State, s': State)
    requires s.Sound() && s'.Shaped() && s'.CacheOk() && s'.Logical() == s.Logical()
    requires s'.geo == s.geo && s'.sbFree == s.sbFree && s'.gdFree == s.gdFree
    ensures s'.Sound() && (s'.Core() <==> s.Core())
  {
    hide BitsOf, State.Logical, Clear, ClearIn;
  }

  /** What was valid still is when bitmap and counts are right and no bitmap block has been queued. */
  lemma StillValid(s: State, s': State)
    requires s.Sound() && s'.Sound() && s'.Logical() == s.Logical() && s'.geo == s.geo && (s'.pending == s.pending || s'.pending == [])
    ensures s.Valid() ==> s'.Valid()
  {
    hide BitsOf, State.Logical, State.Sound;
  }

  /** The logical bitmap is made of the disk and the cache only. */
  lemma LogicalSame(s: State, s': State)
    requires s.Shaped() && s'.Shaped() && s'.geo == s.geo && s'.buf == s.buf && s'.cached == s.cached
    requires forall g :: 0 <= g < s.geo.Groups() && s.cached != s.geo.bitmapAt[g] + 1 ==> s'.disk[s.geo.bitmapAt[g]] == s.disk[s.geo.bitmapAt[g]]
    ensures s'.Logical() == s.Logical()
  {
    hide BitsOf, Geo.Avail;
    forall g | 0 <= g < s.geo.Groups()
      ensures s'.GroupBits(g) == s.GroupBits(g)
    {
    }
  }

  lemma PendingSound(s: State, pending: seq<nat>)
    requires s.Sound()
    ensures var s' := s.(pending := pending); s'.Sound() && s'.Logical() == s.Logical() && (s'.Core() <==> s.Core())
  {
    hide BitsOf, State.Logical, Clear, ClearIn;
    LogicalSame(s, s.(pending := pending));
  }

  lemma QueuedTables(s: State, block: nat)
    ensures s.(pending := s.pending + [block]).TablesNotQueued() <==> s.TablesNotQueued() && block !in s.geo.bitmapAt
  {
    var more := s.pending + [block];
    assert more[|s.pending|] == block && forall n :: 0 <= n < |s.pending| ==> more[n] == s.pending[n];
  }

  /** After a failed transfer the old copy is put back and counts as dirty. */
  lemma PutBackSound(s: State, s': State)
    requires s.Sound() && s.cached != 0 && s'.Shaped()
    requires s' == s.(disk := s'.disk, dirty := true)
    requires forall b :: 0 <= b < |s.disk| && b != s.cached - 1 ==> s'.disk[b] == s.disk[b]
    ensures s'.Sound() && s'.Logical() == s.Logical() && SameBitmaps(s, s')
  {
    hide BitsOf, State.Logical, Clear, ClearIn;
    LogicalSame(s, s');
  }

  lemma NotATable(s: State, g: nat, i: nat)
    requires s.Sound() && s.TablesHeld(s.Logical()) && s.geo.Usable(g, i) && !s.Logical()[g][i]
    ensures s.geo.BlockAt(g, i) !in s.geo.bitmapAt
  {
    hide BitsOf, State.Logical, Clear, ClearIn;
  }

  lemma WipedNone(geo: Geo, groups: seq<seq<bool>>, block: nat)
    requires |groups| == geo.Groups() && block !in geo.bitmapAt
    ensures Wiped(geo, groups, block) == groups
  {
  }

  /** A block taken: its bit set, zeros in it, one less in both counts; harm done exactly when it holds a bitmap. */
  lemma TakenSays(s: State, s': State, g: nat, i: nat)
    requires s.Sound() && s.geo.Usable(g, i) && !s.Logical()[g][i]
    requires s'.Shaped() && s'.geo == s.geo && s'.pending == s.pending
    requires s'.CacheOk() <==> s.geo.BlockAt(g, i) != s.geo.bitmapAt[g]
    requires s.geo.BlockAt(g, i) != s.geo.bitmapAt[g] ==>
               s'.Logical() == Wiped(s.geo, s.Logical()[g := s.Logical()[g][i := true]], s.geo.BlockAt(g, i))
    requires s'.sbFree == (if s.sbFree > 0 then s.sbFree - 1 else s.sbFree)
    requires |s'.gdFree| == |s.gdFree| && s'.gdFree == s.gdFree[g := if s.gdFree[g] > 0 then s.gdFree[g] - 1 else s.gdFree[g]]
    ensures s'.Sound() <==> !Harmful(s.geo, s.Logical(), g, s.geo.BlockAt(g, i))
    ensures s'.Sound() ==> s'.Logical() == s.Logical()[g := s.Logical()[g][i := true]]
    ensures s.Valid() ==> s'.Valid()
  {
    hide BitsOf, State.Logical, Clear, ClearIn, Geo.BlockAt, Wiped, SomeSet, Geo.Avail, Geo.Ok, State.CacheOk,
         State.TablesHeld, State.Counted;
    SoundParts(s);
    var groups := s.Logical();
    var groups' := groups[g := groups[g][i := true]];
    var block := s.geo.BlockAt(g, i);
    CountTaken(s, groups, g, i);
    SameCounts(s.(sbFree := s.sbFree - 1, gdFree := s.gdFree[g := s.gdFree[g] - 1]), s', groups');
    if block != s.geo.bitmapAt[g] {
      WipedCounted(s', groups', block);
      assert forall h :: 0 <= h < |groups| && s.geo.bitmapAt[h] == block ==> groups'[h] == groups[h];
    }
    if s.Valid() {
      NotATable(s, g, i);
      WipedNone(s.geo, groups', block);
      TablesStillHeld(s, groups, g, i, true);
      SameTables(s, s', groups');
    }
  }

  lemma SameCounts(s: State, s': State, groups: seq<seq<bool>>)
    requires s'.sbFree == s.sbFree && s'.gdFree == s.gdFree
    ensures s'.Counted(groups) <==> s.Counted(groups)
  {
    hide Clear, ClearIn;
  }

  lemma SameTables(s: State, s': State, groups: seq<seq<bool>>)
    requires s'.geo == s.geo && s'.pending == s.pending
    ensures s'.TablesHeld(groups) <==> s.TablesHeld(groups)
    ensures s'.TablesNotQueued() <==> s.TablesNotQueued()
  {
  }

  // ---------- runs ----------

  datatype Op = Alloc | Free(block: nat, room: bool) | Flush

  /** What one operation did: handed a block out, queued one, flushed a queue, or nothing. */
  datatype Event = HandedOut(block: nat) | Queued(block: nat) | Flushed(queue: seq<nat>) | Nothing

  /** What a caller can tell of the allocator. */
  datatype View = View(groups: seq<seq<bool>>, pending: seq<nat>)

  /** The operation did what it is for, or could not. */
  ghost predicate Explained(geo: Geo, faulty: bool, op: Op, e: Event, v: View, v': View)
    requires geo.Ok()
  {
    match op
    case Alloc =>
      if e.HandedOut? then
        && IsClear(geo, v.groups, e.block) && v'.pending == v.pending
        && (!Harm(geo, e, v) ==> Took(v.groups, v'.groups, Freeable(geo, e.block).g, Freeable(geo, e.block).i))
      else e == Nothing && v' == v && (faulty || NoneFree(geo, v.groups))
    case Free(block, room) =>
      if Freeable(geo, block).Place? && block !in v.pending && room
      then e == Queued(block) && v' == View(v.groups, v.pending + [block])
      else e == Nothing && v' == v
    case Flush =>
      && e == Flushed(v.pending) && v'.pending == [] && OnlyCleared(geo, v.groups, v'.groups, v.pending)
      && (!faulty ==> forall n :: 0 <= n < |v.pending| ==> !SetAt(v'.groups, geo, v.pending[n]))
  }

  /** A bitmap block has been handed out, and the zeros written over it do harm. */
  ghost predicate Harm(geo: Geo, e: Event, v: View)
    requires geo.Ok()
  {
    e.HandedOut? && Freeable(geo, e.block).Place? && Harmful(geo, v.groups, Freeable(geo, e.block).g, e.block)
  }

  predicate IsTable(geo: Geo, e: Event) {
    e.HandedOut? && e.block in geo.bitmapAt
  }

  /** Going by the log, block `b` is out: handed out, and no flush since has had it in its queue. */
  ghost predicate Out(log: seq<Event>, b: nat)
    decreases |log|
  {
    if log == [] then false else
    var rest, last := log[..|log| - 1], log[|log| - 1];
    match last
    case HandedOut(c) => c == b || Out(rest, b)
    case Flushed(queue) => b !in queue && Out(rest, b)
    case _ => Out(rest, b)
  }

  /** Between two hand-outs of one block lies a flush that had it in its queue. */
  lemma {:induction false} FlushBetween(log: seq<Event>, b: nat, i: nat)
    requires i < |log| && log[i] == HandedOut(b) && !Out(log, b)
    ensures exists k :: i < k < |log| && log[k].Flushed? && b in log[k].queue
    decreases |log|
  {
    var rest, last := log[..|log| - 1], log[|log| - 1];
    if i < |log| - 1 && !(last.Flushed? && b in last.queue) {
      FlushBetween(rest, b, i);
      var k :| i < k < |rest| && rest[k].Flushed? && b in rest[k].queue;
      assert log[k] == rest[k];
    }
  }

  /** Every block that is out has its bit set. */
  ghost predicate OutAreSet(log: seq<Event>, geo: Geo, groups: seq<seq<bool>>)
    requires geo.Ok()
  {
    forall b :: Out(log, b) ==> SetAt(groups, geo, b)
  }

  /** No block is handed out twice without a flush in between that had it in its queue. */
  ghost predicate NeverTwice(log: seq<Event>) {
    forall i, j :: 0 <= i < j < |log| && log[i].HandedOut? && log[j] == log[i] ==>
      exists k :: i < k < j && log[k].Flushed? && log[i].block in log[k].queue
  }

  lemma TookStep(log: seq<Event>, geo: Geo, groups: seq<seq<bool>>, groups': seq<seq<bool>>, b: nat)
    requires geo.Ok() && OutAreSet(log, geo, groups) && NeverTwice(log)
    requires Freeable(geo, b).Place? && Took(groups, groups', Freeable(geo, b).g, Freeable(geo, b).i)
    ensures OutAreSet(log + [HandedOut(b)], geo, groups') && NeverTwice(log + [HandedOut(b)])
  {
    hide Freeable, Geo.Ok;
    var log' := log + [HandedOut(b)];
    assert log'[..|log'| - 1] == log;
    forall i | 0 <= i < |log| && log[i] == HandedOut(b)
      ensures exists k :: i < k < |log| && log[k].Flushed? && b in log[k].queue
    {
      FlushBetween(log, b, i);
    }
    forall i, j | 0 <= i < j < |log'| && log'[i].HandedOut? && log'[j] == log'[i]
      ensures exists k :: i < k < j && log'[k].Flushed? && log'[i].block in log'[k].queue
    {
      if j < |log| {
        var k :| i < k < j && log[k].Flushed? && log[i].block in log[k].queue;
        assert log'[k] == log[k];
      } else {
        var k :| i < k < |log| && log[k].Flushed? && b in log[k].queue;
        assert log'[k] == log[k];
      }
    }
    forall c | Out(log', c)
      ensures SetAt(groups', geo, c)
    {
      if c != b {
        assert SetAt(groups, geo, c);
      }
    }
  }

  lemma QuietStep(log: seq<Event>, geo: Geo, groups: seq<seq<bool>>, groups': seq<seq<bool>>, e: Event)
    requires geo.Ok() && OutAreSet(log, geo, groups) && NeverTwice(log) && !e.HandedOut?
    requires if e.Flushed? then OnlyCleared(geo, groups, groups', e.queue) else groups' == groups
    ensures OutAreSet(log + [e], geo, groups') && NeverTwice(log + [e])
  {
    hide Freeable, Geo.Ok;
    var log' := log + [e];
    assert log'[..|log'| - 1] == log;
    forall i, j | 0 <= i < j < |log'| && log'[i].HandedOut? && log'[j] == log'[i]
      ensures exists k :: i < k < j && log'[k].Flushed? && log'[i].block in log'[k].queue
    {
      var k :| i < k < j && log[k].Flushed? && log[i].block in log[k].queue;
      assert log'[k] == log[k];
    }
    forall c | Out(log', c)
      ensures SetAt(groups', geo, c)
    {
      SetUnlessCleared(geo, groups, groups', c, if e.Flushed? then e.queue else []);
    }
  }

  lemma SetUnlessCleared(geo: Geo, groups: seq<seq<bool>>, groups': seq<seq<bool>>, c: nat, queue: seq<nat>)
    requires geo.Ok() && SetAt(groups, geo, c) && OnlyCleared(geo, groups, groups', queue) && c !in queue
    ensures SetAt(groups', geo, c)
  {
    hide Geo.Ok;
  }

  /** The operation frees a block that holds a bitmap. */
  predicate FreesTable(geo: Geo, op: Op)
    requires geo.Ok()
  {
    op.Free? && op.block in geo.bitmapAt && Freeable(geo, op.block).Place?
  }

  /**
    Over any run, whatever the device does, each operation does what it is for, and a block handed out is not handed out
    again before a flush has had it in its queue. The run ends when a block is handed out that holds a bitmap; up to
    there cache and counts are right, and they are right afterwards exactly when the zeros written over it do no harm.
    None is handed out unless one has been freed, which `FreeBlock` allows.
   */
  method Run(a: Allocator, ops: seq<Op>) returns (log: seq<Event>, ghost trace: seq<View>)
    requires a.Sound()
    modifies a
    ensures a.geo.Ok() && a.S().Shaped() && |log| <= |ops| && NeverTwice(log)
    ensures |trace| == |log| + 1 && trace[0] == View(old(a.Logical()), old(a.pending))
    ensures forall k :: 0 <= k < |log| ==> Explained(a.geo, a.faulty, ops[k], log[k], trace[k], trace[k + 1])
    ensures forall k :: 0 <= k < |log| - 1 ==> !IsTable(a.geo, log[k])
    ensures |log| == |ops| || (log != [] && IsTable(a.geo, log[|log| - 1]))
    ensures trace[|log|] == View(a.Logical(), a.pending)
    ensures a.Sound() <==> log == [] || !Harm(a.geo, log[|log| - 1], trace[|log| - 1])
    ensures old(a.Valid()) && (forall k :: 0 <= k < |ops| ==> !FreesTable(a.geo, ops[k])) ==> a.Valid() && |log| == |ops|
  {
    hide BitsOf, State.Logical, State.Core, State.Sound, State.Counted, State.TablesNotQueued, Geo.Ok, Freeable, OutAreSet, NeverTwice,
         OnlyCleared, NoneFree, Harm, Explained, State.Shaped, State.Valid, FreesTable;
    log := [];
    SoundParts(a.S());
    trace := [View(a.Logical(), a.pending)];
    NothingOut(a.geo, a.Logical());
    while |log| < |ops|
      invariant a.geo.Ok() && a.S().Shaped() && a.Sound() && |log| <= |ops| && |trace| == |log| + 1
      invariant OutAreSet(log, a.geo, a.Logical()) && NeverTwice(log)
      invariant trace[0] == View(old(a.Logical()), old(a.pending)) && trace[|log|] == View(a.Logical(), a.pending)
      invariant forall k :: 0 <= k < |log| ==> Explained(a.geo, a.faulty, ops[k], log[k], trace[k], trace[k + 1])
      invariant forall k :: 0 <= k < |log| ==> !IsTable(a.geo, log[k])
      invariant old(a.Valid()) && (forall k :: 0 <= k < |ops| ==> !FreesTable(a.geo, ops[k])) ==> a.Valid()
      decreases |ops| - |log|
    {
      ghost var v := View(a.Logical(), a.pending);
      ghost var s := a.S();
      var e := Step(a, ops[|log|]);
      trace := trace + [View(a.Logical(), a.pending)];
      if IsTable(a.geo, e) {
        HandedTable(s, a.faulty, ops[|log|], v, trace[|log| + 1], e);
        OutStays(log, a.geo, v.groups, e);
        log := log + [e];
        return;
      }
      NotHarm(a.geo, e, v);
      LogStep(log, a.geo, a.faulty, ops[|log|], v, trace[|log| + 1], e);
      log := log + [e];
    }
    assert log != [] ==> !IsTable(a.geo, log[|log| - 1]);
    if log != [] {
      NotHarm(a.geo, log[|log| - 1], trace[|log| - 1]);
    }
  }

  method Step(a: Allocator, op: Op) returns (e: Event)
    requires a.Sound()
    modifies a
    ensures a.geo.Ok() && a.S().Shaped()
    ensures Explained(a.geo, a.faulty, op, e, View(old(a.Logical()), old(a.pending)), View(a.Logical(), a.pending))
    ensures a.Sound() <==> !Harm(a.geo, e, View(old(a.Logical()), old(a.pending)))
    ensures old(a.Valid()) && !FreesTable(a.geo, op) ==> a.Valid()
  {
    hide BitsOf, State.Logical, State.Core, State.Sound, State.Counted, State.TablesNotQueued, Geo.Ok, Freeable,
         OnlyCleared, NoneFree, Harmful;
    SoundParts(a.S());
    match op
    case Alloc =>
      var ok, block := a.AllocBlock();
      e := if ok then HandedOut(block) else Nothing;
    case Free(block, room) =>
      var ok := a.FreeBlock(block, room);
      e := if ok then Queued(block) else Nothing;
    case Flush =>
      e := Flushed(a.pending);
      var ok := a.PendingFreeFlush();
  }

  lemma NotHarm(geo: Geo, e: Event, v: View)
    requires geo.Ok() && !IsTable(geo, e)
    ensures !Harm(geo, e, v)
  {
    hide Geo.Ok, Freeable;
  }

  /** No valid allocator hands out a block that holds a bitmap. */
  lemma HandedTable(s: State, faulty: bool, op: Op, v: View, v': View, e: Event)
    requires s.Sound() && v == View(s.Logical(), s.pending) && Explained(s.geo, faulty, op, e, v, v') && IsTable(s.geo, e)
    ensures !s.Valid() && IsClear(s.geo, v.groups, e.block)
  {
    hide BitsOf, State.Logical, Freeable, Geo.Ok;
    if s.Valid() {
      var p := Freeable(s.geo, e.block);
      NotATable(s, p.g, p.i);
    }
  }

  lemma OutStays(log: seq<Event>, geo: Geo, groups: seq<seq<bool>>, e: Event)
    requires geo.Ok() && OutAreSet(log, geo, groups) && NeverTwice(log) && e.HandedOut? && IsClear(geo, groups, e.block)
    ensures NeverTwice(log + [e])
  {
    hide Freeable, Geo.Ok, OutAreSet, NeverTwice;
    var p := Freeable(geo, e.block);
    TookStep(log, geo, groups, groups[p.g := groups[p.g][p.i := true]], e.block);
  }

  lemma LogStep(log: seq<Event>, geo: Geo, faulty: bool, op: Op, v: View, v': View, e: Event)
    requires geo.Ok() && OutAreSet(log, geo, v.groups) && NeverTwice(log) && Explained(geo, faulty, op, e, v, v') && !Harm(geo, e, v)
    ensures OutAreSet(log + [e], geo, v'.groups) && NeverTwice(log + [e])
  {
    hide Freeable, Geo.Ok, OutAreSet, NeverTwice, OnlyCleared, NoneFree, Harm;
    if e.HandedOut? {
      TookStep(log, geo, v.groups, v'.groups, e.block);
    } else {
      QuietStep(log, geo, v.groups, v'.groups, e);
    }
  }

  lemma NothingOut(geo: Geo, groups: seq<seq<bool>>)
    requires geo.Ok()
    ensures OutAreSet([], geo, groups) && NeverTwice([])
  {
  }

  // ---------- a run that harms ----------

  /** Two groups of eight blocks; the second has its bitmap in block 11, among them. */
  const TWO_GROUPS := Geo(1024, 17, 8, 1, [3, 11], 6)

  function Full(n: nat): (block: BitBlock)
    ensures |block| == n
  {
    seq(n, _ => 0xFF)
  }

  function AllSet(n: nat): (bits: seq<bool>)
    ensures |bits| == n && forall i :: 0 <= i < n ==> bits[i]
  {
    seq(n, _ => true)
  }

  lemma FullBits(bs: nat, n: nat)
    requires n <= 8 * bs
    ensures BitsOf(Full(bs), n) == AllSet(n)
  {
    hide Quot, Rem;
    forall i | 0 <= i < n
      ensures BitAt(Full(bs), i)
    {
      DivMod(i, 8);
      DivBound(i, 8, bs);
    }
  }

  lemma TwoGroups()
    ensures TWO_GROUPS.Ok() && TWO_GROUPS.Avail(0) == TWO_GROUPS.Avail(1) == 8 && Freeable(TWO_GROUPS, 11) == Place(1, 2)
  {
    hide Quot, Rem;
    assert Times(1, 8) == Times(0, 8) + 8;
    QuotientIsUnique(10, 8, 1, 2);
  }

  /** The volume on which every bitmap byte is 0xFF. */
  lemma AllInUse(s: State)
    requires s == State(TWO_GROUPS, seq(17, _ => Full(1024)), Blank(1024), 0, false, 0, [0, 0], [])
    ensures s.Sound() && s.Logical() == [AllSet(8), AllSet(8)]
  {
    hide BitsOf, Geo.Avail;
    TwoGroups();
    FullBits(1024, 8);
    assert s.GroupBits(0) == s.GroupBits(1) == AllSet(8);
    assert s.Logical() == [AllSet(8), AllSet(8)];
    NoneClear(8);
  }

  lemma {:induction false} NoneClear(n: nat)
    ensures Clear(AllSet(n)) == 0 && ClearIn([AllSet(n), AllSet(n)]) == 0
  {
    if n > 0 {
      NoneClear(n - 1);
      assert AllSet(n)[1..] == AllSet(n - 1);
    }
    var one := [AllSet(n)];
    assert one[1..] == [] && ClearIn(one) == 0;
    assert [AllSet(n), AllSet(n)][1..] == one;
  }

  /** With the queue flushed, block 11 is the only one that can be handed out. */
  lemma OnlyEleven(groups: seq<seq<bool>>)
    requires TWO_GROUPS.Ok() && OnlyCleared(TWO_GROUPS, [AllSet(8), AllSet(8)], groups, [11]) && !SetAt(groups, TWO_GROUPS, 11)
    ensures !NoneFree(TWO_GROUPS, groups)
    ensures forall b: nat :: IsClear(TWO_GROUPS, groups, b) ==> b == 11
  {
    hide Freeable, Geo.Ok, Geo.Avail, Geo.BlockAt;
    TwoGroups();
    assert !GroupFull(TWO_GROUPS, groups, 1);
  }

  /**
    A volume on which every block is in use: free the block that holds the bitmap of its own group, flush, and ask for
    a block. It is handed out, and its zeros are not what the cache says is on disk.
   */
  method BitmapBlockFreed() returns (a: Allocator, ok: bool, out: nat)
    ensures fresh(a) && ok && out == 11 && a.geo == TWO_GROUPS && |a.disk| == 17
    ensures a.cached == 11 + 1 && !a.dirty && a.disk[11] == Blank(1024) != a.buf
  {
    hide BitsOf, State.Logical, State.Core, State.Sound, State.Counted, State.TablesNotQueued, OnlyCleared, NoneFree,
         Freeable;
    TwoGroups();
    a := new Allocator(TWO_GROUPS, false, seq(17, _ => Full(1024)), 0, [0, 0]);
    AllInUse(a.S());
    var queued := a.FreeBlock(11, true);
    ghost var queue := a.pending;
    assert queued && queue == [11] && queue[0] == 11;
    assert a.Logical() == [AllSet(8), AllSet(8)];
    var flushed := a.PendingFreeFlush();
    OnlyEleven(a.Logical());
    ok, out := a.AllocBlock();
  }
}
