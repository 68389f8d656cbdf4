/**
  A mounted ext2 volume and the block tree of one of its inodes: looking a logical block up through the cached
  indirect block, allocating it, and releasing it again.

  The device and the kernel's memory allocator do not fail here; what can run out is the volume's free blocks.
 */
module Ext2Volume {
  import opened Arith
  import opened Words
  import opened Ext2Tree
  import opened Ext2State
  import opened Ext2Room

  class Volume {
    const bs: BlockSize              // bytes in a block
    const first: nat                 // the first block the allocator may hand out
    ghost const reserved: set<nat>   // blocks of other files and of the volume itself

    var disk: Disk
    var slots: seq<nat>              // the inode's block array
    var sectors: int                 // the inode's count of 512-byte sectors
    var bitmap: seq<bool>            // the logical allocation bitmap, one bit a block
    var pending: seq<nat>            // blocks freed but not yet cleared in the bitmap
    var cached: nat                  // the indirect block held in `cachedBuf`, 0 for none
    var cachedBuf: Block
    ghost var own: map<nat, Pos>     // the blocks the inode reaches, and where

    function Apb(): nat {
      AddrsPerBlock(bs)
    }

    function Spb(): nat {
      bs / 512
    }

    ghost function S(): State
      reads this
    {
      State(bs, first, reserved, disk, slots, bitmap, pending, cached, cachedBuf, own)
    }

    ghost predicate Valid()
      reads this
    {
      S().Sound() && S().NoEmpty() && sectors == Times(|own|, Spb())
    }

    /** A volume nothing has been allocated on, with an empty inode. */
    constructor (bs: BlockSize, first: nat, disk: Disk)
      requires first > 0 && |disk| <= WORD_LIMIT && Sized(disk, AddrsPerBlock(bs))
      ensures S() == NewState(bs, first, disk) && Valid()
    {
      this.bs, this.first, this.reserved, this.disk := bs, first, {}, disk;
      slots, sectors, own := seq(SLOTS, _ => 0), 0, map[];
      bitmap, pending, cached, cachedBuf := seq(|disk|, _ => false), [], 0, [];
      new;
      NewIsSound(S());
    }

    // ---------- the device and the cached indirect block ----------

    method IndirectEntry(block: nat, index: nat) returns (ok: bool, out: nat)
      modifies `cached, `cachedBuf
      ensures ok <==> 0 < block < |disk| && index < Apb() && 0 < Entry(old(S()).Seen(block), index) < |disk|
      ensures ok ==> out == Entry(old(S()).Seen(block), index)
      ensures old(S()).CacheSame() ==> S().CacheSame() && (0 < block < |disk| ==> old(S()).Seen(block) == disk[block])
      ensures S() == if 0 < block < |disk| && index < Apb() then old(S()).Load(block) else old(S())
    {
      hide AddrsPerBlock, Entry;
      ok, out := false, 0;
      if block == 0 || index >= Apb() || block >= |disk| {
        return;
      }
      if cached != block {
        cachedBuf := disk[block];
        cached := block;
      }
      var value := Entry(cachedBuf, index);
      if value == 0 || value >= |disk| {
        return;
      }
      return true, value;
    }

    method IndirectPeek(block: nat, index: nat) returns (ok: bool, out: nat)
      ensures ok <==> 0 < block < |disk| && index < Apb()
      ensures ok ==> out == Entry(disk[block], index)
    {
      if block == 0 || index >= Apb() || block >= |disk| {
        return false, 0;
      }
      return true, Entry(disk[block], index);
    }

    method IndirectStore(block: nat, index: nat, value: nat) returns (ok: bool)
      requires S().Geometry() && value < WORD_LIMIT
      modifies `disk, `cached
      ensures ok <==> 0 < block < |old(disk)| && index < Apb()
      ensures ok ==> disk == Stored(old(disk), block, index, value) && cached == old(S()).Dropped(block)
      ensures !ok ==> disk == old(disk) && cached == old(cached)
    {
      hide SetEntry;
      if block == 0 || index >= Apb() || block >= |disk| {
        return false;
      }
      disk := Stored(disk, block, index, value);
      if cached == block {
        cached := 0;
      }
      return true;
    }

    method BlockEmpty(block: nat) returns (empty: bool)
      requires S().Geometry() && block < |disk|
      ensures empty <==> NoEntries(disk[block])
    {
      hide NoEntries;
      empty := true;
      for i := 0 to bs
        invariant empty && forall j :: 0 <= j < i ==> disk[block][j] == 0
      {
        if disk[block][i] != 0 {
          empty := false;
          break;
        }
      }
      AllZeroIsNoEntries(disk[block]);
    }

    // ---------- the allocator, as the tree sees it ----------

    /** Takes a clear block of the bitmap and zeroes it. */
    method AllocBlock() returns (ok: bool, out: nat)
      requires S().Geometry()
      modifies `disk, `bitmap
      ensures ok <==> HasFree(old(bitmap))
      ensures ok ==> first <= out < |old(bitmap)| && !old(bitmap)[out]
                     && bitmap == old(bitmap)[out := true] && disk == old(disk)[out := Zeros(bs)]
      ensures !ok ==> bitmap == old(bitmap) && disk == old(disk)
    {
      var b := first;
      while b < |bitmap|
        invariant forall b' :: first <= b' < b && b' < |bitmap| ==> bitmap[b']
      {
        if !bitmap[b] {
          bitmap := bitmap[b := true];
          disk := disk[b := Zeros(bs)];
          return true, b;
        }
        b := b + 1;
      }
      return false, 0;
    }

    ghost predicate HasFree(bits: seq<bool>) {
      exists b :: first <= b < |bits| && !bits[b]
    }

    /** Queues a block to be cleared in the bitmap once the inode no longer names it on disk. */
    method FreeBlock(block: nat) returns (ok: bool)
      modifies `pending
      ensures ok <==> first <= block < |disk| && block !in old(pending)
      ensures pending == if ok then old(pending) + [block] else old(pending)
    {
      if block < first || block >= |disk| {
        return false;
      }
      for n := 0 to |pending|
        invariant block !in pending[..n]
      {
        if pending[n] == block {
          return false;
        }
      }
      pending := pending + [block];
      return true;
    }

    /** Clears the queued blocks in the bitmap, once the inode on disk no longer names them. */
    method PendingFreeFlush()
      requires Valid()
      modifies `bitmap, `pending
      ensures Valid() && pending == [] && |bitmap| == |old(bitmap)|
      ensures forall i: nat :: S().Mapped(i) == old(S()).Mapped(i)
      ensures forall b :: 0 <= b < |bitmap| ==> bitmap[b] == (old(bitmap)[b] && b !in old(pending))
    {
      hide AddrsPerBlock, Entry, NodeAt, NoEntries, Rep, State.CacheOk, State.NoEmpty, State.Mapped, Times;
      for n := 0 to |pending|
        invariant |bitmap| == |old(bitmap)| && pending == old(pending)
        invariant forall b :: 0 <= b < |bitmap| ==> bitmap[b] == (old(bitmap)[b] && b !in pending[..n])
      {
        bitmap := bitmap[pending[n] := false];
      }
      assert pending[..|pending|] == pending;
      FlushKeeps(old(S()), bitmap);
      pending := [];
      assert S() == old(S()).(bitmap := bitmap, pending := []);
    }

    // ---------- mapping ----------

    /** Looks a logical block up, reading indirect blocks through the cache. */
    method MapBlock(index: nat) returns (ok: bool, out: nat)
      requires Valid()
      modifies `cached, `cachedBuf
      ensures Valid()
      ensures ok <==> S().Mapped(index) != 0
      ensures ok ==> out == S().Mapped(index)
    {
      hide AddrsPerBlock, Entry, NodeAt, NoEntries, Capacity, Rep, State.Sound, State.NoEmpty, State.Mapped, Quot, Rem;
      ok, out := false, 0;
      SoundSlots(S());
      ghost var p := PosOf(index, Apb());
      MappedIsNode(S(), index);
      if index < NDIR {
        SlotIsNode(disk, slots, index);
        if slots[index] == 0 || slots[index] >= |disk| {
          return;
        }
        return true, slots[index];
      }
      var s := BlockSlot(index, Apb());
      var container := slots[s.root];
      SlotIsNode(disk, slots, s.root);
      assert Prefix(p, 0) == Pos(s.root, []);
      for d := 0 to |s.slots|
        invariant Valid()
        invariant forall i :: 0 <= i < d ==> s.slots[i] < Apb()
        invariant container == NodeAt(disk, slots, Prefix(p, d))
      {
        WalkStep(S(), p, d);
        if container == 0 {
          // the first thing ext2_indirect_entry refuses
          HoleBelow(S(), p, d, |p.path|);
          MappedIsNode(S(), index);
          return;
        }
        ghost var before := S();
        CacheIsSame(before);
        LoadValid(before, container);
        var got, entry := IndirectEntry(container, s.slots[d]);
        if !got {
          HoleBelow(S(), p, d + 1, |p.path|);
          MappedIsNode(S(), index);
          return;
        }
        container := entry;
      }
      assert Prefix(p, |s.slots|) == p;
      assert IsPos(p, Apb());
      MappedIsNode(S(), index);
      return container != 0, container;
    }

    // ---------- releasing one logical block ----------

    /** The indirect blocks met on the way to `path` below slot `root`, and the data block at its end, 0 for a hole. */
    method Descend(root: nat, path: seq<nat>) returns (ok: bool, containers: seq<nat>, leaf: nat)
      requires S().Sound() && root < SLOTS && path != [] && IsLeaf(Pos(root, path))
      requires forall i :: 0 < i < |path| ==> path[i] < Apb()
      ensures ok <==> path[0] < Apb() || slots[root] == 0
      ensures ok ==> |containers| <= |path| && leaf == NodeAt(disk, slots, Pos(root, path))
      ensures forall e :: 0 <= e < |containers| && e <= |path| ==> containers[e] == NodeAt(disk, slots, Prefix(Pos(root, path), e)) != 0
      ensures ok && leaf != 0 ==> |containers| == |path|
      ensures ok && leaf == 0 ==> NodeAt(disk, slots, Prefix(Pos(root, path), |containers|)) == 0
    {
      hide AddrsPerBlock, Entry, NodeAt, NoEntries, Rep, State.Sound, State.NoEmpty;
      ghost var p := Pos(root, path);
      SoundSlots(S());
      SlotIsNode(disk, slots, root);
      assert Prefix(p, 0) == Pos(root, []);
      assert Prefix(p, |path|) == p;
      containers := [];
      var container := slots[root];
      for d := 0 to |path|
        invariant |containers| == d
        invariant d > 0 ==> path[0] < Apb()
        invariant container == NodeAt(disk, slots, Prefix(p, d))
        invariant forall e :: 0 <= e < d ==> containers[e] == NodeAt(disk, slots, Prefix(p, e)) != 0
      {
        WalkStep(S(), p, d);
        if container == 0 || container >= |disk| {
          HoleBelow(S(), p, d, |path|);
          return true, containers, 0;
        }
        containers := containers + [container];
        var got, entry := IndirectPeek(container, path[d]);
        if !got {
          return false, containers, 0;
        }
        if entry == 0 {
          HoleBelow(S(), p, d + 1, |path|);
          return true, containers, 0;
        }
        container := entry;
      }
      if container == 0 {
        return true, containers, 0;
      }
      return true, containers, container;
    }

    /** Queues block `b` for freeing and clears entry `k` of the indirect block `c` that names it. */
    method CutEntry(c: nat, k: nat, b: nat)
      requires S().Geometry() && 0 < c < |disk| && k < Apb()
      requires first <= b < |disk| && b !in pending
      modifies `disk, `pending, `cached, `own
      ensures S() == old(S()).Cut(c, k, b)
    {
      hide SetEntry, Entry;
      var queued := FreeBlock(b);
      var stored := IndirectStore(c, k, 0);
      own := own - {b};
    }

    /** Queues the indirect block at depth `d` for freeing and clears the slot or entry that names it. */
    method Detach(root: nat, path: seq<nat>, containers: seq<nat>, d: nat)
      requires S().Geometry() && |slots| == SLOTS && root < SLOTS && d < |containers| && d < |path|
      requires d == 0 ==> slots[root] == containers[0]
      requires d > 0 ==> 0 < containers[d - 1] < |disk| && path[d - 1] < Apb()
      requires first <= containers[d] < |disk| && containers[d] !in pending
      modifies `disk, `slots, `pending, `cached, `own
      ensures S() == Pruned(old(S()), Pos(root, path), containers[..d + 1])
    {
      hide SetEntry, Entry, NodeAt;
      if d == 0 {
        var queued := FreeBlock(containers[0]);
        slots := slots[root := 0];
        own := own - {containers[0]};
      } else {
        CutEntry(containers[d - 1], path[d - 1], containers[d]);
      }
    }

    /** Going back up, frees every indirect block left empty and the entry that named it. */
    method PruneUp(root: nat, path: seq<nat>, containers: seq<nat>) returns (freed: nat)
      requires S().Sound() && root < SLOTS && IsLeaf(Pos(root, path)) && IsPos(Pos(root, path), Apb())
      requires Chain(S(), Pos(root, path), containers)
      requires if containers == [] then S().NoEmpty() else S().NoEmptyBut(Prefix(Pos(root, path), |containers| - 1))
      modifies `disk, `slots, `pending, `cached, `own
      ensures S().Sound() && S().NoEmpty()
      ensures CutAlong(old(own), own, Pos(root, path)) && DataKept(old(S()), S())
      ensures |own| == |old(own)| - freed
    {
      hide AddrsPerBlock, Entry, NodeAt, SetEntry, NoEntries, Rep, CutAlong, DataKept, IsPos, IsLeaf;
      hide State.Sound, State.NoEmpty, State.NoEmptyBut, State.Geometry;
      ghost var p := Pos(root, path);
      freed := 0;
      var d := |containers|;
      NothingCut(S(), p);
      assert containers[..d] == containers;
      while d > 0
        invariant 0 <= d <= |containers|
        invariant S().Sound()
        invariant Chain(S(), p, containers[..d])
        invariant if d == 0 then S().NoEmpty() else S().NoEmptyBut(Prefix(p, d - 1))
        invariant CutAlong(old(own), own, p) && DataKept(old(S()), S())
        invariant |own| == |old(own)| - freed
      {
        d := d - 1;
        ghost var before := S();
        ghost var chain := containers[..d + 1];
        assert chain[..d] == containers[..d];
        ChainFacts(before, p, chain);
        PruneStep(before, p, chain);
        var empty := BlockEmpty(containers[d]);
        if !empty {
          break;
        }
        Detach(root, path, containers, d);
        freed := freed + 1;
        CutTrans(old(S()), before, S(), p);
      }
    }

    /** Releases a data block that hangs below indirect blocks: `ext2_free_slot` past its direct case. */
    method FreeBelow(root: nat, path: seq<nat>, ghost d0: nat) returns (ok: bool, freed: nat)
      requires S().Sound() && root < SLOTS && path != [] && IsLeaf(Pos(root, path))
      requires forall i :: 0 < i < |path| ==> path[i] < Apb()
      requires S().NoEmpty() || UnfinishedAt(S(), Pos(root, path), d0)
      modifies `disk, `slots, `pending, `cached, `own
      ensures S().Sound()
      ensures ok <==> path[0] < Apb() || old(slots)[root] == 0
      ensures path[0] < Apb() ==> S().NoEmpty() && Released(old(own), own, Pos(root, path))
      ensures path[0] >= Apb() ==> S() == old(S())
      ensures DataKept(old(S()), S()) && |own| == |old(own)| - freed
    {
      hide AddrsPerBlock, Entry, NodeAt, SetEntry, NoEntries, Rep, CutAlong, DataKept, IsLeaf;
      hide State.Sound, State.NoEmpty, State.NoEmptyBut, State.Geometry;
      ghost var p := Pos(root, path);
      NothingCut(S(), p);
      freed := 0;
      SoundSlots(S());
      var containers: seq<nat>, leaf: nat;
      ok, containers, leaf := Descend(root, path);
      if !ok {
        return;
      }
      if path[0] >= Apb() {
        // the slot is empty: there is nothing below it to release
        return;
      }
      LeafIsPos(p, Apb());
      ChainOfNodes(S(), p, containers);
      NodeOwner(S(), p);
      if leaf != 0 {
        ghost var before := S();
        if UnfinishedAt(S(), p, d0) {
          UnfinishedIsHole(S(), p, d0);
        }
        CutLeaf(before, p, containers, leaf);
        CutEntry(containers[|path| - 1], path[|path| - 1], leaf);
        freed := 1;
      } else if !S().NoEmpty() {
        UnfinishedDepth(S(), p, d0, containers);
      }
      ghost var mid := S();
      if containers != [] {
        NoEmptyAnywhere(mid, Prefix(p, |containers| - 1));
      }
      var more := PruneUp(root, path, containers);
      freed := freed + more;
      ReleasedTrans(old(S()), mid, S(), p);
    }

    method FreeDirect(index: nat) returns (freed: nat)
      requires S().Sound() && S().NoEmpty() && index < NDIR
      modifies `slots, `pending, `own
      ensures S().Sound() && S().NoEmpty() && Released(old(own), own, Pos(index, []))
      ensures DataKept(old(S()), S()) && |own| == |old(own)| - freed
    {
      hide AddrsPerBlock, Entry, NodeAt, NoEntries, Rep, CutAlong, DataKept, State.Sound, State.NoEmpty,
           State.NoEmptyBut;
      ghost var p := Pos(index, []);
      NothingCut(S(), p);
      SoundSlots(S());
      var block := slots[index];
      RootIsPos(index, Apb());
      NodeOwner(S(), p);
      SlotIsNode(disk, slots, index);
      if block == 0 || block >= |disk| {
        return 0;
      }
      CutDirect(S(), index);
      var queued := FreeBlock(block);
      slots := slots[index := 0];
      own := own - {block};
      assert S() == old(S()).CutRoot(index);
      return 1;
    }

    /**
      Releases logical block `index` and every indirect block above it that this leaves empty. `d0` names the
      one indirect block on the way that may be empty already, as it is while an allocation is being undone.
     */
    method FreeSlot(index: nat, ghost d0: nat) returns (ok: bool, freed: nat)
      requires S().Sound()
      requires S().NoEmpty() || UnfinishedAt(S(), PosOf(index, Apb()), d0)
      modifies `disk, `slots, `pending, `cached, `own
      ensures S().Sound()
      ensures ok <==> index < |old(disk)| && (index < Capacity(Apb()) || old(slots)[TIND] == 0)
      ensures index < |old(disk)| && index < Capacity(Apb()) ==> S().NoEmpty() && Released(old(own), own, PosOf(index, Apb()))
      ensures !(index < |old(disk)| && index < Capacity(Apb())) ==> S() == old(S())
      ensures DataKept(old(S()), S()) && |own| == |old(own)| - freed
    {
      hide AddrsPerBlock, Entry, NodeAt, NoEntries, Rep, CutAlong, DataKept, Capacity, Quot, Rem;
      hide State.Sound, State.NoEmpty, State.NoEmptyBut, State.Geometry;
      ghost var p := PosOf(index, Apb());
      NothingCut(S(), p);
      SoundSlots(S());
      if index >= |disk| {
        return false, 0;
      }
      DirectIsBelowCapacity(index, Apb());
      if index < NDIR {
        freed := FreeDirect(index);
        return true, freed;
      }
      var s := BlockSlot(index, Apb());
      SlotBounds(index, Apb());
      ok, freed := FreeBelow(s.root, s.slots, d0);
    }

    method AllocDirect(index: nat) returns (ok: bool, out: nat)
      requires Valid() && index < NDIR
      modifies `disk, `slots, `sectors, `bitmap, `own
      ensures S().Sound() && sectors == Times(|own|, Spb()) && DataKept(old(S()), S())
      ensures CutAlong(own, old(own), PosOf(index, Apb()))
      ensures ok ==> S().NoEmpty() && index < Capacity(Apb()) && out < |disk| && out == S().Mapped(index) != 0
      ensures ok && old(S()).Mapped(index) == 0 ==> out < |disk| && disk[out] == Zeros(bs)
      ensures !ok && index < Capacity(Apb()) ==> !HasFree(bitmap) && old(S()).Mapped(index) == 0
      ensures !ok && index < |old(disk)| && index < Capacity(Apb()) ==> S().NoEmpty() && own == old(own) && slots == old(slots)
      ensures !ok && !(index < |old(disk)| && index < Capacity(Apb())) ==>
                (own == old(own) <==> !HasFree(old(bitmap)) || (index >= Capacity(Apb()) && old(slots)[TIND] != 0))
      ensures ok ==> FreeCount(bitmap, first) + |own| == old(FreeCount(bitmap, first) + |own|)
      ensures !ok ==> FreeCount(old(bitmap), first) < |Missing(old(own), Way(PosOf(index, Apb())))|
    {
      hide Times, AddrsPerBlock, Entry, NodeAt, NoEntries, Rep, CutAlong, DataKept, Capacity, FreeCount, Missing, Way;
      hide State.Sound, State.NoEmpty, State.NoEmptyBut, State.Geometry, State.Mapped, GrownTo;
      ghost var start := S();
      ghost var p := Pos(index, []);
      SoundSlots(start);
      NothingCut(start, p);
      DirectIsBelowCapacity(index, Apb());
      MappedIsNode(start, index);
      SlotIsNode(disk, slots, index);
      if slots[index] == 0 {
        var got, nb := AllocBlock();
        if !got {
          NoneFree(bitmap, first);
          StillMissing(start, start, p, 0);
          return false, 0;
        }
        OneTaken(start.bitmap, first, nb);
        GrownRoot(start, p, nb);
        slots := slots[index := nb];
        sectors := sectors + Spb();
        own := own[nb := p];
        assert S() == start.GrowRoot(index, nb);
        TimesNext(|start.own|, Spb());
        GrownFacts(start, S(), p, nb);
        MappedIsNode(S(), index);
        SlotIsNode(disk, slots, index);
      }
      return true, slots[index];
    }

    /** Allocates a block and stores it in entry `k` of the indirect block `c`. */
    method GrowEntry(c: nat, k: nat) returns (ok: bool, nb: nat)
      requires S().Geometry() && c in own && 0 < c < |disk| && k < Apb()
      modifies `disk, `bitmap, `cached, `own
      ensures ok <==> HasFree(old(bitmap))
      ensures ok ==> first <= nb < |old(bitmap)| == |old(disk)| && !old(bitmap)[nb] && S() == old(S()).Grow(c, k, nb)
      ensures !ok ==> S() == old(S())
    {
      hide SetEntry, Entry;
      ok, nb := AllocBlock();
      if ok {
        var stored := IndirectStore(c, k, nb);
        own := own[nb := Below(own[c], k)];
      }
    }

    /** The indirect block in slot `root`, made if the slot is empty. */
    method AllocRoot(root: nat, ghost p: Pos) returns (ok: bool, c: nat)
      requires Valid() && root < SLOTS && p.root == root
      modifies `disk, `slots, `sectors, `bitmap, `own
      ensures S().Sound() && sectors == Times(|own|, Spb())
      ensures ok <==> old(slots)[root] != 0 || HasFree(old(bitmap))
      ensures ok ==> GrownTo(old(S()), S(), p, 0, c)
      ensures !ok || old(slots)[root] != 0 ==> S() == old(S())
      ensures ok && old(slots)[root] == 0 ==> |own| == |old(own)| + 1
      ensures FreeCount(bitmap, first) + |own| == old(FreeCount(bitmap, first) + |own|)
    {
      hide Times, AddrsPerBlock, Entry, NodeAt, NoEntries, Rep, Zeros, State.Sound, State.NoEmpty, GrownTo, FreeCount;
      ghost var start := S();
      SoundSlots(start);
      c := slots[root];
      if c != 0 {
        AtRoot(start, p);
        return true, c;
      }
      ok, c := AllocBlock();
      if ok {
        OneTaken(start.bitmap, first, c);
        GrownRoot(start, p, c);
        slots := slots[root := c];
        sectors := sectors + Spb();
        own := own[c := Pos(root, [])];
        assert S() == start.GrowRoot(root, c);
        TimesNext(|start.own|, Spb());
      }
    }

    /** One level further down from the indirect block `c`; `start` is the volume before the whole call. */
    method AllocStep(ghost start: State, ghost p: Pos, ghost d: nat, c: nat, k: nat) returns (ok: bool, next: nat)
      requires start.Sound() && S().Sound() && sectors == Times(|own|, Spb())
      requires p.root < SLOTS && IsLeaf(p) && d < |p.path| && k == p.path[d] && k < Apb() && GrownTo(start, S(), p, d, c)
      requires forall i :: 0 <= i < d ==> p.path[i] < Apb()
      modifies `disk, `sectors, `bitmap, `cached, `own
      ensures S().Sound() && sectors == Times(|own|, Spb())
      ensures ok ==> GrownTo(start, S(), p, d + 1, next)
      ensures !ok ==> S() == old(S()) && !HasFree(bitmap) && NodeAt(disk, slots, Prefix(p, d + 1)) == 0
      ensures S() == old(S()) || (HasFree(old(bitmap)) && |own| == |old(own)| + 1)
      ensures FreeCount(bitmap, first) + |own| == old(FreeCount(bitmap, first) + |own|)
    {
      hide FreeCount;
      hide Times, AddrsPerBlock, Entry, NodeAt, NoEntries, Rep, CutAlong, DataKept, Zeros, State.Sound,
           State.NoEmptyBut, GrownTo;
      ghost var before := S();
      GrownParts(start, before, p, d, c);
      SoundSlots(before);
      OwnedNode(before, c);
      GrownExisting(start, before, p, d, c);
      var got, entry := IndirectPeek(c, k);
      if entry != 0 {
        return true, entry;
      }
      var nb: nat;
      ok, nb := GrowEntry(c, k);
      if !ok {
        return false, 0;
      }
      OneTaken(before.bitmap, first, nb);
      FreshNotOwned(start, before, p, nb);
      GrownStep(start, before, p, d, c, nb);
      sectors := sectors + Spb();
      TimesNext(|before.own|, Spb());
      return true, nb;
    }

    /**
      The way down of `ext2_map_block_alloc`, making every indirect block and the data block that is missing.
      `rooted` says that there is an indirect block in the inode's slot to come back to, and `d` how deep it got.
     */
    method AllocDown(root: nat, path: seq<nat>) returns (ok: bool, rooted: bool, out: nat, d: nat)
      requires Valid() && root < SLOTS && path != [] && IsLeaf(Pos(root, path))
      requires forall i :: 0 < i < |path| ==> path[i] < Apb()
      modifies `disk, `slots, `sectors, `bitmap, `cached, `own
      ensures S().Sound() && sectors == Times(|own|, Spb()) && d <= |path|
      ensures ok ==> path[0] < Apb() && d == |path| && GrownTo(old(S()), S(), Pos(root, path), d, out)
      ensures !ok && !rooted ==> S() == old(S()) && !HasFree(bitmap) && slots[root] == 0
      ensures !ok && rooted ==> d < |path| && GrownTo(old(S()), S(), Pos(root, path), d, out)
      ensures !ok && rooted && path[0] >= Apb() ==> d == 0
      ensures !ok && rooted && path[0] < Apb() ==> !HasFree(bitmap) && NodeAt(disk, slots, Prefix(Pos(root, path), d + 1)) == 0
      ensures !ok && path[0] >= Apb() ==> (own == old(own) <==> old(slots)[root] != 0 || !HasFree(old(bitmap)))
      ensures if own == old(own) then bitmap == old(bitmap) else HasFree(old(bitmap))
      ensures FreeCount(bitmap, first) + |own| == old(FreeCount(bitmap, first) + |own|)
    {
      hide FreeCount;
      hide Times, AddrsPerBlock, Entry, NodeAt, NoEntries, Rep, IsLeaf, State.Sound, State.NoEmpty, State.NoEmptyBut,
           GrownTo;
      ghost var start := S();
      ghost var p := Pos(root, path);
      SoundSlots(start);
      d, rooted := 0, true;
      ok, out := AllocRoot(root, p);
      if !ok {
        rooted := false;
        return;
      }
      while d < |path|
        invariant d <= |path|
        invariant S().Sound() && sectors == Times(|own|, Spb())
        invariant d > 0 ==> path[0] < Apb()
        invariant GrownTo(start, S(), p, d, out)
        invariant d == 0 ==> (own == start.own <==> old(slots)[root] != 0)
        invariant FreeCount(bitmap, first) + |own| == old(FreeCount(bitmap, first) + |own|)
        invariant (own == start.own && bitmap == start.bitmap) || (|own| > |start.own| && HasFree(start.bitmap))
      {
        if path[d] >= Apb() {
          // ext2_indirect_peek refuses the slot
          ok := false;
          return;
        }
        var next: nat;
        ok, next := AllocStep(start, p, d, out, path[d]);
        if !ok {
          return;
        }
        out := next;
        d := d + 1;
      }
      ok := true;
    }

    /** The failure path of `ext2_map_block_alloc`: prunes what `start` did not have. */
    method Undo(index: nat, ghost start: State, ghost d: nat, ghost c: nat)
      requires index >= NDIR && start.Sound() && start.NoEmpty() && start.bs == bs
      requires S().Sound() && sectors == Times(|own|, Spb())
      requires var p := PosOf(index, Apb());
               && d < |p.path| && GrownTo(start, S(), p, d, c)
               && (index < Capacity(Apb()) ==> |slots| == SLOTS && NodeAt(disk, slots, Prefix(p, d + 1)) == 0)
               && (index >= Capacity(Apb()) ==> d == 0 && |slots| == SLOTS && slots[TIND] != 0)
      modifies `disk, `slots, `sectors, `pending, `cached, `own
      ensures S().Sound() && sectors == Times(|own|, Spb())
      ensures CutAlong(own, start.own, PosOf(index, Apb())) && DataKept(start, S())
      ensures index < Capacity(Apb()) ==> start.Mapped(index) == 0
      ensures if index < |old(disk)| && index < Capacity(Apb())
              then S().NoEmpty() && own == start.own && slots == start.slots
              else S() == old(S())
    {
      hide Times, AddrsPerBlock, Entry, NodeAt, NoEntries, Rep, CutAlong, DataKept, Capacity, Quot, Rem, BlockSlot,
           IsLeaf, IsPos;
      hide State.Sound, State.NoEmpty, State.NoEmptyBut, State.Geometry, State.Mapped, GrownTo, Released, UnfinishedAt;
      ghost var p := PosOf(index, Apb());
      ghost var mid := S();
      NothingCut(start, p);
      GrownParts(start, mid, p, d, c);
      MappedIsNode(start, index);
      Stuck(start, mid, index, d, c);
      var released, freed := FreeSlot(index, d);
      if released {
        sectors := sectors - freed * Spb();
        TimesAdd(|own|, freed, Spb());
        RolledBack(start, mid, S(), p, d, c);
      }
    }

    method AllocBelow(index: nat, root: nat, path: seq<nat>) returns (ok: bool, out: nat)
      requires Valid() && index >= NDIR && BlockSlot(index, Apb()) == Slot(root, path)
      modifies `disk, `slots, `sectors, `bitmap, `pending, `cached, `own
      ensures S().Sound() && sectors == Times(|own|, Spb()) && DataKept(old(S()), S())
      ensures CutAlong(own, old(own), PosOf(index, Apb()))
      ensures ok ==> S().NoEmpty() && index < Capacity(Apb()) && out < |disk| && out == S().Mapped(index) != 0
      ensures ok && old(S()).Mapped(index) == 0 ==> out < |disk| && disk[out] == Zeros(bs)
      ensures !ok && index < Capacity(Apb()) ==> !HasFree(bitmap) && old(S()).Mapped(index) == 0
      ensures !ok && index < |old(disk)| && index < Capacity(Apb()) ==> S().NoEmpty() && own == old(own) && slots == old(slots)
      ensures !ok && !(index < |old(disk)| && index < Capacity(Apb())) ==>
                (own == old(own) <==> !HasFree(old(bitmap)) || (index >= Capacity(Apb()) && old(slots)[TIND] != 0))
      ensures ok ==> FreeCount(bitmap, first) + |own| == old(FreeCount(bitmap, first) + |own|)
      ensures !ok && index < Capacity(Apb()) ==>
                FreeCount(old(bitmap), first) < |Missing(old(own), Way(PosOf(index, Apb())))|
    {
      hide FreeCount, Missing, Way;
      hide Times, AddrsPerBlock, Entry, NodeAt, NoEntries, Rep, CutAlong, DataKept, Capacity, Quot, Rem, BlockSlot,
           IsLeaf, IsPos;
      hide State.Sound, State.NoEmpty, State.NoEmptyBut, State.Geometry, State.Mapped, GrownTo, Released, UnfinishedAt;
      ghost var start := S();
      ghost var p := PosOf(index, Apb());
      SlotBounds(index, Apb());
      SoundSlots(start);
      NothingCut(start, p);
      MappedIsNode(start, index);
      var rooted: bool;
      var d: nat;
      ok, rooted, out, d := AllocDown(root, path);
      ghost var mid := S();
      if ok {
        GrownFacts(start, mid, p, out);
        MappedIsNode(mid, index);
        NewLeafIsZero(start, mid, index, out);
        return true, out;
      }
      if !rooted {
        RootHole(start, p);
        NoneFree(bitmap, first);
        RootMissing(start, p);
        return false, 0;
      }
      if index >= Capacity(Apb()) {
        PrefixStep(p, 0, Apb());
        StuckOutside(start, mid, p, out);
      }
      SoundSlots(mid);
      if index < Capacity(Apb()) {
        NoneFree(bitmap, first);
        StuckMissing(start, mid, p, d, out);
      }
      GrownParts(start, mid, p, d, out);
      Undo(index, start, d, out);
      return false, 0;
    }

    /** Finds or makes the block for logical block `index`; on failure puts back what it made on the way. */
    method MapBlockAlloc(index: nat) returns (ok: bool, out: nat)
      requires Valid()
      modifies `disk, `slots, `sectors, `bitmap, `pending, `cached, `own
      ensures S().Sound() && sectors == Times(|own|, Spb()) && DataKept(old(S()), S())
      ensures CutAlong(own, old(own), PosOf(index, Apb()))
      ensures ok ==> S().NoEmpty() && index < Capacity(Apb()) && out < |disk| && out == S().Mapped(index) != 0
      ensures ok && old(S()).Mapped(index) == 0 ==> out < |disk| && disk[out] == Zeros(bs)
      ensures forall i: nat :: i != index ==> S().Mapped(i) == old(S()).Mapped(i)
      ensures !ok && index < Capacity(Apb()) ==> !HasFree(bitmap) && old(S()).Mapped(index) == 0
      ensures !ok && index < |old(disk)| && index < Capacity(Apb()) ==> S().NoEmpty() && own == old(own) && slots == old(slots)
      ensures !ok && !(index < |old(disk)| && index < Capacity(Apb())) ==>
                (own == old(own) <==> !HasFree(old(bitmap)) || (index >= Capacity(Apb()) && old(slots)[TIND] != 0))
      ensures ok ==> FreeCount(bitmap, first) + |own| == old(FreeCount(bitmap, first) + |own|)
      ensures index < Capacity(Apb()) ==>
                (ok <==> |Missing(old(own), Way(PosOf(index, Apb())))| <= FreeCount(old(bitmap), first))
    {
      hide FreeCount, Missing, Way;
      hide Times, AddrsPerBlock, Entry, NodeAt, NoEntries, Rep, CutAlong, DataKept, Capacity, Quot, Rem;
      hide State.Sound, State.NoEmpty, State.NoEmptyBut, State.Geometry, State.Mapped, GrownTo;
      if index < NDIR {
        ok, out := AllocDirect(index);
      } else {
        var s := BlockSlot(index, Apb());
        ok, out := AllocBelow(index, s.root, s.slots);
      }
      SameGeometry(old(S()), S());
      OthersMapped(old(S()), S(), index);
      if ok {
        AllOnWay(old(S()), S(), index);
        ExtraCount(old(own), own, Way(PosOf(index, Apb())));
      }
    }
  }

  // ---------- counting what an allocation takes ----------

  lemma SingleOwn(s: State)
    requires s.Sound()
    ensures Single(s.own)
  {
    hide AddrsPerBlock, Entry, NodeAt, NoEntries, State.CacheOk, State.Ownership;
  }

  lemma AlongIsWay(own: map<nat, Pos>, sub: map<nat, Pos>, p: Pos)
    requires CutAlong(own, sub, p)
    ensures Extends(sub, own, Way(p))
  {
    forall b | b in own && b !in sub
      ensures own[b] in Way(p)
    {
      assert own[b] == Prefix(p, |own[b].path|);
    }
  }

  /** Above a mapped logical block every position is taken. */
  lemma WayOwned(s: State, index: nat)
    requires s.Sound() && s.Mapped(index) != 0
    ensures forall q :: q in Way(PosOf(index, s.Apb())) ==> Owned(s.own, q)
  {
    hide AddrsPerBlock, Entry, NodeAt, NoEntries, Capacity, BlockSlot, State.Mapped, State.Sound;
    var p := PosOf(index, s.Apb());
    MappedIsNode(s, index);
    SoundSlots(s);
    forall q | q in Way(p)
      ensures Owned(s.own, q)
    {
      var d :| 0 <= d <= |p.path| && q == Prefix(p, d);
      assert Prefix(p, |p.path|) == p;
      if NodeAt(s.disk, s.slots, q) == 0 {
        HoleBelow(s, p, d, |p.path|);
      }
      NodeOwner(s, q);
    }
  }

  lemma AllOnWay(s: State, s': State, index: nat)
    requires s'.Sound() && CutAlong(s'.own, s.own, PosOf(index, s'.Apb())) && s'.Mapped(index) != 0
    ensures Single(s'.own) && Extends(s.own, s'.own, Way(PosOf(index, s'.Apb())))
    ensures forall q :: q in Way(PosOf(index, s'.Apb())) ==> Owned(s'.own, q)
  {
    hide State.Sound, State.Mapped, CutAlong, Way, Owned, Extends, Single;
    SingleOwn(s');
    AlongIsWay(s'.own, s.own, PosOf(index, s'.Apb()));
    WayOwned(s', index);
  }

  /** On the way to `p` something is missing still, so fewer blocks were added than were missing. */
  lemma StillMissing(s: State, s': State, p: Pos, d: nat)
    requires s'.Sound() && CutAlong(s'.own, s.own, p) && d <= |p.path| && p.root < SLOTS && IsPos(Prefix(p, d), s'.Apb())
    requires |s'.slots| == SLOTS && NodeAt(s'.disk, s'.slots, Prefix(p, d)) == 0
    ensures |s'.own| < |s.own| + |Missing(s.own, Way(p))|
  {
    hide State.Sound, CutAlong, Extends, Single, NodeAt, Missing;
    SingleOwn(s');
    AlongIsWay(s'.own, s.own, p);
    NodeOwner(s', Prefix(p, d));
    assert Prefix(p, d) in Way(p) && !Owned(s'.own, Prefix(p, d));
    hide Way, Owned;
    ExtraCount(s.own, s'.own, Way(p));
  }

  lemma RootMissing(s: State, p: Pos)
    requires s.Sound() && |s.slots| == SLOTS && p.root < SLOTS && s.slots[p.root] == 0
    ensures |Missing(s.own, Way(p))| > 0
  {
    hide State.Sound, CutAlong, NodeAt, Missing, Way;
    assert Prefix(p, 0) == Pos(p.root, []);
    SlotIsNode(s.disk, s.slots, p.root);
    NothingCut(s, p);
    StillMissing(s, s, p, 0);
  }

  lemma StuckMissing(s: State, s': State, p: Pos, d: nat, c: nat)
    requires s'.Sound() && d < |p.path| && p.root < SLOTS && IsPos(p, s'.Apb()) && GrownTo(s, s', p, d, c)
    requires |s'.slots| == SLOTS && NodeAt(s'.disk, s'.slots, Prefix(p, d + 1)) == 0
    ensures |s'.own| < |s.own| + |Missing(s.own, Way(p))|
  {
    hide State.Sound, CutAlong, NodeAt, Missing, Way, GrownTo, DataKept;
    GrownParts(s, s', p, d, c);
    StillMissing(s, s', p, d + 1);
  }

  ghost function NewState(bs: BlockSize, first: nat, disk: Disk): State {
    State(bs, first, {}, disk, seq(SLOTS, _ => 0), seq(|disk|, _ => false), [], 0, [], map[])
  }

  lemma NewIsSound(s: State)
    requires s.first > 0 && |s.disk| <= WORD_LIMIT && Sized(s.disk, s.Apb()) && s == NewState(s.bs, s.first, s.disk)
    ensures s.Sound() && s.NoEmpty()
  {
    hide AddrsPerBlock, Entry, NodeAt, NoEntries;
    forall p: Pos | p.root < SLOTS
      ensures NodeAt(s.disk, s.slots, p) == 0
    {
      assert Prefix(p, 0) == Pos(p.root, []);
      SlotIsNode(s.disk, s.slots, p.root);
      HoleBelow(s, p, 0, |p.path|);
    }
  }

  lemma CacheIsSame(s: State)
    requires s.Sound()
    ensures s.CacheSame()
  {
    hide AddrsPerBlock, Rep, NoEntries, State.Ownership;
  }

  /** Reading an indirect block of the tree through the cache leaves everything in order. */
  lemma LoadValid(s: State, b: nat)
    requires s.Sound() && s.NoEmpty() && b in s.own && !IsLeaf(s.own[b])
    ensures b < |s.disk| && s.Load(b).Sound() && s.Load(b).NoEmpty()
    ensures forall i: nat :: s.Load(b).Mapped(i) == s.Mapped(i)
  {
    hide AddrsPerBlock, Entry, NodeAt, NoEntries, Capacity, BlockSlot;
    OwnedNode(s, b);
    LoadKeeps(s, b);
  }

  lemma SameGeometry(s: State, s': State)
    requires DataKept(s, s')
    ensures s.bs == s'.bs && |s'.disk| == |s.disk| && s'.reserved == s.reserved && s'.first == s.first
  {
  }

  /** What an allocation that went all the way means for the tree. */
  lemma GrownFacts(s: State, s': State, p: Pos, b: nat)
    requires s'.Sound() && IsLeaf(p) && GrownTo(s, s', p, |p.path|, b)
    ensures s'.NoEmpty() && CutAlong(s'.own, s.own, p) && DataKept(s, s')
    ensures b != 0 && b < |s'.disk| && |s'.slots| == SLOTS && p.root < SLOTS && IsPos(p, s'.Apb()) && NodeAt(s'.disk, s'.slots, p) == b
    ensures b !in s.own ==> s'.disk[b] == Zeros(s.bs)
  {
    hide AddrsPerBlock, NoEntries, NodeAt, Entry, State.Sound, State.NoEmpty, State.NoEmptyBut;
    assert Prefix(p, |p.path|) == p;
    OwnedNode(s', b);
    GrownDone(s, s', p, b);
  }

  lemma RootHole(s: State, p: Pos)
    requires |s.slots| == SLOTS && p.root < SLOTS && s.slots[p.root] == 0
    ensures NodeAt(s.disk, s.slots, p) == 0
  {
    SlotIsNode(s.disk, s.slots, p.root);
    assert Prefix(p, 0) == Pos(p.root, []);
    HoleBelow(s, p, 0, |p.path|);
  }

  lemma NewLeafIsZero(s: State, s': State, index: nat, b: nat)
    requires s.Sound() && s'.Sound() && index < Capacity(s.Apb())
    requires var p := PosOf(index, s.Apb()); GrownTo(s, s', p, |p.path|, b)
    ensures s.Mapped(index) == 0 ==> b < |s'.disk| && s'.disk[b] == Zeros(s.bs)
  {
    hide AddrsPerBlock, Entry, NodeAt, NoEntries, Capacity, BlockSlot, Zeros, IsPos;
    MappedIsNode(s, index);
    var p := PosOf(index, s.Apb());
    assert Prefix(p, |p.path|) == p;
    NodeOwner(s, p);
  }

  /** An index past the last one the tree can hold gets no further than the inode's own slot. */
  lemma StuckOutside(s: State, s': State, p: Pos, c: nat)
    requires s'.Sound() && p.path != [] && p.path[0] >= s'.Apb()
    requires GrownTo(s, s', p, 0, c) && !IsLeaf(Prefix(p, 0))
    ensures UnfinishedAt(s', p, 0)
    ensures p.root < SLOTS && |s'.slots| == SLOTS && s'.slots[p.root] == c != 0
  {
    hide AddrsPerBlock, Entry, NodeAt, NoEntries;
    OwnedNode(s', c);
    assert s'.Indirect(c, Prefix(p, 0));
    assert Prefix(p, 0) == Pos(p.root, []);
    SlotIsNode(s'.disk, s'.slots, p.root);
    assert Prefix(p, 1).path[0] == p.path[0];
  }

  lemma Stuck(s: State, s': State, index: nat, d: nat, c: nat)
    requires index >= NDIR && s.Sound() && s'.Sound() && s.bs == s'.bs
    requires var p := PosOf(index, s.Apb());
             && d < |p.path| && GrownTo(s, s', p, d, c) && |s'.slots| == SLOTS
             && (index < Capacity(s.Apb()) ==> NodeAt(s'.disk, s'.slots, Prefix(p, d + 1)) == 0)
             && (index >= Capacity(s.Apb()) ==> d == 0)
    ensures UnfinishedAt(s', PosOf(index, s.Apb()), d)
    ensures index < Capacity(s.Apb()) ==> s.Mapped(index) == 0
  {
    hide AddrsPerBlock, Entry, NodeAt, NoEntries, Capacity, BlockSlot, Quot, Rem, IsPos, GrownTo, UnfinishedAt,
         State.Sound;
    var p := PosOf(index, s.Apb());
    MappedIsNode(s, index);
    SlotBounds(index, s.Apb());
    PrefixStep(p, d, s.Apb());
    if index < Capacity(s.Apb()) {
      GrownStuck(s, s', p, d, c);
      StuckIsHole(s, s', index, d, c);
    } else {
      StuckOutside(s, s', p, c);
    }
  }

  lemma StuckIsHole(s: State, s': State, index: nat, d: nat, c: nat)
    requires s.Sound() && s'.Sound() && index < Capacity(s.Apb()) && s.bs == s'.bs
    requires var p := PosOf(index, s.Apb()); d <= |p.path| && GrownTo(s, s', p, d, c) && UnfinishedAt(s', p, d)
    ensures s.Mapped(index) == 0
  {
    hide AddrsPerBlock, Entry, NodeAt, NoEntries, Capacity, BlockSlot, Zeros, IsPos, UnfinishedAt;
    var p := PosOf(index, s.Apb());
    MappedIsNode(s, index);
    UnfinishedIsHole(s', p, d);
    NodeOwner(s, p);
    NodeOwner(s', p);
  }

  lemma RootIsPos(r: nat, apb: nat)
    requires r < SLOTS
    ensures IsPos(Pos(r, []), apb)
  {
  }

  lemma DirectIsBelowCapacity(index: nat, apb: nat)
    ensures index < NDIR ==> index < Capacity(apb)
  {
  }

  lemma SlotBounds(index: nat, apb: nat)
    requires apb > 0 && index >= NDIR
    ensures var s := BlockSlot(index, apb);
            && s.Slot? && s.root < SLOTS && s.slots != [] && IsLeaf(Pos(s.root, s.slots))
            && (forall i :: 0 < i < |s.slots| ==> s.slots[i] < apb)
            && (s.slots[0] < apb <==> index < Capacity(apb))
            && (index >= Capacity(apb) ==> s.root == TIND)
  {
    hide Quot, Rem;
    SlotOfIndex(index, apb);
    var i := index - NDIR;
    if i >= apb && i - apb >= Square(apb) {
      var j := i - apb - Square(apb);
      DivMod(Quot(j, apb), apb);
      DivMod(j, apb);
      assert BlockSlot(index, apb).slots == [Quot(j, Square(apb)), Rem(Quot(j, apb), apb), Rem(j, apb)];
    } else if i >= apb {
      DivMod(i - apb, apb);
      assert BlockSlot(index, apb).slots == [Quot(i - apb, apb), Rem(i - apb, apb)];
    }
  }

  /** A direct block is queued for freeing and its slot cleared. */
  lemma CutDirect(s: State, r: nat)
    requires s.Sound() && s.NoEmpty() && r < NDIR && s.slots[r] != 0
    ensures var s' := s.CutRoot(r);
            && s'.Sound() && s'.NoEmpty() && DataKept(s, s') && Released(s.own, s'.own, Pos(r, []))
            && s.first <= s.slots[r] < |s.disk| && s.slots[r] !in s.pending && s.slots[r] in s.own
  {
    hide AddrsPerBlock, Entry, NoEntries, NodeAt;
    SlotOwner(s, r);
    NoEmptyAnywhere(s, Pos(r, []));
    CutRootKeeps(s, r);
  }

  /** The inode's count is that of the 512-byte sectors of the blocks the inode reaches, data and indirect. */
  lemma SectorCount(v: Volume)
    requires v.Valid()
    ensures 512 * v.sectors == |v.own| * v.bs
  {
    hide State.Sound, State.NoEmpty;
    SectorsOf(|v.own|, v.bs);
  }

  lemma SectorsOf(n: nat, bs: BlockSize)
    ensures 512 * Times(n, bs / 512) == n * bs
  {
    var k := bs / 512;
    assert bs == 512 * k;
    MulAssoc(512, n, k);
    MulAssoc(n, 512, k);
    assert n * bs == (n * 512) * k;
  }
}
