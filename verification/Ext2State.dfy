/**
  The state of a mounted volume as a value, and what one step of growing or pruning the inode's tree does to it.
 */
module Ext2State {
  import opened Words
  import opened Ext2Tree

  /**
    `bs` is the block size, `first` the first block the allocator may hand out, `reserved` the blocks that
    belong to other files and to the volume itself. `own` maps the blocks the inode reaches to their positions.
   */
  datatype State = State(
    bs: BlockSize,
    first: nat,
    reserved: set<nat>,
    disk: Disk,
    slots: seq<nat>,
    bitmap: seq<bool>,
    pending: seq<nat>,
    cached: nat,
    cachedBuf: Block,
    own: map<nat, Pos>)
  {
    function Apb(): nat {
      AddrsPerBlock(bs)
    }

    ghost predicate Geometry() {
      && first > 0
      && |bitmap| == |disk| <= WORD_LIMIT
      && Sized(disk, Apb())
    }

    /** Who holds which block: the inode, the pending list, the rest of the volume, or nobody. */
    ghost predicate Ownership() {
      && |bitmap| == |disk|
      && (forall b :: b in own ==> first <= b < |disk| && bitmap[b] && b !in reserved)
      && (forall i :: 0 <= i < |pending| ==> first <= pending[i] < |disk| && bitmap[pending[i]])
      && (forall i :: 0 <= i < |pending| ==> pending[i] !in own && pending[i] !in reserved)
      && (forall i, j :: 0 <= i < j < |pending| ==> pending[i] != pending[j])
      && (forall b :: b in reserved ==> b < |disk| && (first <= b ==> bitmap[b]))
    }

    /** The cached copy is what the disk has. */
    ghost predicate CacheSame() {
      cached != 0 ==> cached < |disk| && cachedBuf == disk[cached]
    }

    /** What a reader that goes through the cache sees of block `b`. */
    ghost function Seen(b: nat): Block
      requires b < |disk|
    {
      if cached == b then cachedBuf else disk[b]
    }

    /** The cached indirect block agrees with the disk, and is still an indirect block in use. */
    ghost predicate CacheOk() {
      cached != 0 ==>
        && cached < |disk|
        && cachedBuf == disk[cached]
        && (cached in reserved || (cached in own && !IsLeaf(own[cached]) && !NoEntries(disk[cached])))
    }

    ghost predicate Sound() {
      Geometry() && Ownership() && CacheOk() && Rep(disk, slots, own, Apb())
    }

    ghost predicate NoEmpty() {
      Tight(disk, own)
    }

    ghost predicate NoEmptyBut(x: Pos) {
      TightExcept(disk, own, x)
    }

    /** The block the tree holds for logical block `index`, 0 for a hole. */
    ghost function Mapped(index: nat): nat {
      if |slots| == SLOTS && index < Capacity(Apb()) then NodeAt(disk, slots, PosOf(index, Apb())) else 0
    }

    /** Block `b` is an indirect block of the tree, at position `q`. */
    ghost predicate Indirect(b: nat, q: Pos) {
      b in own && own[b] == q && !IsLeaf(q)
    }

    /** The cache after an indirect block is read through it. */
    ghost function Load(b: nat): State
      requires b < |disk|
    {
      if cached == b then this else this.(cached := b, cachedBuf := disk[b])
    }

    /** The cache after block `b` is written behind it. */
    function Dropped(b: nat): nat {
      if cached == b then 0 else cached
    }

    /** Block `nb` is taken from the bitmap, zeroed and put in slot `r` of the inode. */
    ghost function GrowRoot(r: nat, nb: nat): State
      requires r < |slots| && nb < |disk| && nb < |bitmap|
    {
      this.(bitmap := bitmap[nb := true], disk := disk[nb := Zeros(bs)], slots := slots[r := nb],
            own := own[nb := Pos(r, [])])
    }

    /** Block `nb` is taken, zeroed and stored in entry `k` of the indirect block `c`. */
    ghost function Grow(c: nat, k: nat, nb: nat): State
      requires Geometry() && c in own && c < |disk| && nb < |disk| && k < Apb()
    {
      this.(bitmap := bitmap[nb := true], disk := Stored(disk[nb := Zeros(bs)], c, k, nb), cached := Dropped(c),
            own := own[nb := Below(own[c], k)])
    }

    /** The block in slot `r` is queued for freeing and the slot cleared. */
    ghost function CutRoot(r: nat): State
      requires r < |slots|
    {
      this.(pending := pending + [slots[r]], slots := slots[r := 0], own := own - {slots[r]})
    }

    /** Block `b` is queued for freeing and entry `k` of the indirect block `c` above it cleared. */
    ghost function Cut(c: nat, k: nat, b: nat): State
      requires Geometry() && c < |disk| && k < Apb()
    {
      this.(pending := pending + [b], disk := Stored(disk, c, k, 0), cached := Dropped(c), own := own - {b})
    }

    /** Nothing hangs below block `b`. */
    ghost predicate Bare(b: nat) {
      b in own && b < |disk| && (IsLeaf(own[b]) || NoEntries(disk[b]))
    }
  }

  /** Data blocks both states hold, and blocks of the rest of the volume, hold what they held. */
  ghost predicate DataKept(s: State, s': State) {
    && s'.bs == s.bs && s'.first == s.first && s'.reserved == s.reserved
    && |s'.disk| == |s.disk|
    && (forall b :: b in s.own && b in s'.own && b < |s.disk| && IsLeaf(s.own[b]) && IsLeaf(s'.own[b]) ==> s'.disk[b] == s.disk[b])
    && (forall b :: b in s.reserved && b < |s.disk| ==> s'.disk[b] == s.disk[b])
  }

  lemma LoadKeeps(s: State, b: nat)
    requires s.Sound() && b in s.own && !IsLeaf(s.own[b]) && !NoEntries(s.disk[b])
    ensures s.Load(b).Sound() && s.Load(b).cachedBuf == s.disk[b]
  {
    hide AddrsPerBlock, NoEntries, Rep;
  }

  lemma OwnedNode(s: State, b: nat)
    requires s.Sound() && b in s.own
    ensures var q := s.own[b];
            && b != 0 && b < |s.disk| && |s.slots| == SLOTS && q.root < SLOTS
            && IsPos(q, s.Apb()) && NodeAt(s.disk, s.slots, q) == b
  {
  }

  lemma GrowRootKeeps(s: State, r: nat, nb: nat)
    requires s.Sound() && s.NoEmpty() && r < SLOTS && s.slots[r] == 0
    requires s.first <= nb < |s.disk| && !s.bitmap[nb]
    ensures var s' := s.GrowRoot(r, nb);
            && s'.Sound() && s'.NoEmptyBut(Pos(r, []))
            && nb !in s.own && DataKept(s, s')
  {
    hide AddrsPerBlock, NoEntries, Rep, NodeAt, Tight, TightExcept, IsLeaf;
    AddRootStep(s.disk, s.slots, s.own, s.Apb(), r, nb);
  }

  lemma GrowKeeps(s: State, q: Pos, c: nat, k: nat, nb: nat)
    requires s.Sound() && s.Indirect(c, q) && s.NoEmptyBut(q)
    requires k < s.Apb() && NodeAt(s.disk, s.slots, Below(q, k)) == 0
    requires s.first <= nb < |s.disk| && !s.bitmap[nb]
    ensures var s' := s.Grow(c, k, nb);
            && s'.Sound() && s'.NoEmptyBut(Below(q, k))
            && nb !in s.own && DataKept(s, s')
  {
    hide AddrsPerBlock, NoEntries, Entry, SetEntry, NodeAt, Rep, Tight, TightExcept, IsLeaf;
    OwnedNode(s, c);
    AddStep(s.disk, s.slots, s.own, s.Apb(), q, k, nb);
  }

  /** Clearing the queued blocks in the bitmap lets go of nothing that is held. */
  lemma FlushKeeps(s: State, bitmap: seq<bool>)
    requires s.Sound() && |bitmap| == |s.bitmap|
    requires forall b :: 0 <= b < |bitmap| ==> bitmap[b] == (s.bitmap[b] && b !in s.pending)
    ensures var s' := s.(bitmap := bitmap, pending := []);
            && s'.Sound() && (s.NoEmpty() ==> s'.NoEmpty())
            && forall i: nat :: s'.Mapped(i) == s.Mapped(i)
  {
    hide AddrsPerBlock, NoEntries, Rep, NodeAt, Tight, IsLeaf, Capacity;
    forall i | 0 <= i < |s.pending|
      ensures s.pending[i] !in s.own && s.pending[i] !in s.reserved
    {
    }
  }

  lemma BareIsChildless(s: State, p: Pos, b: nat)
    requires s.Sound() && s.Bare(b) && s.own[b] == p
    ensures p.root < SLOTS && Childless(s.disk, s.slots, p)
  {
    hide AddrsPerBlock, Entry, NodeAt;
  }

  lemma SlotOwner(s: State, r: nat)
    requires s.Sound() && r < SLOTS && s.slots[r] != 0
    ensures s.slots[r] in s.own && s.own[s.slots[r]] == Pos(r, [])
  {
    hide AddrsPerBlock, Entry;
    assert NodeAt(s.disk, s.slots, Pos(r, [])) == s.slots[r];
  }

  lemma CutRootKeeps(s: State, r: nat)
    requires s.Sound() && r < SLOTS && s.slots[r] != 0
    requires s.Bare(s.slots[r]) && s.NoEmptyBut(Pos(r, []))
    ensures s.slots[r] in s.own && s.own[s.slots[r]] == Pos(r, [])
    ensures var s' := s.CutRoot(r);
            && s'.Sound() && s'.NoEmpty() && DataKept(s, s')
            && s.first <= s.slots[r] < |s.disk| && s.slots[r] !in s.pending
  {
    hide AddrsPerBlock, NoEntries, Entry, NodeAt;
    SlotOwner(s, r);
    BareIsChildless(s, Pos(r, []), s.slots[r]);
    RemoveRootStep(s.disk, s.slots, s.own, s.Apb(), r);
  }

  lemma CutKeeps(s: State, q: Pos, c: nat, k: nat, b: nat)
    requires s.Sound() && s.Indirect(c, q) && k < s.Apb()
    requires s.Bare(b) && s.own[b] == Below(q, k) && s.NoEmptyBut(Below(q, k))
    ensures var s' := s.Cut(c, k, b);
            && s'.Sound() && s'.NoEmptyBut(q) && DataKept(s, s')
            && s.first <= b < |s.disk| && b !in s.pending
            && c in s'.own
  {
    hide AddrsPerBlock, NoEntries, Entry, SetEntry, NodeAt;
    BareIsChildless(s, Below(q, k), b);
    RemoveStep(s.disk, s.slots, s.own, s.Apb(), q, k);
  }

  lemma SoundSlots(s: State)
    requires s.Sound()
    ensures |s.slots| == SLOTS && |s.bitmap| == |s.disk| && s.Geometry()
    ensures forall r :: 0 <= r < SLOTS && s.slots[r] != 0 ==> s.slots[r] < |s.disk|
  {
    hide AddrsPerBlock, Entry, NoEntries;
    forall r | 0 <= r < SLOTS && s.slots[r] != 0
      ensures s.slots[r] < |s.disk|
    {
      SlotOwner(s, r);
    }
  }

  lemma SlotIsNode(disk: Disk, slots: seq<nat>, r: nat)
    requires |slots| == SLOTS && r < SLOTS
    ensures NodeAt(disk, slots, Pos(r, [])) == slots[r]
  {
  }

  lemma PrefixStep(p: Pos, d: nat, apb: nat)
    requires d < |p.path|
    ensures Prefix(p, d + 1) == Below(Prefix(p, d), p.path[d])
    ensures IsLeaf(p) ==> !IsLeaf(Prefix(p, d))
    ensures p.root < SLOTS && |p.path| <= Height(p.root) && (forall i :: 0 <= i < d ==> p.path[i] < apb) ==> IsPos(Prefix(p, d), apb)
    ensures Prefix(p, |p.path|) == p
  {
  }

  /** One step down from depth `d` on the way to the data block at `p`. */
  lemma WalkStep(s: State, p: Pos, d: nat)
    requires s.Sound() && p.root < SLOTS && IsLeaf(p) && d < |p.path|
    requires forall i :: 0 <= i < d ==> p.path[i] < s.Apb()
    ensures var c := NodeAt(s.disk, s.slots, Prefix(p, d));
            && (c != 0 ==> 0 < c < |s.disk| && s.Indirect(c, Prefix(p, d)))
            && (c != 0 && s.NoEmpty() ==> !NoEntries(s.disk[c]))
    ensures var c := NodeAt(s.disk, s.slots, Prefix(p, d));
            var e := NodeAt(s.disk, s.slots, Prefix(p, d + 1));
            && e == (if c == 0 then 0 else Entry(s.disk[c], p.path[d]))
            && (e != 0 ==> p.path[d] < s.Apb() && e < |s.disk|)
  {
    hide AddrsPerBlock, Entry, NoEntries;
    PrefixStep(p, d, s.Apb());
    assert Parent(Below(Prefix(p, d), p.path[d])) == Prefix(p, d);
    var c := NodeAt(s.disk, s.slots, Prefix(p, d));
    if c != 0 {
      ChildIsNode(s.disk, s.slots, s.own, s.Apb(), Prefix(p, d), p.path[d]);
    }
  }

  lemma HoleBelow(s: State, p: Pos, d: nat, e: nat)
    requires |s.slots| == SLOTS && p.root < SLOTS && d <= e <= |p.path|
    requires NodeAt(s.disk, s.slots, Prefix(p, d)) == 0
    ensures NodeAt(s.disk, s.slots, Prefix(p, e)) == 0
    ensures e == |p.path| ==> NodeAt(s.disk, s.slots, p) == 0
    decreases e - d
  {
    hide AddrsPerBlock, Entry;
    assert Prefix(p, |p.path|) == p;
    if d < e {
      assert Parent(Prefix(p, d + 1)) == Prefix(p, d);
      HoleBelow(s, p, d + 1, e);
    }
  }

  lemma MappedIsNode(s: State, index: nat)
    requires s.Sound()
    ensures var p := PosOf(index, s.Apb());
            && p.root < SLOTS && IsLeaf(p)
            && (index < Capacity(s.Apb()) <==> IsPos(p, s.Apb()))
            && (s.Mapped(index) != 0 <==> index < Capacity(s.Apb()) && NodeAt(s.disk, s.slots, p) != 0)
            && (index < Capacity(s.Apb()) ==> s.Mapped(index) == NodeAt(s.disk, s.slots, p))
  {
    hide AddrsPerBlock, Entry, NodeAt, Capacity, BlockSlot;
    SlotOfIndex(index, s.Apb());
  }

  /** Nothing but blocks on the way to `p` left the tree, and `p` itself is gone. */
  ghost predicate Released(before: map<nat, Pos>, after: map<nat, Pos>, p: Pos) {
    && CutAlong(before, after, p)
    && forall b :: b in after ==> after[b] != p
  }

  /** An allocation on the way to `p` got as far as depth `d`, whose indirect block may still be empty. */
  ghost predicate UnfinishedAt(s: State, p: Pos, d: nat) {
    && d < |p.path|
    && (exists b :: s.Indirect(b, Prefix(p, d)))
    && (forall b :: b in s.own ==> s.own[b] != Prefix(p, d + 1))
    && s.NoEmptyBut(Prefix(p, d))
  }

  lemma NodeOwner(s: State, p: Pos)
    requires s.Sound() && p.root < SLOTS && IsPos(p, s.Apb())
    ensures var b := NodeAt(s.disk, s.slots, p);
            && (b != 0 ==> b in s.own && s.own[b] == p && b < |s.disk|)
            && (b == 0 ==> forall b' :: b' in s.own ==> s.own[b'] != p)
  {
  }

  lemma NoEmptyAgain(s: State, x: Pos, b: nat)
    requires s.Sound() && s.NoEmptyBut(x) && s.Indirect(b, x) && b < |s.disk| && !NoEntries(s.disk[b])
    ensures s.NoEmpty()
  {
    hide NoEntries;
    assert NodeAt(s.disk, s.slots, x) == b;
  }

  /** `containers` are the indirect blocks of the tree at depths 0, 1, ... on the way to `p`. */
  ghost predicate Chain(s: State, p: Pos, containers: seq<nat>) {
    && |containers| <= |p.path|
    && forall e :: 0 <= e < |containers| ==> s.Indirect(containers[e], Prefix(p, e))
  }

  lemma ChainOfNodes(s: State, p: Pos, containers: seq<nat>)
    requires s.Sound() && p.root < SLOTS && IsLeaf(p) && |containers| <= |p.path|
    requires forall i :: 0 <= i < |containers| - 1 ==> p.path[i] < s.Apb()
    requires forall e :: 0 <= e < |containers| ==> containers[e] == NodeAt(s.disk, s.slots, Prefix(p, e)) != 0
    ensures Chain(s, p, containers)
  {
    hide AddrsPerBlock, Entry, NodeAt, NoEntries;
    forall e | 0 <= e < |containers|
      ensures s.Indirect(containers[e], Prefix(p, e))
    {
      PrefixStep(p, e, s.Apb());
      NodeOwner(s, Prefix(p, e));
    }
  }

  lemma NothingCut(s: State, p: Pos)
    ensures CutAlong(s.own, s.own, p) && DataKept(s, s)
  {
  }

  lemma CutTrans(s: State, s': State, s'': State, p: Pos)
    requires CutAlong(s.own, s'.own, p) && DataKept(s, s')
    requires CutAlong(s'.own, s''.own, p) && DataKept(s', s'')
    ensures CutAlong(s.own, s''.own, p) && DataKept(s, s'')
  {
  }

  /** The state after the lowest block of a chain is pruned. */
  ghost function Pruned(s: State, p: Pos, containers: seq<nat>): State
    requires s.Geometry() && |s.slots| == SLOTS && p.root < SLOTS
    requires 0 < |containers| <= |p.path|
    requires |containers| > 1 ==> containers[|containers| - 2] < |s.disk| && p.path[|containers| - 2] < s.Apb()
  {
    var d := |containers| - 1;
    if d == 0 then s.CutRoot(p.root) else s.Cut(containers[d - 1], p.path[d - 1], containers[d])
  }

  lemma ChainFacts(s: State, p: Pos, containers: seq<nat>)
    requires s.Sound() && Chain(s, p, containers) && containers != []
    requires p.root < SLOTS && IsPos(p, s.Apb())
    ensures var d := |containers| - 1;
            var c := containers[d];
            && c in s.own && s.own[c] == Prefix(p, d)
            && s.first <= c < |s.disk| && c !in s.pending && |s.slots| == SLOTS
            && (d == 0 ==> s.slots[p.root] == c)
            && (d > 0 ==> 0 < containers[d - 1] < |s.disk| && p.path[d - 1] < s.Apb())
            && s.Geometry()
  {
    hide AddrsPerBlock, NodeAt, NoEntries, Entry;
    var d := |containers| - 1;
    var c := containers[d];
    assert s.Indirect(c, Prefix(p, d));
    SoundSlots(s);
    if d == 0 {
      RootOf(s, p.root, c);
    } else {
      assert s.Indirect(containers[d - 1], Prefix(p, d - 1));
    }
  }

  /** The lowest indirect block of a chain is either in use, or empty and pruned. */
  lemma PruneStep(s: State, p: Pos, containers: seq<nat>)
    requires s.Sound() && Chain(s, p, containers) && containers != []
    requires p.root < SLOTS && IsLeaf(p) && IsPos(p, s.Apb())
    requires s.NoEmptyBut(Prefix(p, |containers| - 1))
    requires s.Geometry() && |s.slots| == SLOTS && containers[|containers| - 1] < |s.disk|
    requires |containers| > 1 ==> containers[|containers| - 2] < |s.disk| && p.path[|containers| - 2] < s.Apb()
    ensures var d := |containers| - 1;
            NoEntries(s.disk[containers[d]]) ==>
              var s' := Pruned(s, p, containers);
              && s'.Sound() && DataKept(s, s') && CutAlong(s.own, s'.own, p)
              && (if d == 0 then s'.NoEmpty() else s'.NoEmptyBut(Prefix(p, d - 1)))
              && Chain(s', p, containers[..d])
    ensures !NoEntries(s.disk[containers[|containers| - 1]]) ==> s.NoEmpty()
  {
    hide AddrsPerBlock, NodeAt, NoEntries, Entry, SetEntry, Rep, State.CacheOk, State.Ownership, IsLeaf;
    var d := |containers| - 1;
    var c := containers[d];
    assert s.Indirect(c, Prefix(p, d));
    ChainFacts(s, p, containers);
    if !NoEntries(s.disk[c]) {
      NoEmptyAgain(s, Prefix(p, d), c);
    } else if d == 0 {
      CutRootKeeps(s, p.root);
    } else {
      PrefixStep(p, d - 1, s.Apb());
      assert s.Indirect(containers[d - 1], Prefix(p, d - 1));
      CutKeeps(s, Prefix(p, d - 1), containers[d - 1], p.path[d - 1], c);
    }
  }

  lemma RootOf(s: State, r: nat, c: nat)
    requires s.Sound() && c in s.own && s.own[c] == Pos(r, [])
    ensures r < SLOTS && s.slots[r] == c
  {
    hide AddrsPerBlock, Entry;
    assert NodeAt(s.disk, s.slots, Pos(r, [])) == s.slots[r];
  }

  /** The tree with the data block at `p` cut off, ready for the indirect blocks above it to be pruned. */
  lemma CutLeaf(s: State, p: Pos, containers: seq<nat>, leaf: nat)
    requires s.Sound() && s.NoEmpty() && p.root < SLOTS && IsLeaf(p) && p.path != [] && IsPos(p, s.Apb())
    requires |containers| == |p.path| && Chain(s, p, containers)
    requires leaf != 0 && leaf == NodeAt(s.disk, s.slots, p)
    ensures var d := |containers| - 1;
            && s.Geometry() && 0 < containers[d] < |s.disk| && p.path[d] < s.Apb()
            && leaf in s.own && s.first <= leaf < |s.disk| && leaf !in s.pending
    ensures var d := |containers| - 1;
            var s' := s.Cut(containers[d], p.path[d], leaf);
            && s'.Sound() && s'.NoEmptyBut(Prefix(p, d)) && Chain(s', p, containers)
            && DataKept(s, s') && Released(s.own, s'.own, p)
  {
    hide AddrsPerBlock, Entry, NodeAt, SetEntry, NoEntries, State.CacheOk;
    var d := |containers| - 1;
    SoundSlots(s);
    NodeOwner(s, p);
    PrefixStep(p, d, s.Apb());
    assert s.Indirect(containers[d], Prefix(p, d));
    CutKeeps(s, Prefix(p, d), containers[d], p.path[d], leaf);
    forall e | 0 <= e < |containers|
      ensures containers[e] != leaf
    {
      assert s.Indirect(containers[e], Prefix(p, e));
    }
  }

  lemma ChainAt(s: State, p: Pos, containers: seq<nat>, e: nat)
    requires Chain(s, p, containers)
    ensures e < |containers| ==> e <= |p.path| && s.Indirect(containers[e], Prefix(p, e))
  {
  }

  lemma LeafIsPos(p: Pos, apb: nat)
    requires p.root < SLOTS && IsLeaf(p) && p.path != [] && p.path[0] < apb
    requires forall i :: 0 < i < |p.path| ==> p.path[i] < apb
    ensures IsPos(p, apb)
  {
  }

  lemma UnfinishedDepth(s: State, p: Pos, d: nat, containers: seq<nat>)
    requires s.Sound() && p.root < SLOTS && IsLeaf(p) && IsPos(p, s.Apb())
    requires UnfinishedAt(s, p, d) && Chain(s, p, containers)
    requires NodeAt(s.disk, s.slots, Prefix(p, |containers|)) == 0
    ensures |containers| == d + 1
  {
    hide AddrsPerBlock, Entry, NodeAt, NoEntries;
    var b :| s.Indirect(b, Prefix(p, d));
    assert NodeAt(s.disk, s.slots, Prefix(p, d)) == b;
    ChainAt(s, p, containers, d + 1);
    if |containers| <= d {
      HoleBelow(s, p, |containers|, d);
    }
  }

  lemma UnfinishedIsHole(s: State, p: Pos, d: nat)
    requires s.Sound() && p.root < SLOTS && IsLeaf(p) && IsPos(p, s.Apb()) && UnfinishedAt(s, p, d)
    ensures NodeAt(s.disk, s.slots, p) == 0
  {
    hide AddrsPerBlock, Entry, NodeAt, NoEntries;
    NodeOwner(s, Prefix(p, d + 1));
    HoleBelow(s, p, d + 1, |p.path|);
  }

  lemma ReleasedTrans(s: State, s': State, s'': State, p: Pos)
    requires (CutAlong(s.own, s'.own, p) && forall b :: b in s'.own ==> s'.own[b] != p) && DataKept(s, s')
    requires CutAlong(s'.own, s''.own, p) && DataKept(s', s'')
    ensures Released(s.own, s''.own, p) && DataKept(s, s'')
  {
  }

  lemma NoEmptyAnywhere(s: State, x: Pos)
    ensures s.NoEmpty() ==> s.NoEmptyBut(x)
  {
  }

  /** Block `b` sits on the way to `p` and only blocks on that way were added. */
  ghost predicate GrownTo(s: State, s': State, p: Pos, d: nat, b: nat)
    requires d <= |p.path|
  {
    && b in s'.own && s'.own[b] == Prefix(p, d) && b < |s'.disk|
    && s'.NoEmptyBut(Prefix(p, d))
    && CutAlong(s'.own, s.own, p) && DataKept(s, s')
    && (forall c :: c in s'.own && c !in s.own ==> |s'.own[c].path| <= d)
    && (b !in s.own ==> s'.disk[b] == Zeros(s.bs))
  }

  lemma GrownRoot(s: State, p: Pos, nb: nat)
    requires s.Sound() && s.NoEmpty() && p.root < SLOTS && s.slots[p.root] == 0
    requires s.first <= nb < |s.disk| && !s.bitmap[nb]
    ensures var s' := s.GrowRoot(p.root, nb);
            s'.Sound() && GrownTo(s, s', p, 0, nb) && |s'.own| == |s.own| + 1 && nb !in s.own
  {
    hide AddrsPerBlock, NoEntries, NodeAt, Entry, DataKept, State.Sound, State.NoEmptyBut, State.NoEmpty;
    SoundSlots(s);
    GrowRootKeeps(s, p.root, nb);
    assert Prefix(p, 0) == Pos(p.root, []);
  }

  lemma AtRoot(s: State, p: Pos)
    requires s.Sound() && s.NoEmpty() && p.root < SLOTS && s.slots[p.root] != 0
    ensures GrownTo(s, s, p, 0, s.slots[p.root])
  {
    hide AddrsPerBlock, NodeAt, NoEntries, Entry, State.CacheOk;
    SlotOwner(s, p.root);
    assert Prefix(p, 0) == Pos(p.root, []);
  }

  /** The next indirect block, or the data block, on the way is already there. */
  lemma GrownExisting(s: State, s': State, p: Pos, d: nat, c: nat)
    requires s.Sound() && s'.Sound() && p.root < SLOTS && IsLeaf(p) && d < |p.path| && p.path[d] < s'.Apb()
    requires forall i :: 0 <= i < d ==> p.path[i] < s'.Apb()
    requires GrownTo(s, s', p, d, c)
    ensures c != 0 && !IsLeaf(Prefix(p, d))
    ensures NodeAt(s'.disk, s'.slots, Prefix(p, d + 1)) == Entry(s'.disk[c], p.path[d])
    ensures var e := Entry(s'.disk[c], p.path[d]);
            e != 0 ==> GrownTo(s, s', p, d + 1, e)
  {
    hide AddrsPerBlock, NoEntries, Entry, DataKept, NodeAt, State.Sound, State.NoEmptyBut, State.NoEmpty;
    SoundSlots(s');
    PrefixStep(p, d, s'.Apb());
    OwnedNode(s', c);
    WalkStep(s', p, d);
    var e := Entry(s'.disk[c], p.path[d]);
    if e != 0 {
      NodeOwner(s', Prefix(p, d + 1));
      EntryIsNotEmpty(s'.disk[c], p.path[d]);
      NoEmptyAgain(s', Prefix(p, d), c);
      NoEmptyAnywhere(s', Prefix(p, d + 1));
    }
  }

  lemma EntryIsNotEmpty(b: Block, k: nat)
    requires Entry(b, k) != 0
    ensures !NoEntries(b)
  {
  }

  lemma GrownStep(s: State, s': State, p: Pos, d: nat, c: nat, nb: nat)
    requires s.Sound() && s'.Sound() && p.root < SLOTS && IsLeaf(p) && d < |p.path| && p.path[d] < s'.Apb()
    requires GrownTo(s, s', p, d, c) && !IsLeaf(Prefix(p, d))
    requires NodeAt(s'.disk, s'.slots, Prefix(p, d + 1)) == 0
    requires s'.first <= nb < |s'.disk| && !s'.bitmap[nb]
    requires nb !in s.own
    ensures s'.Geometry()
    ensures var s'' := s'.Grow(c, p.path[d], nb);
            s''.Sound() && GrownTo(s, s'', p, d + 1, nb) && |s''.own| == |s'.own| + 1
  {
    hide AddrsPerBlock, NodeAt, NoEntries, Entry, SetEntry, Rep, DataKept, CutAlong, State.CacheOk, State.NoEmptyBut;
    PrefixStep(p, d, s'.Apb());
    GrowKeeps(s', Prefix(p, d), c, p.path[d], nb);
    GrownAfter(s, s', p, d, c, nb);
  }

  lemma GrownAfter(s: State, s': State, p: Pos, d: nat, c: nat, nb: nat)
    requires s'.Geometry() && d < |p.path| && p.path[d] < s'.Apb()
    requires GrownTo(s, s', p, d, c) && Below(Prefix(p, d), p.path[d]) == Prefix(p, d + 1)
    requires nb < |s'.disk| && nb !in s.own && nb !in s'.own
    requires var s'' := s'.Grow(c, p.path[d], nb);
             s''.NoEmptyBut(Prefix(p, d + 1)) && DataKept(s', s'')
    ensures GrownTo(s, s'.Grow(c, p.path[d], nb), p, d + 1, nb)
  {
    hide AddrsPerBlock, NoEntries, SetEntry, State.NoEmptyBut;
  }

  /** At the end of the way the new tree has no empty indirect block. */
  lemma GrownDone(s: State, s': State, p: Pos, b: nat)
    requires IsLeaf(p) && GrownTo(s, s', p, |p.path|, b)
    ensures s'.NoEmpty()
  {
    hide NoEntries;
    assert Prefix(p, |p.path|) == p;
  }

  lemma GrownStuck(s: State, s': State, p: Pos, d: nat, c: nat)
    requires s'.Sound() && p.root < SLOTS && IsLeaf(p) && d < |p.path| && IsPos(p, s'.Apb())
    requires GrownTo(s, s', p, d, c) && !IsLeaf(Prefix(p, d))
    requires NodeAt(s'.disk, s'.slots, Prefix(p, d + 1)) == 0
    ensures UnfinishedAt(s', p, d)
  {
    hide AddrsPerBlock, NodeAt, NoEntries, Entry;
    NodeOwner(s', Prefix(p, d + 1));
    assert s'.Indirect(c, Prefix(p, d));
  }

  /** Pruning what a stuck allocation added gives back the tree it started from. */
  lemma RolledBack(s: State, s': State, s'': State, p: Pos, d: nat, c: nat)
    requires s.Sound() && s.NoEmpty() && s'.Sound() && s''.Sound() && s''.NoEmpty()
    requires p.root < SLOTS && IsLeaf(p) && IsPos(p, s'.Apb()) && d < |p.path|
    requires GrownTo(s, s', p, d, c) && UnfinishedAt(s', p, d)
    requires Released(s'.own, s''.own, p) && DataKept(s', s'')
    ensures s''.own == s.own && s''.slots == s.slots && DataKept(s, s'')
  {
    hide AddrsPerBlock, NodeAt, NoEntries, Entry, State.CacheOk, State.Ownership;
    UnfinishedIsHole(s', p, d);
    NodeOwner(s', p);
    CutIsUnique(s'.disk, s'.slots, s'.own, s.disk, s.slots, s.own, s''.disk, s''.slots, s''.own, s.Apb(), p);
  }

  /** If only the way to `p` differs between two trees, every other data block is where it was. */
  lemma OthersMapped(s: State, s': State, index: nat)
    requires s.Sound() && s'.Sound() && s.bs == s'.bs
    requires CutAlong(s'.own, s.own, PosOf(index, s.Apb()))
    ensures forall i: nat :: i != index ==> s'.Mapped(i) == s.Mapped(i)
  {
    hide AddrsPerBlock, NodeAt, NoEntries, Entry, State.CacheOk, State.Ownership, BlockSlot;
    forall i: nat | i != index && i < Capacity(s.Apb())
      ensures s'.Mapped(i) == s.Mapped(i)
    {
      OtherLeaf(s, s', index, i);
    }
  }

  lemma OtherLeaf(s: State, s': State, index: nat, i: nat)
    requires s.Sound() && s'.Sound() && s.bs == s'.bs
    requires CutAlong(s'.own, s.own, PosOf(index, s.Apb()))
    requires i != index && i < Capacity(s.Apb())
    ensures s'.Mapped(i) == s.Mapped(i)
  {
    hide AddrsPerBlock, NodeAt, NoEntries, Entry, State.CacheOk, State.Ownership, BlockSlot, Capacity;
    var p, q := PosOf(index, s.Apb()), PosOf(i, s.Apb());
    SlotOfIndex(index, s.Apb());
    SlotOfIndex(i, s.Apb());
    LeafOnPath(q, p);
    NodeOwner(s, q);
    NodeOwner(s', q);
    if s'.Mapped(i) != 0 {
      assert s'.Mapped(i) in s.own;
    }
  }

  lemma FreshNotOwned(s: State, s': State, p: Pos, nb: nat)
    requires s'.Sound() && nb < |s'.disk| && CutAlong(s'.own, s.own, p)
    ensures nb < |s'.bitmap|
    ensures !s'.bitmap[nb] ==> nb !in s.own && nb !in s'.own
  {
    hide AddrsPerBlock, Rep, NoEntries;
  }

  lemma GrownParts(s: State, s': State, p: Pos, d: nat, b: nat)
    requires d <= |p.path| && GrownTo(s, s', p, d, b)
    ensures b in s'.own && s'.own[b] == Prefix(p, d) && b < |s'.disk|
    ensures CutAlong(s'.own, s.own, p) && DataKept(s, s') && s'.NoEmptyBut(Prefix(p, d))
    ensures s'.bs == s.bs && s'.first == s.first && s'.reserved == s.reserved && |s'.disk| == |s.disk|
  {
  }
}
