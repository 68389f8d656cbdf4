/**
  The block tree of one ext2 inode: twelve direct slots and three trees of indirect blocks.

  A position names a place in the tree: a slot of the inode and the entry taken in each indirect block
  below it. `NodeAt` reads the block found there off the disk. The map `own` says the same thing the other
  way round, from blocks to positions, so that one block can never sit in two places.
 */
module Ext2Tree {
  import opened Arith
  import opened Words

  const NDIR := 12
  const IND := 12
  const DIND := 13
  const TIND := 14
  const SLOTS := 15

  datatype Pos = Pos(root: nat, path: seq<nat>)

  type Disk = seq<Block>

  /** How many indirect blocks lie between slot `root` and its data blocks. */
  function Height(root: nat): nat {
    if root < NDIR then 0 else root - NDIR + 1
  }

  predicate IsPos(p: Pos, apb: nat) {
    && p.root < SLOTS
    && |p.path| <= Height(p.root)
    && forall i :: 0 <= i < |p.path| ==> p.path[i] < apb
  }

  /** A data block sits here, rather than an indirect block. */
  predicate IsLeaf(p: Pos) {
    |p.path| == Height(p.root)
  }

  function Parent(p: Pos): Pos
    requires p.path != []
  {
    Pos(p.root, p.path[..|p.path| - 1])
  }

  function Below(p: Pos, k: nat): Pos {
    Pos(p.root, p.path + [k])
  }

  /** The position `d` levels below the inode slot on the way to `p`. */
  function Prefix(p: Pos, d: nat): Pos
    requires d <= |p.path|
  {
    Pos(p.root, p.path[..d])
  }

  function Child(disk: Disk, c: nat, k: nat): nat {
    if 0 < c < |disk| then Entry(disk[c], k) else 0
  }

  function NodeAt(disk: Disk, slots: seq<nat>, p: Pos): nat
    requires |slots| == SLOTS && p.root < SLOTS
    decreases |p.path|
  {
    if p.path == [] then slots[p.root]
    else Child(disk, NodeAt(disk, slots, Parent(p)), p.path[|p.path| - 1])
  }

  /** The disk after address slot `k` of block `c` is set to `v`. */
  function Stored(disk: Disk, c: nat, k: nat, v: nat): (disk': Disk)
    requires c < |disk| && 4 * k + 4 <= |disk[c]| && v < WORD_LIMIT
    ensures |disk'| == |disk|
  {
    disk[c := SetEntry(disk[c], k, v)]
  }

  ghost predicate Sized(disk: Disk, apb: nat) {
    forall b :: 0 <= b < |disk| ==> |disk[b]| == 4 * apb
  }

  /** `own` is exactly the set of blocks the tree reaches, each with the one position it is reached at. */
  ghost predicate Rep(disk: Disk, slots: seq<nat>, own: map<nat, Pos>, apb: nat) {
    && |slots| == SLOTS
    && Sized(disk, apb)
    && (forall b :: b in own ==> 0 < b < |disk| && IsPos(own[b], apb) && NodeAt(disk, slots, own[b]) == b)
    && (forall p :: IsPos(p, apb) && NodeAt(disk, slots, p) != 0 ==>
          NodeAt(disk, slots, p) in own && own[NodeAt(disk, slots, p)] == p)
  }

  /** No indirect block is empty. */
  ghost predicate Tight(disk: Disk, own: map<nat, Pos>) {
    forall b :: b in own && b < |disk| && !IsLeaf(own[b]) ==> !NoEntries(disk[b])
  }

  ghost predicate SameContainers(disk: Disk, disk': Disk, own: map<nat, Pos>) {
    && |disk'| == |disk|
    && forall b :: b in own && b < |disk| && !IsLeaf(own[b]) ==> disk'[b] == disk[b]
  }

  lemma NodesFramed(disk: Disk, disk': Disk, slots: seq<nat>, own: map<nat, Pos>, apb: nat, p: Pos)
    requires Rep(disk, slots, own, apb) && SameContainers(disk, disk', own) && IsPos(p, apb)
    ensures NodeAt(disk', slots, p) == NodeAt(disk, slots, p)
    decreases |p.path|
  {
    hide Entry;
    if p.path != [] {
      var q := Parent(p);
      NodesFramed(disk, disk', slots, own, apb, q);
      var c := NodeAt(disk, slots, q);
      assert c != 0 ==> own[c] == q && !IsLeaf(q);
    }
  }

  /** Writing outside the tree's indirect blocks leaves the tree as it was. */
  lemma RepFramed(disk: Disk, disk': Disk, slots: seq<nat>, own: map<nat, Pos>, apb: nat)
    requires Rep(disk, slots, own, apb) && SameContainers(disk, disk', own) && Sized(disk', apb)
    ensures Rep(disk', slots, own, apb)
    ensures forall p :: IsPos(p, apb) ==> NodeAt(disk', slots, p) == NodeAt(disk, slots, p)
    ensures Tight(disk, own) ==> Tight(disk', own)
  {
    hide Entry;
    forall p | IsPos(p, apb)
      ensures NodeAt(disk', slots, p) == NodeAt(disk, slots, p)
    {
      NodesFramed(disk, disk', slots, own, apb, p);
    }
  }

  /** The block at `p`, if any, has no block below it. */
  ghost predicate Childless(disk: Disk, slots: seq<nat>, p: Pos)
    requires |slots| == SLOTS && p.root < SLOTS
  {
    IsLeaf(p) || forall k: nat :: Child(disk, NodeAt(disk, slots, p), k) == 0
  }

  /** No block is reached at two positions, be it as data or as an indirect block. */
  lemma ReachedOnce(disk: Disk, slots: seq<nat>, own: map<nat, Pos>, apb: nat, p: Pos, q: Pos)
    requires Rep(disk, slots, own, apb) && IsPos(p, apb) && IsPos(q, apb)
    ensures |slots| == SLOTS && p.root < SLOTS && q.root < SLOTS
    ensures NodeAt(disk, slots, p) == NodeAt(disk, slots, q) != 0 ==> p == q
    ensures NodeAt(disk, slots, p) != 0 ==> NodeAt(disk, slots, p) < |disk| && |disk[NodeAt(disk, slots, p)]| == 4 * apb
  {
    hide NodeAt;
  }

  /** What a store into entry `k` of the indirect block at `q` does to every position. */
  lemma StoreMovesOneNode(disk: Disk, slots: seq<nat>, own: map<nat, Pos>, apb: nat, q: Pos, k: nat, v: nat, p: Pos)
    requires Rep(disk, slots, own, apb)
    requires IsPos(q, apb) && !IsLeaf(q) && k < apb && v < WORD_LIMIT
    requires NodeAt(disk, slots, q) != 0
    requires Childless(disk, slots, Below(q, k))
    requires forall j: nat :: !IsLeaf(Below(q, k)) ==> Child(disk, v, j) == 0
    requires v != NodeAt(disk, slots, q)
    requires IsPos(p, apb)
    ensures NodeAt(disk, slots, q) < |disk| && |disk[NodeAt(disk, slots, q)]| == 4 * apb
    ensures NodeAt(Stored(disk, NodeAt(disk, slots, q), k, v), slots, p)
         == if p == Below(q, k) then v else NodeAt(disk, slots, p)
    decreases |p.path|
  {
    hide Entry, SetEntry, Rep, IsPos, Childless;
    ReachedOnce(disk, slots, own, apb, q, q);
    ReachedOnce(disk, slots, own, apb, p, p);
    if p.path != [] {
      ParentIsPos(p, apb);
      StoreMovesOneNode(disk, slots, own, apb, q, k, v, Parent(p));
      ReachedOnce(disk, slots, own, apb, q, Parent(p));
      StoreMovesChild(disk, slots, apb, q, k, v, Parent(p), p.path[|p.path| - 1]);
    }
  }

  lemma ParentIsPos(p: Pos, apb: nat)
    requires IsPos(p, apb) && p.path != []
    ensures IsPos(Parent(p), apb) && p == Below(Parent(p), p.path[|p.path| - 1])
    ensures |Parent(p).path| < Height(p.root)
  {
  }

  lemma StoreMovesChild(disk: Disk, slots: seq<nat>, apb: nat, q: Pos, k: nat, v: nat, q': Pos, j: nat)
    requires |slots| == SLOTS && q.root < SLOTS && q'.root < SLOTS && k < apb && v < WORD_LIMIT
    requires !IsLeaf(q) && |q'.path| < Height(q'.root)
    requires var c := NodeAt(disk, slots, q); 0 < c < |disk| && |disk[c]| == 4 * apb && v != c
    requires NodeAt(disk, slots, q) == NodeAt(disk, slots, q') ==> q == q'
    requires Childless(disk, slots, Below(q, k))
    requires forall j: nat :: !IsLeaf(Below(q, k)) ==> Child(disk, v, j) == 0
    requires NodeAt(Stored(disk, NodeAt(disk, slots, q), k, v), slots, q') == if q' == Below(q, k) then v else NodeAt(disk, slots, q')
    ensures NodeAt(Stored(disk, NodeAt(disk, slots, q), k, v), slots, Below(q', j))
         == if Below(q', j) == Below(q, k) then v else NodeAt(disk, slots, Below(q', j))
  {
    hide Entry, SetEntry, NodeAt, Childless;
    var c := NodeAt(disk, slots, q);
    var b := NodeAt(disk, slots, q');
    var disk' := Stored(disk, c, k, v);
    NodeBelow(disk, slots, q', j);
    NodeBelow(disk', slots, q', j);
    BelowApart(q, k, q', j);
    if q' == Below(q, k) {
      NoChild(disk, slots, q', j);
      ChildElsewhere(disk, c, k, v, v, j);
    } else if b == c {
      StoredEntry(disk[c], k, v, j);
    } else {
      ChildElsewhere(disk, c, k, v, b, j);
    }
  }

  lemma NodeBelow(disk: Disk, slots: seq<nat>, q: Pos, j: nat)
    requires |slots| == SLOTS && q.root < SLOTS && |q.path| < Height(q.root)
    ensures NodeAt(disk, slots, Below(q, j)) == Child(disk, NodeAt(disk, slots, q), j)
  {
    hide Entry;
    assert Parent(Below(q, j)) == q;
  }

  lemma BelowApart(q: Pos, k: nat, p: Pos, j: nat)
    ensures Below(q, k) == Below(p, j) <==> q == p && k == j
    ensures p == Below(q, k) ==> p != q
  {
    assert Parent(Below(q, k)) == q && Parent(Below(p, j)) == p;
  }

  lemma NoChild(disk: Disk, slots: seq<nat>, p: Pos, j: nat)
    requires |slots| == SLOTS && p.root < SLOTS && Childless(disk, slots, p) && !IsLeaf(p)
    ensures Child(disk, NodeAt(disk, slots, p), j) == 0
  {
    hide Entry, NodeAt;
  }

  /** A store into another block leaves an entry alone. */
  lemma ChildElsewhere(disk: Disk, c: nat, k: nat, v: nat, b: nat, j: nat)
    requires c < |disk| && 4 * k + 4 <= |disk[c]| && v < WORD_LIMIT && b != c
    ensures Child(Stored(disk, c, k, v), b, j) == Child(disk, b, j)
  {
    hide Entry, SetEntry;
  }

  /** Hanging an empty block `nb` under `q` adds that one block to the tree. */
  lemma RepAdd(disk: Disk, slots: seq<nat>, own: map<nat, Pos>, apb: nat, q: Pos, k: nat, nb: nat)
    requires Rep(disk, slots, own, apb)
    requires IsPos(q, apb) && !IsLeaf(q) && k < apb
    requires NodeAt(disk, slots, q) != 0 && NodeAt(disk, slots, Below(q, k)) == 0
    requires 0 < nb < |disk| <= WORD_LIMIT && nb !in own && NoEntries(disk[nb])
    ensures var disk' := Stored(disk, NodeAt(disk, slots, q), k, nb);
            && Rep(disk', slots, own[nb := Below(q, k)], apb)
            && (forall p :: IsPos(p, apb) ==>
                  NodeAt(disk', slots, p) == if p == Below(q, k) then nb else NodeAt(disk, slots, p))
  {
    hide Entry, SetEntry, NodeAt;
    var c := NodeAt(disk, slots, q);
    var disk' := Stored(disk, c, k, nb);
    forall p | IsPos(p, apb)
      ensures NodeAt(disk', slots, p) == if p == Below(q, k) then nb else NodeAt(disk, slots, p)
    {
      StoreMovesOneNode(disk, slots, own, apb, q, k, nb, p);
    }
    assert IsPos(Below(q, k), apb);
  }

  /** Clearing the entry of a childless block removes that one block from the tree. */
  lemma RepRemove(disk: Disk, slots: seq<nat>, own: map<nat, Pos>, apb: nat, q: Pos, k: nat)
    requires Rep(disk, slots, own, apb)
    requires IsPos(q, apb) && !IsLeaf(q) && k < apb
    requires NodeAt(disk, slots, q) != 0 && NodeAt(disk, slots, Below(q, k)) != 0
    requires Childless(disk, slots, Below(q, k))
    ensures var disk' := Stored(disk, NodeAt(disk, slots, q), k, 0);
            && Rep(disk', slots, own - {NodeAt(disk, slots, Below(q, k))}, apb)
            && (forall p :: IsPos(p, apb) ==>
                  NodeAt(disk', slots, p) == if p == Below(q, k) then 0 else NodeAt(disk, slots, p))
  {
    hide Entry, SetEntry, NodeAt;
    var c := NodeAt(disk, slots, q);
    var disk' := Stored(disk, c, k, 0);
    forall p | IsPos(p, apb)
      ensures NodeAt(disk', slots, p) == if p == Below(q, k) then 0 else NodeAt(disk, slots, p)
    {
      StoreMovesOneNode(disk, slots, own, apb, q, k, 0, p);
    }
    assert IsPos(Below(q, k), apb);
  }

  /** What writing slot `r` of the inode does to every position. */
  lemma SlotMovesOneNode(disk: Disk, slots: seq<nat>, r: nat, v: nat, p: Pos)
    requires |slots| == SLOTS && r < SLOTS && p.root < SLOTS
    requires Childless(disk, slots, Pos(r, []))
    requires Height(r) == 0 || forall j: nat :: Child(disk, v, j) == 0
    requires |p.path| <= Height(p.root)
    ensures NodeAt(disk, slots[r := v], p) == if p == Pos(r, []) then v else NodeAt(disk, slots, p)
    decreases |p.path|
  {
    hide Entry;
    if p.path != [] {
      SlotMovesOneNode(disk, slots, r, v, Parent(p));
      if Parent(p) == Pos(r, []) {
        assert Child(disk, v, p.path[|p.path| - 1]) == 0;
        assert Child(disk, NodeAt(disk, slots, Pos(r, [])), p.path[|p.path| - 1]) == 0;
      }
    }
  }

  lemma RepAddRoot(disk: Disk, slots: seq<nat>, own: map<nat, Pos>, apb: nat, r: nat, nb: nat)
    requires Rep(disk, slots, own, apb)
    requires r < SLOTS && slots[r] == 0
    requires 0 < nb < |disk| && nb !in own && NoEntries(disk[nb])
    ensures Rep(disk, slots[r := nb], own[nb := Pos(r, [])], apb)
    ensures forall p :: IsPos(p, apb) ==>
                     NodeAt(disk, slots[r := nb], p) == if p == Pos(r, []) then nb else NodeAt(disk, slots, p)
  {
    hide Entry;
    forall p | IsPos(p, apb)
      ensures NodeAt(disk, slots[r := nb], p) == if p == Pos(r, []) then nb else NodeAt(disk, slots, p)
    {
      SlotMovesOneNode(disk, slots, r, nb, p);
    }
  }

  lemma RepRemoveRoot(disk: Disk, slots: seq<nat>, own: map<nat, Pos>, apb: nat, r: nat)
    requires Rep(disk, slots, own, apb)
    requires r < SLOTS && slots[r] != 0 && Childless(disk, slots, Pos(r, []))
    ensures Rep(disk, slots[r := 0], own - {slots[r]}, apb)
    ensures forall p :: IsPos(p, apb) ==>
                     NodeAt(disk, slots[r := 0], p) == if p == Pos(r, []) then 0 else NodeAt(disk, slots, p)
  {
    hide Entry;
    forall p | IsPos(p, apb)
      ensures NodeAt(disk, slots[r := 0], p) == if p == Pos(r, []) then 0 else NodeAt(disk, slots, p)
    {
      SlotMovesOneNode(disk, slots, r, 0, p);
    }
    assert NodeAt(disk, slots, Pos(r, [])) == slots[r];
  }

  // ---------- logical block numbers ----------

  datatype Slot = NoSlot | Slot(root: nat, slots: seq<nat>)

  /** Where logical block `index` hangs below the inode, or `NoSlot` for the direct blocks. */
  function BlockSlot(index: nat, apb: nat): Slot
    requires apb > 0
  {
    if index < NDIR then NoSlot else
    var i := index - NDIR;
    if i < apb then Slot(IND, [i]) else
    var i := i - apb;
    var span := Square(apb);
    if i < span then Slot(DIND, [Quot(i, apb), Rem(i, apb)]) else
    var i := i - span;
    Slot(TIND, [Quot(i, span), Rem(Quot(i, apb), apb), Rem(i, apb)])
  }

  function PosOf(index: nat, apb: nat): (p: Pos)
    requires apb > 0
    ensures p.root < SLOTS && IsLeaf(p)
  {
    match BlockSlot(index, apb)
    case NoSlot => Pos(index, [])
    case Slot(root, slots) => Pos(root, slots)
  }

  /** How many logical blocks the fifteen slots can hold. */
  function Capacity(apb: nat): nat {
    NDIR + apb + Square(apb) + apb * Square(apb)
  }

  /** The first logical block of the tree hanging from slot `root`. */
  function Base(root: nat, apb: nat): nat {
    if root <= IND then root
    else if root == DIND then NDIR + apb
    else NDIR + apb + Square(apb)
  }

  /** The number spelled by `path` in base `apb`. */
  function Digits(path: seq<nat>, apb: nat): nat {
    if path == [] then 0 else Digits(path[..|path| - 1], apb) * apb + path[|path| - 1]
  }

  function IndexOf(p: Pos, apb: nat): nat {
    Base(p.root, apb) + Digits(p.path, apb)
  }

  lemma DigitsOf3(a: nat, b: nat, c: nat, apb: nat)
    ensures Digits([a], apb) == a
    ensures Digits([a, b], apb) == a * apb + b
    ensures Digits([a, b, c], apb) == (a * apb + b) * apb + c
  {
    assert [a][..0] == [];
    assert [a, b][..1] == [a];
    assert [a, b, c][..2] == [a, b];
  }

  /**
    `ext2_block_slot` numbers the leaf positions without gaps: every index is the number of its position, and
    the position lies inside the tree exactly for the indexes the tree can hold.
   */
  lemma SlotOfIndex(index: nat, apb: nat)
    requires apb > 0
    ensures IndexOf(PosOf(index, apb), apb) == index
    ensures IsPos(PosOf(index, apb), apb) <==> index < Capacity(apb)
  {
    hide Quot, Rem;
    var i := index - NDIR;
    if 0 <= i {
      if i < apb {
        DigitsOf3(i, 0, 0, apb);
      } else if i - apb < Square(apb) {
        var i := i - apb;
        DigitsOf3(Quot(i, apb), Rem(i, apb), 0, apb);
        DivMod(i, apb);
        DivBound(i, apb, apb);
      } else {
        var i := i - apb - Square(apb);
        DigitsOf3(Quot(i, Square(apb)), Rem(Quot(i, apb), apb), Rem(i, apb), apb);
        DivDiv(i, apb);
        DivMod(Quot(i, apb), apb);
        DivMod(i, apb);
        DivBound(i, Square(apb), apb);
        assert PosOf(index, apb).path[0] == Quot(i, Square(apb));
        assert PosOf(index, apb).path == [Quot(i, Square(apb)), Rem(Quot(i, apb), apb), Rem(i, apb)];
      }
    }
  }

  /** Which slot of the inode a logical block hangs from, and which entry is taken in each indirect block on the way. */
  lemma SlotInDigits(index: nat, apb: nat)
    requires apb > 0 && index < Capacity(apb)
    ensures var p := PosOf(index, apb);
      && p.root == (if p.path == [] then index else 11 + |p.path|) && |p.path| <= 3
      && (forall i :: 0 <= i < |p.path| ==> p.path[i] < apb)
      && index == (if |p.path| == 0 then p.root
                   else if |p.path| == 1 then 12 + p.path[0]
                   else if |p.path| == 2 then 12 + apb + p.path[0] * apb + p.path[1]
                   else 12 + apb + apb * apb + (p.path[0] * apb + p.path[1]) * apb + p.path[2])
  {
    hide Quot, Rem, IndexOf;
    SlotOfIndex(index, apb);
    DigitsSpelled(PosOf(index, apb), apb);
  }

  lemma DigitsSpelled(p: Pos, apb: nat)
    requires p.root < SLOTS && IsLeaf(p)
    ensures IndexOf(p, apb) == if |p.path| == 0 then p.root
                   else if |p.path| == 1 then 12 + p.path[0]
                   else if |p.path| == 2 then 12 + apb + p.path[0] * apb + p.path[1]
                   else 12 + apb + apb * apb + (p.path[0] * apb + p.path[1]) * apb + p.path[2]
  {
    if |p.path| == 1 {
      DigitsOf3(p.path[0], 0, 0, apb);
      assert p.path == [p.path[0]];
    } else if |p.path| == 2 {
      DigitsOf3(p.path[0], p.path[1], 0, apb);
      assert p.path == [p.path[0], p.path[1]];
    } else if |p.path| == 3 {
      DigitsOf3(p.path[0], p.path[1], p.path[2], apb);
      assert p.path == [p.path[0], p.path[1], p.path[2]];
    }
  }

  // ---------- one step of growing or pruning, as the allocator performs it ----------

  /** No empty indirect block except possibly the one at position `x`. */
  ghost predicate TightExcept(disk: Disk, own: map<nat, Pos>, x: Pos) {
    forall b :: b in own && b < |disk| && !IsLeaf(own[b]) && NoEntries(disk[b]) ==> own[b] == x
  }

  lemma ZeroedBlockIsEmpty(apb: nat)
    ensures NoEntries(Zeros(4 * apb))
  {
    EntriesOfAllZero(Zeros(4 * apb));
  }

  /** Zeroing a block the tree does not reach. */
  lemma ZeroStep(disk: Disk, slots: seq<nat>, own: map<nat, Pos>, apb: nat, nb: nat)
    requires Rep(disk, slots, own, apb)
    requires nb < |disk| && nb !in own
    ensures var disk' := disk[nb := Zeros(4 * apb)];
            && Rep(disk', slots, own, apb) && NoEntries(disk'[nb])
            && (forall p :: IsPos(p, apb) ==> NodeAt(disk', slots, p) == NodeAt(disk, slots, p))
  {
    hide Entry, NodeAt;
    ZeroedBlockIsEmpty(apb);
    RepFramed(disk, disk[nb := Zeros(4 * apb)], slots, own, apb);
  }

  /** A fresh block is zeroed and then hung below `q`. */
  lemma AddStep(disk: Disk, slots: seq<nat>, own: map<nat, Pos>, apb: nat, q: Pos, k: nat, nb: nat)
    requires Rep(disk, slots, own, apb) && TightExcept(disk, own, q)
    requires IsPos(q, apb) && !IsLeaf(q) && k < apb
    requires NodeAt(disk, slots, q) != 0 && NodeAt(disk, slots, Below(q, k)) == 0
    requires 0 < nb < |disk| <= WORD_LIMIT && nb !in own
    ensures var disk' := Stored(disk[nb := Zeros(4 * apb)], NodeAt(disk, slots, q), k, nb);
            var own' := own[nb := Below(q, k)];
            && Rep(disk', slots, own', apb) && TightExcept(disk', own', Below(q, k)) && NoEntries(disk'[nb])
  {
    hide Entry, NodeAt, SetEntry;
    var c := NodeAt(disk, slots, q);
    var disk1 := disk[nb := Zeros(4 * apb)];
    ZeroStep(disk, slots, own, apb, nb);
    assert IsPos(Below(q, k), apb);
    RepAdd(disk1, slots, own, apb, q, k, nb);
    StoredEntry(disk1[c], k, nb, k);
  }

  lemma AddRootStep(disk: Disk, slots: seq<nat>, own: map<nat, Pos>, apb: nat, r: nat, nb: nat)
    requires Rep(disk, slots, own, apb) && Tight(disk, own)
    requires r < SLOTS && slots[r] == 0
    requires 0 < nb < |disk| && nb !in own
    ensures var disk' := disk[nb := Zeros(4 * apb)];
            var own' := own[nb := Pos(r, [])];
            && Rep(disk', slots[r := nb], own', apb) && TightExcept(disk', own', Pos(r, []))
  {
    hide Entry, NodeAt;
    ZeroStep(disk, slots, own, apb, nb);
    RepAddRoot(disk[nb := Zeros(4 * apb)], slots, own, apb, r, nb);
  }

  lemma ChildIsNode(disk: Disk, slots: seq<nat>, own: map<nat, Pos>, apb: nat, q: Pos, k: nat)
    requires Rep(disk, slots, own, apb)
    requires IsPos(q, apb) && !IsLeaf(q) && NodeAt(disk, slots, q) != 0
    ensures NodeAt(disk, slots, Below(q, k)) == Entry(disk[NodeAt(disk, slots, q)], k)
    ensures Entry(disk[NodeAt(disk, slots, q)], k) != 0 ==> k < apb && IsPos(Below(q, k), apb)
  {
    assert Parent(Below(q, k)) == q;
  }

  /** The block at `x` is taken out of the indirect block `q` above it. */
  lemma RemoveStep(disk: Disk, slots: seq<nat>, own: map<nat, Pos>, apb: nat, q: Pos, k: nat)
    requires Rep(disk, slots, own, apb) && TightExcept(disk, own, Below(q, k))
    requires IsPos(q, apb) && !IsLeaf(q) && k < apb
    requires NodeAt(disk, slots, q) != 0 && NodeAt(disk, slots, Below(q, k)) != 0
    requires Childless(disk, slots, Below(q, k))
    ensures var disk' := Stored(disk, NodeAt(disk, slots, q), k, 0);
            var own' := own - {NodeAt(disk, slots, Below(q, k))};
            && Rep(disk', slots, own', apb) && TightExcept(disk', own', q)
  {
    hide Entry, NodeAt, SetEntry;
    RepRemove(disk, slots, own, apb, q, k);
    assert IsPos(Below(q, k), apb);
  }

  lemma RemoveRootStep(disk: Disk, slots: seq<nat>, own: map<nat, Pos>, apb: nat, r: nat)
    requires Rep(disk, slots, own, apb) && r < SLOTS && TightExcept(disk, own, Pos(r, []))
    requires slots[r] != 0 && Childless(disk, slots, Pos(r, []))
    ensures Rep(disk, slots[r := 0], own - {slots[r]}, apb) && Tight(disk, own - {slots[r]})
  {
    hide Entry;
    RepRemoveRoot(disk, slots, own, apb, r);
    assert NodeAt(disk, slots, Pos(r, [])) == slots[r];
  }

  // ---------- what pruning one path leaves is determined ----------

  /** Every block of `own` that `sub` lacks lies on the way to `p`, and `sub` has nothing `own` lacks. */
  ghost predicate CutAlong(own: map<nat, Pos>, sub: map<nat, Pos>, p: Pos) {
    && (forall b :: b in sub ==> b in own && own[b] == sub[b])
    && (forall b :: b in own && b !in sub ==> OnPath(own[b], p))
  }

  ghost predicate OnPath(q: Pos, p: Pos) {
    q.root == p.root && q.path <= p.path
  }

  lemma NoExtraBlock(disk1: Disk, slots1: seq<nat>, own: map<nat, Pos>,
                     disk2: Disk, slots2: seq<nat>, sub2: map<nat, Pos>,
                     disk3: Disk, slots3: seq<nat>, sub3: map<nat, Pos>, apb: nat, p: Pos, b: nat)
    requires Rep(disk1, slots1, own, apb) && Rep(disk2, slots2, sub2, apb) && Rep(disk3, slots3, sub3, apb)
    requires Tight(disk2, sub2)
    requires CutAlong(own, sub2, p) && CutAlong(own, sub3, p)
    requires IsLeaf(p) && forall c :: c in sub2 ==> sub2[c] != p
    requires b in sub2
    ensures b in sub3
    decreases |p.path| - |sub2[b].path|
  {
    hide Entry, NodeAt;
    var q := sub2[b];
    LeafOnPath(q, p);
    if OnPath(q, p) && !IsLeaf(q) {
      var k: nat :| Entry(disk2[b], k) != 0;
      ChildIsNode(disk2, slots2, sub2, apb, q, k);
      var c := Entry(disk2[b], k);
      NoExtraBlock(disk1, slots1, own, disk2, slots2, sub2, disk3, slots3, sub3, apb, p, c);
      ChildHasParent(disk3, slots3, sub3, apb, q, k, c);
      var b' :| b' in sub3 && sub3[b'] == q;
      assert own[b'] == own[b];
    }
  }

  lemma LeafOnPath(q: Pos, p: Pos)
    ensures OnPath(q, p) && IsLeaf(q) && IsLeaf(p) ==> q == p
  {
  }

  lemma ChildHasParent(disk: Disk, slots: seq<nat>, own: map<nat, Pos>, apb: nat, q: Pos, k: nat, c: nat)
    requires Rep(disk, slots, own, apb)
    requires c in own && own[c] == Below(q, k)
    ensures exists b :: b in own && own[b] == q
  {
    assert Parent(Below(q, k)) == q;
    var b := NodeAt(disk, slots, q);
    assert IsPos(q, apb) by {
      assert forall i :: 0 <= i < |q.path| ==> q.path[i] == Below(q, k).path[i];
    }
    assert b != 0;
  }

  /**
    Two trees cut from one tree along the same path, with the path's end unmapped and no empty indirect block
    left in either, are the same tree. This is why undoing a half-made allocation restores the old tree.
   */
  lemma CutIsUnique(disk1: Disk, slots1: seq<nat>, own: map<nat, Pos>,
                    disk2: Disk, slots2: seq<nat>, sub2: map<nat, Pos>,
                    disk3: Disk, slots3: seq<nat>, sub3: map<nat, Pos>, apb: nat, p: Pos)
    requires Rep(disk1, slots1, own, apb) && Rep(disk2, slots2, sub2, apb) && Rep(disk3, slots3, sub3, apb)
    requires Tight(disk2, sub2) && Tight(disk3, sub3)
    requires CutAlong(own, sub2, p) && CutAlong(own, sub3, p)
    requires IsLeaf(p)
    requires (forall c :: c in sub2 ==> sub2[c] != p) && (forall c :: c in sub3 ==> sub3[c] != p)
    ensures sub2 == sub3
    ensures slots2 == slots3
  {
    hide Entry;
    forall b
      ensures b in sub2 <==> b in sub3
    {
      if b in sub2 {
        NoExtraBlock(disk1, slots1, own, disk2, slots2, sub2, disk3, slots3, sub3, apb, p, b);
      }
      if b in sub3 {
        NoExtraBlock(disk1, slots1, own, disk3, slots3, sub3, disk2, slots2, sub2, apb, p, b);
      }
    }
    forall r | 0 <= r < SLOTS
      ensures slots2[r] == slots3[r]
    {
      assert NodeAt(disk2, slots2, Pos(r, [])) == slots2[r];
      assert NodeAt(disk3, slots3, Pos(r, [])) == slots3[r];
    }
  }
}
