/**
  Releasing a whole range of logical blocks: which blocks of a tree go, and what is left on disk when the
  entries that named them have been cleared.
 */
module Ext2Trim {
  import opened Arith
  import opened Words
  import opened Ext2Tree

  // ---------- the logical blocks below a position ----------

  /** How many logical blocks an indirect block `h` levels above the data covers. */
  function Span(h: nat, apb: nat): nat {
    if h == 0 then 1 else apb * Span(h - 1, apb)
  }

  /** The first logical block below position `q`. */
  function FirstIndex(q: Pos, apb: nat): nat
    requires |q.path| <= Height(q.root)
  {
    Base(q.root, apb) + Digits(q.path, apb) * Span(Height(q.root) - |q.path|, apb)
  }

  ghost predicate Under(p: Pos, q: Pos) {
    p.root == q.root && q.path <= p.path
  }

  lemma UnderAtDepth(p: Pos, q: Pos)
    ensures Under(p, q) && |p.path| <= |q.path| ==> p == q
  {
  }

  lemma FirstBelow(q: Pos, k: nat, apb: nat)
    requires |q.path| < Height(q.root)
    ensures FirstIndex(Below(q, k), apb) == FirstIndex(q, apb) + k * Span(Height(q.root) - |q.path| - 1, apb)
  {
    var h := Height(q.root) - |q.path| - 1;
    var s := Span(h, apb);
    assert Below(q, k).path[..|q.path|] == q.path;
    assert Digits(Below(q, k).path, apb) == Digits(q.path, apb) * apb + k;
    Distribute(Digits(q.path, apb) * apb, k, s);
    MulAssoc(Digits(q.path, apb), apb, s);
  }

  /** A data block below `q` is numbered from the first block of `q` on, within the span `q` covers. */
  lemma LeafInSpan(p: Pos, q: Pos, apb: nat)
    requires IsPos(p, apb) && IsLeaf(p) && Under(p, q)
    ensures |q.path| <= Height(q.root)
    ensures FirstIndex(q, apb) <= IndexOf(p, apb) < FirstIndex(q, apb) + Span(Height(q.root) - |q.path|, apb)
    decreases |p.path| - |q.path|
  {
    if |q.path| == |p.path| {
      assert q.path == p.path;
      assert Span(0, apb) == 1;
    } else {
      var k := p.path[|q.path|];
      var h := Height(q.root) - |q.path| - 1;
      var s := Span(h, apb);
      assert Under(p, Below(q, k));
      LeafInSpan(p, Below(q, k), apb);
      FirstBelow(q, k, apb);
      MulMono(k + 1, apb, s);
      MulMono(0, k, s);
      Distribute(k, 1, s);
    }
  }

  // ---------- which blocks go ----------

  /** The logical blocks `first` to `last` of the tree `own` are to be released. */
  datatype Range = Range(own: map<nat, Pos>, apb: nat, first: nat, last: nat) {

    ghost predicate Hit(p: Pos) {
      first <= IndexOf(p, apb) <= last
    }

    /** Every data block below `q` is in the range. */
    ghost predicate Doomed(q: Pos) {
      forall b :: b in own && IsLeaf(own[b]) && Under(own[b], q) ==> Hit(own[b])
    }

    /** Entry `k` of the indirect block `b`, once doomed blocks are no longer named. */
    ghost function Left(b: nat, block: Block, k: nat): nat
      requires b in own
    {
      if Entry(block, k) != 0 && Doomed(Below(own[b], k)) then 0 else Entry(block, k)
    }

    ghost function Kept(): map<nat, Pos> {
      map b | b in own && !Doomed(own[b]) :: own[b]
    }

    /** The blocks at and below `q` that go. */
    ghost function Gone(q: Pos): set<nat> {
      set b | b in own && Under(own[b], q) && Doomed(own[b])
    }
  }

  lemma LeafDoom(r: Range, b: nat)
    requires b in r.own && IsLeaf(r.own[b])
    requires forall c :: c in r.own ==> IsPos(r.own[c], r.apb)
    ensures r.Doomed(r.own[b]) <==> r.Hit(r.own[b])
  {
    forall c | c in r.own && IsLeaf(r.own[c]) && Under(r.own[c], r.own[b])
      ensures r.own[c] == r.own[b]
    {
      assert r.own[c].path == r.own[b].path;
    }
  }

  /** The positions on the way to a block of the tree are positions of blocks of the tree. */
  lemma AncestorOwned(disk: Disk, slots: seq<nat>, own: map<nat, Pos>, apb: nat, b: nat, q: Pos)
    requires Rep(disk, slots, own, apb) && b in own && Under(own[b], q)
    ensures IsPos(q, apb) && NodeAt(disk, slots, q) in own && own[NodeAt(disk, slots, q)] == q
    decreases |own[b].path| - |q.path|
  {
    hide Entry;
    if |q.path| == |own[b].path| {
      assert q.path == own[b].path;
      assert q == own[b];
    } else {
      var k := own[b].path[|q.path|];
      assert Under(own[b], Below(q, k));
      AncestorOwned(disk, slots, own, apb, b, Below(q, k));
      assert Parent(Below(q, k)) == q;
      assert IsPos(q, apb) by {
        assert forall i :: 0 <= i < |q.path| ==> q.path[i] == own[b].path[i];
      }
    }
  }

  /** With no empty indirect block, something is mapped below every block of the tree. */
  lemma HasLeaf(disk: Disk, slots: seq<nat>, own: map<nat, Pos>, apb: nat, b: nat) returns (l: nat)
    requires Rep(disk, slots, own, apb) && Tight(disk, own) && b in own
    ensures l in own && IsLeaf(own[l]) && Under(own[l], own[b])
    decreases Height(own[b].root) - |own[b].path|
  {
    hide Entry, NodeAt;
    var q := own[b];
    if IsLeaf(q) {
      return b;
    }
    var k: nat :| Entry(disk[b], k) != 0;
    ChildIsNode(disk, slots, own, apb, q, k);
    l := HasLeaf(disk, slots, own, apb, Entry(disk[b], k));
  }

  /** An indirect block goes exactly when everything hanging from it goes. */
  lemma DoomOfChildren(disk: Disk, slots: seq<nat>, r: Range, b: nat)
    requires Rep(disk, slots, r.own, r.apb) && b in r.own && !IsLeaf(r.own[b])
    ensures r.Doomed(r.own[b]) <==> forall k: nat :: Entry(disk[b], k) != 0 ==> r.Doomed(Below(r.own[b], k))
  {
    hide Entry, NodeAt;
    var q := r.own[b];
    if forall k: nat :: Entry(disk[b], k) != 0 ==> r.Doomed(Below(q, k)) {
      forall l | l in r.own && IsLeaf(r.own[l]) && Under(r.own[l], q)
        ensures r.Hit(r.own[l])
      {
        var k := r.own[l].path[|q.path|];
        assert Under(r.own[l], Below(q, k));
        AncestorOwned(disk, slots, r.own, r.apb, l, Below(q, k));
        ChildIsNode(disk, slots, r.own, r.apb, q, k);
        assert r.Doomed(Below(q, k));
      }
    }
  }

  // ---------- the tree that is left ----------

  /** `disk'` is `disk` with every entry that named a doomed block cleared, in indirect blocks that go too. */
  ghost predicate Trimmed(disk: Disk, disk': Disk, r: Range) {
    && |disk'| == |disk|
    && Sized(disk', r.apb)
    && forall b, k: nat :: b in r.own && b < |disk| && !IsLeaf(r.own[b]) ==>
         Entry(disk'[b], k) == r.Left(b, disk[b], k)
  }

  ghost predicate SlotsTrimmed(slots: seq<nat>, slots': seq<nat>, r: Range) {
    && |slots'| == |slots|
    && forall i :: 0 <= i < |slots| ==>
         slots'[i] == if slots[i] != 0 && r.Doomed(Pos(i, [])) then 0 else slots[i]
  }

  lemma DoomGoesDown(r: Range, q: Pos, p: Pos)
    requires Under(p, q) && r.Doomed(q)
    ensures r.Doomed(p)
  {
  }

  lemma TrimmedNode(disk: Disk, slots: seq<nat>, disk': Disk, slots': seq<nat>, r: Range, p: Pos)
    requires Rep(disk, slots, r.own, r.apb) && Trimmed(disk, disk', r) && SlotsTrimmed(slots, slots', r)
    requires IsPos(p, r.apb)
    ensures NodeAt(disk', slots', p) == if r.Doomed(p) then 0 else NodeAt(disk, slots, p)
    decreases |p.path|
  {
    hide Entry, Range.Doomed;
    if p.path == [] {
      assert p == Pos(p.root, []);
    } else {
      var q := Parent(p);
      var k := p.path[|p.path| - 1];
      assert p == Below(q, k);
      TrimmedNode(disk, slots, disk', slots', r, q);
      var b := NodeAt(disk, slots, q);
      if r.Doomed(q) {
        DoomGoesDown(r, q, p);
      } else if b != 0 {
        assert r.own[b] == q && !IsLeaf(q);
      }
    }
  }

  /** The entries cleared, what is left is a tree again, with exactly the blocks that do not go. */
  lemma TrimmedTree(disk: Disk, slots: seq<nat>, disk': Disk, slots': seq<nat>, r: Range)
    requires Rep(disk, slots, r.own, r.apb) && Trimmed(disk, disk', r) && SlotsTrimmed(slots, slots', r)
    ensures Rep(disk', slots', r.Kept(), r.apb)
    ensures forall p :: IsPos(p, r.apb) ==>
                     NodeAt(disk', slots', p) == if r.Doomed(p) then 0 else NodeAt(disk, slots, p)
  {
    hide Entry, NodeAt;
    forall p | IsPos(p, r.apb)
      ensures NodeAt(disk', slots', p) == if r.Doomed(p) then 0 else NodeAt(disk, slots, p)
    {
      TrimmedNode(disk, slots, disk', slots', r, p);
    }
  }

  /** No indirect block is left empty. */
  lemma TrimmedIsTight(disk: Disk, slots: seq<nat>, disk': Disk, r: Range)
    requires Rep(disk, slots, r.own, r.apb) && Trimmed(disk, disk', r)
    ensures Tight(disk', r.Kept())
  {
    hide Entry, NodeAt;
    forall b | b in r.Kept() && b < |disk'| && !IsLeaf(r.own[b])
      ensures !NoEntries(disk'[b])
    {
      DoomOfChildren(disk, slots, r, b);
      var k: nat :| Entry(disk[b], k) != 0 && !r.Doomed(Below(r.own[b], k));
      assert Entry(disk'[b], k) != 0;
    }
  }

  /** In the tree that is left, exactly the logical blocks of the range have become holes. */
  lemma TrimmedMapping(disk: Disk, slots: seq<nat>, disk': Disk, slots': seq<nat>, r: Range, index: nat)
    requires Rep(disk, slots, r.own, r.apb) && Trimmed(disk, disk', r) && SlotsTrimmed(slots, slots', r)
    requires r.apb > 0 && index < Capacity(r.apb)
    ensures var p := PosOf(index, r.apb);
            NodeAt(disk', slots', p) == if r.first <= index <= r.last then 0 else NodeAt(disk, slots, p)
  {
    hide Entry, NodeAt, Capacity, BlockSlot;
    var p := PosOf(index, r.apb);
    SlotOfIndex(index, r.apb);
    TrimmedNode(disk, slots, disk', slots', r, p);
    var b := NodeAt(disk, slots, p);
    if b != 0 {
      LeafDoom(r, b);
    }
  }

  // ---------- one subtree at a time ----------

  /** The blocks at and below `x` hold what they are to hold once the doomed ones are no longer named. */
  ghost predicate Done(disk0: Disk, disk: Disk, r: Range, x: Pos) {
    && |disk| == |disk0|
    && (forall b :: b in r.own && b < |disk0| && Under(r.own[b], x) && IsLeaf(r.own[b]) ==> disk[b] == disk0[b])
    && (forall b, k: nat :: b in r.own && b < |disk0| && Under(r.own[b], x) && !IsLeaf(r.own[b]) ==>
          Entry(disk[b], k) == r.Left(b, disk0[b], k))
  }

  ghost predicate Untouched(disk0: Disk, disk: Disk, r: Range, x: Pos) {
    && |disk| == |disk0|
    && forall b :: b in r.own && b < |disk0| && Under(r.own[b], x) ==> disk[b] == disk0[b]
  }

  /** Only blocks at and below `x` differ. */
  ghost predicate OnlyUnder(disk: Disk, disk': Disk, r: Range, x: Pos) {
    && |disk'| == |disk|
    && forall b :: 0 <= b < |disk| && !(b in r.own && Under(r.own[b], x)) ==> disk'[b] == disk[b]
  }

  /** `more` lists each block of `gone` once. */
  ghost predicate Lists(more: seq<nat>, gone: set<nat>) {
    && (forall i, j :: 0 <= i < j < |more| ==> more[i] != more[j])
    && (forall i :: 0 <= i < |more| ==> more[i] in gone)
    && |more| == |gone|
  }

  lemma ListsAppend(more: seq<nat>, gone: set<nat>, more': seq<nat>, gone': set<nat>)
    requires Lists(more, gone) && Lists(more', gone') && gone !! gone'
    ensures Lists(more + more', gone + gone')
  {
    assert |gone + gone'| == |gone| + |gone'|;
  }

  /** What goes at and below the first `k` entries of the indirect block at `q`. */
  ghost function GoneBefore(r: Range, q: Pos, k: nat): set<nat> {
    set b | b in r.own && Under(r.own[b], q) && |r.own[b].path| > |q.path| && r.own[b].path[|q.path|] < k && r.Doomed(r.own[b])
  }

  lemma GoneStep(r: Range, q: Pos, k: nat)
    ensures GoneBefore(r, q, k + 1) == GoneBefore(r, q, k) + r.Gone(Below(q, k))
    ensures GoneBefore(r, q, k) !! r.Gone(Below(q, k))
  {
    forall b | b in r.own
      ensures Under(r.own[b], Below(q, k)) <==> Under(r.own[b], q) && |r.own[b].path| > |q.path| && r.own[b].path[|q.path|] == k
    {
    }
  }

  lemma GoneWhole(r: Range, q: Pos, c: nat)
    requires c in r.own && r.own[c] == q
    requires forall b :: b in r.own ==> IsPos(r.own[b], r.apb)
    requires forall b :: b in r.own && r.own[b] == q ==> b == c
    ensures r.Gone(q) - {c} == GoneBefore(r, q, r.apb)
  {
    forall b | b in r.own && Under(r.own[b], q) && |r.own[b].path| <= |q.path|
      ensures b == c
    {
      assert r.own[b].path == q.path;
    }
  }

  lemma UnderEntry(p: Pos, q: Pos, j: nat)
    ensures Under(p, Below(q, j)) ==> |p.path| > |q.path| && p.path[|q.path|] == j
  {
    assert Below(q, j).path[|q.path|] == j;
  }

  /** Work below one entry leaves the blocks below the others alone. */
  lemma OtherEntries(disk0: Disk, disk: Disk, disk': Disk, r: Range, q: Pos, k: nat, j: nat)
    requires |disk| == |disk0| && OnlyUnder(disk, disk', r, Below(q, k)) && j != k
    ensures Done(disk0, disk, r, Below(q, j)) ==> Done(disk0, disk', r, Below(q, j))
    ensures Untouched(disk0, disk, r, Below(q, j)) ==> Untouched(disk0, disk', r, Below(q, j))
    ensures forall c :: 0 <= c < |disk| && c in r.own && r.own[c] == q ==> disk'[c] == disk[c]
  {
    forall b | b in r.own
      ensures !(Under(r.own[b], Below(q, j)) && Under(r.own[b], Below(q, k)))
      ensures Under(r.own[b], Below(q, k)) ==> r.own[b] != q
    {
      UnderEntry(r.own[b], q, j);
      UnderEntry(r.own[b], q, k);
    }
  }

  /** An entry past the range, or a hole: nothing below it goes. */
  lemma NothingGoes(disk0: Disk, slots: seq<nat>, r: Range, x: Pos, disk: Disk)
    requires Rep(disk0, slots, r.own, r.apb) && Tight(disk0, r.own)
    requires forall b :: b in r.own && IsLeaf(r.own[b]) && Under(r.own[b], x) ==> !r.Hit(r.own[b])
    ensures r.Gone(x) == {}
    ensures Untouched(disk0, disk, r, x) ==> Done(disk0, disk, r, x)
    ensures (exists b :: b in r.own && r.own[b] == x) ==> !r.Doomed(x)
  {
    hide Entry, NodeAt;
    forall b | b in r.own && Under(r.own[b], x)
      ensures !r.Doomed(r.own[b])
    {
      var l := HasLeaf(disk0, slots, r.own, r.apb, b);
      assert Under(r.own[l], x);
    }
    forall b, k: nat | b in r.own && Under(r.own[b], x) && !IsLeaf(r.own[b]) && Entry(disk0[b], k) != 0
      ensures !r.Doomed(Below(r.own[b], k))
    {
      ChildIsNode(disk0, slots, r.own, r.apb, r.own[b], k);
      assert Under(Below(r.own[b], k), x);
    }
  }

  lemma PastRange(r: Range, q: Pos, k: nat, j: nat)
    requires |q.path| < Height(q.root) && k <= j
    requires forall b :: b in r.own ==> IsPos(r.own[b], r.apb)
    requires FirstIndex(Below(q, k), r.apb) > r.last
    ensures forall b :: b in r.own && IsLeaf(r.own[b]) && Under(r.own[b], Below(q, j)) ==> !r.Hit(r.own[b])
  {
    forall b | b in r.own && IsLeaf(r.own[b]) && Under(r.own[b], Below(q, j))
      ensures !r.Hit(r.own[b])
    {
      LeafInSpan(r.own[b], Below(q, j), r.apb);
      FirstBelow(q, k, r.apb);
      FirstBelow(q, j, r.apb);
      MulMono(k, j, Span(Height(q.root) - |q.path| - 1, r.apb));
    }
  }

  lemma NothingBelowHole(disk: Disk, slots: seq<nat>, r: Range, q: Pos, k: nat, b: nat)
    requires Rep(disk, slots, r.own, r.apb) && b in r.own && r.own[b] == q && !IsLeaf(q) && Entry(disk[b], k) == 0
    ensures forall c :: c in r.own ==> !Under(r.own[c], Below(q, k))
  {
    hide Entry, NodeAt;
    forall c | c in r.own
      ensures !Under(r.own[c], Below(q, k))
    {
      if Under(r.own[c], Below(q, k)) {
        AncestorOwned(disk, slots, r.own, r.apb, c, Below(q, k));
        ChildIsNode(disk, slots, r.own, r.apb, q, k);
        assert false;
      }
    }
  }
}
