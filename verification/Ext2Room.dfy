/**
  How much room an allocation takes: the free blocks of the volume, and the blocks, data and indirect, that the tree
  has yet to get for a logical block or for a run of them.
 */
module Ext2Room {
  import opened Ext2Tree

  // ---------- free blocks ----------

  ghost function FreeSet(bits: seq<bool>, first: nat): set<nat> {
    set b: nat | first <= b < |bits| && !bits[b]
  }

  ghost function FreeCount(bits: seq<bool>, first: nat): nat {
    |FreeSet(bits, first)|
  }

  lemma OneTaken(bits: seq<bool>, first: nat, nb: nat)
    requires first <= nb < |bits| && !bits[nb]
    ensures FreeCount(bits[nb := true], first) + 1 == FreeCount(bits, first)
  {
    assert FreeSet(bits[nb := true], first) == FreeSet(bits, first) - {nb};
  }

  lemma NoneFree(bits: seq<bool>, first: nat)
    requires forall b :: first <= b < |bits| ==> bits[b]
    ensures FreeCount(bits, first) == 0
  {
    assert FreeSet(bits, first) == {};
  }

  // ---------- blocks to come ----------

  /** The tree has a block at `q`. */
  ghost predicate Owned(own: map<nat, Pos>, q: Pos) {
    exists b :: b in own && own[b] == q
  }

  /** The positions from the inode's slot down to `p`. */
  ghost function Way(p: Pos): set<Pos> {
    set d | 0 <= d <= |p.path| :: Prefix(p, d)
  }

  /** The positions on the ways to logical blocks `lo` up to `hi`. */
  ghost function Ways(lo: nat, hi: nat, apb: nat): set<Pos>
    requires apb > 0
    decreases hi
  {
    if hi <= lo then {} else Ways(lo, hi - 1, apb) + Way(PosOf(hi - 1, apb))
  }

  /** Those of `w` at which the tree has no block. */
  ghost function Missing(own: map<nat, Pos>, w: set<Pos>): set<Pos> {
    set q | q in w && !Owned(own, q)
  }

  /** No two blocks are at one position. */
  ghost predicate Single(own: map<nat, Pos>) {
    forall b, c :: b in own && c in own && own[b] == own[c] ==> b == c
  }

  ghost function Images(own: map<nat, Pos>, bs: set<nat>): set<Pos>
    requires bs <= own.Keys
  {
    set b | b in bs :: own[b]
  }

  lemma {:induction false} ImagesSize(own: map<nat, Pos>, bs: set<nat>)
    requires bs <= own.Keys && Single(own)
    ensures |Images(own, bs)| == |bs|
    decreases bs
  {
    if b :| b in bs {
      ImagesSize(own, bs - {b});
      assert Images(own, bs) == Images(own, bs - {b}) + {own[b]};
      assert own[b] !in Images(own, bs - {b});
    } else {
      assert Images(own, bs) == {};
    }
  }

  /** `own` is `sub` with blocks at positions of `w` added. */
  ghost predicate Extends(sub: map<nat, Pos>, own: map<nat, Pos>, w: set<Pos>) {
    && (forall b :: b in sub ==> b in own && own[b] == sub[b])
    && (forall b :: b in own && b !in sub ==> own[b] in w)
  }

  /** The added blocks are at different positions, each of them missing before. */
  lemma ExtraImages(sub: map<nat, Pos>, own: map<nat, Pos>, w: set<Pos>)
    requires Single(own) && Extends(sub, own, w)
    ensures |own| == |sub| + |Images(own, own.Keys - sub.Keys)| && Images(own, own.Keys - sub.Keys) <= Missing(sub, w)
  {
    hide Owned;
    var extra := own.Keys - sub.Keys;
    assert own.Keys == extra + sub.Keys;
    assert |own| == |extra| + |sub|;
    ImagesSize(own, extra);
    forall b | b in extra
      ensures own[b] in Missing(sub, w)
    {
      NewIsMissing(sub, own, b);
    }
  }

  /** As many blocks were added as were missing, or fewer if one still is. */
  lemma ExtraCount(sub: map<nat, Pos>, own: map<nat, Pos>, w: set<Pos>)
    requires Single(own) && Extends(sub, own, w)
    ensures (forall q :: q in w ==> Owned(own, q)) ==> |own| == |sub| + |Missing(sub, w)|
    ensures (exists q :: q in w && !Owned(own, q)) ==> |own| < |sub| + |Missing(sub, w)|
  {
    hide Owned, Single;
    var im, m := Images(own, own.Keys - sub.Keys), Missing(sub, w);
    ExtraImages(sub, own, w);
    if q :| q in w && !Owned(own, q) {
      OwnedStays(sub, own, q);
      NotOwnedBy(own, q);
      assert q in m && q !in im;
      Smaller(im, m - {q});
    } else {
      forall q | q in m
        ensures q in im
      {
        var b := OwnerOf(own, q);
        NotOwnedBy(sub, q);
        assert b in own.Keys - sub.Keys;
      }
      assert im == m;
    }
  }

  lemma {:induction false} Smaller<T>(a: set<T>, b: set<T>)
    requires a <= b
    ensures |a| <= |b|
  {
    assert b == a + (b - a);
  }

  lemma NewIsMissing(sub: map<nat, Pos>, own: map<nat, Pos>, b: nat)
    requires Single(own) && b in own && b !in sub && forall c :: c in sub ==> c in own && own[c] == sub[c]
    ensures !Owned(sub, own[b]) && Owned(own, own[b])
  {
  }

  lemma OwnerOf(own: map<nat, Pos>, q: Pos) returns (b: nat)
    requires Owned(own, q)
    ensures b in own && own[b] == q
  {
    b :| b in own && own[b] == q;
  }

  lemma NotOwnedBy(own: map<nat, Pos>, q: Pos)
    requires !Owned(own, q)
    ensures forall b :: b in own ==> own[b] != q
  {
  }

  lemma OwnedStays(sub: map<nat, Pos>, own: map<nat, Pos>, q: Pos)
    requires forall b :: b in sub ==> b in own && own[b] == sub[b]
    ensures Owned(sub, q) ==> Owned(own, q)
  {
  }

  // ---------- over a run of logical blocks ----------

  lemma {:induction false} WaysGrow(lo: nat, mid: nat, hi: nat, apb: nat)
    requires apb > 0 && mid <= hi
    ensures Ways(lo, mid, apb) <= Ways(lo, hi, apb)
    decreases hi
  {
    if mid < hi {
      WaysGrow(lo, mid, hi - 1, apb);
    }
  }

  /** What is missing for more is missing now, and what was added since no longer is. */
  lemma MissingMore(sub: map<nat, Pos>, own: map<nat, Pos>, w: set<Pos>, next: set<Pos>, all: set<Pos>)
    requires Single(own) && Extends(sub, own, w) && (forall q :: q in w ==> Owned(own, q)) && w + next <= all
    ensures |own| + |Missing(own, next)| <= |sub| + |Missing(sub, all)|
  {
    hide Owned;
    ExtraCount(sub, own, w);
    var a, b := Missing(sub, w), Missing(own, next);
    forall q | q in b
      ensures q in Missing(sub, all) && q !in a
    {
      OwnedStays(sub, own, q);
    }
    assert a + b <= Missing(sub, all);
    assert a !! b;
    Smaller(a + b, Missing(sub, all));
    assert |a + b| == |a| + |b|;
  }

  lemma ExtendsTwice(a: map<nat, Pos>, b: map<nat, Pos>, c: map<nat, Pos>, w: set<Pos>, next: set<Pos>)
    requires Extends(a, b, w) && Extends(b, c, next)
    ensures Extends(a, c, w + next)
  {
  }

  lemma OwnedInBoth(a: map<nat, Pos>, b: map<nat, Pos>, w: set<Pos>, next: set<Pos>)
    requires Extends(a, b, next) && (forall q :: q in w ==> Owned(a, q)) && (forall q :: q in next ==> Owned(b, q))
    ensures forall q :: q in w + next ==> Owned(b, q)
  {
    hide Owned;
    forall q | q in w
      ensures Owned(b, q)
    {
      OwnedStays(a, b, q);
    }
  }
}
