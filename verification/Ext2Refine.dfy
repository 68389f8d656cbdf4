/**
  Why the tree may look at the allocator as one array of bits: the bitmaps of the groups, the cached one included, come
  to a flat array, and what the allocator does to the groups is what `Ext2Volume.Volume` does to that array.
 */
module Ext2Refine {
  import Ext2Room
  import opened Ext2Bitmap

  /** One bit a block of the volume; a block that can never be handed out counts as taken. */
  ghost function Flat(geo: Geo, groups: seq<seq<bool>>): (bits: seq<bool>)
    requires geo.Ok()
    ensures |bits| == geo.total
    ensures forall b :: 0 <= b < |bits| ==> bits[b] == (Freeable(geo, b).Nowhere? || SetAt(groups, geo, b))
  {
    seq(geo.total, b requires 0 <= b < geo.total => Freeable(geo, b).Nowhere? || SetAt(groups, geo, b))
  }

  /** The groups have the sizes the layout gives them. */
  ghost predicate Fitting(geo: Geo, groups: seq<seq<bool>>) {
    |groups| == geo.Groups() && forall g :: 0 <= g < |groups| ==> |groups[g]| == geo.Avail(g)
  }

  lemma LogicalFits(s: State)
    requires s.Shaped()
    ensures Fitting(s.geo, s.Logical())
  {
    hide Geo.Avail, State.Bitmap;
  }

  /** A hand-out takes one clear bit of the array, and free blocks are one fewer. */
  lemma TookIsSet(geo: Geo, groups: seq<seq<bool>>, groups': seq<seq<bool>>, b: nat, first: nat)
    requires geo.Ok() && b < geo.total && Freeable(geo, b).Place? && first <= b
    requires Took(groups, groups', Freeable(geo, b).g, Freeable(geo, b).i)
    ensures !Flat(geo, groups)[b] && Flat(geo, groups') == Flat(geo, groups)[b := true]
    ensures Ext2Room.FreeCount(Flat(geo, groups'), first) + 1 == Ext2Room.FreeCount(Flat(geo, groups), first)
  {
    hide Freeable, Geo.Ok, Ext2Room.FreeCount, SetAt, Took;
    forall c | 0 <= c < geo.total
      ensures SetAt(groups', geo, c) <==> c == b || SetAt(groups, geo, c)
    {
      TookAt(geo, groups, groups', b, c);
    }
    NotYet(geo, groups, groups', b);
    assert Flat(geo, groups') == Flat(geo, groups)[b := true];
    Ext2Room.OneTaken(Flat(geo, groups), first, b);
  }

  lemma TookAt(geo: Geo, groups: seq<seq<bool>>, groups': seq<seq<bool>>, b: nat, c: nat)
    requires geo.Ok() && Freeable(geo, b).Place? && Took(groups, groups', Freeable(geo, b).g, Freeable(geo, b).i)
    ensures SetAt(groups', geo, c) <==> c == b || SetAt(groups, geo, c)
  {
    hide Freeable, Geo.Ok;
    if Freeable(geo, c) == Freeable(geo, b) {
      OnePlace(geo, b, c);
    }
  }

  lemma NotYet(geo: Geo, groups: seq<seq<bool>>, groups': seq<seq<bool>>, b: nat)
    requires geo.Ok() && Freeable(geo, b).Place? && Took(groups, groups', Freeable(geo, b).g, Freeable(geo, b).i)
    ensures !SetAt(groups, geo, b)
  {
    hide Freeable, Geo.Ok;
  }

  lemma OnePlace(geo: Geo, b: nat, c: nat)
    requires geo.Ok() && Freeable(geo, b).Place? && Freeable(geo, b) == Freeable(geo, c)
    ensures b == c
  {
    hide Geo.Ok, Geo.Usable;
  }

  /** The allocator has nothing to hand out exactly when no bit of the array is clear. */
  lemma NoneFreeIsFull(geo: Geo, groups: seq<seq<bool>>)
    requires geo.Ok() && Fitting(geo, groups)
    ensures NoneFree(geo, groups) <==> forall b :: 0 <= b < geo.total ==> Flat(geo, groups)[b]
  {
    hide Freeable, Geo.Ok, Geo.Avail, Geo.BlockAt;
    if NoneFree(geo, groups) {
      forall b | 0 <= b < geo.total
        ensures Flat(geo, groups)[b]
      {
        var p := Freeable(geo, b);
        if p.Place? {
          assert GroupFull(geo, groups, p.g);
        }
      }
    }
    if forall b :: 0 <= b < geo.total ==> Flat(geo, groups)[b] {
      forall g, i | 0 <= g < |groups| && 0 <= i < |groups[g]| && geo.Usable(g, i)
        ensures groups[g][i]
      {
        PlaceOfBlock(geo, g, i);
        assert Flat(geo, groups)[geo.BlockAt(g, i)];
      }
    }
  }

  /** A flush that clears its whole queue leaves the array with just the queued bits clear. */
  lemma FlushIsClear(geo: Geo, groups: seq<seq<bool>>, groups': seq<seq<bool>>, queue: seq<nat>)
    requires geo.Ok() && Fitting(geo, groups) && OnlyCleared(geo, groups, groups', queue)
    requires forall n :: 0 <= n < |queue| ==> !SetAt(groups', geo, queue[n]) && Freeable(geo, queue[n]).Place?
    ensures forall b :: 0 <= b < geo.total ==> Flat(geo, groups')[b] == (Flat(geo, groups)[b] && b !in queue)
  {
    hide Freeable, Geo.Ok, Geo.Avail, Geo.BlockAt;
    forall b | 0 <= b < geo.total
      ensures Flat(geo, groups')[b] == (Flat(geo, groups)[b] && b !in queue)
    {
      var p := Freeable(geo, b);
      if b in queue {
        var n :| 0 <= n < |queue| && queue[n] == b;
      } else if p.Place? {
        assert geo.BlockAt(p.g, p.i) == b;
      }
    }
  }
}
