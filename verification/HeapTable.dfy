/** The heap: `malloc`, `free` and `realloc` over regions whose blocks and free lists live in one memory. */
module HeapTable {
  import opened Words
  import opened HeapLayout
  import opened HeapRegion

  const REGION_SIZE := 0x100000
  const MAX_REGIONS := 128
  const MAX_TOTAL := 0x8000000

  /** Every region is in order, and no two share memory. */
  ghost predicate AllOk(m: Block, gs: seq<Region>, lay: seq<seq<Blk>>) {
    && |m| == WORD_LIMIT && |gs| == |lay| <= MAX_REGIONS
    && (forall r :: 0 <= r < |gs| ==> RegionOk(m, gs[r], lay[r]))
    && (forall r, q :: 0 <= r < q < |gs| ==> Apart(gs[r], gs[q]))
  }

  class Heap {
    var mem: Block
    var regions: seq<Region>
    /** The blocks of each region. */
    ghost var lay: seq<seq<Blk>>

    ghost predicate Valid()
      reads this
    {
      AllOk(mem, regions, lay)
    }

    /** No region yet. */
    constructor (m: Block)
      requires |m| == WORD_LIMIT
      ensures Valid() && regions == [] && forall c :: !Live(regions, lay, c)
    {
      mem, regions, lay := m, [], [];
    }

    /** Leads the link after `xs` to `v`: the list's head, or the last block's link. */
    method Relink(r: nat, prev: int, v: int, ghost xs: seq<int>, ghost q: int)
      requires r < |regions| && Ascending(xs) && Links(mem, regions[r].flist, xs, q)
      requires if xs == [] then prev == 0 else prev == xs[|xs| - 1] && prev + 12 <= |mem|
      requires 0 <= v < WORD_LIMIT
      modifies this`mem, this`regions
      ensures |regions| == |old(regions)| && regions == old(regions)[r := old(regions)[r].(flist := regions[r].flist)]
      ensures Links(mem, regions[r].flist, xs, v)
      ensures |mem| == |old(mem)| && Touched(old(mem), mem, LastLink(xs))
    {
      hide Word, Store, Links, Touched, Ascending;
      LastIsPlace(xs);
      NoLinks(mem, v);
      if prev != 0 {
        EightIsFour(prev);
        Stored(mem, prev + 8, v);
        LinksBent(mem, Store(mem, prev + 8, v), regions[r].flist, xs, q, v);
        mem := Store(mem, prev + 8, v);
      } else {
        regions := regions[r := regions[r].(flist := v)];
      }
    }

    method SetNext(b: int, n: int)
      requires 0 < b && b % 8 == 0 && b + 12 <= |mem| && 0 <= n < WORD_LIMIT
      modifies this`mem
      ensures |mem| == |old(mem)| && Touched(old(mem), mem, {b + 8}) && Word(mem, b + 8) == n
    {
      EightIsFour(b);
      Stored(mem, b + 8, n);
      mem := Store(mem, b + 8, n);
    }

    /** `heap_flist_remove`. */
    method FlistRemove(r: nat, b: int, ghost xs: seq<int>, ghost ys: seq<int>)
      requires r < |regions| && Ascending(xs + [b] + ys) && Linked(mem, regions[r].flist, xs + [b] + ys)
      requires forall k :: 0 <= k < |xs + [b] + ys| ==> (xs + [b] + ys)[k] + MIN_BLOCK <= |mem|
      modifies this`mem, this`regions
      ensures |regions| == |old(regions)| && regions == old(regions)[r := old(regions)[r].(flist := regions[r].flist)]
      ensures Linked(mem, regions[r].flist, xs + ys)
      ensures |mem| == |old(mem)| && Touched(old(mem), mem, LinkWords(xs + [b] + ys))
    {
      hide Word, Links, Touched, LinkWords;
      ghost var fs := xs + [b] + ys;
      var cur, prev := Seek(r, b, xs, ys);
      Parts(mem, regions[r].flist, xs, b, ys, 0);
      AscendingParts(xs, b, ys);
      var next := Word(mem, b + 8);
      ghost var m0, ws := mem, LastLink(xs);
      if prev != 0 {
        assert (xs + [b] + ys)[|xs| - 1] == prev;
      }
      Relink(r, prev, next, xs, b);
      LinksFrame(m0, mem, ws, next, ys, 0);
      Joined(mem, regions[r].flist, xs, next, ys, 0);
      ghost var m1 := mem;
      assert fs[|xs|] == b;
      SetNext(b, 0);
      LinksFrame(m1, mem, {b + 8}, regions[r].flist, xs + ys, 0);
      TouchedTwice(m0, m1, mem, ws, {b + 8});
      LastAndThis(xs, b, ys);
      TouchedMore(m0, mem, ws + {b + 8}, LinkWords(fs));
    }

    /** Walks the list to the block `b`, remembering the one before. */
    method Seek(r: nat, b: int, ghost xs: seq<int>, ghost ys: seq<int>) returns (cur: int, prev: int)
      requires r < |regions| && Ascending(xs + [b] + ys) && Linked(mem, regions[r].flist, xs + [b] + ys)
      ensures cur == b && if xs == [] then prev == 0 else prev == xs[|xs| - 1]
    {
      hide Word, Links;
      ghost var fs := xs + [b] + ys;
      prev, cur := 0, regions[r].flist;
      ghost var k := 0;
      assert fs[0..] == fs;
      while cur != 0 && cur != b
        invariant k <= |xs| && Links(mem, cur, fs[k..], 0)
        invariant if k == 0 then prev == 0 else prev == fs[k - 1]
        decreases |fs| - k
      {
        ListHead(mem, cur, fs[k..], 0);
        assert fs[k..][1..] == fs[k + 1..];
        assert k == |xs| ==> cur == b;
        prev, cur := cur, Word(mem, cur + 8);
        k := k + 1;
      }
      ListHead(mem, cur, fs[k..], 0);
      assert fs[|xs|] == b;
      assert cur == fs[k];
      if xs != [] {
        assert fs[|xs| - 1] == xs[|xs| - 1];
      }
    }

    /** `heap_flist_replace`: the link of `nw` leads already where that of `b` does. */
    method FlistReplace(r: nat, b: int, nw: int, ghost xs: seq<int>, ghost ys: seq<int>)
      requires r < |regions| && Ascending(xs + [b] + ys) && Linked(mem, regions[r].flist, xs + [b] + ys)
      requires forall k :: 0 <= k < |xs + [b] + ys| ==> (xs + [b] + ys)[k] + MIN_BLOCK <= |mem|
      requires Ascending(xs + [nw] + ys) && b < nw < WORD_LIMIT && Word(mem, nw + 8) == Word(mem, b + 8)
      modifies this`mem, this`regions
      ensures |regions| == |old(regions)| && regions == old(regions)[r := old(regions)[r].(flist := regions[r].flist)]
      ensures Linked(mem, regions[r].flist, xs + [nw] + ys)
      ensures |mem| == |old(mem)| && Touched(old(mem), mem, LinkWords(xs + [b] + ys))
    {
      hide Word, Links, Touched, LinkWords, Ascending, LastLink;
      PartsIn(xs, b, ys, |mem|);
      var cur, prev := Seek(r, b, xs, ys);
      Parts(mem, regions[r].flist, xs, b, ys, 0);
      ghost var m0 := mem;
      Relink(r, prev, nw, xs, b);
      ghost var m1 := mem;
      ReplaceFirst(m0, m1, regions[r].flist, xs, b, nw, ys);
      SetNext(b, 0);
      ReplaceThen(m0, m1, mem, regions[r].flist, xs, b, nw, ys);
    }

    /** `heap_flist_insert`: the block goes where the addresses say. */
    method FlistInsert(r: nat, b: int, ghost xs: seq<int>, ghost ys: seq<int>)
      requires r < |regions| && Linked(mem, regions[r].flist, xs + ys) && Ascending(xs + [b] + ys)
      requires forall k :: 0 <= k < |xs + [b] + ys| ==> (xs + [b] + ys)[k] + MIN_BLOCK <= |mem|
      requires b < WORD_LIMIT && 0 <= regions[r].flist < WORD_LIMIT
      modifies this`mem, this`regions
      ensures |regions| == |old(regions)| && regions == old(regions)[r := old(regions)[r].(flist := regions[r].flist)]
      ensures Linked(mem, regions[r].flist, xs + [b] + ys)
      ensures |mem| == |old(mem)| && Touched(old(mem), mem, LinkWords(xs + [b] + ys))
    {
      hide Word, Links, Touched, LinkWords, Ascending, LastLink;
      PartsIn(xs, b, ys, |mem|);
      var cur, prev := SeekPlace(r, b, xs, ys);
      ghost var m0 := mem;
      SetNext(b, cur);
      ghost var m1 := mem;
      InsertFirst(m0, m1, regions[r].flist, xs, b, ys, cur);
      Relink(r, prev, b, xs, cur);
      InsertThen(m0, m1, mem, regions[r].flist, xs, b, ys, cur);
    }

    /** Walks the list to the first block past `b`. */
    method SeekPlace(r: nat, b: int, ghost xs: seq<int>, ghost ys: seq<int>) returns (cur: int, prev: int)
      requires r < |regions| && Ascending(xs + [b] + ys) && Linked(mem, regions[r].flist, xs + ys)
      requires 0 <= regions[r].flist < WORD_LIMIT
      ensures Links(mem, regions[r].flist, xs, cur) && Links(mem, cur, ys, 0) && 0 <= cur < WORD_LIMIT
      ensures if xs == [] then prev == 0 else prev == xs[|xs| - 1]
    {
      hide Word, Links, Ascending;
      ghost var fs := xs + ys;
      prev, cur := 0, regions[r].flist;
      ghost var k := 0;
      assert fs[0..] == fs;
      while cur != 0 && cur < b
        invariant k <= |xs| && Links(mem, cur, fs[k..], 0) && 0 <= cur < WORD_LIMIT
        invariant if k == 0 then prev == 0 else prev == xs[k - 1]
        decreases |fs| - k
      {
        ListHead(mem, cur, fs[k..], 0);
        PlaceAt(xs, b, ys, k);
        prev, cur := cur, Word(mem, cur + 8);
        k := k + 1;
      }
      ListHead(mem, cur, fs[k..], 0);
      PlaceAt(xs, b, ys, k);
      SplitAt(mem, regions[r].flist, xs, ys, cur);
    }

    method Write(a: int, v: nat)
      requires Fits(mem, a, v)
      modifies this`mem
      ensures mem == Store(old(mem), a, v) && |mem| == |old(mem)| && Touched(old(mem), mem, {a})
    {
      Stored(mem, a, v);
      mem := Store(mem, a, v);
    }

    // ---------- free ----------

    /** The block before is free: it leaves the list and takes in the one that stands alone. */
    method MergePrev(r: nat, at: int, p: nat, size: nat, ghost pre: seq<Blk>, ghost q: nat, ghost post: seq<Blk>)
      returns (ghost ws: set<int>)
      requires r < |regions| && Between(mem, regions[r], pre + [Blk(p, false)], size, q, post)
      requires at == regions[r].base + Total(pre)
      modifies this`mem, this`regions
      ensures |regions| == |old(regions)| && regions == old(regions)[r := old(regions)[r].(flist := regions[r].flist)]
      ensures Between(mem, regions[r], pre, p + size, q, post)
      ensures |mem| == |old(mem)| && Touched(old(mem), mem, ws) && Polite(regions[r], pre, p + size, post, ws)
    {
      hide Between, Shape, Polite, Linked, Touched, LinkWords, Total, FreeAt, Store, Ascending;
      ghost var m0, g := mem, regions[r];
      ghost var xs, ys := FreeAt(g.base, pre), FreeAt(at + p + size, post);
      PrevListed(mem, g, pre, p, size, q, post);
      FlistRemove(r, at, xs, ys);
      ghost var m1, links := mem, LinkWords(xs + [at] + ys);
      PrevUnlisted(m0, m1, g, regions[r], pre, p, size, q, post);
      MergedPrev(mem, regions[r], pre, p, size, q, post);
      Write(at, p + size);
      ws := links + {at};
      TouchedTwice(m0, m1, mem, links, {at});
      PoliteSame(g, regions[r], pre, p + size, post, links);
      PoliteBoth(regions[r], pre, p + size, post, links, {at});
    }

    /** The block after is free: it leaves the list and is taken in. */
    method MergeNext(r: nat, at: int, size: nat, n: nat, ghost pre: seq<Blk>, ghost q: nat, ghost post: seq<Blk>)
      returns (ghost ws: set<int>)
      requires r < |regions| && Between(mem, regions[r], pre, size, q, [Blk(n, false)] + post)
      requires at == regions[r].base + Total(pre)
      modifies this`mem, this`regions
      ensures |regions| == |old(regions)| && regions == old(regions)[r := old(regions)[r].(flist := regions[r].flist)]
      ensures Between(mem, regions[r], pre, size + n, n, post)
      ensures |mem| == |old(mem)| && Touched(old(mem), mem, ws) && Polite(regions[r], pre, size + n, post, ws)
    {
      hide Between, Shape, Polite, Linked, Touched, LinkWords, Total, FreeAt, Store, Ascending;
      ghost var m0, g := mem, regions[r];
      ghost var xs, ys := FreeAt(g.base, pre), FreeAt(at + size + n, post);
      NextListed(mem, g, pre, size, q, n, post);
      FlistRemove(r, at + size, xs, ys);
      ghost var m1, links := mem, LinkWords(xs + [at + size] + ys);
      NextUnlisted(m0, m1, g, regions[r], pre, size, q, n, post);
      MergedNext(mem, regions[r], pre, size, q, n, post);
      Write(at, size + n);
      ws := links + {at};
      TouchedTwice(m0, m1, mem, links, {at});
      PoliteSame(g, regions[r], pre, size + n, post, links);
      PoliteBoth(regions[r], pre, size + n, post, links, {at});
    }

    /** The block goes into the list, and the region is whole again. */
    method PutBack(r: nat, at: int, size: nat, ghost pre: seq<Blk>, ghost post: seq<Blk>) returns (ghost ws: set<int>)
      requires r < |regions| && Between(mem, regions[r], pre, size, size, post) && at == regions[r].base + Total(pre)
      requires NoTwoFree(pre + [Blk(size, false)] + post)
      modifies this`mem, this`regions
      ensures |regions| == |old(regions)| && regions == old(regions)[r := old(regions)[r].(flist := regions[r].flist)]
      ensures RegionOk(mem, regions[r], pre + [Blk(size, false)] + post)
      ensures UsedAt(regions[r].base, pre + [Blk(size, false)] + post) == Around(regions[r], pre, size, post)
      ensures |mem| == |old(mem)| && Touched(old(mem), mem, ws) && Polite(regions[r], pre, size, post, ws)
    {
      hide Shape, Polite, Linked, Touched, LinkWords, Total, FreeAt, Store, Ascending, RegionOk, UsedAt, NoTwoFree;
      ghost var m0, g := mem, regions[r];
      ghost var xs, ys := FreeAt(g.base, pre), FreeAt(at + size, post);
      AroundAscending(mem, g, pre, size, size, post);
      HeadInMemory(mem, g, pre, size, size, post);
      FlistInsert(r, at, xs, ys);
      ws := LinkWords(xs + [at] + ys);
      Relisted(m0, mem, g, regions[r], pre, size, size, post, ws);
      PoliteSame(g, regions[r], pre, size, post, ws);
      Closed(mem, regions[r], pre, size, post);
    }

    /** Takes in the block before, if there is one and it is free. */
    method StepPrev(r: nat, at: int, total: nat, ghost pre: seq<Blk>, ghost post: seq<Blk>)
      returns (at': int, total': nat, ghost pre': seq<Blk>, ghost ws: set<int>)
      requires r < |regions| && Between(mem, regions[r], pre, total, total, post) && at == regions[r].base + Total(pre)
      requires NoTwoFree(pre)
      modifies this`mem, this`regions
      ensures |regions| == |old(regions)| && regions == old(regions)[r := old(regions)[r].(flist := regions[r].flist)]
      ensures Between(mem, regions[r], pre', total', total, post) && at' == regions[r].base + Total(pre')
      ensures NoTwoFree(pre') && LastUsed(pre')
      ensures Around(regions[r], pre', total', post) == Around(regions[r], pre, total, post)
      ensures |mem| == |old(mem)| && Touched(old(mem), mem, ws) && Sparing(regions[r], Around(regions[r], pre, total, post), ws)
    {
      hide Shape, Polite, Linked, Touched, Total, NoTwoFree, Listed, Around, LastUsed, Word, Sparing;
      at', total', pre', ws := at, total, pre, {};
      NothingSpares(mem, regions[r], Around(regions[r], pre, total, post));
      PrevIs(mem, regions[r], pre, total, total, post);
      LastOf(pre);
      var prevSize := Word(mem, at + 4);
      if prevSize != 0 && at - prevSize >= regions[r].base {
        ghost var p, rest := pre[|pre| - 1], pre[..|pre| - 1];
        HeadWordOf(p);
        var head := Word(mem, at - prevSize);
        if !UsedBit(head) {
          assert p == Blk(prevSize, false);
          SameAround(regions[r], rest, prevSize, total, 0, post, {});
          ws := MergePrev(r, at - prevSize, prevSize, total, rest, total, post);
          at', total', pre' := at - prevSize, prevSize + total, rest;
          SameHead(old(regions)[r], regions[r], rest, prevSize + total, post);
          SameHead(old(regions)[r], regions[r], pre, total, post);
          PoliteSpares(mem, regions[r], rest, prevSize + total, total, post, ws);
        }
      }
    }

    /** Takes in the block after, if there is one and it is free. */
    method StepNext(r: nat, at: int, total: nat, ghost pre: seq<Blk>, ghost q: nat, ghost post: seq<Blk>)
      returns (total': nat, ghost q': nat, ghost post': seq<Blk>, ghost ws: set<int>)
      requires r < |regions| && Between(mem, regions[r], pre, total, q, post) && at == regions[r].base + Total(pre)
      requires NoTwoFree(post)
      modifies this`mem, this`regions
      ensures |regions| == |old(regions)| && regions == old(regions)[r := old(regions)[r].(flist := regions[r].flist)]
      ensures Between(mem, regions[r], pre, total', q', post')
      ensures NoTwoFree(post') && FirstUsed(post')
      ensures Around(regions[r], pre, total', post') == Around(regions[r], pre, total, post)
      ensures |mem| == |old(mem)| && Touched(old(mem), mem, ws) && Sparing(regions[r], Around(regions[r], pre, total, post), ws)
    {
      hide Shape, Polite, Linked, Touched, Total, NoTwoFree, Listed, Around, FirstUsed, Word, Sparing;
      total', q', post', ws := total, q, post, {};
      NothingSpares(mem, regions[r], Around(regions[r], pre, total, post));
      NextIs(mem, regions[r], pre, total, q, post);
      FirstOf(post);
      var next := at + total;
      if next < regions[r].base + regions[r].brk {
        ghost var b, rest := post[0], post[1..];
        HeadWordOf(b);
        var head := Word(mem, next);
        if !UsedBit(head) {
          assert b == Blk(head, false);
          SameAround(regions[r], pre, 0, total, head, rest, {});
          ws := MergeNext(r, at, total, head, pre, q, rest);
          total', q', post' := total + head, head, rest;
          SameHead(old(regions)[r], regions[r], pre, total + head, rest);
          SameHead(old(regions)[r], regions[r], pre, total, post);
          PoliteSpares(mem, regions[r], pre, total + head, head, rest, ws);
        }
      }
    }

    /** Tells the block after, if there is one, how long its predecessor is now. */
    method StepAfter(r: nat, at: int, total: nat, ghost pre: seq<Blk>, ghost q: nat, ghost post: seq<Blk>)
      returns (ghost ws: set<int>)
      requires r < |regions| && Between(mem, regions[r], pre, total, q, post) && at == regions[r].base + Total(pre)
      modifies this`mem
      ensures Between(mem, regions[r], pre, total, total, post)
      ensures |mem| == |old(mem)| && Touched(old(mem), mem, ws) && Sparing(regions[r], Around(regions[r], pre, total, post), ws)
    {
      hide Shape, Polite, Linked, Touched, Total, Listed, Around, Word, Sparing, Store;
      ws := {};
      NothingSpares(mem, regions[r], Around(regions[r], pre, total, post));
      NextIs(mem, regions[r], pre, total, q, post);
      var after := at + total;
      if after < regions[r].base + regions[r].brk {
        ToldAfter(mem, regions[r], pre, total, q, post);
        Write(after + 4, total);
        ws := {after + 4};
        PoliteSpares(mem, regions[r], pre, total, total, post, ws);
      } else {
        LastAnyway(mem, regions[r], pre, total, q, post);
      }
    }

    /** `heap_region_of`: the region the address lies in, or as many as there are. */
    method RegionOf(p: int) returns (r: nat)
      ensures r <= |regions|
      ensures r < |regions| ==> regions[r].base <= p < regions[r].base + regions[r].size
      ensures r == |regions| ==> !InSome(regions, p)
    {
      for i := 0 to |regions|
        invariant forall k :: 0 <= k < i ==> !(regions[k].base <= p < regions[k].base + regions[k].size)
      {
        if regions[i].base <= p < regions[i].base + regions[i].size {
          return i;
        }
      }
      return |regions|;
    }

    /** `free` within the region of the block. */
    method FreeIn(r: nat, b: int, ghost pre: seq<Blk>, ghost size: nat, ghost post: seq<Blk>)
      returns (ghost bs: seq<Blk>, ghost ws: set<int>)
      requires r < |regions| && RegionOk(mem, regions[r], pre + [Blk(size, true)] + post)
      requires b == regions[r].base + Total(pre)
      modifies this`mem, this`regions
      ensures |regions| == |old(regions)| && regions == old(regions)[r := old(regions)[r].(flist := regions[r].flist)]
      ensures RegionOk(mem, regions[r], bs)
      ensures UsedAt(regions[r].base, bs) == Around(old(regions)[r], pre, size, post)
      ensures Touched(old(mem), mem, ws) && Sparing(old(regions)[r], Around(old(regions)[r], pre, size, post), ws)
      ensures lay == old(lay)
    {
      hide RegionOk, Shape, Between, Polite, Touched, Total, Listed, Around, Word, Sparing, Store, NoTwoFree,
           LastUsed, FirstUsed, UsedAt;
      ghost var g, m0 := regions[r], mem;
      ghost var cs := Around(g, pre, size, post);
      BlockHead(mem, g, pre, size, post);
      var head := Word(mem, b);
      var total := SizeBits(head);
      Opened(mem, g, pre, size, post);
      Write(b, total);
      ghost var m1 := mem;
      FirstSpares(mem, g, pre, size, post, b);
      var at, t1;
      ghost var pre1, w1;
      at, t1, pre1, w1 := StepPrev(r, b, total, pre, post);
      ghost var m2, g2 := mem, regions[r];
      var t2;
      ghost var q2, post2, w2;
      t2, q2, post2, w2 := StepNext(r, at, t1, pre1, total, post);
      ghost var m3, g3 := mem, regions[r];
      ghost var w3 := StepAfter(r, at, t2, pre1, q2, post2);
      ghost var m4 := mem;
      bs := pre1 + [Blk(t2, false)] + post2;
      NeighboursFor(pre1, Blk(t2, false), post2);
      ghost var w4 := PutBack(r, at, t2, pre1, post2);
      FinalSpares(mem, regions[r], pre1, t2, post2, w4);
      SameHeads(g, g2, pre, size, post, pre1, t1, post);
      SameHeads(g2, g3, pre1, t1, post, pre1, t2, post2);
      SameHeads(g3, regions[r], pre1, t2, post2, pre1, t2, post2);
      ws := {b} + w1 + w2 + w3 + w4;
      FiveTouched(m0, m1, m2, m3, m4, mem, {b}, w1, w2, w3, w4);
      FiveSparing(g, g2, g3, regions[r], cs, {b}, w1, w2, w3, w4);
    }

    /** `free`. A pointer that is none of the heap's is let be. */
    method Free(ptr: int)
      requires Valid() && (ptr == 0 || !InSome(regions, ptr - HDR) || exists c :: Live(regions, lay, c) && c.at == ptr)
      modifies this
      ensures Valid()
      ensures forall c :: Live(regions, lay, c) <==> old(Live(regions, lay, c)) && c.at != ptr
      ensures forall c :: Live(regions, lay, c) ==> Kept(old(mem), mem, c)
      ensures SameCarved(old(regions), regions)
    {
      hide AllOk, Live, RegionOk, Kept, Sparing, Around, Touched, UsedAt, Total;
      KeptSame(mem);
      if ptr == 0 {
        NoNull(mem, regions, lay);
        return;
      }
      var b := ptr - HDR;
      var r := RegionOf(b);
      if r == |regions| {
        Foreign(mem, regions, lay, ptr);
        return;
      }
      ghost var m0, g0, l0 := mem, regions, lay;
      ghost var c :| Live(regions, lay, c) && c.at == ptr;
      ghost var pre, size, post := LiveBlock(mem, regions, lay, c, r);
      OkAt(mem, regions, lay, r);
      ghost var bs, ws := FreeIn(r, b, pre, size, post);
      lay := lay[r := bs];
      RegionChanged(m0, mem, g0, regions, l0, lay, r, Around(g0[r], pre, size, post), ws);
      Freed(m0, mem, g0, regions, l0, lay, r, pre, size, post);
    }

    // ---------- malloc ----------

    /** Gives the rest of a block a header and the block's link. */
    method PrepareRest(r: nat, b: int, need: nat, left: nat, ghost pre: seq<Blk>, ghost q: nat, ghost post: seq<Blk>)
      returns (ghost ws: set<int>)
      requires r < |regions| && Offered(mem, regions[r], pre, need + left, q, post) && b == regions[r].base + Total(pre)
      requires need % 8 == 0 && need >= MIN_BLOCK && left >= MIN_BLOCK
      modifies this`mem
      ensures Prepared(mem, regions[r], pre, need, left, q, post)
      ensures Touched(old(mem), mem, ws) && Sparing(regions[r], Around(regions[r], pre, need + left, post), ws)
    {
      hide Offered, Polite, Touched, Total, Around, Word, Sparing, Store;
      ghost var g, m0, size := regions[r], mem, need + left;
      ghost var cs := Around(g, pre, size, post);
      OfferedPlace(mem, g, pre, size, q, post);
      Eights(b, need, 0);
      EightIsFour(b + need);
      EightIsFour(b);
      Write(b + need, left);
      InnerWrite(m0, mem, g, pre, size, q, post, b + need);
      InnerSpares(m0, g, pre, size, q, post, b + need);
      ghost var m1 := mem;
      Untouched(m0, m1, {b + need}, b + 8);
      StoredWord(m0, b + need, left);
      Write(b + need + 4, need);
      InnerWrite(m1, mem, g, pre, size, q, post, b + need + 4);
      InnerSpares(m1, g, pre, size, q, post, b + need + 4);
      ghost var m2 := mem;
      Untouched(m1, m2, {b + need + 4}, b + 8);
      Untouched(m1, m2, {b + need + 4}, b + need);
      StoredWord(m1, b + need + 4, need);
      SetNext(b + need, Word(mem, b + 8));
      InnerWrite(m2, mem, g, pre, size, q, post, b + need + 8);
      InnerSpares(m2, g, pre, size, q, post, b + need + 8);
      Untouched(m2, mem, {b + need + 8}, b + 8);
      Untouched(m2, mem, {b + need + 8}, b + need);
      Untouched(m2, mem, {b + need + 8}, b + need + 4);
      ws := {b + need} + {b + need + 4} + {b + need + 8};
      TouchedTwice(m0, m1, m2, {b + need}, {b + need + 4});
      TouchedTwice(m0, m2, mem, {b + need} + {b + need + 4}, {b + need + 8});
      SparingBoth(g, cs, {b + need}, {b + need + 4});
      SparingBoth(g, cs, {b + need} + {b + need + 4}, {b + need + 8});
    }

    /** Tells the block behind, if there is one, the size of the rest. */
    method TellBehind(r: nat, b: int, need: nat, left: nat, ghost pre: seq<Blk>, ghost post: seq<Blk>)
      returns (ghost ws: set<int>)
      requires r < |regions| && Prepared(mem, regions[r], pre, need, left, need + left, post)
      requires need % 8 == 0 && need >= MIN_BLOCK && left >= MIN_BLOCK && b == regions[r].base + Total(pre)
      modifies this`mem
      ensures Prepared(mem, regions[r], pre, need, left, left, post)
      ensures Touched(old(mem), mem, ws) && Sparing(regions[r], Around(regions[r], pre, need + left, post), ws)
    {
      hide Shape, Polite, Touched, Total, Around, Word, Sparing, Store, Linked, WithSelf;
      ghost var g, m0, size := regions[r], mem, need + left;
      ws := {};
      NothingSpares(mem, g, Around(g, pre, size, post));
      NextIs(mem, g, pre, size, size, post);
      OfferedPlace(mem, g, pre, size, size, post);
      var after := b + (need + left);
      if after < regions[r].base + regions[r].brk {
        ToldBehind(mem, g, pre, size, size, post, left);
        Eights(b, need, 0);
        EightIsFour(b + need);
        EightIsFour(b);
        Write(after + 4, left);
        ws := {after + 4};
        Untouched(m0, mem, ws, b + 8);
        Untouched(m0, mem, ws, b + need);
        Untouched(m0, mem, ws, b + need + 4);
        Untouched(m0, mem, ws, b + need + 8);
        InnerSpares(m0, g, pre, size, size, post, after + 4);
      } else {
        NobodyBehind(mem, g, pre, size, size, left, post);
      }
    }

    /** A block long enough to share: the front is taken, the rest stays in the list in its place. */
    method TakeFront(r: nat, b: int, need: nat, total: nat, ghost pre: seq<Blk>, ghost post: seq<Blk>)
      returns (ghost bs: seq<Blk>, ghost ws: set<int>)
      requires r < |regions| && RegionOk(mem, regions[r], pre + [Blk(total, false)] + post)
      requires b == regions[r].base + Total(pre)
      requires need % 8 == 0 && need >= MIN_BLOCK && total >= need + MIN_BLOCK
      modifies this`mem, this`regions
      ensures |regions| == |old(regions)| && regions == old(regions)[r := old(regions)[r].(flist := regions[r].flist)]
      ensures RegionOk(mem, regions[r], bs) && bs == pre + [Blk(need, true)] + ([Blk(total - need, false)] + post)
      ensures UsedAt(regions[r].base, bs) == UsedWith(old(regions)[r], pre, total, post, need)
      ensures Touched(old(mem), mem, ws) && Sparing(old(regions)[r], Around(old(regions)[r], pre, total, post), ws)
    {
      hide RegionOk, Shape, Polite, Touched, Total, Around, Word, Sparing, Store, NoTwoFree, LastUsed, FirstUsed,
           UsedAt, FreeAt, Ascending, Linked, LinkWords;
      ghost var g, m0 := regions[r], mem;
      ghost var left := total - need;
      OfferedIn(mem, g, pre, total, post);
      ghost var w1 := PrepareRest(r, b, need, total - need, pre, total, post);
      ghost var m1 := mem;
      ghost var w2 := TellBehind(r, b, need, total - need, pre, post);
      ghost var m2 := mem;
      ghost var xs, ys := FreeAt(g.base, pre), FreeAt(b + total, post);
      OfferedPlace(mem, g, pre, total, left, post);
      OfferedList(mem, g, pre, total, left, post);
      RestAscending(mem, g, pre, need, left, left, post);
      FlistReplace(r, b, b + need, xs, ys);
      ghost var m3, w3 := mem, LinkWords(xs + [b] + ys);
      Relisted(m2, m3, g, regions[r], pre, total, left, post, w3);
      RestStays(m2, m3, g, pre, need, left, left, post);
      PoliteSpares(m2, g, pre, total, left, post, w3);
      TakenFront(mem, regions[r], pre, need, left, post);
      Write(b, need + 1);
      bs := pre + [Blk(need, true)] + ([Blk(left, false)] + post);
      FrontLists(g.base, pre, need, left, post);
      SameHead(g, regions[r], pre, total, post);
      SparingSame(g, regions[r], Around(g, pre, total, post), {b});
      ws := w1 + w2 + w3 + {b} + {};
      NothingSpares(mem, g, Around(g, pre, total, post));
      FiveTouched(m0, m1, m2, m3, mem, mem, w1, w2, w3, {b}, {});
      FiveSparing(g, g, g, g, Around(g, pre, total, post), w1, w2, w3, {b}, {});
    }

    /** A block taken as it is. */
    method TakeWhole(r: nat, b: int, total: nat, ghost pre: seq<Blk>, ghost post: seq<Blk>)
      returns (ghost bs: seq<Blk>, ghost ws: set<int>)
      requires r < |regions| && RegionOk(mem, regions[r], pre + [Blk(total, false)] + post)
      requires b == regions[r].base + Total(pre)
      modifies this`mem, this`regions
      ensures |regions| == |old(regions)| && regions == old(regions)[r := old(regions)[r].(flist := regions[r].flist)]
      ensures RegionOk(mem, regions[r], bs) && bs == pre + [Blk(total, true)] + post
      ensures UsedAt(regions[r].base, bs) == UsedWith(old(regions)[r], pre, total, post, total)
      ensures Touched(old(mem), mem, ws) && Sparing(old(regions)[r], Around(old(regions)[r], pre, total, post), ws)
    {
      hide RegionOk, Shape, Polite, Touched, Total, Around, Word, Sparing, Store, NoTwoFree, LastUsed, FirstUsed,
           UsedAt, FreeAt, Ascending, Linked, LinkWords;
      ghost var g, m0 := regions[r], mem;
      OfferedIn(mem, g, pre, total, post);
      OfferedList(mem, g, pre, total, total, post);
      ghost var xs, ys := FreeAt(g.base, pre), FreeAt(b + total, post);
      FlistRemove(r, b, xs, ys);
      ghost var m1, w1 := mem, LinkWords(xs + [b] + ys);
      Relisted(m0, m1, g, regions[r], pre, total, total, post, w1);
      PoliteSpares(m0, g, pre, total, total, post, w1);
      TakenWhole(mem, regions[r], pre, total, post);
      Write(b, total + 1);
      bs := pre + [Blk(total, true)] + post;
      SameHead(g, regions[r], pre, total, post);
      SparingSame(g, regions[r], Around(g, pre, total, post), {b});
      ws := w1 + {b};
      TouchedTwice(m0, m1, mem, w1, {b});
      SparingBoth(g, Around(g, pre, total, post), w1, {b});
    }

    /** First fit in the free list of one region: the block's address, or 0. */
    method FindFit(r: nat, need: nat) returns (b: int, total: nat, ghost pre: seq<Blk>, ghost post: seq<Blk>)
      requires r < |regions| == |lay| && RegionOk(mem, regions[r], lay[r])
      ensures b != 0 ==> total >= need && lay[r] == pre + [Blk(total, false)] + post && b == regions[r].base + Total(pre)
      ensures if b == 0 then NoFit(lay[r], need) else NoFit(pre, need)
    {
      hide RegionOk, Word, Links, Total, NoFit, SizeBits, UsedBit, FreeAt;
      ghost var g, bs := regions[r], lay[r];
      ghost var fs := FreeAt(g.base, bs);
      b, total, pre, post := regions[r].flist, 0, [], [];
      ghost var k := 0;
      ListOf(mem, g, bs);
      assert fs[0..] == fs;
      while b != 0
        invariant k <= |fs| && Links(mem, b, fs[k..], 0)
        invariant forall j :: 0 <= j < k ==> Word(mem, fs[j]) < need
        decreases |fs| - k
      {
        ListHead(mem, b, fs[k..], 0);
        assert b == fs[k] && fs[k..][1..] == fs[k + 1..];
        assert b in fs;
        ghost var before, size, behind := FreeHead(mem, g, bs, b);
        HeadWordOf(Blk(size, false));
        total := SizeBits(Word(mem, b));
        if total >= need {
          pre, post := before, behind;
          FirstListed(mem, g, before, total, behind, k, need);
          return;
        }
        b := Word(mem, b + 8);
        k := k + 1;
      }
      ListHead(mem, b, fs[k..], 0);
      ListedSmall(mem, fs, need);
      FitIsListed(mem, g.base, 0, bs, need);
    }

    /**
      `heap_region_bump`: a block carved off the end, if the 32-bit sum of the source says that it fits. When that sum
      wraps, the block is laid over the end of what was carved, and the bump pointer goes down.
     */
    method Bump(r: nat, need: nat) returns (p: int, ghost bs: seq<Blk>, ghost ws: set<int>)
      requires r < |regions| == |lay| && RegionOk(mem, regions[r], lay[r])
      requires BlockSized(need) && need < WORD_LIMIT
      modifies this`mem, this`regions
      ensures p != 0 <==> Add32(old(regions)[r].brk, need) <= old(regions)[r].size
      ensures p == 0 ==> mem == old(mem) && regions == old(regions)
      ensures p != 0 ==>
                && regions == old(regions)[r := old(regions)[r].(brk := Add32(old(regions)[r].brk, need))]
                && p == old(regions)[r].base + old(regions)[r].brk + HDR
                && HeaderPut(old(mem), mem, p - HDR, need, LastSize(0, lay[r]))
      ensures p != 0 && old(regions)[r].brk + need < WORD_LIMIT ==>
                && bs == lay[r] + [Blk(need, true)] && RegionOk(mem, regions[r], bs)
                && UsedAt(regions[r].base, bs) == UsedAt(regions[r].base, lay[r]) + [Chunk(p, need - HDR)]
                && Touched(old(mem), mem, ws) && Sparing(old(regions)[r], UsedAt(regions[r].base, lay[r]), ws)
    {
      hide RegionOk, Word, Total, Store, Touched, UsedAt, Sparing, Shape, LastSize;
      ghost var g, m0 := regions[r], mem;
      bs, ws := lay[r], {};
      if Add32(regions[r].brk, need) > regions[r].size {
        return 0, bs, ws;
      }
      var base := regions[r].base;
      EndOfRegion(mem, g, lay[r], need);
      var prev := 0;
      if regions[r].brk != 0 {
        prev := LastBlock(r);
      }
      var at := base + regions[r].brk;
      Write(at, need + 1);
      ghost var m1 := mem;
      Write(at + 4, prev);
      StoredWord(m0, at, need + 1);
      StoredWord(m1, at + 4, prev);
      Untouched(m1, mem, {at + 4}, at);
      ws := {at, at + 4};
      TouchedTwice(m0, m1, mem, {at}, {at + 4});
      assert {at} + {at + 4} == ws;
      regions := regions[r := regions[r].(brk := Add32(regions[r].brk, need))];
      if g.brk + need < WORD_LIMIT {
        Carved(m0, mem, g, lay[r], need, prev);
        bs := lay[r] + [Blk(need, true)];
      }
      return at + HDR, bs, ws;
    }

    /** The walk to the last block carved, for its size. */
    method LastBlock(r: nat) returns (size: nat)
      requires r < |regions| == |lay| && RegionOk(mem, regions[r], lay[r]) && regions[r].brk != 0
      ensures size == LastSize(0, lay[r])
    {
      hide RegionOk, Word, Total;
      ghost var i := 0;
      ghost var bs := lay[r];
      CarvedHasBlocks(mem, regions[r], bs);
      var p := regions[r].base;
      WalkBlock(mem, regions[r], bs, 0);
      while p + SizeBits(Word(mem, p)) < regions[r].base + regions[r].brk
        invariant i < |bs| && p == regions[r].base + Total(bs[..i])
        decreases |bs| - i
      {
        WalkBlock(mem, regions[r], bs, i);
        p := p + SizeBits(Word(mem, p));
        i := i + 1;
      }
      WalkBlock(mem, regions[r], bs, i);
      size := SizeBits(Word(mem, p));
    }

    /** A free block that is long enough is taken, and the payload is live. */
    method TakeFit(r: nat, b: int, need: nat, total: nat, ghost pre: seq<Blk>, ghost post: seq<Blk>)
      returns (p: int, ghost c: Chunk)
      requires Valid() && r < |regions| == |lay| && lay[r] == pre + [Blk(total, false)] + post
      requires b == regions[r].base + Total(pre) && BlockSized(need) && total >= need
      modifies this
      ensures Valid() && Given(old(mem), mem, old(regions), regions, old(lay), lay, c)
      ensures p == c.at && p != 0 && need - 8 <= c.len < need - 8 + 16
      ensures Taken(old(regions), old(lay), regions, lay, r, pre, total, post, need, c)
    {
      hide AllOk, RegionOk, Touched, Sparing, Around, UsedAt, Total, Given, Kept;
      ghost var m0, g0, l0 := mem, regions, lay;
      OkAt(mem, regions, lay, r);
      ghost var bs, ws, len;
      if total - need >= MIN_BLOCK {
        bs, ws := TakeFront(r, b, need, total, pre, post);
        len := need;
      } else {
        bs, ws := TakeWhole(r, b, total, pre, post);
        len := total;
      }
      lay := lay[r := bs];
      c := Chunk(b + HDR, len - HDR);
      RegionChanged(m0, mem, g0, regions, l0, lay, r, Around(g0[r], pre, total, post), ws);
      TakenGives(m0, mem, g0, regions, l0, lay, r, pre, total, post, len);
      p := b + HDR;
    }

    /** A block carved off the end of a region, if there is room, is live; unless the sum wraps. */
    method BumpIn(r: nat, need: nat) returns (p: int, ghost c: Chunk)
      requires Valid() && r < |regions| && BlockSized(need) && need < WORD_LIMIT
      modifies this
      ensures p != 0 <==> Add32(old(regions)[r].brk, need) <= old(regions)[r].size
      ensures p == 0 ==> mem == old(mem) && regions == old(regions) && lay == old(lay)
      ensures old(regions)[r].brk + need < WORD_LIMIT ==> Valid()
      ensures p != 0 && old(regions)[r].brk + need < WORD_LIMIT ==>
                && Given(old(mem), mem, old(regions), regions, old(lay), lay, c) && p == c.at && c.len == need - HDR
                && CarvedOff(old(regions), old(lay), regions, lay, r, need, c)
      ensures p != 0 && old(regions)[r].brk + need >= WORD_LIMIT ==>
                Overrun(old(mem), mem, old(regions), regions, old(lay), r, need, p)
    {
      hide AllOk, RegionOk, Touched, Sparing, UsedAt, Given, Kept, HeaderPut;
      ghost var m0, g0, l0 := mem, regions, lay;
      OkAt(mem, regions, lay, r);
      ghost var bs, ws;
      p, bs, ws := Bump(r, need);
      c := Chunk(p, need - HDR);
      if p != 0 && g0[r].brk + need < WORD_LIMIT {
        lay := lay[r := bs];
        RegionChanged(m0, mem, g0, regions, l0, lay, r, UsedAt(g0[r].base, l0[r]), ws);
        BumpGives(m0, mem, g0, regions, l0, lay, r, need);
      } else {
        Wrapped(m0, g0[r], l0[r], need);
      }
    }

    /**
      `heap_grow`. `first` and `second` are what the kernel answers to the two requests for memory: an address, or
      less than zero.
     */
    method Grow(need: nat, first: int, second: int) returns (ok: bool)
      requires Valid() && need < WORD_LIMIT
      requires first >= 0 ==> Granted(regions, first, Want(need))
      requires second >= 0 ==> Granted(regions, second, Want(need))
      modifies this
      ensures Valid() && mem == old(mem)
      ensures ok <==> !Refused(old(regions), need, first, second)
      ensures !ok ==> regions == old(regions) && lay == old(lay)
      ensures ok ==> lay == old(lay) + [[]] && exists base :: regions == old(regions) + [Region(base, Want(need), 0, 0)]
    {
      hide AllOk, Granted;
      var want := if need > REGION_SIZE then need else REGION_SIZE;
      var total := 0;
      if |regions| >= MAX_REGIONS {
        return false;
      }
      want := Add32(want, PAGE - 1) / PAGE * PAGE;
      if want > MMAPAN_MAX {
        return false;
      }
      for i := 0 to |regions|
        invariant unchanged(this) && total == Sizes(regions[..i])
      {
        SizesNext(regions, i);
        total := total + regions[i].size;
      }
      assert regions[..|regions|] == regions;
      if total + want > MAX_TOTAL {
        return false;
      }
      var ret := first;
      if ret < 0 && |regions| > 0 {
        ret := second;
      }
      if ret < 0 {
        return false;
      }
      NewRegion(mem, regions, lay, ret, want);
      regions := regions + [Region(ret, want, 0, 0)];
      lay := lay + [[]];
      return true;
    }

    /**
      `malloc`. The pointer it returns is that of a new payload, with every other one kept, exactly when no region's
      `brk` and the size of the block add up to 2^32 or more; a sum that wraps lays the block over the end of the
      first such region.
     */
    method Malloc(size: nat, first: int, second: int) returns (p: int, ghost c: Chunk)
      requires Valid() && Kernel(regions, size, first, second)
      modifies this
      ensures !Wraps(old(regions), size) ==> Valid()
      ensures p != 0 && !Wraps(old(regions), size) ==>
                && Given(old(mem), mem, old(regions), regions, old(lay), lay, c)
                && p == c.at && p % 8 == 0 && size <= c.len && Need(size) - 8 <= c.len < Need(size) - 8 + 16
                && FirstFit(old(regions), old(lay), regions, lay, Need(size), c)
      ensures p == 0 <==>
                size > MAX_REQUEST || (!Wraps(old(regions), size) && NoRoom(old(regions), old(lay), Need(size), first, second))
      ensures p == 0 ==> mem == old(mem) && forall d :: Live(regions, lay, d) == old(Live(regions, lay, d))
      ensures Wraps(old(regions), size) ==>
                p != 0 && Spoilt(old(mem), mem, old(regions), regions, old(lay), Need(size), p)
      ensures p != 0 ==>
                (Served(old(mem), mem, old(regions), regions, old(lay), p, size) <==> !Wraps(old(regions), size))
    {
      hide AllOk, RegionOk, Granted, Given, Live, NoFit, Refused, Overrun, Served, Taken, CarvedOff, FirstFit;
      c := Chunk(0, 0);
      if size > MAX_REQUEST {
        return 0, c;
      }
      var need := AlignUp(size + HDR);
      if need < MIN_BLOCK {
        need := MIN_BLOCK;
      }
      NeedIs(size);
      assert need == Need(size);
      SameCount(mem, regions, lay);
      for i := 0 to |regions|
        invariant unchanged(this) && |lay| == |regions| && forall r :: 0 <= r < i ==> NoFit(lay[r], need)
      {
        OkAt(mem, regions, lay, i);
        var b, total;
        ghost var pre, post;
        b, total, pre, post := FindFit(i, need);
        if b != 0 {
          FitIsOne(pre, total, post, need);
          FitFits(mem, regions[i], pre, total, post);
          FitsNowrap(mem, regions, lay, need);
          p, c := TakeFit(i, b, need, total, pre, post);
          GivenPlace(old(mem), mem, old(regions), regions, old(lay), lay, c);
          GivenServes(old(mem), mem, old(regions), regions, old(lay), lay, c, size);
          FitIsFirst(old(regions), old(lay), regions, lay, i, pre, total, post, need, c);
          return;
        }
      }
      for i := 0 to |regions|
        invariant unchanged(this) && |lay| == |regions|
        invariant forall r :: 0 <= r < i ==> regions[r].size < regions[r].brk + need < WORD_LIMIT
      {
        OkAt(mem, regions, lay, i);
        Room(mem, regions[i], lay[i], need);
        if Add32(regions[i].brk, need) <= regions[i].size {
          p, c := BumpIn(i, need);
          if p != 0 {
            if old(regions)[i].brk + need < WORD_LIMIT {
              FitsNowrap(old(mem), old(regions), old(lay), need);
              GivenPlace(old(mem), mem, old(regions), regions, old(lay), lay, c);
              GivenServes(old(mem), mem, old(regions), regions, old(lay), lay, c, size);
              BumpIsFirst(old(regions), old(lay), regions, lay, i, need, c);
            } else {
              SpoiltServesNot(old(mem), mem, old(regions), regions, old(lay), i, need, p, size);
            }
            return;
          }
        }
      }
      var ok := Grow(need, first, second);
      if !ok {
        return 0, c;
      }
      EmptyRegion(mem, old(regions), regions, old(lay), lay);
      ghost var g1, l1 := regions, lay;
      p, c := BumpIn(|regions| - 1, need);
      if p != 0 {
        GivenAfterGrowth(old(mem), mem, old(regions), g1, regions, old(lay), l1, lay, c);
        GivenPlace(old(mem), mem, old(regions), regions, old(lay), lay, c);
        GivenServes(old(mem), mem, old(regions), regions, old(lay), lay, c, size);
        GrowthIsLast(old(regions), old(lay), g1, l1, regions, lay, need, c);
      }
    }

    // ---------- the program and realloc ----------

    /** The program writes a byte of a payload it has. */
    method PutByte(ghost c: Chunk, a: int, v: Byte)
      requires Valid() && Live(regions, lay, c) && c.at <= a < c.at + c.len
      modifies this`mem
      ensures Valid() && 0 <= a < |old(mem)| && mem == old(mem)[a := v]
      ensures forall d :: Live(regions, lay, d) && d != c ==> Kept(old(mem), mem, d)
    {
      hide AllOk, Live, Kept, Touched;
      ByteWritten(mem, regions, lay, c, a, v);
      mem := mem[a := v];
    }

    /** Copies `n` bytes from one payload to another. */
    method Copy(ghost from: Chunk, src: int, ghost to: Chunk, dst: int, n: nat)
      requires Valid() && Live(regions, lay, from) && Live(regions, lay, to) && from != to
      requires src == from.at && dst == to.at && n <= from.len && n <= to.len
      modifies this`mem
      ensures Valid()
      ensures forall d :: Live(regions, lay, d) && d != to ==> Kept(old(mem), mem, d)
      ensures 0 <= src && src + n <= |old(mem)| == |mem| && 0 <= dst && dst + n <= |mem|
      ensures mem[dst..dst + n] == old(mem[src..src + n])
    {
      hide AllOk, Live;
      LivePlace(mem, regions, lay, from);
      LivePlace(mem, regions, lay, to);
      LiveApart(mem, regions, lay, from, to);
      for i := 0 to n
        invariant Valid() && |mem| == |old(mem)|
        invariant forall d :: Live(regions, lay, d) && d != to ==> Kept(old(mem), mem, d)
        invariant mem[dst..dst + i] == old(mem[src..src + i])
      {
        assert Kept(old(mem), mem, from);
        ghost var was := mem;
        PutByte(to, dst + i, mem[src + i]);
        Appended(old(mem), was, src, dst, i);
        KeptOn(old(mem), was, mem, regions, lay, to);
      }
    }

    /** `realloc`. A null pointer makes it `malloc`, sums that wrap included. */
    method Realloc(ptr: int, size: nat, first: int, second: int, ghost own: Chunk) returns (p: int, ghost c: Chunk)
      requires Valid() && (ptr != 0 ==> Live(regions, lay, own) && own.at == ptr)
      requires Kernel(regions, size, first, second) && (ptr == 0 || !Wraps(regions, size))
      modifies this
      ensures Wraps(old(regions), size) ==>
                p != 0 && Spoilt(old(mem), mem, old(regions), regions, old(lay), Need(size), p)
      ensures !Wraps(old(regions), size) ==> Valid()
      ensures p != 0 && !Wraps(old(regions), size) ==>
                && p == c.at && p % 8 == 0 && size <= c.len < Need(size) - 8 + 16 && !old(Live(regions, lay, c))
                && (forall d :: Live(regions, lay, d) <==> (old(Live(regions, lay, d)) && !(ptr != 0 && d == own)) || d == c)
                && (forall d :: old(Live(regions, lay, d)) && !(ptr != 0 && d == own) ==> Kept(old(mem), mem, d))
      ensures p != 0 && ptr != 0 ==> Copied(old(mem), ptr, mem, p, if own.len < size then own.len else size)
      ensures p == 0 ==>
                forall d :: Live(regions, lay, d) <==> old(Live(regions, lay, d)) && !(ptr != 0 && size == 0 && d == own)
      ensures p == 0 <==>
                || (ptr != 0 && size == 0) || size > MAX_REQUEST
                || (!Wraps(old(regions), size) && NoRoom(old(regions), old(lay), Need(size), first, second))
      ensures p == 0 ==> forall d :: Live(regions, lay, d) ==> Kept(old(mem), mem, d)
    {
      hide AllOk, Live, Kept, Kernel, Wraps, NoRoom, Given, Copied, Served, Spoilt;
      KeptSame(mem);
      c := Chunk(0, 0);
      if ptr == 0 {
        p, c := Malloc(size, first, second);
        GivenSays(old(mem), mem, old(regions), regions, old(lay), lay, c);
        return;
      }
      OneAt(mem, regions, lay, own);
      LivePlace(mem, regions, lay, own);
      if size == 0 {
        Free(ptr);
        return 0, c;
      }
      LiveHead(mem, regions, lay, own);
      var head := Word(mem, ptr - HDR);
      var oldPayload := SizeBits(head) - HDR;
      p, c := Malloc(size, first, second);
      if p == 0 {
        return;
      }
      var n := if oldPayload < size then oldPayload else size;
      ghost var m1, g1, l1 := mem, regions, lay;
      GivenSays(old(mem), mem, old(regions), regions, old(lay), lay, c);
      LivePlace(mem, regions, lay, c);
      Copy(own, ptr, c, p, n);
      ghost var m2 := mem;
      OneAt(mem, regions, lay, own);
      Free(ptr);
      ReallocKept(old(mem), m1, m2, mem, own, c, n);
      AllKept(old(mem), m1, m2, mem, old(regions), old(lay), g1, l1, regions, lay, own, c);
    }
  }

  // ---------- what realloc needs ----------

  lemma ByteWritten(m: Block, gs: seq<Region>, lay: seq<seq<Blk>>, c: Chunk, a: int, v: Byte)
    requires AllOk(m, gs, lay) && Live(gs, lay, c) && c.at <= a < c.at + c.len
    ensures 0 <= a < |m| && AllOk(m[a := v], gs, lay)
    ensures forall d :: Live(gs, lay, d) && d != c ==> Kept(m, m[a := v], d)
  {
    hide AllOk, RegionOk, Touched, Kept, UsedAt, Sparing;
    var r :| 0 <= r < |gs| && r < |lay| && c in UsedAt(gs[r].base, lay[r]);
    LivePlace(m, gs, lay, c);
    OkAt(m, gs, lay, r);
    SizedIn(m, gs[r], lay[r]);
    UsedLength(gs[r].base, lay[r], c);
    WordInside(c.at, c.len, a);
    ByteTouches(m, a, v);
    var m', w := m[a := v], WordOf(a);
    PayloadWritten(m, m', gs[r], lay[r], c, w);
    SparesNone(gs[r], w);
    RegionChanged(m, m', gs, gs, lay, lay, r, [], {w});
  }

  lemma SizedIn(m: Block, g: Region, bs: seq<Blk>)
    requires RegionOk(m, g, bs)
    ensures Sized(bs)
  {
    hide Laid, Linked, Sized;
  }

  lemma SparesNone(g: Region, w: int)
    requires g.base <= w && w + 4 <= g.base + g.size
    ensures Sparing(g, [], {w})
  {
  }

  lemma LivePlace(m: Block, gs: seq<Region>, lay: seq<seq<Blk>>, c: Chunk)
    requires AllOk(m, gs, lay) && Live(gs, lay, c)
    ensures HDR < c.at && c.at + c.len <= |m| && c.at % 8 == 0 && c.len >= 8
  {
    hide AllOk, UsedAt;
    var r :| 0 <= r < |gs| && r < |lay| && c in UsedAt(gs[r].base, lay[r]);
    LiveBounds(m, gs, lay, r, c);
    OkAt(m, gs, lay, r);
    InMemory(m, gs[r], lay[r]);
  }

  lemma InMemory(m: Block, g: Region, bs: seq<Blk>)
    requires RegionOk(m, g, bs)
    ensures g.base + g.size <= |m|
  {
    hide Laid, Linked;
  }

  /** The address tells the payload. */
  lemma OneAt(m: Block, gs: seq<Region>, lay: seq<seq<Blk>>, own: Chunk)
    requires AllOk(m, gs, lay) && Live(gs, lay, own)
    ensures forall d :: Live(gs, lay, d) ==> (d.at == own.at <==> d == own)
  {
    hide AllOk, Live;
    LivePlace(m, gs, lay, own);
    forall d | Live(gs, lay, d)
      ensures d.at == own.at <==> d == own
    {
      LivePlace(m, gs, lay, d);
      if d != own {
        LiveApart(m, gs, lay, own, d);
      }
    }
  }

  /** The header in front of a live payload tells its length. */
  lemma LiveHead(m: Block, gs: seq<Region>, lay: seq<seq<Blk>>, c: Chunk)
    requires AllOk(m, gs, lay) && Live(gs, lay, c)
    ensures var head := Word(m, c.at - HDR); SizeBits(head) - HDR == c.len
  {
    hide AllOk, RegionOk, UsedAt, Word, Total;
    var r :| 0 <= r < |gs| && r < |lay| && c in UsedAt(gs[r].base, lay[r]);
    OkAt(m, gs, lay, r);
    var pre, size, post := FindUsed(gs[r].base, lay[r], c);
    BlockHead(m, gs[r], pre, size, post);
  }

  lemma KeptOn(m0: Block, m1: Block, m2: Block, gs: seq<Region>, lay: seq<seq<Blk>>, but: Chunk)
    requires forall d :: Live(gs, lay, d) && d != but ==> Kept(m0, m1, d)
    requires forall d :: Live(gs, lay, d) && d != but ==> Kept(m1, m2, d)
    ensures forall d :: Live(gs, lay, d) && d != but ==> Kept(m0, m2, d)
  {
    hide Live, Kept;
    forall d | Live(gs, lay, d) && d != but
      ensures Kept(m0, m2, d)
    {
      KeptTwice(m0, m1, m2, d);
    }
  }

  lemma Appended(m0: Block, m: Block, src: int, dst: int, i: nat)
    requires 0 <= src && src + i < |m0| == |m| && 0 <= dst && dst + i < |m| && m[src + i] == m0[src + i]
    requires m[dst..dst + i] == m0[src..src + i]
    ensures m[dst + i := m[src + i]][dst..dst + i + 1] == m0[src..src + i + 1]
  {
    var m' := m[dst + i := m[src + i]];
    assert m'[dst..dst + i] == m[dst..dst + i];
    assert m'[dst..dst + i + 1] == m'[dst..dst + i] + [m'[dst + i]];
    assert m0[src..src + i + 1] == m0[src..src + i] + [m0[src + i]];
  }

  lemma KeptTwice(m0: Block, m1: Block, m2: Block, d: Chunk)
    requires Kept(m0, m1, d) && Kept(m1, m2, d)
    ensures Kept(m0, m2, d)
  {
  }

  lemma ReallocKept(m0: Block, m1: Block, m2: Block, m3: Block, own: Chunk, c: Chunk, n: nat)
    requires Kept(m0, m1, own) && Kept(m2, m3, c) && |m1| == |m2| && n <= own.len && n <= c.len
    requires 0 <= own.at && own.at + n <= |m1| && 0 <= c.at && c.at + n <= |m2|
    requires m2[c.at..c.at + n] == m1[own.at..own.at + n]
    ensures Copied(m0, own.at, m3, c.at, n)
  {
    assert m1[own.at..own.at + n] == m0[own.at..own.at + n];
    assert m3[c.at..c.at + n] == m2[c.at..c.at + n];
  }

  lemma GivenSays(m: Block, m': Block, gs: seq<Region>, gs': seq<Region>, lay: seq<seq<Blk>>, lay': seq<seq<Blk>>, c: Chunk)
    ensures Given(m, m', gs, gs', lay, lay', c) ==>
              && !Live(gs, lay, c) && (forall d :: Live(gs', lay', d) <==> Live(gs, lay, d) || d == c)
              && (forall d :: Live(gs, lay, d) ==> Kept(m, m', d))
  {
    hide Live, Kept, Disjoint;
  }

  /** Through the three parts of realloc every other payload keeps its bytes. */
  lemma AllKept(m0: Block, m1: Block, m2: Block, m3: Block, g0: seq<Region>, l0: seq<seq<Blk>>,
                g1: seq<Region>, l1: seq<seq<Blk>>, g2: seq<Region>, l2: seq<seq<Blk>>, own: Chunk, c: Chunk)
    requires Given(m0, m1, g0, g1, l0, l1, c)
    requires forall d :: Live(g1, l1, d) && d != c ==> Kept(m1, m2, d)
    requires forall d :: Live(g2, l2, d) <==> Live(g1, l1, d) && d != own
    requires forall d :: Live(g2, l2, d) ==> Kept(m2, m3, d)
    ensures !Live(g0, l0, c) && forall d :: Live(g2, l2, d) <==> (Live(g0, l0, d) || d == c) && d != own
    ensures forall d :: Live(g0, l0, d) && d != own ==> Kept(m0, m3, d)
  {
    hide Live, Kept, Disjoint;
    forall d | Live(g0, l0, d) && d != own
      ensures Kept(m0, m3, d)
    {
      KeptTwice(m0, m1, m2, d);
      KeptTwice(m0, m2, m3, d);
    }
  }

  // ---------- what malloc promises ----------

  /** The largest request that is not refused outright. */
  const MAX_REQUEST := WORD_LIMIT - 16

  function AlignUp(n: nat): nat {
    (n + 7) / 8 * 8
  }

  /** The size of the block for a request. */
  function Need(size: nat): nat {
    if AlignUp(size + HDR) < MIN_BLOCK then MIN_BLOCK else AlignUp(size + HDR)
  }

  /** What is asked of the kernel for a block of that size. */
  function Want(need: nat): nat {
    Add32(if need > REGION_SIZE then need else REGION_SIZE, PAGE - 1) / PAGE * PAGE
  }

  /** The sum the source computes in 32 bits does not wrap in any region. */
  predicate NoWrap(gs: seq<Region>, need: nat) {
    forall r :: 0 <= r < |gs| ==> gs[r].brk + need < WORD_LIMIT
  }

  /** A request that is not refused outright, for which the sum wraps in some region. */
  predicate Wraps(gs: seq<Region>, size: nat) {
    size <= MAX_REQUEST && !NoWrap(gs, Need(size))
  }

  /** The kernel grants only memory that is free. */
  predicate Kernel(gs: seq<Region>, size: nat, first: int, second: int) {
    && size < WORD_LIMIT
    && (size <= MAX_REQUEST ==>
          && (first >= 0 ==> Granted(gs, first, Want(Need(size))))
          && (second >= 0 ==> Granted(gs, second, Want(Need(size)))))
  }

  /** The `n` bytes at `b` now are those that were at `a`. */
  ghost predicate Copied(m: Block, a: int, m': Block, b: int, n: int) {
    0 <= n && 0 <= a && a + n <= |m| && 0 <= b && b + n <= |m'| && m'[b..b + n] == m[a..a + n]
  }

  /** A run the kernel grants: page-aligned, in the lower half of memory, and apart from every region. */
  predicate Granted(gs: seq<Region>, base: int, size: nat) {
    && 0 < base < WORD_LIMIT / 2 && base % PAGE == 0
    && forall r :: 0 <= r < |gs| ==> Apart(gs[r], Region(base, size, 0, 0))
  }

  function Sizes(gs: seq<Region>): nat {
    if gs == [] then 0 else Sizes(gs[..|gs| - 1]) + gs[|gs| - 1].size
  }

  /** Why no region is added. */
  predicate Refused(gs: seq<Region>, need: nat, first: int, second: int) {
    || |gs| >= MAX_REGIONS || Want(need) > MMAPAN_MAX || Sizes(gs) + Want(need) > MAX_TOTAL
    || (first < 0 && (|gs| == 0 || second < 0))
  }

  /** No free block fits, no region has room at its end, and growing fails or brings too little. */
  ghost predicate NoRoom(gs: seq<Region>, lay: seq<seq<Blk>>, need: nat, first: int, second: int) {
    && |lay| == |gs| && (forall r :: 0 <= r < |gs| ==> NoFit(lay[r], need))
    && (forall r :: 0 <= r < |gs| ==> gs[r].brk + need > gs[r].size)
    && (Refused(gs, need, first, second) || Want(need) < need)
  }

  /**
    The free block of `total` bytes behind `pre` in region `r` has been taken for a block of `need` bytes: if at least
    16 bytes are left they are one free block behind it, else it is taken whole. No other block has changed.
   */
  ghost predicate Taken(gs: seq<Region>, lay: seq<seq<Blk>>, gs': seq<Region>, lay': seq<seq<Blk>>, r: nat, pre: seq<Blk>,
                        total: nat, post: seq<Blk>, need: nat, c: Chunk) {
    && r < |gs| == |lay| && lay[r] == pre + [Blk(total, false)] + post && total >= need && |gs'| == |gs|
    && gs' == gs[r := gs[r].(flist := gs'[r].flist)]
    && c.at == gs[r].base + Total(pre) + 8
    && if total - need >= 16
       then c.len == need - 8 && lay' == lay[r := pre + [Blk(need, true)] + ([Blk(total - need, false)] + post)]
       else c.len == total - 8 && lay' == lay[r := pre + [Blk(total, true)] + post]
  }

  /** A block of `need` bytes has been carved off the end of region `r`. */
  ghost predicate CarvedOff(gs: seq<Region>, lay: seq<seq<Blk>>, gs': seq<Region>, lay': seq<seq<Blk>>, r: nat, need: nat,
                         c: Chunk) {
    && r < |gs| == |lay| && gs' == gs[r := gs[r].(brk := gs[r].brk + need)] && lay' == lay[r := lay[r] + [Blk(need, true)]]
    && c.at == gs[r].base + gs[r].brk + 8 && c.len == need - 8
  }

  /**
    Where the block comes from: the first free block long enough, in the order of regions and addresses; else the end of
    the first region with room; else the start of a new one.
   */
  ghost predicate FirstFit(gs: seq<Region>, lay: seq<seq<Blk>>, gs': seq<Region>, lay': seq<seq<Blk>>, need: nat, c: Chunk) {
    || (exists r: nat, pre, total: nat, post ::
          Taken(gs, lay, gs', lay', r, pre, total, post, need, c) && NoFit(pre, need)
          && forall q :: 0 <= q < r && q < |lay| ==> NoFit(lay[q], need))
    || ((forall q :: 0 <= q < |lay| ==> NoFit(lay[q], need))
        && ((exists r: nat :: CarvedOff(gs, lay, gs', lay', r, need, c) && forall q :: 0 <= q < r && q < |gs| ==> gs[q].brk + need > gs[q].size)
            || ((forall q :: 0 <= q < |gs| ==> gs[q].brk + need > gs[q].size)
                && exists base :: NewBlock(gs, lay, gs', lay', base, need, c))))
  }

  /** A new region with a block of `need` bytes at its start. */
  ghost predicate NewBlock(gs: seq<Region>, lay: seq<seq<Blk>>, gs': seq<Region>, lay': seq<seq<Blk>>, base: int, need: nat,
                           c: Chunk) {
    && |gs'| == |gs| + 1 && gs' == gs + [Region(base, Want(need), need, 0)] && lay' == lay + [[Blk(need, true)]]
    && c == Chunk(base + 8, need - 8)
  }

  lemma FitIsFirst(gs: seq<Region>, lay: seq<seq<Blk>>, gs': seq<Region>, lay': seq<seq<Blk>>, r: nat, pre: seq<Blk>,
                   total: nat, post: seq<Blk>, need: nat, c: Chunk)
    requires Taken(gs, lay, gs', lay', r, pre, total, post, need, c) && NoFit(pre, need)
    requires forall q :: 0 <= q < r && q < |lay| ==> NoFit(lay[q], need)
    ensures FirstFit(gs, lay, gs', lay', need, c)
  {
    hide Taken, NoFit;
  }

  lemma BumpIsFirst(gs: seq<Region>, lay: seq<seq<Blk>>, gs': seq<Region>, lay': seq<seq<Blk>>, r: nat, need: nat, c: Chunk)
    requires CarvedOff(gs, lay, gs', lay', r, need, c) && forall q :: 0 <= q < |lay| ==> NoFit(lay[q], need)
    requires forall q :: 0 <= q < r && q < |gs| ==> gs[q].brk + need > gs[q].size
    ensures FirstFit(gs, lay, gs', lay', need, c)
  {
    hide Taken, CarvedOff, NoFit;
  }

  lemma GrowthIsLast(gs: seq<Region>, lay: seq<seq<Blk>>, g1: seq<Region>, l1: seq<seq<Blk>>, gs': seq<Region>,
                     lay': seq<seq<Blk>>, need: nat, c: Chunk)
    requires |lay| == |gs| && |g1| == |gs| + 1 && l1 == lay + [[]]
    requires exists base :: g1 == gs + [Region(base, Want(need), 0, 0)]
    requires CarvedOff(g1, l1, gs', lay', |gs|, need, c)
    requires forall q :: 0 <= q < |lay| ==> NoFit(lay[q], need)
    requires forall q :: 0 <= q < |gs| ==> gs[q].brk + need > gs[q].size
    ensures FirstFit(gs, lay, gs', lay', need, c)
  {
    hide Taken, NoFit;
    var base :| g1 == gs + [Region(base, Want(need), 0, 0)];
    assert [] + [Blk(need, true)] == [Blk(need, true)];
    assert NewBlock(gs, lay, gs', lay', base, need, c);
  }

  predicate Disjoint(c: Chunk, d: Chunk) {
    c.at + c.len <= d.at || d.at + d.len <= c.at
  }

  /** The chunk is live now and was not, everything that was live still is, apart from it, and keeps its bytes. */
  ghost predicate Given(m: Block, m': Block, gs: seq<Region>, gs': seq<Region>, lay: seq<seq<Blk>>, lay': seq<seq<Blk>>,
                        c: Chunk) {
    && !Live(gs, lay, c) && (forall d :: Live(gs', lay', d) <==> Live(gs, lay, d) || d == c)
    && (forall d :: Live(gs, lay, d) ==> Kept(m, m', d) && Disjoint(c, d))
  }

  /** A header written at `at`, and nothing else. */
  ghost predicate HeaderPut(m: Block, m': Block, at: int, need: nat, prev: nat) {
    Touched(m, m', {at, at + 4}) && Word(m', at) == need + 1 && Word(m', at + 4) == prev
  }

  /** The sum wrapped in region `r`: a header is laid at the end of what was carved there, and `brk` goes down. */
  ghost predicate Overrun(m: Block, m': Block, gs: seq<Region>, gs': seq<Region>, lay: seq<seq<Blk>>, r: nat, need: nat,
                          p: int) {
    && r < |gs| == |lay| && WORD_LIMIT <= gs[r].brk + need < 2 * WORD_LIMIT
    && gs' == gs[r := gs[r].(brk := gs[r].brk + need - WORD_LIMIT)] && p == gs[r].base + gs[r].brk + HDR
    && HeaderPut(m, m', p - HDR, need, LastSize(0, lay[r]))
  }

  /** And this happened in the first region in which it wraps. */
  ghost predicate Spoilt(m: Block, m': Block, gs: seq<Region>, gs': seq<Region>, lay: seq<seq<Blk>>, need: nat, p: int) {
    exists r: nat :: Overrun(m, m', gs, gs', lay, r, need, p) && forall q :: 0 <= q < r && q < |gs| ==> gs[q].brk + need < WORD_LIMIT
  }

  /** The heap is in order, with a new payload at `p` that is long enough and everything else as it was. */
  ghost predicate Served(m: Block, m': Block, gs: seq<Region>, gs': seq<Region>, lay: seq<seq<Blk>>, p: int, size: nat) {
    exists lay', c :: AllOk(m', gs', lay') && Given(m, m', gs, gs', lay, lay', c) && c.at == p && c.len >= size
  }

  lemma GivenServes(m: Block, m': Block, gs: seq<Region>, gs': seq<Region>, lay: seq<seq<Blk>>, lay': seq<seq<Blk>>,
                    c: Chunk, size: nat)
    requires AllOk(m', gs', lay') && Given(m, m', gs, gs', lay, lay', c) && c.len >= size
    ensures Served(m, m', gs, gs', lay, c.at, size)
  {
    hide AllOk, Given;
  }

  lemma {:induction false} LinksUnique(m: Block, p: int, xs: seq<int>, ys: seq<int>)
    requires Links(m, p, xs, 0) && Links(m, p, ys, 0)
    ensures xs == ys
    decreases |xs|
  {
    hide Word;
    if xs != [] && ys != [] {
      LinksUnique(m, Word(m, p + 8), xs[1..], ys[1..]);
      assert xs == [xs[0]] + xs[1..] && ys == [ys[0]] + ys[1..];
    }
  }

  /** Nobody can read the blocks of a region so that they end before its last free block does. */
  lemma FreeBlockStays(m: Block, m': Block, g: Region, g': Region, pre: seq<Blk>, size: nat, bs': seq<Blk>, ws: set<int>)
    requires RegionOk(m, g, pre + [Blk(size, false)]) && RegionOk(m', g', bs')
    requires g'.base == g.base && g'.flist == g.flist && Touched(m, m', ws)
    requires ws == {g.base + g.brk, g.base + g.brk + 4}
    ensures g'.brk >= g.brk
  {
    hide Laid, Word, Linked, Links, FreeAt, UsedAt, NoTwoFree, Sized, Total, Touched, RegionOk;
    var bs := pre + [Blk(size, false)];
    var at := LastFree(m, g, pre, size);
    ListOf(m, g, bs);
    ListOf(m', g', bs');
    LinksFrame(m, m', ws, g.flist, FreeAt(g.base, bs), 0);
    LinksUnique(m', g.flist, FreeAt(g.base, bs), FreeAt(g.base, bs'));
    Untouched(m, m', ws, at);
    FreeEnds(m', g', bs', at);
  }

  /** The last block carved, when it is free: where it is, what its header says, and that no link lies behind it. */
  lemma LastFree(m: Block, g: Region, pre: seq<Blk>, size: nat) returns (at: int)
    requires RegionOk(m, g, pre + [Blk(size, false)])
    ensures at in FreeAt(g.base, pre + [Blk(size, false)]) && Word(m, at) == size && at % 4 == 0
    ensures at + size == g.base + g.brk && size > 0
    ensures var fs := FreeAt(g.base, pre + [Blk(size, false)]);
            forall k :: 0 <= k < |fs| ==> fs[k] % 8 == 0 && fs[k] + MIN_BLOCK <= g.base + g.brk
  {
    hide Laid, Word, Linked, FreeAt, UsedAt, NoTwoFree, Sized, Total;
    var none: seq<Blk> := [];
    var bs := pre + [Blk(size, false)];
    at := g.base + Total(pre);
    assert pre + [Blk(size, false)] + none == bs;
    LaidAround(m, g.base, 0, pre, Blk(size, false), none);
    ListsAround(g.base, pre, Blk(size, false), none);
    NoBlocks(m, at + size, size);
    SizedAround(pre, Blk(size, false), none);
    PageIsEight(g.base);
    SizedTotal(pre);
    Eights(g.base, Total(pre), 0);
    EightIsFour(at);
    FreeBounds(g.base, bs);
  }

  /** A listed block ends where the carved part ends or before. */
  lemma FreeEnds(m: Block, g: Region, bs: seq<Blk>, at: int)
    requires RegionOk(m, g, bs) && at in FreeAt(g.base, bs)
    ensures at + Word(m, at) <= g.base + g.brk
  {
    hide Laid, Word, Linked, FreeAt, UsedAt, NoTwoFree, Sized, Total;
    var pre, size, post := FreeHead(m, g, bs, at);
    LaidAround(m, g.base, 0, pre, Blk(size, false), post);
  }

  /** After an overrun there is no reading of the heap under which all that was live still is. */
  lemma OverrunLoses(m: Block, m': Block, gs: seq<Region>, gs': seq<Region>, lay: seq<seq<Blk>>, lay': seq<seq<Blk>>,
                     r: nat, need: nat, p: int)
    requires AllOk(m, gs, lay) && Overrun(m, m', gs, gs', lay, r, need, p) && need < WORD_LIMIT && AllOk(m', gs', lay')
    ensures exists d :: Live(gs, lay, d) && !Live(gs', lay', d)
  {
    hide AllOk, RegionOk, Touched, UsedAt, Live;
    var g, g' := gs[r], gs'[r];
    OkAt(m, gs, lay, r);
    OkAt(m', gs', lay', r);
    CarvedHasBlocks(m, g, lay[r]);
    var pre, b := lay[r][..|lay[r]| - 1], lay[r][|lay[r]| - 1];
    assert lay[r] == pre + [b];
    if b.used {
      var d := LastUsedChunk(m, g, pre, b);
      assert Live(gs, lay, d) by {
        LiveAt(gs, lay, r, d);
      }
      LiveBounds(m, gs, lay, r, d);
      if Live(gs', lay', d) {
        var q := InRegion(m', gs', lay', d);
        LiveBounds(m', gs', lay', q, d);
        OnlyRegion(m', gs', lay', r, q, d.at);
        UsedBelow(m', g', lay'[r], d);
      }
    } else {
      FreeBlockStays(m, m', g, g', pre, b.size, lay'[r], {p - HDR, p - HDR + 4});
    }
  }

  lemma LastUsedChunk(m: Block, g: Region, pre: seq<Blk>, b: Blk) returns (d: Chunk)
    requires RegionOk(m, g, pre + [b]) && b.used
    ensures d in UsedAt(g.base, pre + [b]) && d.at + d.len == g.base + g.brk
  {
    hide Laid, Word, Linked, FreeAt, UsedAt, NoTwoFree, Sized, Total;
    var none: seq<Blk> := [];
    assert pre + [b] + none == pre + [b];
    LaidAround(m, g.base, 0, pre, b, none);
    ListsAround(g.base, pre, b, none);
    NoBlocks(m, g.base, 0);
    d := Chunk(g.base + Total(pre) + HDR, b.size - HDR);
  }

  lemma InRegion(m: Block, gs: seq<Region>, lay: seq<seq<Blk>>, d: Chunk) returns (q: nat)
    requires Live(gs, lay, d)
    ensures q < |gs| && q < |lay| && d in UsedAt(gs[q].base, lay[q])
  {
    hide UsedAt;
    q :| 0 <= q < |gs| && q < |lay| && d in UsedAt(gs[q].base, lay[q]);
  }

  lemma UsedBelow(m: Block, g: Region, bs: seq<Blk>, d: Chunk)
    requires RegionOk(m, g, bs) && d in UsedAt(g.base, bs)
    ensures d.at + d.len <= g.base + g.brk
  {
    hide Laid, Word, Linked, FreeAt, UsedAt, NoTwoFree, Total;
    PageIsEight(g.base);
    UsedBounds(g.base, bs);
  }

  lemma SpoiltServesNot(m: Block, m': Block, gs: seq<Region>, gs': seq<Region>, lay: seq<seq<Blk>>, r: nat, need: nat,
                        p: int, size: nat)
    requires AllOk(m, gs, lay) && Overrun(m, m', gs, gs', lay, r, need, p) && need < WORD_LIMIT
    ensures !Served(m, m', gs, gs', lay, p, size)
  {
    hide AllOk, Live, Overrun, Kept, Disjoint;
    forall lay', c | AllOk(m', gs', lay')
      ensures !Given(m, m', gs, gs', lay, lay', c)
    {
      OverrunLoses(m, m', gs, gs', lay, lay', r, need, p);
    }
  }

  /** A region of 1 MiB at 0x400000 in which one block of 0x100 bytes has been carved. */
  function OneBlockHeap(m0: Block): (m: Block)
    requires |m0| == WORD_LIMIT
  {
    Store(Store(m0, 0x40_0000, 0x101), 0x40_0004, 0)
  }

  /**
    There, `malloc(0xFFFFFFE8)` needs 0xFFFFFFF0 bytes and the sum wraps: it returns the end of the block, `brk` comes
    to be 0xF0, and under no reading of the heap is the block's payload still there.
   */
  lemma WrapAt(m0: Block, m': Block, gs': seq<Region>, p: int)
    requires |m0| == WORD_LIMIT
    ensures var m, gs, lay := OneBlockHeap(m0), [Region(0x40_0000, 0x10_0000, 0x100, 0)], [[Blk(0x100, true)]];
            && AllOk(m, gs, lay) && Live(gs, lay, Chunk(0x40_0008, 0xF8)) && Wraps(gs, 0xFFFF_FFE8)
            && (Spoilt(m, m', gs, gs', lay, Need(0xFFFF_FFE8), p) ==>
                  && p == 0x40_0108 && gs' == [Region(0x40_0000, 0x10_0000, 0xF0, 0)]
                  && forall lay' :: AllOk(m', gs', lay') ==> !Live(gs', lay', Chunk(0x40_0008, 0xF8)))
  {
    hide AllOk, UsedAt, Live, HeaderPut, OneBlockHeap, Need;
    var m, gs, lay := OneBlockHeap(m0), [Region(0x40_0000, 0x10_0000, 0x100, 0)], [[Blk(0x100, true)]];
    var d := Chunk(0x40_0008, 0xF8);
    OneBlockOk(m0);
    NeedAt();
    assert gs[0].brk + Need(0xFFFF_FFE8) >= WORD_LIMIT;
    if Spoilt(m, m', gs, gs', lay, Need(0xFFFF_FFE8), p) {
      forall lay' | AllOk(m', gs', lay') && Live(gs', lay', d)
        ensures false
      {
        var q := InRegion(m', gs', lay', d);
        OkAt(m', gs', lay', q);
        UsedBelow(m', gs'[q], lay'[q], d);
      }
    }
  }

  lemma NeedAt()
    ensures Need(0xFFFF_FFE8) == 0xFFFF_FFF0
  {
    assert AlignUp(0xFFFF_FFF0) == 0xFFFF_FFF0;
  }

  lemma OneBlockOk(m0: Block)
    requires |m0| == WORD_LIMIT
    ensures var gs, lay := [Region(0x40_0000, 0x10_0000, 0x100, 0)], [[Blk(0x100, true)]];
            AllOk(OneBlockHeap(m0), gs, lay) && Live(gs, lay, Chunk(0x40_0008, 0xF8))
  {
    hide Word, Store, Touched, UsedAt, Total, Laid, FreeAt;
    var a, bs := 0x40_0000, [Blk(0x100, true)];
    var m1 := Store(m0, a, 0x101);
    var m := Store(m1, a + 4, 0);
    Stored(m0, a, 0x101);
    Stored(m1, a + 4, 0);
    Untouched(m1, m, {a + 4}, a);
    OneBlock(m, a, 0, bs[0]);
    assert Chunk(0x40_0008, 0xF8) in UsedAt(a, bs);
    LiveAt([Region(a, 0x10_0000, 0x100, 0)], [bs], 0, Chunk(0x40_0008, 0xF8));
    assert RegionOk(m, Region(a, 0x10_0000, 0x100, 0), bs);
  }

  /** Two live payloads never share a byte. */
  lemma LiveApart(m: Block, gs: seq<Region>, lay: seq<seq<Blk>>, c: Chunk, d: Chunk)
    requires AllOk(m, gs, lay) && Live(gs, lay, c) && Live(gs, lay, d) && c != d
    ensures Disjoint(c, d)
  {
    hide AllOk, UsedAt;
    var r :| 0 <= r < |gs| && r < |lay| && c in UsedAt(gs[r].base, lay[r]);
    var q :| 0 <= q < |gs| && q < |lay| && d in UsedAt(gs[q].base, lay[q]);
    LiveBounds(m, gs, lay, r, c);
    LiveBounds(m, gs, lay, q, d);
    if r == q {
      OkAt(m, gs, lay, r);
      UsedApart(m, gs[r], lay[r]);
    } else {
      ApartAt(m, gs, lay, r, q);
    }
  }

  lemma UsedApart(m: Block, g: Region, bs: seq<Blk>)
    requires RegionOk(m, g, bs)
    ensures forall c, d :: c in UsedAt(g.base, bs) && d in UsedAt(g.base, bs) && c != d ==> Disjoint(c, d)
  {
    hide Laid, Word, Linked, FreeAt, NoTwoFree, UsedAt;
    PageIsEight(g.base);
    UsedBounds(g.base, bs);
  }

  /** One region has one more payload: it is given. */
  lemma OneMore(m: Block, m': Block, gs: seq<Region>, gs': seq<Region>, lay: seq<seq<Blk>>, lay': seq<seq<Blk>>, r: nat, c: Chunk)
    requires AllOk(m, gs, lay) && AllOk(m', gs', lay') && r < |gs| && |gs'| == |gs| && gs' == gs[r := gs'[r]]
    requires gs'[r].base == gs[r].base && gs'[r].size == gs[r].size
    requires |lay'| == |lay| && |lay| == |gs| && lay' == lay[r := lay'[r]]
    requires forall d :: d in UsedAt(gs[r].base, lay'[r]) <==> d in UsedAt(gs[r].base, lay[r]) || d == c
    requires c !in UsedAt(gs[r].base, lay[r])
    requires forall d :: d in UsedAt(gs[r].base, lay[r]) ==> Kept(m, m', d)
    requires forall q, d :: 0 <= q < |gs| && q != r && d in UsedAt(gs[q].base, lay[q]) ==> Kept(m, m', d)
    ensures Given(m, m', gs, gs', lay, lay', c) && c.at != 0
  {
    hide AllOk, UsedAt, Kept, Live, Disjoint;
    LiveAt(gs', lay', r, c);
    LiveBounds(m', gs', lay', r, c);
    forall d
      ensures Live(gs', lay', d) <==> Live(gs, lay, d) || d == c
      ensures Live(gs, lay, d) ==> Kept(m, m', d)
    {
      LiveAt(gs, lay, r, d);
      LiveAt(gs', lay', r, d);
      if q :| 0 <= q < |gs| && q != r && d in UsedAt(gs[q].base, lay[q]) {
        assert d in UsedAt(gs'[q].base, lay'[q]);
      } else {
        assert forall q :: 0 <= q < |gs| && q != r ==> d !in UsedAt(gs'[q].base, lay'[q]);
      }
    }
    NotElsewhere(m', gs', lay', r, c);
    LiveAt(gs, lay, r, c);
    assert !Live(gs, lay, c) by {
      assert forall q :: 0 <= q < |gs| && q != r ==> gs'[q] == gs[q] && lay'[q] == lay[q];
    }
    forall d | Live(gs, lay, d)
      ensures Disjoint(c, d)
    {
      LiveApart(m', gs', lay', c, d);
    }
  }

  lemma NotElsewhere(m: Block, gs: seq<Region>, lay: seq<seq<Blk>>, r: nat, c: Chunk)
    requires AllOk(m, gs, lay) && r < |gs| == |lay| && c in UsedAt(gs[r].base, lay[r])
    ensures forall q :: 0 <= q < |gs| && q != r ==> c !in UsedAt(gs[q].base, lay[q])
  {
    hide AllOk, UsedAt;
    LiveBounds(m, gs, lay, r, c);
    forall q | 0 <= q < |gs| && q != r
      ensures c !in UsedAt(gs[q].base, lay[q])
    {
      if c in UsedAt(gs[q].base, lay[q]) {
        LiveBounds(m, gs, lay, q, c);
        OnlyRegion(m, gs, lay, r, q, c.at);
      }
    }
  }

  lemma TakenGives(m: Block, m': Block, gs: seq<Region>, gs': seq<Region>, lay: seq<seq<Blk>>, lay': seq<seq<Blk>>, r: nat,
                   pre: seq<Blk>, total: nat, post: seq<Blk>, len: nat)
    requires AllOk(m, gs, lay) && AllOk(m', gs', lay') && r < |gs| && |gs'| == |gs| && gs' == gs[r := gs'[r]]
    requires gs'[r].base == gs[r].base && gs'[r].size == gs[r].size
    requires |lay'| == |lay| && |lay| == |gs| && lay' == lay[r := lay'[r]]
    requires lay[r] == pre + [Blk(total, false)] + post && UsedAt(gs[r].base, lay'[r]) == UsedWith(gs[r], pre, total, post, len)
    requires forall d :: d in Around(gs[r], pre, total, post) ==> Kept(m, m', d)
    requires forall q, d :: 0 <= q < |gs| && q != r && d in UsedAt(gs[q].base, lay[q]) ==> Kept(m, m', d)
    ensures var c := Chunk(gs[r].base + Total(pre) + HDR, len - HDR); Given(m, m', gs, gs', lay, lay', c) && c.at != 0
  {
    hide AllOk, UsedAt, Kept, Total, Given;
    var c := Chunk(gs[r].base + Total(pre) + HDR, len - HDR);
    OkAt(m, gs, lay, r);
    FreeIsNotUsed(m, gs[r], pre, total, post, c);
    OneMore(m, m', gs, gs', lay, lay', r, c);
  }

  lemma FreeIsNotUsed(m: Block, g: Region, pre: seq<Blk>, total: nat, post: seq<Blk>, c: Chunk)
    requires RegionOk(m, g, pre + [Blk(total, false)] + post) && c.at == g.base + Total(pre) + HDR
    ensures UsedAt(g.base, pre + [Blk(total, false)] + post) == Around(g, pre, total, post)
    ensures c !in Around(g, pre, total, post)
  {
    hide Laid, Word, Linked, FreeAt, NoTwoFree, Sized, UsedAt, Total;
    ListsAround(g.base, pre, Blk(total, false), post);
    SizedAround(pre, Blk(total, false), post);
    PageIsEight(g.base);
    SizedTotal(pre);
    Eights(g.base, Total(pre), total);
    UsedBounds(g.base, pre);
    UsedBounds(g.base + Total(pre) + total, post);
    assert UsedAt(g.base, pre) + [] + UsedAt(g.base + Total(pre) + total, post) == Around(g, pre, total, post);
  }

  lemma BumpGives(m: Block, m': Block, gs: seq<Region>, gs': seq<Region>, lay: seq<seq<Blk>>, lay': seq<seq<Blk>>, r: nat, need: nat)
    requires AllOk(m, gs, lay) && AllOk(m', gs', lay') && r < |gs| && |gs'| == |gs| && gs' == gs[r := gs'[r]]
    requires gs'[r].base == gs[r].base && gs'[r].size == gs[r].size
    requires |lay'| == |lay| && |lay| == |gs| && lay' == lay[r := lay'[r]]
    requires UsedAt(gs[r].base, lay'[r]) == UsedAt(gs[r].base, lay[r]) + [Chunk(gs[r].base + gs[r].brk + HDR, need - HDR)]
    requires forall d :: d in UsedAt(gs[r].base, lay[r]) ==> Kept(m, m', d)
    requires forall q, d :: 0 <= q < |gs| && q != r && d in UsedAt(gs[q].base, lay[q]) ==> Kept(m, m', d)
    ensures var c := Chunk(gs[r].base + gs[r].brk + HDR, need - HDR); Given(m, m', gs, gs', lay, lay', c)
  {
    hide AllOk, UsedAt, Kept, Given;
    var c := Chunk(gs[r].base + gs[r].brk + HDR, need - HDR);
    OkAt(m, gs, lay, r);
    BeyondUsed(m, gs[r], lay[r], c);
    OneMore(m, m', gs, gs', lay, lay', r, c);
  }

  lemma BeyondUsed(m: Block, g: Region, bs: seq<Blk>, c: Chunk)
    requires RegionOk(m, g, bs) && c.at == g.base + g.brk + HDR
    ensures c !in UsedAt(g.base, bs)
  {
    hide Laid, Word, Linked, FreeAt, NoTwoFree, UsedAt;
    PageIsEight(g.base);
    UsedBounds(g.base, bs);
  }

  lemma SizesNext(gs: seq<Region>, i: nat)
    requires i < |gs|
    ensures Sizes(gs[..i + 1]) == Sizes(gs[..i]) + gs[i].size
  {
    assert gs[..i + 1][..i] == gs[..i];
  }

  /** An empty region is in order beside the others. */
  lemma NewRegion(m: Block, gs: seq<Region>, lay: seq<seq<Blk>>, base: int, want: nat)
    requires AllOk(m, gs, lay) && |gs| < MAX_REGIONS && Granted(gs, base, want) && want <= MMAPAN_MAX
    ensures AllOk(m, gs + [Region(base, want, 0, 0)], lay + [[]])
  {
    hide RegionOk;
    var g := Region(base, want, 0, 0);
    EmptyOk(m, g);
    var gs', lay' := gs + [g], lay + [[]];
    forall r | 0 <= r < |gs'|
      ensures RegionOk(m, gs'[r], lay'[r])
    {
      assert r < |gs| ==> gs'[r] == gs[r] && lay'[r] == lay[r];
    }
  }

  lemma EmptyOk(m: Block, g: Region)
    requires Placed(m, g) && g.brk == 0 && g.flist == 0
    ensures RegionOk(m, g, [])
  {
    hide Word;
  }

  lemma NeedIs(size: nat)
    requires size <= MAX_REQUEST
    ensures BlockSized(Need(size)) && Need(size) >= size + HDR && Need(size) < WORD_LIMIT
    ensures Need(size) % 8 == 0 && if size <= 8 then Need(size) == 16 else size + 8 <= Need(size) < size + 16
  {
    var k := (size + HDR + 7) / 8;
    assert AlignUp(size + HDR) == 8 * k;
  }

  /** What is asked for: whole pages, a megabyte at least, or nothing when rounding up wraps. */
  lemma WantIs(need: nat)
    requires need < WORD_LIMIT
    ensures var least := if need > 0x10_0000 then need else 0x10_0000;
      && Want(need) % 0x1000 == 0
      && if need <= 0xFFFF_F000 then least <= Want(need) < least + 0x1000 else Want(need) == 0
  {
    var least := if need > 0x10_0000 then need else 0x10_0000;
    var k := Add32(least, PAGE - 1) / PAGE;
    assert Want(need) == k * PAGE;
  }

  lemma GivenPlace(m: Block, m': Block, gs: seq<Region>, gs': seq<Region>, lay: seq<seq<Blk>>, lay': seq<seq<Blk>>, c: Chunk)
    requires Given(m, m', gs, gs', lay, lay', c) && AllOk(m', gs', lay')
    ensures c.at % 8 == 0
  {
    hide AllOk, UsedAt, Kept;
    assert Live(gs', lay', c);
    var r :| 0 <= r < |gs'| && r < |lay'| && c in UsedAt(gs'[r].base, lay'[r]);
    LiveBounds(m', gs', lay', r, c);
  }

  lemma Room(m: Block, g: Region, bs: seq<Blk>, need: nat)
    requires RegionOk(m, g, bs) && need < WORD_LIMIT
    ensures g.brk + need >= WORD_LIMIT ==> Add32(g.brk, need) <= g.size
    ensures g.brk + need < WORD_LIMIT ==> Add32(g.brk, need) == g.brk + need
    ensures g.brk + need < WORD_LIMIT && g.brk + need <= g.size ==> need <= MMAPAN_MAX
  {
    hide Laid, Word, Linked;
    RoomExactly(g.brk, need, g.size);
  }

  lemma Wrapped(m: Block, g: Region, bs: seq<Blk>, need: nat)
    requires RegionOk(m, g, bs) && need < WORD_LIMIT
    ensures g.brk + need >= WORD_LIMIT ==> Add32(g.brk, need) == g.brk + need - WORD_LIMIT && g.brk + need < 2 * WORD_LIMIT
  {
    hide Laid, Word, Linked;
  }

  /** A listed block that only shorter ones precede in the list is the first that is long enough. */
  lemma FirstListed(m: Block, g: Region, pre: seq<Blk>, total: nat, post: seq<Blk>, k: nat, need: nat)
    requires RegionOk(m, g, pre + [Blk(total, false)] + post)
    requires var fs := FreeAt(g.base, pre + [Blk(total, false)] + post);
             k < |fs| && fs[k] == g.base + Total(pre) && forall j :: 0 <= j < k ==> Word(m, fs[j]) < need
    ensures NoFit(pre, need)
  {
    hide Word, Linked, Laid, FreeAt, Total, NoTwoFree, NoFit, Sized;
    var b := Blk(total, false);
    var fs, before := FreeAt(g.base, pre + [b] + post), FreeAt(g.base, pre);
    ListsAround(g.base, pre, b, post);
    LaidAround(m, g.base, 0, pre, b, post);
    SizedAround(pre, b, post);
    PageIsEight(g.base);
    FreeBounds(g.base, pre + [b] + post);
    assert fs[|before|] == g.base + Total(pre);
    assert k == |before|;
    forall f | f in before
      ensures Word(m, f) < need
    {
      var j :| 0 <= j < |before| && before[j] == f;
      assert fs[j] == f;
    }
    FitIsListed(m, g.base, 0, pre, need);
  }

  lemma FitIsOne(pre: seq<Blk>, total: nat, post: seq<Blk>, need: nat)
    requires total >= need
    ensures !NoFit(pre + [Blk(total, false)] + post, need)
  {
    assert (pre + [Blk(total, false)] + post)[|pre|] == Blk(total, false);
  }

  /** A block that is there is no longer than a region may be. */
  lemma FitFits(m: Block, g: Region, pre: seq<Blk>, total: nat, post: seq<Blk>)
    requires RegionOk(m, g, pre + [Blk(total, false)] + post)
    ensures total <= MMAPAN_MAX
  {
    hide Laid, Word, Linked, FreeAt, NoTwoFree, Sized, Total;
    LaidAround(m, g.base, 0, pre, Blk(total, false), post);
  }

  /** What a region could hold makes no sum wrap. */
  lemma FitsNowrap(m: Block, gs: seq<Region>, lay: seq<seq<Blk>>, need: nat)
    requires AllOk(m, gs, lay) && need <= MMAPAN_MAX
    ensures NoWrap(gs, need)
  {
    hide Laid, Word, Linked;
    forall r | 0 <= r < |gs|
      ensures gs[r].brk + need < WORD_LIMIT
    {
      assert RegionOk(m, gs[r], lay[r]);
    }
  }

  /** An empty region changes nothing about what is live. */
  lemma EmptyRegion(m: Block, gs: seq<Region>, gs': seq<Region>, lay: seq<seq<Blk>>, lay': seq<seq<Blk>>)
    requires |lay| == |gs| && |gs'| == |gs| + 1 && lay' == lay + [[]] && gs' == gs + [gs'[|gs|]]
    ensures forall d :: Live(gs', lay', d) <==> Live(gs, lay, d)
  {
    hide UsedAt;
    NoBlocks(m, gs'[|gs|].base, 0);
    forall d
      ensures Live(gs', lay', d) <==> Live(gs, lay, d)
    {
      if r :| 0 <= r < |gs| && d in UsedAt(gs[r].base, lay[r]) {
        assert d in UsedAt(gs'[r].base, lay'[r]);
      } else {
        assert forall r :: 0 <= r < |gs| ==> gs'[r] == gs[r] && lay'[r] == lay[r];
      }
    }
  }

  lemma GivenAfterGrowth(m: Block, m': Block, gs: seq<Region>, g1: seq<Region>, gs': seq<Region>,
                         lay: seq<seq<Blk>>, l1: seq<seq<Blk>>, lay': seq<seq<Blk>>, c: Chunk)
    requires forall d :: Live(g1, l1, d) <==> Live(gs, lay, d)
    requires Given(m, m', g1, gs', l1, lay', c)
    ensures Given(m, m', gs, gs', lay, lay', c)
  {
    hide Live, Kept, Disjoint;
  }

  /** The payloads of a region with the front of a block among them. */
  function UsedWith(g: Region, pre: seq<Blk>, size: nat, post: seq<Blk>, len: nat): seq<Chunk> {
    UsedAt(g.base, pre) + [Chunk(g.base + Total(pre) + HDR, len - HDR)] + UsedAt(g.base + Total(pre) + size, post)
  }

  /** A payload in use in one of the regions. */
  ghost predicate Live(gs: seq<Region>, lay: seq<seq<Blk>>, c: Chunk) {
    exists r :: 0 <= r < |gs| && r < |lay| && c in UsedAt(gs[r].base, lay[r])
  }

  lemma KeptSame(m: Block)
    ensures forall c :: Kept(m, m, c)
  {
  }

  lemma SameCount(m: Block, gs: seq<Region>, lay: seq<seq<Blk>>)
    requires AllOk(m, gs, lay)
    ensures |lay| == |gs|
  {
    hide RegionOk;
  }

  lemma OkAt(m: Block, gs: seq<Region>, lay: seq<seq<Blk>>, r: nat)
    requires AllOk(m, gs, lay) && r < |gs|
    ensures |lay| == |gs| && RegionOk(m, gs[r], lay[r])
  {
    hide RegionOk;
  }

  /** Where a live payload is, in its region. */
  lemma LiveBounds(m: Block, gs: seq<Region>, lay: seq<seq<Blk>>, r: nat, c: Chunk)
    requires AllOk(m, gs, lay) && r < |gs| && c in UsedAt(gs[r].base, lay[r])
    ensures gs[r].base + HDR <= c.at && c.at + c.len <= gs[r].base + gs[r].size && c.len >= 8 && c.at % 8 == 0
    ensures gs[r].base > 0
  {
    hide Laid, Word, Linked, FreeAt, NoTwoFree, UsedAt;
    OkAt(m, gs, lay, r);
    PageIsEight(gs[r].base);
    UsedBounds(gs[r].base, lay[r]);
  }

  lemma NoNull(m: Block, gs: seq<Region>, lay: seq<seq<Blk>>)
    requires AllOk(m, gs, lay)
    ensures forall c :: Live(gs, lay, c) ==> c.at > 0
  {
    hide AllOk;
    forall c | Live(gs, lay, c)
      ensures c.at > 0
    {
      var r :| 0 <= r < |gs| && r < |lay| && c in UsedAt(gs[r].base, lay[r]);
      LiveBounds(m, gs, lay, r, c);
    }
  }

  lemma Foreign(m: Block, gs: seq<Region>, lay: seq<seq<Blk>>, ptr: int)
    requires AllOk(m, gs, lay) && !InSome(gs, ptr - HDR)
    ensures forall c :: Live(gs, lay, c) ==> c.at != ptr
  {
    hide AllOk;
    forall c | Live(gs, lay, c)
      ensures c.at != ptr
    {
      var r :| 0 <= r < |gs| && r < |lay| && c in UsedAt(gs[r].base, lay[r]);
      LiveBounds(m, gs, lay, r, c);
    }
  }

  lemma ApartAt(m: Block, gs: seq<Region>, lay: seq<seq<Blk>>, r: nat, q: nat)
    requires AllOk(m, gs, lay) && r < |gs| && q < |gs| && r != q
    ensures Apart(gs[r], gs[q])
  {
    hide RegionOk;
    assert if r < q then Apart(gs[r], gs[q]) else Apart(gs[q], gs[r]);
  }

  lemma OnlyRegion(m: Block, gs: seq<Region>, lay: seq<seq<Blk>>, r: nat, q: nat, p: int)
    requires AllOk(m, gs, lay) && r < |gs| && q < |gs|
    requires gs[r].base <= p < gs[r].base + gs[r].size && gs[q].base <= p < gs[q].base + gs[q].size
    ensures r == q
  {
    hide AllOk;
    if r != q {
      ApartAt(m, gs, lay, r, q);
    }
  }

  /** The block of a live payload, found through the region its header lies in. */
  lemma LiveBlock(m: Block, gs: seq<Region>, lay: seq<seq<Blk>>, c: Chunk, r: nat)
    returns (pre: seq<Blk>, size: nat, post: seq<Blk>)
    requires AllOk(m, gs, lay) && Live(gs, lay, c) && r < |gs|
    requires gs[r].base <= c.at - HDR < gs[r].base + gs[r].size
    ensures |lay| == |gs| && lay[r] == pre + [Blk(size, true)] + post
    ensures c == Chunk(gs[r].base + Total(pre) + HDR, size - HDR)
  {
    hide AllOk, Total, UsedAt;
    var q :| 0 <= q < |gs| && q < |lay| && c in UsedAt(gs[q].base, lay[q]);
    LiveBounds(m, gs, lay, q, c);
    OnlyRegion(m, gs, lay, r, q, c.at - HDR);
    OkAt(m, gs, lay, r);
    pre, size, post := FindUsed(gs[r].base, lay[r], c);
  }

  /** One region has changed, sparing the payloads of the others: all are in order, and what is live elsewhere is kept. */
  lemma RegionChanged(m: Block, m': Block, gs: seq<Region>, gs': seq<Region>, lay: seq<seq<Blk>>, lay': seq<seq<Blk>>,
                      r: nat, cs: seq<Chunk>, ws: set<int>)
    requires AllOk(m, gs, lay) && r < |gs| == |gs'| && gs' == gs[r := gs'[r]]
    requires gs'[r].base == gs[r].base && gs'[r].size == gs[r].size
    requires |lay'| == |lay| && |lay| == |gs| && lay' == lay[r := lay'[r]] && RegionOk(m', gs'[r], lay'[r])
    requires Touched(m, m', ws) && Sparing(gs[r], cs, ws)
    ensures AllOk(m', gs', lay')
    ensures forall c :: c in cs ==> Kept(m, m', c)
    ensures forall q, c :: 0 <= q < |gs| && q != r && c in UsedAt(gs[q].base, lay[q]) ==> Kept(m, m', c)
  {
    hide RegionOk, Touched, Kept, UsedAt;
    TouchedLength(m, m', ws);
    forall q | 0 <= q < |gs| && q != r
      ensures RegionOk(m', gs'[q], lay'[q])
      ensures forall c :: c in UsedAt(gs[q].base, lay[q]) ==> Kept(m, m', c)
    {
      assert if q < r then Apart(gs[q], gs[r]) else Apart(gs[r], gs[q]);
      OtherRegion(m, m', gs[r], cs, ws, gs[q], lay[q]);
    }
    forall c | c in cs
      ensures Kept(m, m', c)
    {
      forall w | w in ws
        ensures w + 4 <= c.at || c.at + c.len <= w
      {
        assert SparingAt(gs[r], cs, w);
      }
      SparedIsKept(m, m', ws, c);
    }
    forall q, p | 0 <= q < p < |gs'|
      ensures Apart(gs'[q], gs'[p])
    {
      assert Apart(gs[q], gs[p]);
    }
  }

  /** The region's payloads without one, by address. */
  lemma WithoutOne(m: Block, g: Region, pre: seq<Blk>, size: nat, post: seq<Blk>)
    requires RegionOk(m, g, pre + [Blk(size, true)] + post)
    ensures var at := g.base + Total(pre) + HDR;
            forall c :: c in Around(g, pre, size, post) <==> c in UsedAt(g.base, pre + [Blk(size, true)] + post) && c.at != at
  {
    hide Laid, Word, Linked, FreeAt, NoTwoFree, Sized, UsedAt, Total;
    ListsAround(g.base, pre, Blk(size, true), post);
    SizedAround(pre, Blk(size, true), post);
    PageIsEight(g.base);
    SizedTotal(pre);
    Eights(g.base, Total(pre), size);
    UsedBounds(g.base, pre);
    UsedBounds(g.base + Total(pre) + size, post);
  }

  lemma Freed(m: Block, m': Block, gs: seq<Region>, gs': seq<Region>, lay: seq<seq<Blk>>, lay': seq<seq<Blk>>, r: nat,
              pre: seq<Blk>, size: nat, post: seq<Blk>)
    requires AllOk(m, gs, lay) && r < |gs| && |gs'| == |gs| && gs' == gs[r := gs'[r]] && gs'[r].base == gs[r].base
    requires |lay'| == |lay| && |lay| == |gs| && lay[r] == pre + [Blk(size, true)] + post && lay' == lay[r := lay'[r]]
    requires UsedAt(gs[r].base, lay'[r]) == Around(gs[r], pre, size, post)
    requires forall c :: c in Around(gs[r], pre, size, post) ==> Kept(m, m', c)
    requires forall q, c :: 0 <= q < |gs| && q != r && c in UsedAt(gs[q].base, lay[q]) ==> Kept(m, m', c)
    ensures forall c :: Live(gs', lay', c) <==> Live(gs, lay, c) && c.at != gs[r].base + Total(pre) + HDR
    ensures forall c :: Live(gs', lay', c) ==> Kept(m, m', c)
  {
    hide AllOk, Total, UsedAt, Around, Kept, Live;
    var ptr := gs[r].base + Total(pre) + HDR;
    OkAt(m, gs, lay, r);
    WithoutOne(m, gs[r], pre, size, post);
    PtrInside(m, gs[r], pre, size, post);
    forall c
      ensures Live(gs', lay', c) <==> Live(gs, lay, c) && c.at != ptr
      ensures Live(gs', lay', c) ==> Kept(m, m', c)
    {
      LiveAt(gs, lay, r, c);
      LiveAt(gs', lay', r, c);
      if q :| 0 <= q < |gs| && q != r && c in UsedAt(gs[q].base, lay[q]) {
        LiveBounds(m, gs, lay, q, c);
        if c.at == ptr {
          OnlyRegion(m, gs, lay, r, q, ptr);
        }
        assert c in UsedAt(gs'[q].base, lay'[q]);
      } else {
        assert forall q :: 0 <= q < |gs| && q != r ==> c !in UsedAt(gs'[q].base, lay'[q]);
      }
    }
  }

  lemma PtrInside(m: Block, g: Region, pre: seq<Blk>, size: nat, post: seq<Blk>)
    requires RegionOk(m, g, pre + [Blk(size, true)] + post)
    ensures g.base <= g.base + Total(pre) + HDR < g.base + g.size
  {
    hide Laid, Word, Linked, FreeAt, NoTwoFree, UsedAt, Total;
    LaidAround(m, g.base, 0, pre, Blk(size, true), post);
    SizedAround(pre, Blk(size, true), post);
  }

  /** Live means live in this region or in another. */
  lemma LiveAt(gs: seq<Region>, lay: seq<seq<Blk>>, r: nat, c: Chunk)
    requires r < |gs| && |lay| == |gs|
    ensures Live(gs, lay, c) <==>
            c in UsedAt(gs[r].base, lay[r]) || exists q :: 0 <= q < |gs| && q != r && c in UsedAt(gs[q].base, lay[q])
  {
    hide UsedAt;
  }

  /** Two views of a region that differ only in the head of the list see the same payloads. */
  lemma SameHeads(g: Region, h: Region, pre: seq<Blk>, size: nat, post: seq<Blk>, pre': seq<Blk>, size': nat, post': seq<Blk>)
    requires h == g.(flist := h.flist)
    ensures Around(h, pre, size, post) == Around(g, pre, size, post)
    ensures Around(h, pre', size', post') == Around(g, pre', size', post')
  {
  }

  lemma FiveTouched(m0: Block, m1: Block, m2: Block, m3: Block, m4: Block, m5: Block,
                    a: set<int>, b: set<int>, c: set<int>, d: set<int>, e: set<int>)
    requires Touched(m0, m1, a) && Touched(m1, m2, b) && Touched(m2, m3, c) && Touched(m3, m4, d) && Touched(m4, m5, e)
    ensures Touched(m0, m5, a + b + c + d + e)
  {
    hide Touched;
    TouchedTwice(m0, m1, m2, a, b);
    TouchedTwice(m0, m2, m3, a + b, c);
    TouchedTwice(m0, m3, m4, a + b + c, d);
    TouchedTwice(m0, m4, m5, a + b + c + d, e);
  }

  lemma FiveSparing(g: Region, g2: Region, g3: Region, g4: Region, cs: seq<Chunk>,
                    a: set<int>, b: set<int>, c: set<int>, d: set<int>, e: set<int>)
    requires g2 == g.(flist := g2.flist) && g3 == g.(flist := g3.flist) && g4 == g.(flist := g4.flist)
    requires Sparing(g, cs, a) && Sparing(g2, cs, b) && Sparing(g3, cs, c) && Sparing(g3, cs, d) && Sparing(g4, cs, e)
    ensures Sparing(g, cs, a + b + c + d + e)
  {
    SparingSame(g, g2, cs, b);
    SparingSame(g, g3, cs, c);
    SparingSame(g, g3, cs, d);
    SparingSame(g, g4, cs, e);
    hide Sparing;
    SparingBoth(g, cs, a, b);
    SparingBoth(g, cs, a + b, c);
    SparingBoth(g, cs, a + b + c, d);
    SparingBoth(g, cs, a + b + c + d, e);
  }

  lemma SparingSame(g: Region, h: Region, cs: seq<Chunk>, ws: set<int>)
    requires h == g.(flist := h.flist) && Sparing(h, cs, ws)
    ensures Sparing(g, cs, ws)
  {
    forall w | w in ws
      ensures SparingAt(g, cs, w)
    {
      assert SparingAt(h, cs, w);
    }
  }

  lemma BlockHead(m: Block, g: Region, pre: seq<Blk>, size: nat, post: seq<Blk>)
    requires RegionOk(m, g, pre + [Blk(size, true)] + post)
    ensures var head := Word(m, g.base + Total(pre)); SizeBits(head) == size
    ensures NoTwoFree(pre) && NoTwoFree(post)
  {
    hide Laid, Word, Total, Linked, UsedAt, FreeAt, Sized, NoTwoFree;
    LaidAround(m, g.base, 0, pre, Blk(size, true), post);
    SizedAround(pre, Blk(size, true), post);
    HeadWordOf(Blk(size, true));
    NeighboursOf(pre, Blk(size, true), post);
  }

  lemma FirstSpares(m: Block, g: Region, pre: seq<Blk>, size: nat, post: seq<Blk>, b: int)
    requires Between(m, g, pre, size, size, post) && Polite(g, pre, size, post, {b})
    ensures Sparing(g, Around(g, pre, size, post), {b})
  {
    hide Shape, Polite, Linked, Sparing, Around;
    PoliteSpares(m, g, pre, size, size, post, {b});
  }

  /** The links written by the last step, too. */
  lemma FinalSpares(m: Block, h: Region, pre: seq<Blk>, size: nat, post: seq<Blk>, ws: set<int>)
    requires RegionOk(m, h, pre + [Blk(size, false)] + post) && Polite(h, pre, size, post, ws)
    ensures Sparing(h, Around(h, pre, size, post), ws)
  {
    hide Laid, Word, Linked, UsedAt, FreeAt, Sized, NoTwoFree, Around, Total;
    LaidAround(m, h.base, 0, pre, Blk(size, false), post);
    forall w | w in ws
      ensures SparingAt(h, Around(h, pre, size, post), w)
    {
      assert PoliteAt(h, pre, size, post, w);
    }
  }

  /** The address lies in one of the regions. */
  /** The regions are the same, as much carved off each, but for their lists. */
  predicate SameCarved(gs: seq<Region>, gs': seq<Region>) {
    |gs'| == |gs| && forall r :: 0 <= r < |gs| ==> gs'[r] == gs[r].(flist := gs'[r].flist)
  }

  predicate InSome(gs: seq<Region>, p: int) {
    exists k :: 0 <= k < |gs| && gs[k].base <= p < gs[k].base + gs[k].size
  }

  lemma FirstOf(post: seq<Blk>)
    requires NoTwoFree(post)
    ensures post == [] ==> FirstUsed(post)
    ensures post != [] && post[0].used ==> FirstUsed(post)
    ensures post != [] && !post[0].used ==> FirstUsed(post[1..])
    ensures post != [] ==> NoTwoFree(post[1..])
  {
    if post != [] {
      var rest := post[1..];
      forall i | 0 < i < |rest|
        ensures rest[i - 1].used || rest[i].used
      {
        assert post[i].used || post[i + 1].used;
      }
    }
  }

  /** With nothing behind it there is nobody to record its size. */
  lemma LastAnyway(m: Block, g: Region, pre: seq<Blk>, size: nat, q: nat, post: seq<Blk>)
    requires Between(m, g, pre, size, q, post) && post == []
    ensures Between(m, g, pre, size, size, post)
  {
    hide Word, Linked;
  }

  /** The list around the place of `b`. */
  lemma PlaceAt(xs: seq<int>, b: int, ys: seq<int>, k: nat)
    requires Ascending(xs + [b] + ys) && k <= |xs|
    ensures var rest := (xs + ys)[k..];
            && (k < |xs| ==> rest != [] && 0 < rest[0] < b && rest[0] == xs[k] && rest[1..] == (xs + ys)[k + 1..])
            && (k == |xs| ==> rest == ys && (ys != [] ==> ys[0] > b))
  {
    AscendingParts(xs, b, ys);
  }

  lemma LastOf(pre: seq<Blk>)
    requires NoTwoFree(pre)
    ensures pre == [] ==> LastUsed(pre)
    ensures pre != [] && pre[|pre| - 1].used ==> LastUsed(pre)
    ensures pre != [] && !pre[|pre| - 1].used ==> LastUsed(pre[..|pre| - 1])
    ensures pre != [] ==> NoTwoFree(pre[..|pre| - 1])
  {
  }

  lemma NothingSpares(m: Block, g: Region, cs: seq<Chunk>)
    ensures Touched(m, m, {}) && Sparing(g, cs, {})
  {
  }

  /** Only the head of the list differs. */
  lemma SameHead(g: Region, g': Region, pre: seq<Blk>, size: nat, post: seq<Blk>)
    requires g' == g.(flist := g'.flist)
    ensures Around(g', pre, size, post) == Around(g, pre, size, post)
  {
  }

  /** Addition of 32-bit words. */
  function Add32(x: nat, y: nat): nat {
    (x + y) % WORD_LIMIT
  }

  /** The test for room is right exactly when the sum does not wrap. */
  lemma RoomExactly(brk: nat, need: nat, size: nat)
    requires brk <= size < WORD_LIMIT && need < WORD_LIMIT
    ensures (Add32(brk, need) <= size <==> brk + need <= size) <==> brk + need < WORD_LIMIT
  {
    if brk + need >= WORD_LIMIT {
      assert Add32(brk, need) == brk + need - WORD_LIMIT;
    }
  }

  lemma ListOf(m: Block, g: Region, bs: seq<Blk>)
    requires RegionOk(m, g, bs)
    ensures Links(m, g.flist, FreeAt(g.base, bs), 0) && Laid(m, g.base, 0, bs) && Sized(bs)
  {
    hide Laid, Links, FreeAt, Sized;
  }

  lemma ListedSmall(m: Block, fs: seq<int>, need: nat)
    requires forall j :: 0 <= j < |fs| ==> Word(m, fs[j]) < need
    ensures forall f :: f in fs ==> Word(m, f) < need
  {
  }

  /** The end of what is carved is a place for a header. */
  lemma EndOfRegion(m: Block, g: Region, bs: seq<Blk>, need: nat)
    requires RegionOk(m, g, bs) && BlockSized(need) && need < WORD_LIMIT
    ensures g.brk + need < WORD_LIMIT ==> Add32(g.brk, need) == g.brk + need
    ensures Fits(m, g.base + g.brk, need + 1) && Fits(m, g.base + g.brk + 4, LastSize(0, bs))
    ensures g.brk == 0 ==> LastSize(0, bs) == 0
  {
    hide Laid, Word, Linked, FreeAt, NoTwoFree, LastSize, Total, Sized;
    SizedTotal(bs);
    PageIsEight(g.base);
    Eights(g.base, g.brk, 0);
    EightIsFour(g.base + g.brk);
    BelowLimit(need);
    LastBound(bs);
  }

  lemma BelowLimit(need: nat)
    requires need % 8 == 0 && need < WORD_LIMIT
    ensures need + 1 < WORD_LIMIT
  {
  }

  lemma LastBound(bs: seq<Blk>)
    ensures LastSize(0, bs) <= Total(bs)
  {
    if bs != [] {
      var pre, b := bs[..|bs| - 1], bs[|bs| - 1];
      assert bs == pre + [b];
      TotalConcat(pre, [b]);
      OneBlock([], 0, 0, b);
    }
  }

  lemma CarvedHasBlocks(m: Block, g: Region, bs: seq<Blk>)
    requires RegionOk(m, g, bs) && g.brk != 0
    ensures bs != [] && Total(bs[..0]) == 0
  {
    hide Laid, Word, Linked;
  }

  lemma StoredWord(m: Block, a: int, v: nat)
    requires Fits(m, a, v)
    ensures Word(Store(m, a, v), a) == v
  {
    Stored(m, a, v);
  }

  lemma NobodyBehind(m: Block, g: Region, pre: seq<Blk>, size: nat, q: nat, q': nat, post: seq<Blk>)
    requires Offered(m, g, pre, size, q, post) && post == []
    ensures Offered(m, g, pre, size, q', post)
  {
    hide Word, Linked;
  }

  lemma LastIsPlace(xs: seq<int>)
    requires Ascending(xs)
    ensures xs != [] ==> xs[|xs| - 1] > 0 && xs[|xs| - 1] % 8 == 0
  {
  }

  lemma NoLinks(m: Block, v: int)
    ensures Links(m, v, [], v) && Touched(m, m, {})
  {
  }

  lemma LastAndThis(xs: seq<int>, b: int, ys: seq<int>)
    ensures LastLink(xs) + {b + 8} <= LinkWords(xs + [b] + ys)
  {
    var fs := xs + [b] + ys;
    assert fs[|xs|] == b;
    if xs != [] {
      assert fs[|xs| - 1] == xs[|xs| - 1];
    }
  }

  /** The word of the last link of `xs`. */
  ghost function LastLink(xs: seq<int>): set<int> {
    if xs == [] then {} else {xs[|xs| - 1] + 8}
  }

  lemma PartsIn(xs: seq<int>, b: int, ys: seq<int>, n: int)
    requires Ascending(xs + [b] + ys)
    requires forall k :: 0 <= k < |xs + [b] + ys| ==> (xs + [b] + ys)[k] + MIN_BLOCK <= n
    ensures Ascending(xs) && 0 < b && b % 8 == 0 && b + MIN_BLOCK <= n
    ensures xs != [] ==> 0 < xs[|xs| - 1] && xs[|xs| - 1] + MIN_BLOCK <= n
  {
    AscendingParts(xs, b, ys);
    var fs := xs + [b] + ys;
    assert fs[|xs|] == b;
    if xs != [] {
      assert fs[|xs| - 1] == xs[|xs| - 1];
    }
  }

  lemma InsertFirst(m0: Block, m1: Block, p: int, xs: seq<int>, b: int, ys: seq<int>, cur: int)
    requires Ascending(xs + [b] + ys) && Links(m0, p, xs, cur) && Links(m0, cur, ys, 0) && Touched(m0, m1, {b + 8})
    ensures Links(m1, p, xs, cur) && Links(m1, cur, ys, 0)
  {
    hide Word, Touched, Links;
    AscendingParts(xs, b, ys);
    LinksFrame(m0, m1, {b + 8}, p, xs, cur);
    LinksFrame(m0, m1, {b + 8}, cur, ys, 0);
  }

  /** The link of `b` and those behind it are not the last link before it. */
  lemma LinkPlaces(xs: seq<int>, b: int, ys: seq<int>)
    requires Ascending(xs + [b] + ys)
    ensures b > 0 && (b + 8) % 4 == 0 && b + 8 !in LastLink(xs)
    ensures forall k :: 0 <= k < |ys| ==> ys[k] % 8 == 0 && ys[k] + 8 !in LastLink(xs)
  {
    AscendingParts(xs, b, ys);
    EightIsFour(b);
  }

  lemma InsertThen(m0: Block, m1: Block, m2: Block, p: int, xs: seq<int>, b: int, ys: seq<int>, cur: int)
    requires Ascending(xs + [b] + ys) && Links(m1, cur, ys, 0) && Links(m2, p, xs, b) && Word(m1, b + 8) == cur
    requires Touched(m0, m1, {b + 8}) && Touched(m1, m2, LastLink(xs))
    ensures Linked(m2, p, xs + [b] + ys) && Touched(m0, m2, LinkWords(xs + [b] + ys))
  {
    hide Word, Touched, Links, LinkWords, Ascending, LastLink;
    LinkPlaces(xs, b, ys);
    LinksFrame(m1, m2, LastLink(xs), cur, ys, 0);
    Untouched(m1, m2, LastLink(xs), b + 8);
    JoinedAt(m2, p, xs, b, ys, 0);
    TouchedTwice(m0, m1, m2, {b + 8}, LastLink(xs));
    LastAndThis(xs, b, ys);
    TouchedMore(m0, m2, {b + 8} + LastLink(xs), LinkWords(xs + [b] + ys));
  }

  lemma ReplaceFirst(m0: Block, m1: Block, p: int, xs: seq<int>, b: int, nw: int, ys: seq<int>)
    requires Ascending(xs + [b] + ys) && Ascending(xs + [nw] + ys) && Links(m0, Word(m0, b + 8), ys, 0)
    requires Links(m1, p, xs, nw) && Word(m0, nw + 8) == Word(m0, b + 8) && Touched(m0, m1, LastLink(xs))
    ensures Linked(m1, p, xs + [nw] + ys)
  {
    hide Word, Touched, Links;
    AscendingParts(xs, b, ys);
    AscendingParts(xs, nw, ys);
    LinksFrame(m0, m1, LastLink(xs), Word(m0, b + 8), ys, 0);
    Untouched(m0, m1, LastLink(xs), nw + 8);
    JoinedAt(m1, p, xs, nw, ys, 0);
  }

  lemma ReplaceThen(m0: Block, m1: Block, m2: Block, p: int, xs: seq<int>, b: int, nw: int, ys: seq<int>)
    requires Ascending(xs + [b] + ys) && Ascending(xs + [nw] + ys) && b < nw && Linked(m1, p, xs + [nw] + ys)
    requires Touched(m0, m1, LastLink(xs)) && Touched(m1, m2, {b + 8})
    ensures Linked(m2, p, xs + [nw] + ys) && Touched(m0, m2, LinkWords(xs + [b] + ys))
  {
    hide Word, Touched, Links, LinkWords;
    AscendingParts(xs, b, ys);
    AscendingParts(xs, nw, ys);
    LinksFrame(m1, m2, {b + 8}, p, xs + [nw] + ys, 0);
    TouchedTwice(m0, m1, m2, LastLink(xs), {b + 8});
    LastAndThis(xs, b, ys);
    TouchedMore(m0, m2, LastLink(xs) + {b + 8}, LinkWords(xs + [b] + ys));
  }
}
