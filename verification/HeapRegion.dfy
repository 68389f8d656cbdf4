/** One region of the heap: what its blocks, free list and bump pointer say together, and between the steps of `free`. */
module HeapRegion {
  import opened Arith
  import opened Words
  import opened HeapLayout

  const PAGE := 0x1000
  const MMAPAN_MAX := 0x1000000

  /** One run obtained from the kernel; `brk` is how much of it has been carved into blocks. */
  datatype Region = Region(base: int, size: nat, brk: nat, flist: int)

  predicate Placed(m: Block, g: Region) {
    && 0 < g.base < WORD_LIMIT / 2 && g.base % PAGE == 0 && g.base + g.size <= |m| == WORD_LIMIT
    && g.size <= MMAPAN_MAX
  }

  /** The blocks tile what has been carved, each knows its predecessor, and the free list is the free blocks. */
  predicate RegionOk(m: Block, g: Region, bs: seq<Blk>) {
    && Placed(m, g) && g.brk == Total(bs) <= g.size && Sized(bs) && NoTwoFree(bs)
    && Laid(m, g.base, 0, bs) && Linked(m, g.flist, FreeAt(g.base, bs))
  }

  // ---------- a block on its own between its neighbours ----------

  /** A free block of `size` bytes stands between `pre` and `post`; what follows records `q` as its predecessor's size. */
  predicate Shape(m: Block, g: Region, pre: seq<Blk>, size: nat, q: nat, post: seq<Blk>) {
    var at := g.base + Total(pre);
    && Placed(m, g) && g.brk == Total(pre) + size + Total(post) <= g.size
    && Sized(pre) && Sized(post) && size % 8 == 0 && size >= MIN_BLOCK
    && Laid(m, g.base, 0, pre) && Word(m, at) == size && Word(m, at + 4) == LastSize(0, pre)
    && Laid(m, at + size, q, post)
  }

  /** The free blocks around it. */
  function Listed(g: Region, pre: seq<Blk>, size: nat, post: seq<Blk>): seq<int> {
    FreeAt(g.base, pre) + FreeAt(g.base + Total(pre) + size, post)
  }

  /** And the free list does not have it yet. */
  predicate Between(m: Block, g: Region, pre: seq<Blk>, size: nat, q: nat, post: seq<Blk>) {
    Shape(m, g, pre, size, q, post) && Linked(m, g.flist, Listed(g, pre, size, post))
  }

  /** The payloads in use around the block. */
  function Around(g: Region, pre: seq<Blk>, size: nat, post: seq<Blk>): seq<Chunk> {
    UsedAt(g.base, pre) + UsedAt(g.base + Total(pre) + size, post)
  }

  lemma SizedTotal(bs: seq<Blk>)
    requires Sized(bs)
    ensures Total(bs) % 8 == 0 && (bs != [] ==> Total(bs) >= MIN_BLOCK)
  {
    if bs != [] {
      SizedTotal(bs[1..]);
    }
  }

  lemma SizedConcat(x: seq<Blk>, y: seq<Blk>)
    ensures Sized(x + y) <==> Sized(x) && Sized(y)
  {
    if Sized(x + y) {
      forall i | 0 <= i < |x|
        ensures x[i].size % 8 == 0 && x[i].size >= MIN_BLOCK
      {
        assert (x + y)[i] == x[i];
      }
      forall i | 0 <= i < |y|
        ensures y[i].size % 8 == 0 && y[i].size >= MIN_BLOCK
      {
        assert (x + y)[|x| + i] == y[i];
      }
    }
  }

  /** A word the allocator may write inside a run of blocks: no header, and in no payload in use. */
  ghost predicate Harmless(a: int, bs: seq<Blk>, w: int) {
    Clear(a, bs, w) && forall c :: c in UsedAt(a, bs) ==> w + 4 <= c.at || c.at + c.len <= w
  }

  lemma LinkHarmless(a: int, bs: seq<Blk>, f: int)
    requires Sized(bs) && a % 8 == 0 && f in FreeAt(a, bs)
    ensures Harmless(a, bs, f + 8) && a <= f && f + MIN_BLOCK <= a + Total(bs) && f % 8 == 0
  {
    FreeBounds(a, bs);
    FreeUsedApart(a, bs);
    LinksAreClear(a, bs, f);
  }

  lemma OutsideHarmless(a: int, bs: seq<Blk>, w: int)
    requires Sized(bs) && a % 8 == 0 && (w + 4 <= a || w >= a + Total(bs))
    requires w % 4 == 0
    ensures Harmless(a, bs, w)
  {
    ClearOutside(a, bs, w);
    UsedBounds(a, bs);
  }

  lemma {:induction false} FreeUsedApart(a: int, bs: seq<Blk>)
    requires Sized(bs) && a % 8 == 0
    ensures forall f, c :: f in FreeAt(a, bs) && c in UsedAt(a, bs) ==> f + MIN_BLOCK <= c.at || c.at + c.len <= f
    decreases |bs|
  {
    if bs != [] {
      FreeUsedApart(a + bs[0].size, bs[1..]);
      FreeBounds(a + bs[0].size, bs[1..]);
      UsedBounds(a + bs[0].size, bs[1..]);
    }
  }

  /** The link of a block listed around the one that stands alone. */
  ghost predicate LinkApart(g: Region, pre: seq<Blk>, size: nat, post: seq<Blk>, f: int) {
    var at := g.base + Total(pre);
    && Harmless(g.base, pre, f + 8) && Harmless(at + size, post, f + 8)
    && (f + MIN_BLOCK <= at || at + size <= f)
    && g.base <= f && f + MIN_BLOCK <= at + size + Total(post) && f % 8 == 0
  }

  lemma BeforeApart(g: Region, pre: seq<Blk>, size: nat, post: seq<Blk>, f: int)
    requires Sized(pre) && Sized(post) && size % 8 == 0 && g.base % 8 == 0 && f in FreeAt(g.base, pre)
    ensures LinkApart(g, pre, size, post, f)
  {
    hide Harmless, FreeAt, Sized, Total;
    SizedTotal(pre);
    Eights(g.base, Total(pre), size);
    LinkHarmless(g.base, pre, f);
    EightIsFour(f);
    OutsideHarmless(g.base + Total(pre) + size, post, f + 8);
  }

  lemma BehindApart(g: Region, pre: seq<Blk>, size: nat, post: seq<Blk>, f: int)
    requires Sized(pre) && Sized(post) && size % 8 == 0 && g.base % 8 == 0
    requires f in FreeAt(g.base + Total(pre) + size, post)
    ensures LinkApart(g, pre, size, post, f)
  {
    hide Harmless, FreeAt, Sized, Total;
    SizedTotal(pre);
    Eights(g.base, Total(pre), size);
    LinkHarmless(g.base + Total(pre) + size, post, f);
    EightIsFour(f);
    OutsideHarmless(g.base, pre, f + 8);
  }

  lemma AroundHarmless(g: Region, pre: seq<Blk>, size: nat, post: seq<Blk>, f: int)
    requires Sized(pre) && Sized(post) && size % 8 == 0 && g.base % 8 == 0 && f in Listed(g, pre, size, post)
    ensures LinkApart(g, pre, size, post, f)
  {
    hide LinkApart, FreeAt, Sized, Total;
    if f in FreeAt(g.base, pre) {
      BeforeApart(g, pre, size, post, f);
    } else {
      BehindApart(g, pre, size, post, f);
    }
  }

  lemma JoinAscending(xs: seq<int>, b: int, ys: seq<int>)
    requires Ascending(xs) && Ascending(ys) && b > 0 && b % 8 == 0
    requires forall k :: 0 <= k < |xs| ==> xs[k] + MIN_BLOCK <= b
    requires forall k :: 0 <= k < |ys| ==> b + MIN_BLOCK <= ys[k]
    ensures Ascending(xs + [b] + ys)
  {
  }

  /** The listed blocks with it among them are in ascending order, and within the region. */
  lemma AroundAscending(m: Block, g: Region, pre: seq<Blk>, size: nat, q: nat, post: seq<Blk>)
    requires Shape(m, g, pre, size, q, post)
    ensures var at := g.base + Total(pre);
            var fs := FreeAt(g.base, pre) + [at] + FreeAt(at + size, post);
            Ascending(fs) && forall k :: 0 <= k < |fs| ==> fs[k] + MIN_BLOCK <= |m|
  {
    hide Laid, Word, Total, Sized, Ascending, FreeAt;
    var at := g.base + Total(pre);
    ShapeEights(m, g, pre, size, q, post);
    FreeBounds(g.base, pre);
    FreeBounds(at + size, post);
    IsAscending(g.base, pre);
    IsAscending(at + size, post);
    JoinAscending(FreeAt(g.base, pre), at, FreeAt(at + size, post));
  }

  lemma IsAscending(a: int, bs: seq<Blk>)
    requires Sized(bs) && a % 8 == 0 && a > 0
    ensures Ascending(FreeAt(a, bs))
  {
    hide FreeAt;
    FreeBounds(a, bs);
  }

  /** What may be written while a block stands alone: its own words and the links of the listed blocks. */
  ghost predicate Polite(g: Region, pre: seq<Blk>, size: nat, post: seq<Blk>, ws: set<int>) {
    forall w :: w in ws ==> PoliteAt(g, pre, size, post, w)
  }

  ghost predicate PoliteAt(g: Region, pre: seq<Blk>, size: nat, post: seq<Blk>, w: int) {
    && w % 4 == 0 && g.base <= w && w + 4 <= g.base + Total(pre) + size + Total(post)
    && forall c :: c in Around(g, pre, size, post) ==> w + 4 <= c.at || c.at + c.len <= w
  }

  /** Headers around the block stay when only harmless words are written. */
  lemma StillLaid(m: Block, m': Block, ws: set<int>, a: int, prev: nat, bs: seq<Blk>)
    requires Laid(m, a, prev, bs) && Touched(m, m', ws) && a % 8 == 0 && Sized(bs)
    requires forall w :: w in ws ==> Harmless(a, bs, w)
    ensures Laid(m', a, prev, bs)
  {
    hide Laid, Touched;
    LaidFrame(m, m', ws, a, prev, bs);
  }

  // ---------- the steps of free ----------

  /** Writing `v` at `w` is in nobody's way, and leaves a free block of `size` bytes between `pre` and `post`. */
  ghost predicate Stands(m: Block, w: int, v: nat, g: Region, pre: seq<Blk>, size: nat, q: nat, post: seq<Blk>) {
    Fits(m, w, v) && Between(Store(m, w, v), g, pre, size, q, post) && Polite(g, pre, size, post, {w})
  }

  /** Words that are in nobody's way: not in a header around the block, and not its own header. */
  ghost predicate Unseen(g: Region, pre: seq<Blk>, size: nat, post: seq<Blk>, ws: set<int>) {
    forall w :: w in ws ==>
      Harmless(g.base, pre, w) && Harmless(g.base + Total(pre) + size, post, w)
      && w != g.base + Total(pre) && w != g.base + Total(pre) + 4
  }

  lemma PageIsEight(a: int)
    requires a % PAGE == 0
    ensures a % 8 == 0
  {
    EightDivides(a, 512 * (a / PAGE));
  }

  lemma ShapeEights(m: Block, g: Region, pre: seq<Blk>, size: nat, q: nat, post: seq<Blk>)
    requires Shape(m, g, pre, size, q, post)
    ensures var at := g.base + Total(pre);
            && g.base % 8 == 0 && at % 8 == 0 && at % 4 == 0 && (at + 4) % 4 == 0 && (at + size) % 8 == 0
            && (at + size + 4) % 4 == 0
  {
    hide Laid, Word, Total, Sized;
    SizedTotal(pre);
    PageIsEight(g.base);
    Eights(g.base, Total(pre), size);
    EightIsFour(g.base + Total(pre));
    EightIsFour(g.base + Total(pre) + size);
  }

  lemma ShapeKept(m: Block, m': Block, ws: set<int>, g: Region, pre: seq<Blk>, size: nat, q: nat, post: seq<Blk>)
    requires Shape(m, g, pre, size, q, post) && Touched(m, m', ws) && Unseen(g, pre, size, post, ws)
    ensures Shape(m', g, pre, size, q, post)
  {
    hide Laid, Word, Harmless, Touched, Total, Sized;
    var at := g.base + Total(pre);
    ShapeEights(m, g, pre, size, q, post);
    StillLaid(m, m', ws, g.base, 0, pre);
    StillLaid(m, m', ws, at + size, q, post);
    Untouched(m, m', ws, at);
    Untouched(m, m', ws, at + 4);
    TouchedLength(m, m', ws);
  }

  lemma TouchedLength(m: Block, m': Block, ws: set<int>)
    requires Touched(m, m', ws)
    ensures |m'| == |m|
  {
  }

  /** One word that the steps may write. */
  ghost predicate UnseenAt(g: Region, pre: seq<Blk>, size: nat, post: seq<Blk>, w: int) {
    && Harmless(g.base, pre, w) && Harmless(g.base + Total(pre) + size, post, w)
    && w != g.base + Total(pre) && w != g.base + Total(pre) + 4 && PoliteAt(g, pre, size, post, w)
  }

  lemma LinkUnseen(g: Region, pre: seq<Blk>, size: nat, post: seq<Blk>, f: int)
    requires Sized(pre) && Sized(post) && size >= MIN_BLOCK && size % 8 == 0 && g.base % 8 == 0
    requires f == g.base + Total(pre) || f in Listed(g, pre, size, post)
    ensures UnseenAt(g, pre, size, post, f + 8)
  {
    hide Harmless, FreeAt, UsedAt, Sized, PoliteAt, Total;
    SizedTotal(pre);
    Eights(g.base, Total(pre), 0);
    EightIsFour(g.base + Total(pre));
    if f == g.base + Total(pre) {
      SelfHarmless(g, pre, size, post, f + 8);
    } else {
      AroundHarmless(g, pre, size, post, f);
      EightIsFour(f);
    }
    HarmlessIsPolite(g, pre, size, post, f + 8);
  }

  /** The links of the blocks around it, and its own, are unseen and polite. */
  lemma ListUnseen(g: Region, pre: seq<Blk>, size: nat, post: seq<Blk>)
    requires Sized(pre) && Sized(post) && size >= MIN_BLOCK && size % 8 == 0 && g.base % 8 == 0
    ensures var at := g.base + Total(pre);
            var ws := LinkWords(FreeAt(g.base, pre) + [at] + FreeAt(at + size, post));
            Unseen(g, pre, size, post, ws) && Polite(g, pre, size, post, ws)
  {
    hide Harmless, Total, FreeAt, UsedAt, Sized, PoliteAt;
    var at := g.base + Total(pre);
    var xs, ys := FreeAt(g.base, pre), FreeAt(at + size, post);
    var fs := xs + [at] + ys;
    forall w | w in LinkWords(fs)
      ensures UnseenAt(g, pre, size, post, w)
    {
      var k :| 0 <= k < |fs| && w == fs[k] + 8;
      assert fs[k] == at || fs[k] in xs + ys;
      LinkUnseen(g, pre, size, post, fs[k]);
    }
  }

  lemma SelfHarmless(g: Region, pre: seq<Blk>, size: nat, post: seq<Blk>, w: int)
    requires Sized(pre) && Sized(post) && size >= MIN_BLOCK && size % 8 == 0 && g.base % 8 == 0
    requires g.base + Total(pre) <= w && w + 4 <= g.base + Total(pre) + size && w % 4 == 0
    ensures Harmless(g.base, pre, w) && Harmless(g.base + Total(pre) + size, post, w)
  {
    hide Sized, Total, Harmless;
    SizedTotal(pre);
    Eights(g.base, Total(pre), size);
    OutsideHarmless(g.base, pre, w);
    OutsideHarmless(g.base + Total(pre) + size, post, w);
  }

  lemma HarmlessIsPolite(g: Region, pre: seq<Blk>, size: nat, post: seq<Blk>, w: int)
    requires Harmless(g.base, pre, w) && Harmless(g.base + Total(pre) + size, post, w)
    requires w % 4 == 0 && g.base <= w && w + 4 <= g.base + Total(pre) + size + Total(post)
    ensures PoliteAt(g, pre, size, post, w)
  {
    hide Clear;
  }

  /** The link words without the block's own are among those with it. */
  lemma FewerLinks(xs: seq<int>, b: int, ys: seq<int>)
    ensures LinkWords(xs + ys) <= LinkWords(xs + [b] + ys)
  {
    var fs, all := xs + ys, xs + [b] + ys;
    forall w | w in LinkWords(fs)
      ensures w in LinkWords(all)
    {
      var k :| 0 <= k < |fs| && w == fs[k] + 8;
      var l := if k < |xs| then k else k + 1;
      assert all[l] == fs[k];
    }
  }

  /** Two runs of blocks with one block between them, laid out. */
  lemma LaidAround(m: Block, a: int, prev: nat, pre: seq<Blk>, b: Blk, post: seq<Blk>)
    ensures Laid(m, a, prev, pre + [b] + post) <==>
            Laid(m, a, prev, pre) && Word(m, a + Total(pre)) == HeadWord(b) && Word(m, a + Total(pre) + 4) == LastSize(prev, pre)
            && Laid(m, a + Total(pre) + b.size, b.size, post)
    ensures Total(pre + [b] + post) == Total(pre) + b.size + Total(post)
  {
    hide Laid, Word, Total;
    LaidConcat(m, a, prev, pre + [b], post);
    LaidConcat(m, a, prev, pre, [b]);
    OneBlock(m, a + Total(pre), LastSize(prev, pre), b);
    TotalConcat(pre + [b], post);
    TotalConcat(pre, [b]);
    assert LastSize(prev, pre + [b]) == b.size;
  }

  lemma ListsAround(a: int, pre: seq<Blk>, b: Blk, post: seq<Blk>)
    ensures FreeAt(a, pre + [b] + post) ==
            FreeAt(a, pre) + (if b.used then [] else [a + Total(pre)]) + FreeAt(a + Total(pre) + b.size, post)
    ensures UsedAt(a, pre + [b] + post) ==
            UsedAt(a, pre) + (if b.used then [Chunk(a + Total(pre) + HDR, b.size - HDR)] else [])
            + UsedAt(a + Total(pre) + b.size, post)
  {
    hide FreeAt, UsedAt, Total;
    FreeConcat(a, pre + [b], post);
    FreeConcat(a, pre, [b]);
    UsedConcat(a, pre + [b], post);
    UsedConcat(a, pre, [b]);
    TotalConcat(pre, [b]);
    OneBlock([], a + Total(pre), 0, b);
  }

  /** The block's in-use mark is cleared. */
  lemma Opened(m: Block, g: Region, pre: seq<Blk>, size: nat, post: seq<Blk>)
    requires RegionOk(m, g, pre + [Blk(size, true)] + post)
    ensures var at := g.base + Total(pre);
            && Stands(m, at, size, g, pre, size, size, post)
            && UsedAt(g.base, pre + [Blk(size, true)] + post) ==
               UsedAt(g.base, pre) + [Chunk(at + HDR, size - HDR)] + UsedAt(at + size, post)
  {
    hide Laid, Word, Links, Store, FreeAt, UsedAt, Total, Sized, Harmless, Touched, LinkWords;
    var b := Blk(size, true);
    var at := g.base + Total(pre);
    LaidAround(m, g.base, 0, pre, b, post);
    ListsAround(g.base, pre, b, post);
    SizedAround(pre, b, post);
    SizedTotal(pre);
    PageIsEight(g.base);
    Eights(g.base, Total(pre), size);
    EightIsFour(at);
    Stored(m, at, size);
    var m' := Store(m, at, size);
    SelfHarmless(g, pre, size, post, at);
    HarmlessIsPolite(g, pre, size, post, at);
    StillLaid(m, m', {at}, g.base, 0, pre);
    StillLaid(m, m', {at}, at + size, size, post);
    Untouched(m, m', {at}, at + 4);
    HeadWordOf(b);
    assert FreeAt(g.base, pre + [b] + post) == Listed(g, pre, size, post);
    LinksStay(m, m', g, pre, size, post, {at});
  }

  lemma SizedAround(pre: seq<Blk>, b: Blk, post: seq<Blk>)
    ensures Sized(pre + [b] + post) <==> Sized(pre) && Sized(post) && b.size % 8 == 0 && b.size >= MIN_BLOCK
  {
    SizedConcat(pre + [b], post);
    SizedConcat(pre, [b]);
    var one := [b];
    assert Sized(one) <==> one[0].size % 8 == 0 && one[0].size >= MIN_BLOCK;
  }

  /** Words that are no links of the listed blocks leave the list alone. */
  lemma LinksStay(m: Block, m': Block, g: Region, pre: seq<Blk>, size: nat, post: seq<Blk>, ws: set<int>)
    requires Linked(m, g.flist, Listed(g, pre, size, post)) && Touched(m, m', ws)
    requires Sized(pre) && Sized(post) && size % 8 == 0 && g.base % 8 == 0
    requires forall w :: w in ws ==> w % 8 == 4 || g.base + Total(pre) <= w <= g.base + Total(pre) + size
    ensures Linked(m', g.flist, Listed(g, pre, size, post))
  {
    hide FreeAt, Total, Sized, Touched, Word, Links, Harmless;
    var fs := Listed(g, pre, size, post);
    forall k | 0 <= k < |fs|
      ensures fs[k] % 8 == 0 && fs[k] + 8 !in ws
    {
      assert fs[k] in fs;
      AroundHarmless(g, pre, size, post, fs[k]);
      PlusEight(fs[k]);
    }
    LinksFrame(m, m', ws, g.flist, fs, 0);
  }

  lemma PlusEight(f: int)
    requires f % 8 == 0
    ensures (f + 8) % 8 == 0
  {
    var k := Eighth(f);
    EightDivides(f + 8, k + 1);
  }

  /** The free block before it, out of the list already, takes it in. */
  lemma MergedPrev(m: Block, g: Region, pre: seq<Blk>, p: nat, size: nat, q: nat, post: seq<Blk>)
    requires Shape(m, g, pre + [Blk(p, false)], size, q, post)
    requires Linked(m, g.flist, FreeAt(g.base, pre) + FreeAt(g.base + Total(pre + [Blk(p, false)]) + size, post))
    ensures var at := g.base + Total(pre);
            && Total(pre + [Blk(p, false)]) == Total(pre) + p
            && Stands(m, at, p + size, g, pre, p + size, q, post)
  {
    hide Laid, Word, Links, Store, FreeAt, UsedAt, Total, Sized, Harmless, Touched, LinkWords;
    var b := Blk(p, false);
    var at := g.base + Total(pre);
    ShapeEights(m, g, pre + [b], size, q, post);
    var none: seq<Blk> := [];
    assert pre + [b] + none == pre + [b];
    LaidAround(m, g.base, 0, pre, b, none);
    SizedAround(pre, b, none);
    NoBlocks(m, at + p, p);
    SizedTotal(pre);
    Eights(g.base, Total(pre), p);
    Eights(p, size, 0);
    EightIsFour(at);
    Stored(m, at, p + size);
    var m' := Store(m, at, p + size);
    SelfHarmless(g, pre, p + size, post, at);
    HarmlessIsPolite(g, pre, p + size, post, at);
    StillLaid(m, m', {at}, g.base, 0, pre);
    Eights(at, p + size, 0);
    StillLaid(m, m', {at}, at + p + size, q, post);
    Untouched(m, m', {at}, at + 4);
    LinksStay(m, m', g, pre, p + size, post, {at});
  }

  lemma NoBlocks(m: Block, a: int, prev: nat)
    ensures Total([]) == 0 && Laid(m, a, prev, []) && FreeAt(a, []) == [] && UsedAt(a, []) == [] && Sized([])
  {
  }

  /** It takes in the free block after it, which is out of the list already. */
  lemma MergedNext(m: Block, g: Region, pre: seq<Blk>, size: nat, q: nat, n: nat, post: seq<Blk>)
    requires Shape(m, g, pre, size, q, [Blk(n, false)] + post)
    requires Linked(m, g.flist, FreeAt(g.base, pre) + FreeAt(g.base + Total(pre) + size + n, post))
    ensures Stands(m, g.base + Total(pre), size + n, g, pre, size + n, n, post)
  {
    hide Laid, Word, Links, Store, FreeAt, UsedAt, Total, Sized, Harmless, Touched, LinkWords;
    var b := Blk(n, false);
    var at := g.base + Total(pre);
    ShapeEights(m, g, pre, size, q, [b] + post);
    var none: seq<Blk> := [];
    assert none + [b] + post == [b] + post;
    LaidAround(m, at + size, q, none, b, post);
    SizedAround(none, b, post);
    NoBlocks(m, at + size, q);
    Eights(size, n, 0);
    EightIsFour(at);
    Stored(m, at, size + n);
    var m' := Store(m, at, size + n);
    SelfHarmless(g, pre, size + n, post, at);
    HarmlessIsPolite(g, pre, size + n, post, at);
    StillLaid(m, m', {at}, g.base, 0, pre);
    Eights(at, size + n, 0);
    StillLaid(m, m', {at}, at + size + n, n, post);
    Untouched(m, m', {at}, at + 4);
    LinksStay(m, m', g, pre, size + n, post, {at});
  }

  /** The block after it is told its size. */
  lemma ToldAfter(m: Block, g: Region, pre: seq<Blk>, size: nat, q: nat, post: seq<Blk>)
    requires Between(m, g, pre, size, q, post) && post != []
    ensures Stands(m, g.base + Total(pre) + size + 4, size, g, pre, size, size, post)
  {
    hide Links, Store, FreeAt, UsedAt, Total, Harmless, Touched, LinkWords, Word;
    var at := g.base + Total(pre);
    var w := at + size + 4;
    ShapeEights(m, g, pre, size, q, post);
    SizedTotal(post);
    Stored(m, w, size);
    var m' := Store(m, w, size);
    OutsideHarmless(g.base, pre, w);
    AfterWord(g, pre, size, post);
    StillLaid(m, m', {w}, g.base, 0, pre);
    Untouched(m, m', {w}, at);
    Untouched(m, m', {w}, at + 4);
    EightIsFour(at + size);
    Untouched(m, m', {w}, at + size);
    SizedTail(post);
    Eights(at + size, post[0].size, 0);
    ClearTail(at + size, post, w);
    LaidFrame(m, m', {w}, at + size + post[0].size, post[0].size, post[1..]);
    NotEight(at + size);
    LinksStay(m, m', g, pre, size, post, {w});
  }

  lemma NotEight(a: int)
    requires a % 8 == 0
    ensures (a + 4) % 8 == 4
  {
  }

  lemma SizedTail(bs: seq<Blk>)
    requires Sized(bs) && bs != []
    ensures Sized(bs[1..]) && bs[0].size >= MIN_BLOCK && bs[0].size % 8 == 0 && Total(bs) == bs[0].size + Total(bs[1..])
  {
  }

  lemma ClearTail(a: int, bs: seq<Blk>, w: int)
    requires Sized(bs) && bs != [] && w < a + MIN_BLOCK
    ensures Clear(a + bs[0].size, bs[1..], w)
  {
    ClearOutside(a + bs[0].size, bs[1..], w);
  }

  /** The second header word of the block after it is in no payload. */
  lemma AfterWord(g: Region, pre: seq<Blk>, size: nat, post: seq<Blk>)
    requires Sized(pre) && Sized(post) && post != [] && size % 8 == 0 && g.base % 8 == 0
    ensures PoliteAt(g, pre, size, post, g.base + Total(pre) + size + 4)
  {
    var at := g.base + Total(pre);
    SizedTotal(pre);
    SizedTotal(post);
    Eights(g.base, Total(pre), size);
    EightIsFour(at + size);
    UsedBounds(g.base, pre);
    UsedBounds(at + size, post);
  }

  /** The block is in the list: the region is whole again. */
  lemma Closed(m: Block, g: Region, pre: seq<Blk>, size: nat, post: seq<Blk>)
    requires Shape(m, g, pre, size, size, post)
    requires Linked(m, g.flist, FreeAt(g.base, pre) + [g.base + Total(pre)] + FreeAt(g.base + Total(pre) + size, post))
    requires NoTwoFree(pre + [Blk(size, false)] + post)
    ensures RegionOk(m, g, pre + [Blk(size, false)] + post)
    ensures UsedAt(g.base, pre + [Blk(size, false)] + post) == Around(g, pre, size, post)
  {
    hide Laid, Word, Links, FreeAt, UsedAt, Total, Sized;
    var b := Blk(size, false);
    LaidAround(m, g.base, 0, pre, b, post);
    ListsAround(g.base, pre, b, post);
    SizedAround(pre, b, post);
    var none: seq<Chunk> := [];
    assert UsedAt(g.base, pre) + none + UsedAt(g.base + Total(pre) + size, post) == Around(g, pre, size, post);
  }

  // ---------- taking a neighbour out of the list ----------

  /** The list without the block that stands alone. */
  lemma ListedIn(m: Block, g: Region, pre: seq<Blk>, size: nat, q: nat, post: seq<Blk>)
    requires Between(m, g, pre, size, q, post)
    ensures var fs := Listed(g, pre, size, post);
            Ascending(fs) && Linked(m, g.flist, fs) && forall k :: 0 <= k < |fs| ==> fs[k] + MIN_BLOCK <= |m|
  {
    hide Shape, Linked, FreeAt, Total;
    var at := g.base + Total(pre);
    var xs, ys := FreeAt(g.base, pre), FreeAt(at + size, post);
    AroundAscending(m, g, pre, size, q, post);
    AscendingParts(xs, at, ys);
    var all, fs := xs + [at] + ys, Listed(g, pre, size, post);
    forall k | 0 <= k < |fs|
      ensures fs[k] + MIN_BLOCK <= |m|
    {
      assert fs[k] == all[if k < |xs| then k else k + 1];
    }
  }

  /** After a list step only the links of listed blocks differ, and everything else stands as it did. */
  lemma Relisted(m: Block, m': Block, g: Region, g': Region, pre: seq<Blk>, size: nat, q: nat, post: seq<Blk>, ws: set<int>)
    requires Shape(m, g, pre, size, q, post) && Touched(m, m', ws) && g' == g.(flist := g'.flist)
    requires ws <= LinkWords(FreeAt(g.base, pre) + [g.base + Total(pre)] + FreeAt(g.base + Total(pre) + size, post))
    ensures Shape(m', g', pre, size, q, post) && Polite(g, pre, size, post, ws)
  {
    hide Laid, Word, LinkWords, FreeAt, Touched, Harmless, PoliteAt, Total, Sized;
    ShapeEights(m, g, pre, size, q, post);
    ListUnseen(g, pre, size, post);
    ShapeKept(m, m', ws, g, pre, size, q, post);
  }

  /** A free neighbour changes nothing about which payloads are in use around. */
  lemma SameAround(g: Region, pre: seq<Blk>, p: nat, size: nat, n: nat, post: seq<Blk>, ws: set<int>)
    ensures Total(pre + [Blk(p, false)]) == Total(pre) + p
    ensures FreeAt(g.base, pre + [Blk(p, false)]) == FreeAt(g.base, pre) + [g.base + Total(pre)]
    ensures Around(g, pre + [Blk(p, false)], size, post) == Around(g, pre, p + size, post)
    ensures Polite(g, pre + [Blk(p, false)], size, post, ws) ==> Polite(g, pre, p + size, post, ws)
    ensures Total([Blk(n, false)] + post) == n + Total(post)
    ensures Around(g, pre, size, [Blk(n, false)] + post) == Around(g, pre, size + n, post)
    ensures FreeAt(g.base + Total(pre) + size, [Blk(n, false)] + post) ==
            [g.base + Total(pre) + size] + FreeAt(g.base + Total(pre) + size + n, post)
    ensures Polite(g, pre, size, [Blk(n, false)] + post, ws) ==> Polite(g, pre, size + n, post, ws)
  {
    hide FreeAt, UsedAt, Total;
    var b, c := Blk(p, false), Blk(n, false);
    TotalConcat(pre, [b]);
    FreeConcat(g.base, pre, [b]);
    UsedConcat(g.base, pre, [b]);
    OneBlock([], g.base + Total(pre), 0, b);
    var at := g.base + Total(pre) + size;
    TotalConcat([c], post);
    FreeConcat(at, [c], post);
    UsedConcat(at, [c], post);
    OneBlock([], at, 0, c);
  }

  lemma PrevListed(m: Block, g: Region, pre: seq<Blk>, p: nat, size: nat, q: nat, post: seq<Blk>)
    requires Between(m, g, pre + [Blk(p, false)], size, q, post)
    ensures Total(pre + [Blk(p, false)]) == Total(pre) + p
    ensures var at := g.base + Total(pre);
            var fs := FreeAt(g.base, pre) + [at] + FreeAt(at + p + size, post);
            Ascending(fs) && Linked(m, g.flist, fs) && forall k :: 0 <= k < |fs| ==> fs[k] + MIN_BLOCK <= |m|
  {
    hide Between, Linked, FreeAt, Total, Ascending;
    SameAround(g, pre, p, size, 0, post, {});
    ListedIn(m, g, pre + [Blk(p, false)], size, q, post);
  }

  lemma PrevUnlisted(m: Block, m': Block, g: Region, g': Region, pre: seq<Blk>, p: nat, size: nat, q: nat, post: seq<Blk>)
    requires Between(m, g, pre + [Blk(p, false)], size, q, post) && g' == g.(flist := g'.flist)
    requires var at := g.base + Total(pre);
             Touched(m, m', LinkWords(FreeAt(g.base, pre) + [at] + FreeAt(at + p + size, post)))
    ensures Shape(m', g', pre + [Blk(p, false)], size, q, post)
    ensures var at := g.base + Total(pre);
            Polite(g, pre, p + size, post, LinkWords(FreeAt(g.base, pre) + [at] + FreeAt(at + p + size, post)))
  {
    hide Shape, Linked, FreeAt, Total, Polite, Touched, LinkWords;
    var at := g.base + Total(pre);
    var b := Blk(p, false);
    var xs, ys := FreeAt(g.base, pre), FreeAt(at + p + size, post);
    var ws := LinkWords(xs + [at] + ys);
    SameAround(g, pre, p, size, 0, post, ws);
    FewerLinks(xs + [at], at + p, ys);
    Relisted(m, m', g, g', pre + [b], size, q, post, ws);
  }

  lemma NextListed(m: Block, g: Region, pre: seq<Blk>, size: nat, q: nat, n: nat, post: seq<Blk>)
    requires Between(m, g, pre, size, q, [Blk(n, false)] + post)
    ensures var at := g.base + Total(pre);
            var fs := FreeAt(g.base, pre) + [at + size] + FreeAt(at + size + n, post);
            Ascending(fs) && Linked(m, g.flist, fs) && forall k :: 0 <= k < |fs| ==> fs[k] + MIN_BLOCK <= |m|
  {
    hide Between, Linked, FreeAt, Total, Ascending;
    SameAround(g, pre, 0, size, n, post, {});
    ListedIn(m, g, pre, size, q, [Blk(n, false)] + post);
    var at := g.base + Total(pre);
    var xs, ys := FreeAt(g.base, pre), FreeAt(at + size + n, post);
    assert xs + ([at + size] + ys) == xs + [at + size] + ys;
  }

  lemma NextUnlisted(m: Block, m': Block, g: Region, g': Region, pre: seq<Blk>, size: nat, q: nat, n: nat, post: seq<Blk>)
    requires Between(m, g, pre, size, q, [Blk(n, false)] + post) && g' == g.(flist := g'.flist)
    requires var at := g.base + Total(pre);
             Touched(m, m', LinkWords(FreeAt(g.base, pre) + [at + size] + FreeAt(at + size + n, post)))
    ensures Shape(m', g', pre, size, q, [Blk(n, false)] + post)
    ensures var at := g.base + Total(pre);
            Polite(g, pre, size + n, post, LinkWords(FreeAt(g.base, pre) + [at + size] + FreeAt(at + size + n, post)))
  {
    hide Shape, Linked, FreeAt, Total, Polite, Touched, LinkWords;
    var at := g.base + Total(pre);
    var c := Blk(n, false);
    var xs, ys := FreeAt(g.base, pre), FreeAt(at + size + n, post);
    var ws := LinkWords(xs + [at + size] + ys);
    SameAround(g, pre, 0, size, n, post, ws);
    FewerLinks(xs, at, [at + size] + ys);
    assert xs + ([at + size] + ys) == xs + [at + size] + ys;
    Relisted(m, m', g, g', pre, size, q, [c] + post, ws);
  }

  lemma PoliteBoth(g: Region, pre: seq<Blk>, size: nat, post: seq<Blk>, a: set<int>, b: set<int>)
    requires Polite(g, pre, size, post, a) && Polite(g, pre, size, post, b)
    ensures Polite(g, pre, size, post, a + b)
  {
    hide PoliteAt;
  }

  /** The head of a region's list does not matter to where things stand. */
  lemma PoliteSame(g: Region, g': Region, pre: seq<Blk>, size: nat, post: seq<Blk>, ws: set<int>)
    requires g' == g.(flist := g'.flist)
    ensures Polite(g, pre, size, post, ws) == Polite(g', pre, size, post, ws)
  {
    hide UsedAt, Total;
    assert Around(g, pre, size, post) == Around(g', pre, size, post);
    assert forall w :: PoliteAt(g, pre, size, post, w) == PoliteAt(g', pre, size, post, w);
  }

  lemma HeadInMemory(m: Block, g: Region, pre: seq<Blk>, size: nat, q: nat, post: seq<Blk>)
    requires Between(m, g, pre, size, q, post)
    ensures 0 <= g.flist < WORD_LIMIT && 0 < g.base + Total(pre) < WORD_LIMIT
  {
    hide FreeAt, Word, Laid;
    ListedIn(m, g, pre, size, q, post);
    ListHead(m, g.flist, Listed(g, pre, size, post), 0);
  }

  // ---------- neighbours ----------

  predicate LastUsed(bs: seq<Blk>) {
    bs == [] || bs[|bs| - 1].used
  }

  predicate FirstUsed(bs: seq<Blk>) {
    bs == [] || bs[0].used
  }

  lemma NeighboursOf(pre: seq<Blk>, b: Blk, post: seq<Blk>)
    requires NoTwoFree(pre + [b] + post)
    ensures NoTwoFree(pre) && NoTwoFree(post) && (!b.used ==> LastUsed(pre) && FirstUsed(post))
  {
    var bs := pre + [b] + post;
    var n := |pre|;
    assert bs[n] == b;
    forall i | 0 < i < |pre|
      ensures pre[i - 1].used || pre[i].used
    {
      assert bs[i - 1] == pre[i - 1] && bs[i] == pre[i];
    }
    forall i | 0 < i < |post|
      ensures post[i - 1].used || post[i].used
    {
      assert bs[n + i] == post[i - 1] && bs[n + 1 + i] == post[i];
    }
    if !b.used {
      if pre != [] {
        assert bs[n - 1] == pre[n - 1];
      }
      if post != [] {
        assert bs[n + 1] == post[0];
      }
    }
  }

  lemma NeighboursFor(pre: seq<Blk>, b: Blk, post: seq<Blk>)
    requires NoTwoFree(pre) && NoTwoFree(post) && (b.used || (LastUsed(pre) && FirstUsed(post)))
    ensures NoTwoFree(pre + [b] + post)
  {
    var bs := pre + [b] + post;
    var n := |pre|;
    forall i | 0 < i < |bs|
      ensures bs[i - 1].used || bs[i].used
    {
      if i < n {
        assert bs[i - 1] == pre[i - 1] && bs[i] == pre[i];
      } else if i == n {
        assert bs[i - 1] == pre[n - 1] && bs[i] == b;
      } else if i == n + 1 {
        assert bs[i - 1] == b && bs[i] == post[0];
      } else {
        assert bs[i - 1] == post[i - n - 2] && bs[i] == post[i - n - 1];
      }
    }
  }

  lemma LastLaid(m: Block, a: int, rest: seq<Blk>, p: Blk)
    requires Laid(m, a, 0, rest + [p]) && Sized(rest + [p])
    ensures Word(m, a + Total(rest)) == HeadWord(p) && Total(rest + [p]) == Total(rest) + p.size
    ensures p.size % 8 == 0 && p.size >= MIN_BLOCK && LastSize(0, rest + [p]) == p.size && Total(rest) >= 0
  {
    hide Laid, Word, Total, Sized;
    var none: seq<Blk> := [];
    assert rest + [p] + none == rest + [p];
    LaidAround(m, a, 0, rest, p, none);
    SizedAround(rest, p, none);
    NoBlocks(m, 0, 0);
  }

  /** What stands just before the block: nothing, or a block whose header tells its size and whether it is in use. */
  lemma PrevIs(m: Block, g: Region, pre: seq<Blk>, size: nat, q: nat, post: seq<Blk>)
    requires Shape(m, g, pre, size, q, post)
    ensures var at := g.base + Total(pre);
            && (Word(m, at + 4) == 0 <==> pre == [])
            && (pre != [] ==>
                  var p := pre[|pre| - 1];
                  && Word(m, at + 4) == p.size && at - p.size >= g.base && Word(m, at - p.size) == HeadWord(p)
                  && p.size % 8 == 0 && pre == pre[..|pre| - 1] + [p] && at - p.size == g.base + Total(pre[..|pre| - 1]))
  {
    hide Laid, Word, Total, Placed, Sized;
    if pre != [] {
      var p, rest := pre[|pre| - 1], pre[..|pre| - 1];
      assert pre == rest + [p];
      LastLaid(m, g.base, rest, p);
    }
  }

  /** What stands just after it. */
  lemma NextIs(m: Block, g: Region, pre: seq<Blk>, size: nat, q: nat, post: seq<Blk>)
    requires Shape(m, g, pre, size, q, post)
    ensures var next := g.base + Total(pre) + size;
            && (next < g.base + g.brk <==> post != [])
            && (post != [] ==> Word(m, next) == HeadWord(post[0]) && post[0].size % 8 == 0 && post == [post[0]] + post[1..])
  {
    hide Word;
    SizedTotal(post);
  }

  /** A payload in use is that of a block of the run. */
  lemma {:induction false} FindUsed(a: int, bs: seq<Blk>, c: Chunk) returns (pre: seq<Blk>, size: nat, post: seq<Blk>)
    requires c in UsedAt(a, bs)
    ensures bs == pre + [Blk(size, true)] + post && c == Chunk(a + Total(pre) + HDR, size - HDR)
    decreases |bs|
  {
    if bs[0].used && c == Chunk(a + HDR, bs[0].size - HDR) {
      pre, size, post := [], bs[0].size, bs[1..];
    } else {
      var rest;
      rest, size, post := FindUsed(a + bs[0].size, bs[1..], c);
      pre := [bs[0]] + rest;
      assert pre[1..] == rest;
      assert bs == [bs[0]] + bs[1..];
    }
  }

  // ---------- memory that is kept ----------

  /** Words a step may write in a region: within what is carved, and in none of the chunks. */
  ghost predicate Sparing(g: Region, cs: seq<Chunk>, ws: set<int>) {
    forall w :: w in ws ==> SparingAt(g, cs, w)
  }

  ghost predicate SparingAt(g: Region, cs: seq<Chunk>, w: int) {
    g.base <= w && w + 4 <= g.base + g.size && forall c :: c in cs ==> w + 4 <= c.at || c.at + c.len <= w
  }

  lemma PoliteSpares(m: Block, g: Region, pre: seq<Blk>, size: nat, q: nat, post: seq<Blk>, ws: set<int>)
    requires Shape(m, g, pre, size, q, post) && Polite(g, pre, size, post, ws)
    ensures Sparing(g, Around(g, pre, size, post), ws)
  {
    hide Laid, Word, Total, Sized, Around;
    forall w | w in ws
      ensures SparingAt(g, Around(g, pre, size, post), w)
    {
      assert PoliteAt(g, pre, size, post, w);
    }
  }

  lemma SparingBoth(g: Region, cs: seq<Chunk>, a: set<int>, b: set<int>)
    requires Sparing(g, cs, a) && Sparing(g, cs, b)
    ensures Sparing(g, cs, a + b)
  {
    hide SparingAt;
  }

  /** The bytes of the chunk are the same. */
  ghost predicate Kept(m: Block, m': Block, c: Chunk) {
    |m'| == |m| && forall i :: c.at <= i < c.at + c.len && 0 <= i < |m| ==> m'[i] == m[i]
  }

  lemma SparedIsKept(m: Block, m': Block, ws: set<int>, c: Chunk)
    requires Touched(m, m', ws) && forall w :: w in ws ==> w + 4 <= c.at || c.at + c.len <= w
    ensures Kept(m, m', c)
  {
    hide Word;
    forall i | c.at <= i < c.at + c.len && 0 <= i < |m|
      ensures m'[i] == m[i]
    {
      var w := WordOf(i);
      assert w <= i < w + 4;
    }
  }

  predicate Apart(g: Region, h: Region) {
    g.base + g.size <= h.base || h.base + h.size <= g.base
  }

  /** A region is none the worse for what is written in another. */
  lemma OtherRegion(m: Block, m': Block, g: Region, cs: seq<Chunk>, ws: set<int>, h: Region, bs: seq<Blk>)
    requires RegionOk(m, h, bs) && Touched(m, m', ws) && Sparing(g, cs, ws) && Apart(g, h)
    ensures RegionOk(m', h, bs)
    ensures forall c :: c in UsedAt(h.base, bs) ==> Kept(m, m', c)
  {
    hide Laid, Word, Touched, Links, Total, UsedAt, FreeAt, Kept, NoTwoFree, Sized;
    PageIsEight(h.base);
    forall w | w in ws
      ensures w < h.base || w >= h.base + h.size
    {
      assert SparingAt(g, cs, w);
    }
    forall w | w in ws
      ensures Clear(h.base, bs, w)
    {
      ClearOutside(h.base, bs, w);
    }
    LaidFrame(m, m', ws, h.base, 0, bs);
    FreeBounds(h.base, bs);
    LinksFrame(m, m', ws, h.flist, FreeAt(h.base, bs), 0);
    TouchedLength(m, m', ws);
    UsedBounds(h.base, bs);
    forall c | c in UsedAt(h.base, bs)
      ensures Kept(m, m', c)
    {
      forall w | w in ws
        ensures w + 4 <= c.at || c.at + c.len <= w
      {
        assert SparingAt(g, cs, w);
      }
      SparedIsKept(m, m', ws, c);
    }
  }

  // ---------- the steps of malloc ----------

  /** The free list with the block in it. */
  function WithSelf(g: Region, pre: seq<Blk>, size: nat, post: seq<Blk>): seq<int> {
    FreeAt(g.base, pre) + [g.base + Total(pre)] + FreeAt(g.base + Total(pre) + size, post)
  }

  /** A free block of a region, still in its list. */
  predicate Offered(m: Block, g: Region, pre: seq<Blk>, size: nat, q: nat, post: seq<Blk>) {
    Shape(m, g, pre, size, q, post) && Linked(m, g.flist, WithSelf(g, pre, size, post))
  }

  lemma OfferedIn(m: Block, g: Region, pre: seq<Blk>, size: nat, post: seq<Blk>)
    requires RegionOk(m, g, pre + [Blk(size, false)] + post)
    ensures Offered(m, g, pre, size, size, post)
    ensures NoTwoFree(pre) && NoTwoFree(post) && LastUsed(pre) && FirstUsed(post)
    ensures UsedAt(g.base, pre + [Blk(size, false)] + post) == Around(g, pre, size, post)
  {
    hide Laid, Word, Links, FreeAt, UsedAt, Total, Sized, NoTwoFree, LastUsed, FirstUsed;
    var b := Blk(size, false);
    LaidAround(m, g.base, 0, pre, b, post);
    ListsAround(g.base, pre, b, post);
    SizedAround(pre, b, post);
    NeighboursOf(pre, b, post);
    var none: seq<Chunk> := [];
    assert UsedAt(g.base, pre) + none + UsedAt(g.base + Total(pre) + size, post) == Around(g, pre, size, post);
  }

  lemma OfferedList(m: Block, g: Region, pre: seq<Blk>, size: nat, q: nat, post: seq<Blk>)
    requires Offered(m, g, pre, size, q, post)
    ensures var fs := WithSelf(g, pre, size, post);
            Ascending(fs) && Linked(m, g.flist, fs) && forall k :: 0 <= k < |fs| ==> fs[k] + MIN_BLOCK <= |m|
  {
    hide Shape, Linked, Ascending, FreeAt, Total;
    AroundAscending(m, g, pre, size, q, post);
  }

  /** Writing well inside the block, past its link. */
  lemma InnerWrite(m: Block, m': Block, g: Region, pre: seq<Blk>, size: nat, q: nat, post: seq<Blk>, w: int)
    requires Offered(m, g, pre, size, q, post) && Touched(m, m', {w}) && w % 4 == 0
    requires g.base + Total(pre) + MIN_BLOCK <= w && w + 4 <= g.base + Total(pre) + size
    ensures Offered(m', g, pre, size, q, post) && Polite(g, pre, size, post, {w})
  {
    hide Laid, Word, Links, FreeAt, UsedAt, Total, Sized, Harmless, Touched, PoliteAt;
    ShapeEights(m, g, pre, size, q, post);
    SelfHarmless(g, pre, size, post, w);
    HarmlessIsPolite(g, pre, size, post, w);
    ShapeKept(m, m', {w}, g, pre, size, q, post);
    SelfLinksStay(m, m', g, pre, size, post, w);
  }

  lemma SelfLinksStay(m: Block, m': Block, g: Region, pre: seq<Blk>, size: nat, post: seq<Blk>, w: int)
    requires Linked(m, g.flist, WithSelf(g, pre, size, post)) && Touched(m, m', {w})
    requires Sized(pre) && Sized(post) && size % 8 == 0 && g.base % 8 == 0
    requires w % 8 == 4 || w == g.base + Total(pre)
             || (g.base + Total(pre) + MIN_BLOCK <= w && w + 4 <= g.base + Total(pre) + size)
    ensures Linked(m', g.flist, WithSelf(g, pre, size, post))
  {
    hide FreeAt, Total, Sized, Touched, Word, Links, Harmless;
    var at := g.base + Total(pre);
    var xs, ys := FreeAt(g.base, pre), FreeAt(at + size, post);
    var fs := WithSelf(g, pre, size, post);
    SizedTotal(pre);
    Eights(g.base, Total(pre), 0);
    forall k | 0 <= k < |fs|
      ensures fs[k] % 8 == 0 && fs[k] + 8 !in {w}
    {
      if fs[k] != at {
        assert fs[k] in xs + ys;
        AroundHarmless(g, pre, size, post, fs[k]);
      }
      PlusEight(fs[k]);
    }
    LinksFrame(m, m', {w}, g.flist, fs, 0);
  }

  /** The block behind is told another size, while the block is still listed. */
  lemma ToldBehind(m: Block, g: Region, pre: seq<Blk>, size: nat, q: nat, post: seq<Blk>, v: nat)
    requires Offered(m, g, pre, size, q, post) && post != [] && v < WORD_LIMIT
    ensures ToldSo(m, g, pre, size, post, v)
  {
    hide Links, Store, FreeAt, UsedAt, Total, Harmless, Touched, LinkWords, Word;
    var at := g.base + Total(pre);
    var w := at + size + 4;
    ShapeEights(m, g, pre, size, q, post);
    SizedTotal(post);
    Stored(m, w, v);
    var m' := Store(m, w, v);
    OutsideHarmless(g.base, pre, w);
    AfterWord(g, pre, size, post);
    StillLaid(m, m', {w}, g.base, 0, pre);
    Untouched(m, m', {w}, at);
    Untouched(m, m', {w}, at + 4);
    EightIsFour(at + size);
    Untouched(m, m', {w}, at + size);
    SizedTail(post);
    Eights(at + size, post[0].size, 0);
    ClearTail(at + size, post, w);
    LaidFrame(m, m', {w}, at + size + post[0].size, post[0].size, post[1..]);
    NotEight(at + size);
    SelfLinksStay(m, m', g, pre, size, post, w);
  }

  ghost predicate ToldSo(m: Block, g: Region, pre: seq<Blk>, size: nat, post: seq<Blk>, v: nat) {
    var w := g.base + Total(pre) + size + 4;
    Fits(m, w, v) && Offered(Store(m, w, v), g, pre, size, v, post) && Polite(g, pre, size, post, {w})
  }

  /** The mark of use and a size, written over the block's header. */
  ghost predicate Filled(m: Block, w: int, v: nat, g: Region, bs: seq<Blk>, cs: seq<Chunk>) {
    Fits(m, w, v) && RegionOk(Store(m, w, v), g, bs) && Sparing(g, cs, {w})
  }

  /** The whole block is taken. */
  lemma TakenWhole(m: Block, g: Region, pre: seq<Blk>, size: nat, post: seq<Blk>)
    requires Between(m, g, pre, size, size, post) && NoTwoFree(pre) && NoTwoFree(post)
    ensures Filled(m, g.base + Total(pre), size + 1, g, pre + [Blk(size, true)] + post, Around(g, pre, size, post))
    ensures UsedAt(g.base, pre + [Blk(size, true)] + post) ==
            UsedAt(g.base, pre) + [Chunk(g.base + Total(pre) + HDR, size - HDR)] + UsedAt(g.base + Total(pre) + size, post)
  {
    hide Laid, Word, Links, Store, FreeAt, UsedAt, Total, Sized, Harmless, Touched, LinkWords, NoTwoFree, Around,
         SparingAt;
    var b := Blk(size, true);
    var at := g.base + Total(pre);
    ShapeEights(m, g, pre, size, size, post);
    Stored(m, at, size + 1);
    var m' := Store(m, at, size + 1);
    SelfHarmless(g, pre, size, post, at);
    HarmlessIsPolite(g, pre, size, post, at);
    PoliteSpares(m, g, pre, size, size, post, {at});
    StillLaid(m, m', {at}, g.base, 0, pre);
    StillLaid(m, m', {at}, at + size, size, post);
    Untouched(m, m', {at}, at + 4);
    LinksStay(m, m', g, pre, size, post, {at});
    LaidAround(m', g.base, 0, pre, b, post);
    ListsAround(g.base, pre, b, post);
    SizedAround(pre, b, post);
    NeighboursFor(pre, b, post);
    assert FreeAt(g.base, pre + [b] + post) == Listed(g, pre, size, post);
  }

  /** The front of the block is taken and the rest has taken its place in the list. */
  lemma TakenFront(m: Block, g: Region, pre: seq<Blk>, need: nat, left: nat, post: seq<Blk>)
    requires Shape(m, g, pre, need + left, left, post) && need % 8 == 0 && need >= MIN_BLOCK && left >= MIN_BLOCK
    requires var at := g.base + Total(pre);
             && Word(m, at + need) == left && Word(m, at + need + 4) == need
             && Linked(m, g.flist, FreeAt(g.base, pre) + [at + need] + FreeAt(at + (need + left), post))
    requires NoTwoFree(pre) && NoTwoFree(post) && FirstUsed(post)
    ensures Filled(m, g.base + Total(pre), need + 1, g, pre + [Blk(need, true)] + ([Blk(left, false)] + post),
                   Around(g, pre, need + left, post))
  {
    hide Laid, Word, Links, Store, FreeAt, UsedAt, Total, Sized, Touched, NoTwoFree, Around, SparingAt, FirstUsed;
    var at := g.base + Total(pre);
    ShapeEights(m, g, pre, need + left, left, post);
    EightLeft(need, left);
    Stored(m, at, need + 1);
    var m' := Store(m, at, need + 1);
    FrontWritten(m, m', g, pre, need, left, post);
    FrontLinks(m, m', g, pre, need, left, post);
    TouchedLength(m, m', {at});
    FrontLaid(m', g, pre, need, left, post, at, at + need, at + (need + left),
              FreeAt(g.base, pre) + [at + need] + FreeAt(at + (need + left), post));
  }

  lemma FrontWritten(m: Block, m': Block, g: Region, pre: seq<Blk>, need: nat, left: nat, post: seq<Blk>)
    requires Shape(m, g, pre, need + left, left, post) && need % 8 == 0 && need >= MIN_BLOCK
    requires Touched(m, m', {g.base + Total(pre)})
    ensures var at := g.base + Total(pre);
            && Laid(m', g.base, 0, pre) && Laid(m', at + (need + left), left, post) && Word(m', at + 4) == Word(m, at + 4)
            && Word(m', at + need) == Word(m, at + need) && Word(m', at + need + 4) == Word(m, at + need + 4)
            && Sparing(g, Around(g, pre, need + left, post), {at})
  {
    hide Laid, Word, UsedAt, Total, Sized, Harmless, Touched, Around, SparingAt;
    var at := g.base + Total(pre);
    var size := need + left;
    ShapeEights(m, g, pre, size, left, post);
    SelfHarmless(g, pre, size, post, at);
    HarmlessIsPolite(g, pre, size, post, at);
    PoliteSpares(m, g, pre, size, left, post, {at});
    StillLaid(m, m', {at}, g.base, 0, pre);
    StillLaid(m, m', {at}, at + size, left, post);
    Untouched(m, m', {at}, at + 4);
    Eights(at, need, 0);
    EightIsFour(at + need);
    Untouched(m, m', {at}, at + need);
    Untouched(m, m', {at}, at + need + 4);
  }

  lemma EightLeft(need: nat, left: nat)
    requires need % 8 == 0 && (need + left) % 8 == 0
    ensures left % 8 == 0
  {
    var x, y := Eighth(need), Eighth(need + left);
    EightDivides(left, y - x);
  }

  lemma FrontLinks(m: Block, m': Block, g: Region, pre: seq<Blk>, need: nat, left: nat, post: seq<Blk>)
    requires var at := g.base + Total(pre);
             Linked(m, g.flist, FreeAt(g.base, pre) + [at + need] + FreeAt(at + (need + left), post)) && Touched(m, m', {at})
    requires Sized(pre) && Sized(post) && need % 8 == 0 && left % 8 == 0 && g.base % 8 == 0 && need >= MIN_BLOCK
    ensures Linked(m', g.flist, FreeAt(g.base, pre) + [g.base + Total(pre) + need] + FreeAt(g.base + Total(pre) + (need + left), post))
  {
    hide FreeAt, Total, Sized, Touched, Word, Links, Harmless;
    var at := g.base + Total(pre);
    var xs, ys := FreeAt(g.base, pre), FreeAt(at + (need + left), post);
    var fs := xs + [at + need] + ys;
    SizedTotal(pre);
    Eights(g.base, Total(pre), need);
    Eights(need, left, 0);
    forall k | 0 <= k < |fs|
      ensures fs[k] % 8 == 0 && fs[k] + 8 !in {at}
    {
      if fs[k] != at + need {
        assert fs[k] in xs + ys;
        AroundHarmless(g, pre, need + left, post, fs[k]);
      }
    }
    LinksFrame(m, m', {at}, g.flist, fs, 0);
  }

  /** A size a block can have. */
  predicate BlockSized(n: nat) {
    n % 8 == 0 && n >= MIN_BLOCK
  }

  lemma FrontLaid(m: Block, g: Region, pre: seq<Blk>, need: nat, left: nat, post: seq<Blk>,
                  at: int, rest: int, end: int, fs: seq<int>)
    requires at == g.base + Total(pre) && rest == at + need && end == rest + left
    requires Placed(m, g) && g.brk == Total(pre) + (need + left) + Total(post) <= g.size
    requires Laid(m, g.base, 0, pre) && Word(m, at) == need + 1 && Word(m, at + 4) == LastSize(0, pre)
    requires Word(m, rest) == left && Word(m, rest + 4) == need && Laid(m, end, left, post)
    requires fs == FreeAt(g.base, pre) + [rest] + FreeAt(end, post) && Linked(m, g.flist, fs)
    requires Sized(pre) && Sized(post) && BlockSized(need) && BlockSized(left)
    requires NoTwoFree(pre) && NoTwoFree(post) && FirstUsed(post)
    ensures RegionOk(m, g, pre + [Blk(need, true)] + ([Blk(left, false)] + post))
  {
    hide *;
    var tail := [Blk(left, false)] + post;
    var bs := pre + [Blk(need, true)] + tail;
    RestLaid(m, rest, need, left, end, post);
    FrontJoined(m, g.base, pre, need, at, rest, tail);
    FrontFree(g.base, pre, need, left, post, rest, end, fs);
    Whole(m, g, bs, fs);
  }

  lemma FrontFree(a: int, pre: seq<Blk>, need: nat, left: nat, post: seq<Blk>, rest: int, end: int, fs: seq<int>)
    requires rest == a + Total(pre) + need && end == rest + left && fs == FreeAt(a, pre) + [rest] + FreeAt(end, post)
    ensures FreeAt(a, pre + [Blk(need, true)] + ([Blk(left, false)] + post)) == fs
  {
    hide *;
    FrontLists(a, pre, need, left, post);
    assert a + Total(pre) + (need + left) == end;
  }

  lemma Whole(m: Block, g: Region, bs: seq<Blk>, fs: seq<int>)
    requires Placed(m, g) && g.brk == Total(bs) <= g.size && Sized(bs) && NoTwoFree(bs)
    requires Laid(m, g.base, 0, bs) && FreeAt(g.base, bs) == fs && Linked(m, g.flist, fs)
    ensures RegionOk(m, g, bs)
  {
  }

  lemma FrontJoined(m: Block, a: int, pre: seq<Blk>, need: nat, at: int, rest: int, tail: seq<Blk>)
    requires at == a + Total(pre) && rest == at + need && Laid(m, a, 0, pre)
    requires Word(m, at) == need + 1 && Word(m, at + 4) == LastSize(0, pre)
    requires Laid(m, rest, need, tail) && Sized(pre) && Sized(tail) && BlockSized(need)
    requires NoTwoFree(pre) && NoTwoFree(tail)
    ensures var bs := pre + [Blk(need, true)] + tail;
            Laid(m, a, 0, bs) && Sized(bs) && NoTwoFree(bs) && Total(bs) == Total(pre) + need + Total(tail)
  {
    hide Laid, Word, Total, Sized, NoTwoFree, LastSize;
    var b := Blk(need, true);
    LaidAround(m, a, 0, pre, b, tail);
    SizedAround(pre, b, tail);
    NeighboursFor(pre, b, tail);
  }

  lemma FrontLists(a: int, pre: seq<Blk>, need: nat, left: nat, post: seq<Blk>)
    ensures FreeAt(a, pre + [Blk(need, true)] + ([Blk(left, false)] + post)) ==
            FreeAt(a, pre) + [a + Total(pre) + need] + FreeAt(a + Total(pre) + (need + left), post)
    ensures UsedAt(a, pre + [Blk(need, true)] + ([Blk(left, false)] + post)) ==
            UsedAt(a, pre) + [Chunk(a + Total(pre) + HDR, need - HDR)] + UsedAt(a + Total(pre) + (need + left), post)
  {
    hide FreeAt, UsedAt, Total;
    var at := a + Total(pre);
    var c := Blk(left, false);
    ListsAround(a, pre, Blk(need, true), [c] + post);
    FreeConcat(at + need, [c], post);
    UsedConcat(at + need, [c], post);
    OneBlock([], at + need, 0, c);
    assert at + need + left == at + (need + left);
    ListRegrouped(FreeAt(a, pre), at + need, FreeAt(at + (need + left), post));
  }

  lemma ListRegrouped(xs: seq<int>, b: int, ys: seq<int>)
    ensures xs + [] + ([b] + ys) == xs + [b] + ys
  {
  }

  /** A free block in front of a run. */
  lemma RestLaid(m: Block, a: int, prev: nat, left: nat, end: int, post: seq<Blk>)
    requires Word(m, a) == left && Word(m, a + 4) == prev && end == a + left && Laid(m, end, left, post)
    requires Sized(post) && BlockSized(left) && NoTwoFree(post) && FirstUsed(post)
    ensures var tail := [Blk(left, false)] + post;
            && Laid(m, a, prev, tail) && Sized(tail) && NoTwoFree(tail) && Total(tail) == left + Total(post)
  {
    hide Laid, Word, FreeAt, UsedAt, Total, Sized, NoTwoFree, FirstUsed;
    var none: seq<Blk> := [];
    var c := Blk(left, false);
    assert none + [c] + post == [c] + post;
    LaidAround(m, a, prev, none, c, post);
    NoBlocks(m, a, prev);
    SizedAround(none, c, post);
    NoPairs();
    NeighboursFor(none, c, post);
  }

  lemma NoPairs()
    ensures NoTwoFree([]) && LastUsed([])
  {
  }

  /** A block carved off the end. */
  lemma Carved(m: Block, m': Block, g: Region, bs: seq<Blk>, need: nat, prev: nat)
    requires RegionOk(m, g, bs) && need % 8 == 0 && need >= MIN_BLOCK && g.brk + need <= g.size && prev == LastSize(0, bs)
    requires var at := g.base + g.brk;
             Touched(m, m', {at, at + 4}) && Word(m', at) == need + 1 && Word(m', at + 4) == prev
    ensures RegionOk(m', g.(brk := g.brk + need), bs + [Blk(need, true)])
    ensures UsedAt(g.base, bs + [Blk(need, true)]) == UsedAt(g.base, bs) + [Chunk(g.base + g.brk + HDR, need - HDR)]
    ensures Sparing(g, UsedAt(g.base, bs), {g.base + g.brk, g.base + g.brk + 4})
  {
    hide Laid, Word, Links, FreeAt, UsedAt, Total, Sized, NoTwoFree, Touched;
    var b := Blk(need, true);
    var at := g.base + g.brk;
    var none: seq<Blk> := [];
    var ws := {at, at + 4};
    PageIsEight(g.base);
    SizedTotal(bs);
    ClearOutside(g.base, bs, at);
    ClearOutside(g.base, bs, at + 4);
    LaidFrame(m, m', ws, g.base, 0, bs);
    FreeBounds(g.base, bs);
    LinksFrame(m, m', ws, g.flist, FreeAt(g.base, bs), 0);
    TouchedLength(m, m', ws);
    assert bs + [b] + none == bs + [b];
    LaidAround(m', g.base, 0, bs, b, none);
    ListsAround(g.base, bs, b, none);
    SizedAround(bs, b, none);
    NoBlocks(m', at + need, need);
    NoPairs();
    NeighboursFor(bs, b, none);
    UsedBounds(g.base, bs);
    assert FreeAt(g.base, bs) + [] + [] == FreeAt(g.base, bs);
  }

  /** The rest of a block, `need` bytes in, has its header and leads on in the list as the block itself does. */
  predicate Prepared(m: Block, g: Region, pre: seq<Blk>, need: nat, left: nat, q: nat, post: seq<Blk>) {
    var at := g.base + Total(pre);
    && Offered(m, g, pre, need + left, q, post)
    && Word(m, at + need) == left && Word(m, at + need + 4) == need && Word(m, at + need + 8) == Word(m, at + 8)
  }

  lemma OfferedPlace(m: Block, g: Region, pre: seq<Blk>, size: nat, q: nat, post: seq<Blk>)
    requires Offered(m, g, pre, size, q, post)
    ensures var at := g.base + Total(pre);
            && at > 0 && at % 8 == 0 && at + size <= |m| && size % 8 == 0 && |m| == WORD_LIMIT
            && 0 <= g.flist < WORD_LIMIT
  {
    hide Laid, Word, Total, FreeAt;
    ShapeEights(m, g, pre, size, q, post);
    OfferedList(m, g, pre, size, q, post);
    ListHead(m, g.flist, WithSelf(g, pre, size, post), 0);
  }

  lemma InnerSpares(m: Block, g: Region, pre: seq<Blk>, size: nat, q: nat, post: seq<Blk>, w: int)
    requires Offered(m, g, pre, size, q, post) && Polite(g, pre, size, post, {w})
    ensures Sparing(g, Around(g, pre, size, post), {w})
  {
    hide Shape, Polite, Linked, Sparing, Around;
    PoliteSpares(m, g, pre, size, q, post, {w});
  }

  /** With the rest in the block's place, the list is still in order. */
  lemma RestAscending(m: Block, g: Region, pre: seq<Blk>, need: nat, left: nat, q: nat, post: seq<Blk>)
    requires Offered(m, g, pre, need + left, q, post) && need % 8 == 0 && left >= MIN_BLOCK
    ensures var at := g.base + Total(pre);
            Ascending(FreeAt(g.base, pre) + [at + need] + FreeAt(at + (need + left), post))
  {
    hide Laid, Word, Total, Sized, Ascending, FreeAt;
    var at := g.base + Total(pre);
    ShapeEights(m, g, pre, need + left, q, post);
    Eights(at, need, 0);
    FreeBounds(g.base, pre);
    FreeBounds(at + (need + left), post);
    IsAscending(g.base, pre);
    IsAscending(at + (need + left), post);
    JoinAscending(FreeAt(g.base, pre), at + need, FreeAt(at + (need + left), post));
  }

  /** The list steps leave the header of the rest alone. */
  lemma RestStays(m: Block, m': Block, g: Region, pre: seq<Blk>, need: nat, left: nat, q: nat, post: seq<Blk>)
    requires Prepared(m, g, pre, need, left, q, post) && need % 8 == 0 && need >= MIN_BLOCK && left >= MIN_BLOCK
    requires Touched(m, m', LinkWords(WithSelf(g, pre, need + left, post)))
    ensures var at := g.base + Total(pre); Word(m', at + need) == left && Word(m', at + need + 4) == need
  {
    hide Laid, Word, Total, Sized, FreeAt, Touched, Linked, Harmless;
    var at := g.base + Total(pre);
    var fs := WithSelf(g, pre, need + left, post);
    ShapeEights(m, g, pre, need + left, q, post);
    Eights(at, need, 0);
    EightIsFour(at + need);
    forall k | 0 <= k < |fs|
      ensures fs[k] + 8 != at + need && fs[k] + 8 != at + need + 4
    {
      if fs[k] != at {
        assert fs[k] in FreeAt(g.base, pre) + FreeAt(at + (need + left), post);
        AroundHarmless(g, pre, need + left, post, fs[k]);
      }
    }
    Untouched(m, m', LinkWords(fs), at + need);
    Untouched(m, m', LinkWords(fs), at + need + 4);
  }

  // ---------- looking for room ----------

  /** No free block of the run is long enough. */
  predicate NoFit(bs: seq<Blk>, need: nat) {
    forall i :: 0 <= i < |bs| ==> bs[i].used || bs[i].size < need
  }

  /** A listed address is that of a free block of the run. */
  lemma {:induction false} FindFree(a: int, bs: seq<Blk>, f: int) returns (pre: seq<Blk>, size: nat, post: seq<Blk>)
    requires f in FreeAt(a, bs)
    ensures bs == pre + [Blk(size, false)] + post && f == a + Total(pre)
    decreases |bs|
  {
    if !bs[0].used && f == a {
      pre, size, post := [], bs[0].size, bs[1..];
    } else {
      var rest;
      rest, size, post := FindFree(a + bs[0].size, bs[1..], f);
      pre := [bs[0]] + rest;
      assert pre[1..] == rest;
      assert bs == [bs[0]] + bs[1..];
    }
  }

  /** The header of a listed block tells its size. */
  lemma FreeHead(m: Block, g: Region, bs: seq<Blk>, f: int) returns (pre: seq<Blk>, size: nat, post: seq<Blk>)
    requires RegionOk(m, g, bs) && f in FreeAt(g.base, bs)
    ensures bs == pre + [Blk(size, false)] + post && f == g.base + Total(pre) && Word(m, f) == size && size % 8 == 0
  {
    hide Laid, Word, Linked, FreeAt, Total, Sized, NoTwoFree;
    pre, size, post := FindFree(g.base, bs, f);
    LaidAround(m, g.base, 0, pre, Blk(size, false), post);
    SizedAround(pre, Blk(size, false), post);
  }

  /** A free block that is long enough would be listed. */
  lemma {:induction false} FitIsListed(m: Block, a: int, prev: nat, bs: seq<Blk>, need: nat)
    requires Laid(m, a, prev, bs) && Sized(bs)
    requires forall f :: f in FreeAt(a, bs) ==> Word(m, f) < need
    ensures NoFit(bs, need)
    decreases |bs|
  {
    hide Word;
    if bs != [] {
      var rest := bs[1..];
      SizedTail(bs);
      assert !bs[0].used ==> a in FreeAt(a, bs);
      forall f | f in FreeAt(a + bs[0].size, rest)
        ensures Word(m, f) < need
      {
        assert f in FreeAt(a, bs);
      }
      FitIsListed(m, a + bs[0].size, bs[0].size, rest, need);
      forall i | 0 <= i < |bs|
        ensures bs[i].used || bs[i].size < need
      {
        if i > 0 {
          assert bs[i] == rest[i - 1];
        }
      }
    }
  }

  /** One step of the walk over a region's blocks. */
  lemma WalkBlock(m: Block, g: Region, bs: seq<Blk>, i: nat)
    requires RegionOk(m, g, bs) && i < |bs|
    ensures var p := g.base + Total(bs[..i]);
            && SizeBits(Word(m, p)) == bs[i].size && bs[i].size > 0
            && p + bs[i].size == g.base + Total(bs[..i + 1])
            && (p + bs[i].size < g.base + g.brk <==> i + 1 < |bs|)
  {
    hide Laid, Word, Linked, FreeAt, Total, NoTwoFree, Placed, Sized;
    var pre, b, post := bs[..i], bs[i], bs[i + 1..];
    assert bs == pre + [b] + post;
    LaidAround(m, g.base, 0, pre, b, post);
    SizedAround(pre, b, post);
    HeadWordOf(b);
    TotalConcat(pre, [b]);
    OneBlock(m, 0, 0, b);
    assert bs[..i + 1] == pre + [b];
    SizedTotal(post);
    NoBlocks(m, 0, 0);
  }

  // ---------- what the program writes ----------

  /** A word of a payload in use is no header, no link, and in no other payload. */
  lemma {:induction false} PayloadWord(a: int, bs: seq<Blk>, c: Chunk, w: int)
    requires Sized(bs) && a % 8 == 0 && c in UsedAt(a, bs) && c.at <= w && w + 4 <= c.at + c.len && w % 4 == 0
    ensures Clear(a, bs, w)
    ensures forall f :: f in FreeAt(a, bs) ==> f + 8 != w
    ensures forall d :: d in UsedAt(a, bs) && d != c ==> w + 4 <= d.at || d.at + d.len <= w
    decreases |bs|
  {
    UsedBounds(a, bs);
    FreeUsedApart(a, bs);
    PayloadClear(a, bs, c, w);
  }

  lemma {:induction false} PayloadClear(a: int, bs: seq<Blk>, c: Chunk, w: int)
    requires Sized(bs) && a % 8 == 0 && c in UsedAt(a, bs) && c.at <= w && w + 4 <= c.at + c.len
    ensures Clear(a, bs, w)
    decreases |bs|
  {
    if bs != [] {
      SizedTail(bs);
      Eights(a, bs[0].size, 0);
      var rest := bs[1..];
      if c in UsedAt(a + bs[0].size, rest) {
        UsedBounds(a + bs[0].size, rest);
        PayloadClear(a + bs[0].size, rest, c, w);
      } else {
        ClearOutside(a + bs[0].size, rest, w);
      }
    }
  }

  /** A write into a payload in use leaves the region in order. */
  lemma PayloadWritten(m: Block, m': Block, g: Region, bs: seq<Blk>, c: Chunk, w: int)
    requires RegionOk(m, g, bs) && c in UsedAt(g.base, bs) && Touched(m, m', {w})
    requires c.at <= w && w + 4 <= c.at + c.len && w % 4 == 0
    ensures RegionOk(m', g, bs) && g.base <= w && w + 4 <= g.base + g.size
    ensures forall d :: d in UsedAt(g.base, bs) && d != c ==> Kept(m, m', d)
  {
    hide Laid, Word, Touched, Links, Total, UsedAt, FreeAt, Kept, NoTwoFree, Sized;
    PageIsEight(g.base);
    PayloadWord(g.base, bs, c, w);
    LaidFrame(m, m', {w}, g.base, 0, bs);
    FreeBounds(g.base, bs);
    var fs := FreeAt(g.base, bs);
    assert forall k :: 0 <= k < |fs| ==> fs[k] in fs;
    LinksFrame(m, m', {w}, g.flist, fs, 0);
    TouchedLength(m, m', {w});
    UsedBounds(g.base, bs);
    forall d | d in UsedAt(g.base, bs) && d != c
      ensures Kept(m, m', d)
    {
      SparedIsKept(m, m', {w}, d);
    }
  }

  lemma {:induction false} UsedLength(a: int, bs: seq<Blk>, c: Chunk)
    requires Sized(bs) && c in UsedAt(a, bs)
    ensures c.len % 8 == 0
    decreases |bs|
  {
    if bs != [] && c in UsedAt(a + bs[0].size, bs[1..]) {
      UsedLength(a + bs[0].size, bs[1..], c);
    }
  }

  /** The word a byte of a payload is in lies in the payload. */
  lemma WordInside(at: int, len: int, i: int)
    requires at % 8 == 0 && len % 8 == 0 && at <= i < at + len
    ensures WordOf(i) % 4 == 0 && at <= WordOf(i) && WordOf(i) + 4 <= at + len
  {
    FourDivides(WordOf(i), i / 4);
    WordBounds(Eighth(at), Eighth(len), i / 4, i % 4);
  }

  lemma WordBounds(x: int, y: int, q: int, r: int)
    requires 0 <= r < 4 && 8 * x <= 4 * q + r < 8 * x + 8 * y
    ensures 2 * x <= q && q + 1 <= 2 * x + 2 * y
  {
  }

  /** One byte changed touches the word it is in. */
  lemma ByteTouches(m: Block, i: int, v: Byte)
    requires 0 <= i < |m|
    ensures Touched(m, m[i := v], {WordOf(i)})
  {
    hide Decode;
    var m' := m[i := v];
    forall w | w % 4 == 0 && w != WordOf(i)
      ensures Word(m', w) == Word(m, w)
    {
      if w >= 0 && w + 4 <= |m| {
        ApartFromWord(i, w);
        assert m'[w..w + 4] == m[w..w + 4];
        var k := w / 4;
        assert w == 4 * k;
      }
    }
  }

  lemma ApartFromWord(i: int, w: int)
    requires w % 4 == 0 && w != WordOf(i)
    ensures i < w || i >= w + 4
  {
    var k := w / 4;
    assert w == 4 * k;
    var q := i / 4;
    assert i == 4 * q + i % 4 && WordOf(i) == 4 * q;
  }
}
