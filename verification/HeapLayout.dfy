/**
  The layout of the user heap: regions tiled by blocks with a header of two words in front of each payload, and a
  list of the free blocks threaded through their payloads.
 */
module HeapLayout {
  import opened Arith
  import opened Words

  const HDR := 8
  const MIN_BLOCK := 16

  /** The word at byte address `a`. */
  function Word(m: Block, a: int): (v: nat)
    ensures v < WORD_LIMIT
  {
    if a < 0 then 0 else Entry(m, a / 4)
  }

  /** The word `v` can be written at `a`. */
  predicate Fits(m: Block, a: int, v: nat) {
    0 <= a && a % 4 == 0 && a + 4 <= |m| && v < WORD_LIMIT
  }

  function Store(m: Block, a: int, v: nat): (m': Block)
    requires Fits(m, a, v)
    ensures |m'| == |m|
  {
    SetEntry(m, a / 4, v)
  }

  /** The two memories differ in nothing but the words at `ws`. */
  ghost predicate Touched(m: Block, m': Block, ws: set<int>) {
    && |m'| == |m|
    && (forall i :: 0 <= i < |m| && WordOf(i) !in ws ==> m'[i] == m[i])
    && (forall w :: w % 4 == 0 && w !in ws ==> Word(m', w) == Word(m, w))
  }

  /** The address of the word a byte is in. */
  function WordOf(i: int): int {
    i - i % 4
  }

  lemma Stored(m: Block, a: int, v: nat)
    requires Fits(m, a, v)
    ensures Word(Store(m, a, v), a) == v && Touched(m, Store(m, a, v), {a})
  {
    hide Entry, Encode;
    var m' := Store(m, a, v);
    StoredEntry(m, a / 4, v, a / 4);
    forall w | w % 4 == 0 && w != a
      ensures Word(m', w) == Word(m, w)
    {
      if w >= 0 {
        StoredEntry(m, a / 4, v, w / 4);
      }
    }
    forall i | 0 <= i < |m| && WordOf(i) != a
      ensures m'[i] == m[i]
    {
      assert i < a || i >= a + 4;
    }
  }

  lemma TouchedTwice(m: Block, m1: Block, m2: Block, a: set<int>, b: set<int>)
    requires Touched(m, m1, a) && Touched(m1, m2, b)
    ensures Touched(m, m2, a + b)
  {
    hide Word;
  }

  lemma TouchedMore(m: Block, m': Block, a: set<int>, b: set<int>)
    requires Touched(m, m', a) && a <= b
    ensures Touched(m, m', b)
  {
    hide Word;
  }

  lemma Untouched(m: Block, m': Block, ws: set<int>, w: int)
    requires Touched(m, m', ws) && w % 4 == 0 && w !in ws
    ensures Word(m', w) == Word(m, w)
  {
  }

  // ---------- alignment ----------

  lemma Eights(a: int, b: int, c: int)
    requires a % 8 == 0 && b % 8 == 0 && c % 8 == 0
    ensures (a + b) % 8 == 0 && (a + b + c) % 8 == 0
  {
    var x, y, z := Eighth(a), Eighth(b), Eighth(c);
    EightDivides(a + b, x + y);
    EightDivides(a + b + c, x + y + z);
  }

  lemma EightIsFour(f: int)
    requires f % 8 == 0
    ensures (f + 8) % 4 == 0 && f % 4 == 0 && (f + 4) % 4 == 0
  {
    var k := Eighth(f);
    FourDivides(f, 2 * k);
    FourDivides(f + 4, 2 * k + 1);
    FourDivides(f + 8, 2 * k + 2);
  }

  // ---------- blocks ----------

  /** A block as its header tells: bytes with the header, and whether it is in use. */
  datatype Blk = Blk(size: nat, used: bool)

  function Total(bs: seq<Blk>): nat {
    if bs == [] then 0 else bs[0].size + Total(bs[1..])
  }

  /** The size word of a header. */
  function HeadWord(b: Blk): nat {
    b.size + if b.used then 1 else 0
  }

  /** `BLOCK_SIZE`: the size word without its mark. */
  function SizeBits(w: nat): int {
    w - w % 2
  }

  /** `BLOCK_USED`. */
  predicate UsedBit(w: nat) {
    w % 2 == 1
  }

  /** A header says what its block is. */
  lemma HeadWordOf(b: Blk)
    requires b.size % 8 == 0
    ensures SizeBits(HeadWord(b)) == b.size && (UsedBit(HeadWord(b)) <==> b.used)
  {
    var k := Eighth(b.size);
    if b.used {
      TwoLeavesOne(HeadWord(b), 4 * k);
    } else {
      TwoDivides(HeadWord(b), 4 * k);
    }
  }

  /** What the block after these records as the size of the one before it. */
  function LastSize(prev: nat, bs: seq<Blk>): nat {
    if bs == [] then prev else bs[|bs| - 1].size
  }

  predicate Sized(bs: seq<Blk>) {
    forall i :: 0 <= i < |bs| ==> bs[i].size % 8 == 0 && bs[i].size >= MIN_BLOCK
  }

  /** The headers from address `a` on say `bs`, and the first records `prev` as the size of its predecessor. */
  predicate Laid(m: Block, a: int, prev: nat, bs: seq<Blk>)
    decreases |bs|
  {
    bs == [] || (Word(m, a) == HeadWord(bs[0]) && Word(m, a + 4) == prev && Laid(m, a + bs[0].size, bs[0].size, bs[1..]))
  }

  /** The addresses of the free blocks. */
  function FreeAt(a: int, bs: seq<Blk>): seq<int>
    decreases |bs|
  {
    if bs == [] then []
    else (if bs[0].used then [] else [a]) + FreeAt(a + bs[0].size, bs[1..])
  }

  /** From `p` the links in the payloads go through `fs` and then lead to `q`. */
  predicate Links(m: Block, p: int, fs: seq<int>, q: int)
    decreases |fs|
  {
    if fs == [] then p == q else p == fs[0] && p != 0 && Links(m, Word(m, p + 8), fs[1..], q)
  }

  /** The list that starts at `p` is `fs`. */
  predicate Linked(m: Block, p: int, fs: seq<int>) {
    Links(m, p, fs, 0)
  }

  /** Where the links lead after `fs`. */
  function EndOf(m: Block, p: int, fs: seq<int>): int {
    if fs == [] then p else Word(m, fs[|fs| - 1] + 8)
  }

  /** A piece of memory handed out. */
  datatype Chunk = Chunk(at: int, len: int)

  /** The payloads in use. */
  function UsedAt(a: int, bs: seq<Blk>): seq<Chunk>
    decreases |bs|
  {
    if bs == [] then []
    else (if bs[0].used then [Chunk(a + HDR, bs[0].size - HDR)] else []) + UsedAt(a + bs[0].size, bs[1..])
  }

  predicate NoTwoFree(bs: seq<Blk>) {
    forall i :: 0 < i < |bs| ==> bs[i - 1].used || bs[i].used
  }

  lemma {:induction false} TotalConcat(x: seq<Blk>, y: seq<Blk>)
    ensures Total(x + y) == Total(x) + Total(y)
  {
    if x == [] {
      assert x + y == y;
    } else {
      assert (x + y)[1..] == x[1..] + y;
      TotalConcat(x[1..], y);
    }
  }

  lemma {:induction false} LaidConcat(m: Block, a: int, prev: nat, x: seq<Blk>, y: seq<Blk>)
    ensures Laid(m, a, prev, x + y) <==> Laid(m, a, prev, x) && Laid(m, a + Total(x), LastSize(prev, x), y)
    decreases |x|
  {
    hide Word;
    if x == [] {
      assert x + y == y;
    } else {
      assert (x + y)[1..] == x[1..] + y;
      LaidConcat(m, a + x[0].size, x[0].size, x[1..], y);
    }
  }

  lemma {:induction false} FreeConcat(a: int, x: seq<Blk>, y: seq<Blk>)
    ensures FreeAt(a, x + y) == FreeAt(a, x) + FreeAt(a + Total(x), y)
    decreases |x|
  {
    if x == [] {
      assert x + y == y;
    } else {
      assert (x + y)[1..] == x[1..] + y;
      FreeConcat(a + x[0].size, x[1..], y);
      var own := if x[0].used then [] else [a];
      var f, g := FreeAt(a + x[0].size, x[1..]), FreeAt(a + Total(x), y);
      assert own + (f + g) == own + f + g;
    }
  }

  lemma {:induction false} UsedConcat(a: int, x: seq<Blk>, y: seq<Blk>)
    ensures UsedAt(a, x + y) == UsedAt(a, x) + UsedAt(a + Total(x), y)
    decreases |x|
  {
    if x == [] {
      assert x + y == y;
    } else {
      assert (x + y)[1..] == x[1..] + y;
      UsedConcat(a + x[0].size, x[1..], y);
    }
  }

  lemma OneBlock(m: Block, a: int, prev: nat, b: Blk)
    ensures Total([b]) == b.size && LastSize(prev, [b]) == b.size
    ensures Laid(m, a, prev, [b]) <==> Word(m, a) == HeadWord(b) && Word(m, a + 4) == prev
    ensures FreeAt(a, [b]) == if b.used then [] else [a]
    ensures UsedAt(a, [b]) == if b.used then [Chunk(a + HDR, b.size - HDR)] else []
  {
    hide Word;
    var one := [b];
    assert one[1..] == [];
  }

  // ---------- where things are ----------

  /** Free blocks are listed in the order of their addresses, inside the run and on multiples of eight. */
  lemma {:induction false} FreeBounds(a: int, bs: seq<Blk>)
    requires Sized(bs) && a % 8 == 0
    ensures forall k :: 0 <= k < |FreeAt(a, bs)| ==>
              a <= FreeAt(a, bs)[k] <= a + Total(bs) - MIN_BLOCK && FreeAt(a, bs)[k] % 8 == 0
    ensures forall k, l :: 0 <= k < l < |FreeAt(a, bs)| ==> FreeAt(a, bs)[k] + MIN_BLOCK <= FreeAt(a, bs)[l]
    decreases |bs|
  {
    if bs != [] {
      FreeBounds(a + bs[0].size, bs[1..]);
      var fs, rest := FreeAt(a, bs), FreeAt(a + bs[0].size, bs[1..]);
      assert bs[0].used ==> fs == rest;
      assert !bs[0].used ==> fs[1..] == rest && forall k :: 0 < k < |fs| ==> fs[k] == rest[k - 1];
    }
  }

  lemma {:induction false} UsedBounds(a: int, bs: seq<Blk>)
    requires Sized(bs) && a % 8 == 0
    ensures forall c :: c in UsedAt(a, bs) ==> a + HDR <= c.at && c.at + c.len <= a + Total(bs) && c.len >= 8 && c.at % 8 == 0
    ensures forall c, d :: c in UsedAt(a, bs) && d in UsedAt(a, bs) && c != d ==>
              c.at + c.len + HDR <= d.at || d.at + d.len + HDR <= c.at
    decreases |bs|
  {
    if bs != [] {
      UsedBounds(a + bs[0].size, bs[1..]);
    }
  }

  /** The word is not a header word of any of the blocks. */
  predicate Clear(a: int, bs: seq<Blk>, w: int)
    decreases |bs|
  {
    bs == [] || (w != a && w != a + 4 && Clear(a + bs[0].size, bs[1..], w))
  }

  lemma {:induction false} ClearOutside(a: int, bs: seq<Blk>, w: int)
    requires Sized(bs) && (w < a || w >= a + Total(bs))
    ensures Clear(a, bs, w)
    decreases |bs|
  {
    if bs != [] {
      ClearOutside(a + bs[0].size, bs[1..], w);
    }
  }

  /** Headers stay what they say while no header word is written. */
  lemma {:induction false} LaidFrame(m: Block, m': Block, ws: set<int>, a: int, prev: nat, bs: seq<Blk>)
    requires Laid(m, a, prev, bs) && Touched(m, m', ws) && a % 8 == 0 && Sized(bs)
    requires forall w :: w in ws ==> Clear(a, bs, w)
    ensures Laid(m', a, prev, bs)
    decreases |bs|
  {
    hide Word, Touched;
    if bs != [] {
      EightIsFour(a);
      Untouched(m, m', ws, a);
      Untouched(m, m', ws, a + 4);
      Eights(a, bs[0].size, 0);
      LaidFrame(m, m', ws, a + bs[0].size, bs[0].size, bs[1..]);
    }
  }

  /** Links stay what they are while none of them is written. */
  lemma {:induction false} LinksFrame(m: Block, m': Block, ws: set<int>, p: int, fs: seq<int>, q: int)
    requires Links(m, p, fs, q) && Touched(m, m', ws)
    requires forall k :: 0 <= k < |fs| ==> fs[k] % 8 == 0 && fs[k] + 8 !in ws
    ensures Links(m', p, fs, q)
    decreases |fs|
  {
    hide Word, Touched;
    if fs != [] {
      var rest := fs[1..];
      assert fs[0] % 8 == 0 && fs[0] + 8 !in ws;
      EightIsFour(fs[0]);
      Untouched(m, m', ws, fs[0] + 8);
      forall k | 0 <= k < |rest|
        ensures rest[k] % 8 == 0 && rest[k] + 8 !in ws
      {
        assert rest[k] == fs[k + 1];
      }
      LinksFrame(m, m', ws, Word(m, p + 8), rest, q);
    }
  }

  lemma {:induction false} LinksConcat(m: Block, p: int, x: seq<int>, y: seq<int>, q: int)
    ensures Links(m, p, x + y, q) <==> Links(m, p, x, EndOf(m, p, x)) && Links(m, EndOf(m, p, x), y, q)
    decreases |x|
  {
    hide Word;
    if x == [] {
      assert x + y == y;
    } else {
      assert (x + y)[1..] == x[1..] + y;
      if p == x[0] {
        LinksConcat(m, Word(m, p + 8), x[1..], y, q);
        assert EndOf(m, p, x) == EndOf(m, Word(m, p + 8), x[1..]);
      }
    }
  }

  /** Addresses of blocks in ascending order, as a free list has them. */
  predicate Ascending(fs: seq<int>) {
    && (forall k :: 0 <= k < |fs| ==> fs[k] > 0 && fs[k] % 8 == 0)
    && (forall k, l :: 0 <= k < l < |fs| ==> fs[k] + MIN_BLOCK <= fs[l])
  }

  /** The last link of a run led elsewhere. */
  lemma {:induction false} LinksBent(m: Block, m': Block, p: int, fs: seq<int>, q: int, v: int)
    requires Links(m, p, fs, q) && fs != [] && Ascending(fs)
    requires Touched(m, m', {fs[|fs| - 1] + 8}) && Word(m', fs[|fs| - 1] + 8) == v
    ensures Links(m', p, fs, v)
    decreases |fs|
  {
    hide Word, Touched;
    if |fs| == 1 {
      assert fs[1..] == [];
    } else {
      EightIsFour(fs[0]);
      Untouched(m, m', {fs[|fs| - 1] + 8}, fs[0] + 8);
      LinksBent(m, m', Word(m, p + 8), fs[1..], q, v);
    }
  }

  /** The link words of free blocks are no header words. */
  lemma {:induction false} LinksAreClear(a: int, bs: seq<Blk>, f: int)
    requires Sized(bs) && f in FreeAt(a, bs) && a % 8 == 0
    ensures Clear(a, bs, f + 8)
    decreases |bs|
  {
    if bs != [] {
      var rest := bs[1..];
      if f in FreeAt(a + bs[0].size, rest) {
        FreeBounds(a + bs[0].size, rest);
        LinksAreClear(a + bs[0].size, rest, f);
      } else {
        ClearOutside(a + bs[0].size, rest, f + 8);
      }
    }
  }

  // ---------- lists taken apart ----------

  lemma ListHead(m: Block, p: int, fs: seq<int>, q: int)
    requires Links(m, p, fs, q)
    ensures fs != [] ==> p == fs[0] && p != 0 && Links(m, Word(m, p + 8), fs[1..], q)
    ensures fs == [] ==> p == q
  {
  }

  /** A list around one of its blocks. */
  lemma Parts(m: Block, p: int, xs: seq<int>, b: int, ys: seq<int>, q: int)
    requires Links(m, p, xs + [b] + ys, q)
    ensures Links(m, p, xs, b) && Links(m, Word(m, b + 8), ys, q) && b != 0
  {
    hide Word;
    LinksConcat(m, p, xs + [b], ys, q);
    LinksConcat(m, p, xs, [b], EndOf(m, p, xs + [b]));
    ListHead(m, EndOf(m, p, xs), [b], EndOf(m, p, xs + [b]));
  }

  lemma Joined(m: Block, p: int, xs: seq<int>, v: int, ys: seq<int>, q: int)
    requires Links(m, p, xs, v) && Links(m, v, ys, q)
    ensures Links(m, p, xs + ys, q)
    decreases |xs|
  {
    hide Word;
    if xs == [] {
      assert xs + ys == ys;
    } else {
      assert (xs + ys)[1..] == xs[1..] + ys;
      Joined(m, Word(m, p + 8), xs[1..], v, ys, q);
    }
  }

  lemma SplitAt(m: Block, p: int, xs: seq<int>, ys: seq<int>, cur: int)
    requires Linked(m, p, xs + ys) && Links(m, cur, ys, 0)
    ensures Links(m, p, xs, cur)
  {
    hide Word;
    LinksConcat(m, p, xs, ys, 0);
    ListHead(m, cur, ys, 0);
    ListHead(m, EndOf(m, p, xs), ys, 0);
  }

  lemma JoinedAt(m: Block, p: int, xs: seq<int>, b: int, ys: seq<int>, q: int)
    requires Links(m, p, xs, b) && Links(m, Word(m, b + 8), ys, q) && b != 0
    ensures Links(m, p, xs + [b] + ys, q)
  {
    hide Word;
    var rest := [b] + ys;
    assert rest[1..] == ys;
    assert Links(m, b, rest, q);
    Joined(m, p, xs, b, rest, q);
    assert xs + rest == xs + [b] + ys;
  }

  /** The words that hold the links of these blocks. */
  ghost function LinkWords(fs: seq<int>): set<int> {
    set k | 0 <= k < |fs| :: fs[k] + 8
  }

  lemma AscendingParts(xs: seq<int>, b: int, ys: seq<int>)
    requires Ascending(xs + [b] + ys)
    ensures Ascending(xs) && Ascending(ys) && Ascending(xs + ys) && b > 0 && b % 8 == 0
    ensures forall k :: 0 <= k < |xs| ==> xs[k] + MIN_BLOCK <= b
    ensures forall k :: 0 <= k < |ys| ==> b + MIN_BLOCK <= ys[k]
    ensures forall k, l :: 0 <= k < |xs| && 0 <= l < |ys| ==> xs[k] + MIN_BLOCK <= ys[l]
  {
    var fs := xs + [b] + ys;
    assert fs[|xs|] == b;
    assert forall k :: 0 <= k < |xs| ==> fs[k] == xs[k];
    forall k | 0 <= k < |ys|
      ensures fs[|xs| + 1 + k] == ys[k]
    {
    }
    AscendingApart(fs, xs, b, ys);
  }

  lemma AscendingApart(fs: seq<int>, xs: seq<int>, b: int, ys: seq<int>)
    requires fs == xs + [b] + ys && Ascending(fs)
    ensures Ascending(xs) && Ascending(ys)
    ensures forall k :: 0 <= k < |xs| ==> xs[k] + MIN_BLOCK <= b
    ensures forall k :: 0 <= k < |ys| ==> b + MIN_BLOCK <= ys[k]
  {
    var n := |xs|;
    assert fs[n] == b;
    forall k | 0 <= k < |xs|
      ensures xs[k] > 0 && xs[k] % 8 == 0 && xs[k] + MIN_BLOCK <= b
    {
      assert fs[k] == xs[k];
    }
    forall k | 0 <= k < |ys|
      ensures ys[k] > 0 && ys[k] % 8 == 0 && b + MIN_BLOCK <= ys[k]
    {
      assert fs[n + 1 + k] == ys[k];
    }
    forall k, l | 0 <= k < l < |xs|
      ensures xs[k] + MIN_BLOCK <= xs[l]
    {
      assert fs[k] == xs[k] && fs[l] == xs[l];
    }
    forall k, l | 0 <= k < l < |ys|
      ensures ys[k] + MIN_BLOCK <= ys[l]
    {
      assert fs[n + 1 + k] == ys[k] && fs[n + 1 + l] == ys[l];
    }
  }
}
