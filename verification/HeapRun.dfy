/** Whole runs of the heap, and what is left when everything has been given back. */
module HeapRun {
  import opened Words
  import opened HeapLayout
  import opened HeapRegion
  import opened HeapTable

  // ---------- when nothing is live ----------

  lemma {:induction false} NoneUsed(a: int, bs: seq<Blk>)
    requires UsedAt(a, bs) == []
    ensures forall i :: 0 <= i < |bs| ==> !bs[i].used
    decreases |bs|
  {
    if bs != [] {
      NoneUsed(a + bs[0].size, bs[1..]);
      forall i | 0 <= i < |bs|
        ensures !bs[i].used
      {
        if i > 0 {
          assert bs[i] == bs[1..][i - 1];
        }
      }
    }
  }

  /**
    Once nothing is live, a region that was used is one free block as long as what has been carved: its header says
    so, and it is the whole free list.
   */
  lemma AllFreeIsOne(m: Block, gs: seq<Region>, lay: seq<seq<Blk>>, r: nat)
    requires AllOk(m, gs, lay) && r < |gs| && forall c :: !Live(gs, lay, c)
    ensures |lay| == |gs| && lay[r] == if gs[r].brk == 0 then [] else [Blk(gs[r].brk, false)]
    ensures gs[r].brk == 0 ==> gs[r].flist == 0
    ensures gs[r].brk != 0 ==> gs[r].flist == gs[r].base && Word(m, gs[r].base) == gs[r].brk && Word(m, gs[r].base + 8) == 0
  {
    hide AllOk, Word;
    OkAt(m, gs, lay, r);
    var g, bs := gs[r], lay[r];
    forall c
      ensures c !in UsedAt(g.base, bs)
    {
      assert !Live(gs, lay, c);
    }
    if UsedAt(g.base, bs) != [] {
      assert UsedAt(g.base, bs)[0] in UsedAt(g.base, bs);
    }
    NoneUsed(g.base, bs);
    OneOrNone(bs);
    if bs != [] {
      OneBlock(m, g.base, 0, bs[0]);
      ListHead(m, g.flist, [g.base], 0);
      var one := [g.base];
      ListHead(m, Word(m, g.base + 8), one[1..], 0);
    }
  }

  // ---------- what is in use says where every block is ----------

  ghost predicate InUse(a: int, bs: seq<Blk>, c: Chunk) {
    c in UsedAt(a, bs)
  }

  /** The first block is in use just when there is a payload behind its header, and then that is its payload. */
  lemma HeadOf(a: int, bs: seq<Blk>)
    requires bs != [] && Sized(bs) && a % 8 == 0
    ensures bs[0].used ==> InUse(a, bs, Chunk(a + 8, bs[0].size - 8))
    ensures forall c :: InUse(a, bs, c) && c.at < a + bs[0].size + 8 ==> bs[0].used && c == Chunk(a + 8, bs[0].size - 8)
    ensures forall c :: InUse(a + bs[0].size, bs[1..], c) <==> InUse(a, bs, c) && c.at > a + 8
  {
    Eights(a, bs[0].size, 0);
    UsedBounds(a + bs[0].size, bs[1..]);
  }

  /** Behind a free block stands one in use, or nothing. */
  lemma BehindFree(a: int, bs: seq<Blk>)
    requires bs != [] && !bs[0].used && Sized(bs) && NoTwoFree(bs) && a % 8 == 0
    ensures |bs| == 1 ==> (forall c :: !InUse(a, bs, c)) && Total(bs) == bs[0].size
    ensures |bs| > 1 ==> exists c :: InUse(a, bs, c) && c.at == a + bs[0].size + 8
  {
    if |bs| > 1 {
      Eights(a, bs[0].size, 0);
      FirstTwo(bs);
      HeadOf(a + bs[0].size, bs[1..]);
      HeadOf(a, bs);
    } else {
      assert bs[1..] == [] && UsedAt(a + bs[0].size, bs[1..]) == [];
      assert UsedAt(a, bs) == [];
    }
  }

  lemma TailFine(bs: seq<Blk>)
    requires bs != [] && Sized(bs) && NoTwoFree(bs)
    ensures Sized(bs[1..]) && NoTwoFree(bs[1..]) && bs[0].size % 8 == 0 && bs[0].size >= 16
  {
  }

  /** The payloads in use, and how much has been carved, determine every block: there is one layout only. */
  lemma {:induction false} LayoutIsUnique(a: int, x: seq<Blk>, y: seq<Blk>)
    requires a % 8 == 0 && Sized(x) && Sized(y) && NoTwoFree(x) && NoTwoFree(y) && Total(x) == Total(y)
    requires forall c :: InUse(a, x, c) <==> InUse(a, y, c)
    ensures x == y
    decreases |x|
  {
    hide Sized, NoTwoFree, InUse, Total;
    EmptyTotal(x);
    EmptyTotal(y);
    if x != [] {
      HeadOf(a, x);
      HeadOf(a, y);
      TailFine(x);
      TailFine(y);
      assert x[0].used <==> y[0].used;
      if !x[0].used {
        BehindFree(a, x);
        BehindFree(a, y);
      }
      assert x[0] == y[0];
      Eights(a, x[0].size, 0);
      var b := a + x[0].size;
      assert b == a + y[0].size;
      forall c
        ensures InUse(b, x[1..], c) <==> InUse(b, y[1..], c)
      {
        assert InUse(b, x[1..], c) <==> InUse(a, x, c) && c.at > a + 8;
        assert InUse(b, y[1..], c) <==> InUse(a, y, c) && c.at > a + 8;
      }
      LayoutIsUnique(b, x[1..], y[1..]);
      assert x == [x[0]] + x[1..] && y == [y[0]] + y[1..];
    }
  }

  lemma EmptyTotal(bs: seq<Blk>)
    requires Sized(bs)
    ensures bs == [] <==> Total(bs) == 0
    ensures bs != [] ==> Total(bs) == bs[0].size + Total(bs[1..])
  {
  }

  lemma FirstTwo(bs: seq<Blk>)
    requires NoTwoFree(bs)
    ensures |bs| > 1 ==> bs[0].used || bs[1].used
  {
  }

  lemma OneOrNone(bs: seq<Blk>)
    requires NoTwoFree(bs) && Sized(bs) && forall i :: 0 <= i < |bs| ==> !bs[i].used
    ensures bs == [] || (bs == [bs[0]] && bs[0] == Blk(Total(bs), false) && Total(bs) > 0)
    ensures bs == [] <==> Total(bs) == 0
  {
    FirstTwo(bs);
    if bs != [] {
      assert bs[1..] == [];
    }
  }

  // ---------- runs ----------

  datatype Op =
    | Alloc(size: nat, first: int, second: int)
    | Release(k: nat)
    | Resize(k: nat, size: nat, first: int, second: int)
    | Poke(k: nat, offset: nat, value: Byte)

  /** Exactly the chunks the program holds are live, and it holds each once. */
  ghost predicate Holds(gs: seq<Region>, lay: seq<seq<Blk>>, cs: seq<Chunk>) {
    && (forall c :: Live(gs, lay, c) <==> c in cs)
    && (forall i, j :: 0 <= i < j < |cs| ==> cs[i] != cs[j])
  }

  /** A pointer the program has, how much it asked for with it, and the bytes it has written there, by offset. */
  datatype Pointer = Pointer(at: int, size: nat, written: map<nat, Byte>)

  ghost predicate Matches(m: Block, ps: seq<Pointer>, cs: seq<Chunk>) {
    |ps| == |cs| && forall i :: 0 <= i < |ps| ==> MatchesAt(m, ps[i], cs[i])
  }

  /** The pointer is that of the payload, which is long enough and no longer, and what was written there is there still. */
  ghost predicate MatchesAt(m: Block, p: Pointer, c: Chunk) {
    && p.at == c.at && p.size <= c.len < Need(p.size) - 8 + 16
    && forall o :: o in p.written ==> o < p.size && 0 <= p.at + o < |m| && m[p.at + o] == p.written[o]
  }

  /** What is left of the bytes written when the first `n` are kept. */
  function Cut(written: map<nat, Byte>, n: nat): map<nat, Byte> {
    map o | o in written && o < n :: written[o]
  }

  /**
    What the program has after an operation the heap answered with the address `a`: less than zero, and the operation
    was passed over.
   */
  function After(ps: seq<Pointer>, op: Op, a: int): seq<Pointer> {
    if a < 0 then ps
    else
      match op
      case Alloc(size, _, _) => if a == 0 then ps else ps + [Pointer(a, size, map[])]
      case Release(k) => if k < |ps| then ps[..k] + ps[k + 1..] else ps
      case Resize(k, size, _, _) =>
        if k >= |ps| then ps
        else if a != 0 then ps[k := Pointer(a, size, Cut(ps[k].written, size))]
        else if size == 0 then ps[..k] + ps[k + 1..]
        else ps
      case Poke(k, offset, value) =>
        if k < |ps| && offset < ps[k].size then ps[k := ps[k].(written := ps[k].written[offset := value])] else ps
  }

  /** And after a whole run. */
  function Tracked(ops: seq<Op>, answers: seq<int>): seq<Pointer>
    requires |answers| == |ops|
  {
    if ops == [] then []
    else
      var n := |ops| - 1;
      After(Tracked(ops[..n], answers[..n]), ops[n], answers[n])
  }

  lemma TrackedNext(ops: seq<Op>, answers: seq<int>, done: nat, a: int)
    requires done < |ops| && |answers| == done
    ensures Tracked(ops[..done + 1], answers + [a]) == After(Tracked(ops[..done], answers), ops[done], a)
  {
    assert ops[..done + 1][..done] == ops[..done] && (answers + [a])[..done] == answers;
  }

  lemma Added(gs: seq<Region>, lay: seq<seq<Blk>>, gs': seq<Region>, lay': seq<seq<Blk>>, cs: seq<Chunk>, c: Chunk)
    requires Holds(gs, lay, cs) && !Live(gs, lay, c)
    requires forall d :: Live(gs', lay', d) <==> Live(gs, lay, d) || d == c
    ensures Holds(gs', lay', cs + [c])
  {
    hide Live;
  }

  lemma Dropped(gs: seq<Region>, lay: seq<seq<Blk>>, gs': seq<Region>, lay': seq<seq<Blk>>, cs: seq<Chunk>, k: nat)
    requires Holds(gs, lay, cs) && k < |cs|
    requires forall d :: Live(gs', lay', d) <==> Live(gs, lay, d) && d != cs[k]
    ensures Holds(gs', lay', cs[..k] + cs[k + 1..])
  {
    hide Live;
    var rest := cs[..k] + cs[k + 1..];
    forall d
      ensures d in rest <==> d in cs && d != cs[k]
    {
      if d in cs && d != cs[k] {
        var i :| 0 <= i < |cs| && cs[i] == d;
        assert rest[if i < k then i else i - 1] == d;
      }
    }
  }

  lemma Replaced(gs: seq<Region>, lay: seq<seq<Blk>>, gs': seq<Region>, lay': seq<seq<Blk>>, cs: seq<Chunk>, k: nat, c: Chunk)
    requires Holds(gs, lay, cs) && k < |cs| && !Live(gs, lay, c)
    requires forall d :: Live(gs', lay', d) <==> (Live(gs, lay, d) && d != cs[k]) || d == c
    ensures Holds(gs', lay', cs[k := c])
  {
    hide Live;
    forall d
      ensures d in cs[k := c] <==> (d in cs && d != cs[k]) || d == c
    {
      if d in cs && d != cs[k] {
        var i :| 0 <= i < |cs| && cs[i] == d;
        assert cs[k := c][i] == d;
      }
      assert cs[k := c][k] == c;
    }
  }

  /** Payloads that are kept keep what was written there. */
  lemma StillMatches(m: Block, m': Block, ps: seq<Pointer>, cs: seq<Chunk>, but: nat)
    requires Matches(m, ps, cs) && forall i :: 0 <= i < |cs| && i != but ==> Kept(m, m', cs[i])
    ensures forall i :: 0 <= i < |ps| && i != but ==> MatchesAt(m', ps[i], cs[i])
  {
    forall i | 0 <= i < |ps| && i != but
      ensures MatchesAt(m', ps[i], cs[i])
    {
      assert Kept(m, m', cs[i]) && MatchesAt(m, ps[i], cs[i]);
    }
  }

  lemma MovedMatches(m: Block, m': Block, p: Pointer, own: Chunk, at: int, c: Chunk, size: nat)
    requires MatchesAt(m, p, own) && at == c.at && size <= c.len < Need(size) - 8 + 16
    requires Copied(m, p.at, m', at, if own.len < size then own.len else size)
    ensures MatchesAt(m', Pointer(at, size, Cut(p.written, size)), c)
  {
    hide Copied;
    var n := if own.len < size then own.len else size;
    forall o | o in p.written && o < size
      ensures 0 <= at + o < |m'| && m'[at + o] == p.written[o]
    {
      CopiedAt(m, p.at, m', at, n, o);
    }
  }

  lemma CopiedAt(m: Block, a: int, m': Block, b: int, n: int, o: nat)
    requires Copied(m, a, m', b, n) && o < n
    ensures 0 <= a + o < |m| && 0 <= b + o < |m'| && m'[b + o] == m[a + o]
  {
    assert m'[b..b + n][o] == m'[b + o];
    assert m[a..a + n][o] == m[a + o];
  }

  lemma PokedMatches(m: Block, m': Block, p: Pointer, c: Chunk, offset: nat, value: Byte)
    requires MatchesAt(m, p, c) && offset < p.size && 0 <= p.at + offset < |m| && m' == m[p.at + offset := value]
    ensures MatchesAt(m', p.(written := p.written[offset := value]), c)
  {
  }

  /** The request of the operation, if it is one whose sums wrap. */
  predicate Overruns(gs: seq<Region>, op: Op, held: nat) {
    match op
    case Alloc(size, _, _) => Wraps(gs, size)
    case Resize(k, size, _, _) => k < held && Wraps(gs, size)
    case _ => false
  }

  /** A state of a run: memory, regions and the blocks that tile them, what the program has, and which payloads that is. */
  datatype View = View(m: Block, gs: seq<Region>, lay: seq<seq<Blk>>, ps: seq<Pointer>, cs: seq<Chunk>)

  ghost predicate InOrder(v: View) {
    AllOk(v.m, v.gs, v.lay) && Holds(v.gs, v.lay, v.cs) && Matches(v.m, v.ps, v.cs)
  }

  /** A request for `size` bytes cannot be met. */
  ghost predicate NotMet(v: View, size: nat, first: int, second: int) {
    size > MAX_REQUEST || NoRoom(v.gs, v.lay, Need(size), first, second)
  }

  /** The answer `a` is no address exactly when it cannot be one, and the program has what it should have then. */
  ghost predicate Explained(op: Op, a: int, v: View, v': View) {
    && v'.ps == After(v.ps, op, a) && (a < 0 ==> v' == v)
    && match op
       case Alloc(size, first, second) =>
         && (a < 0 <==> !Kernel(v.gs, size, first, second)) && (a >= 0 ==> (a == 0 <==> NotMet(v, size, first, second)))
         && (a > 0 ==> exists c: Chunk :: c.at == a && FirstFit(v.gs, v.lay, v'.gs, v'.lay, Need(size), c))
       case Resize(k, size, first, second) =>
         if k < |v.ps| then
           && (a < 0 <==> !Kernel(v.gs, size, first, second))
           && (a >= 0 ==> (a == 0 <==> size == 0 || NotMet(v, size, first, second)))
         else a == 0
       case _ => a == 0 && SameCarved(v.gs, v'.gs)
  }

  /**
    Every run of requests, releases, resizings and writes into what is held keeps every region in order, what is live
    is exactly what the program holds, every byte the program wrote there is still what it wrote last, and a request is
    refused exactly when there is no room for it. The run stops at a request for which a sum wraps, which `Malloc` says
    is what breaks the heap. A request that the kernel would answer with memory in use is passed over, as is an operation
    on a pointer the program does not have.
   */
  method Run(h: Heap, ops: seq<Op>) returns (done: nat, ps: seq<Pointer>, ghost answers: seq<int>, ghost trace: seq<View>)
    requires h.Valid() && forall c :: !Live(h.regions, h.lay, c)
    modifies h
    ensures h.Valid() && done <= |ops| && (done < |ops| ==> Overruns(h.regions, ops[done], |ps|))
    ensures |answers| == done && |trace| == done + 1 && ps == Tracked(ops[..done], answers)
    ensures trace[0] == View(old(h.mem), old(h.regions), old(h.lay), [], [])
    ensures trace[done] == View(h.mem, h.regions, h.lay, ps, trace[done].cs)
    ensures forall k :: 0 <= k <= done ==> InOrder(trace[k])
    ensures forall k :: 0 <= k < done ==> Explained(ops[k], answers[k], trace[k], trace[k + 1])
  {
    hide AllOk, Live, Holds, Kept, Matches, Tracked, After, Explained;
    ps, answers := [], [];
    done := 0;
    TrackedNone(ops);
    HoldsNothing(h.regions, h.lay);
    NothingMatches(h.mem);
    ghost var cs := [];
    trace := [View(h.mem, h.regions, h.lay, ps, cs)];
    while done < |ops| && !Overruns(h.regions, ops[done], |ps|)
      invariant done <= |ops| && |answers| == done && |trace| == done + 1 && ps == Tracked(ops[..done], answers)
      invariant trace[0] == View(old(h.mem), old(h.regions), old(h.lay), [], [])
      invariant trace[done] == View(h.mem, h.regions, h.lay, ps, cs)
      invariant forall k :: 0 <= k <= done ==> InOrder(trace[k])
      invariant forall k :: 0 <= k < done ==> Explained(ops[k], answers[k], trace[k], trace[k + 1])
    {
      ghost var a;
      assert InOrder(trace[done]);
      ps, cs, a := Step(h, ops[done], ps, cs);
      TrackedNext(ops, answers, done, a);
      answers := answers + [a];
      trace := trace + [View(h.mem, h.regions, h.lay, ps, cs)];
      done := done + 1;
    }
  }

  lemma TrackedNone(ops: seq<Op>)
    ensures Tracked(ops[..0], []) == []
  {
  }

  lemma NothingMatches(m: Block)
    ensures Matches(m, [], [])
  {
  }

  lemma HoldsNothing(gs: seq<Region>, lay: seq<seq<Blk>>)
    requires forall c :: !Live(gs, lay, c)
    ensures Holds(gs, lay, [])
  {
    hide Live;
  }

  lemma Held(gs: seq<Region>, lay: seq<seq<Blk>>, cs: seq<Chunk>, k: nat)
    requires Holds(gs, lay, cs) && k < |cs|
    ensures Live(gs, lay, cs[k]) && forall i :: 0 <= i < |cs| && i != k ==> Live(gs, lay, cs[i]) && cs[i] != cs[k]
  {
    hide Live;
  }

  lemma AllHeld(gs: seq<Region>, lay: seq<seq<Blk>>, cs: seq<Chunk>)
    requires Holds(gs, lay, cs)
    ensures forall i :: 0 <= i < |cs| ==> Live(gs, lay, cs[i])
  {
    hide Live;
  }

  lemma HoldsSame(gs: seq<Region>, lay: seq<seq<Blk>>, gs': seq<Region>, lay': seq<seq<Blk>>, cs: seq<Chunk>)
    requires Holds(gs, lay, cs) && forall d :: Live(gs', lay', d) <==> Live(gs, lay, d)
    ensures Holds(gs', lay', cs)
  {
    hide Live;
  }

  /** One operation of a run. */
  method Step(h: Heap, op: Op, ps: seq<Pointer>, ghost cs: seq<Chunk>) returns (ps': seq<Pointer>, ghost cs': seq<Chunk>, ghost a: int)
    requires h.Valid() && Holds(h.regions, h.lay, cs) && Matches(h.mem, ps, cs) && !Overruns(h.regions, op, |ps|)
    modifies h
    ensures h.Valid() && Holds(h.regions, h.lay, cs') && Matches(h.mem, ps', cs')
    ensures ps' == After(ps, op, a)
    ensures Explained(op, a, old(View(h.mem, h.regions, h.lay, ps, cs)), View(h.mem, h.regions, h.lay, ps', cs'))
  {
    hide AllOk, Live, Holds, Kept, Kernel, Wraps, NoRoom, Disjoint, MatchesAt, Copied, Cut, Served, Spoilt, After;
    match op
    case Alloc(size, first, second) => ps', cs', a := StepAlloc(h, size, first, second, ps, cs);
    case Release(k) => ps', cs', a := StepRelease(h, k, ps, cs);
    case Resize(k, size, first, second) => ps', cs', a := StepResize(h, k, size, first, second, ps, cs);
    case Poke(k, offset, value) => ps', cs', a := StepPoke(h, k, offset, value, ps, cs);
  }

  method StepAlloc(h: Heap, size: nat, first: int, second: int, ps: seq<Pointer>, ghost cs: seq<Chunk>)
    returns (ps': seq<Pointer>, ghost cs': seq<Chunk>, ghost a: int)
    requires h.Valid() && Holds(h.regions, h.lay, cs) && Matches(h.mem, ps, cs) && !Wraps(h.regions, size)
    modifies h
    ensures h.Valid() && Holds(h.regions, h.lay, cs') && Matches(h.mem, ps', cs')
    ensures Explained(Alloc(size, first, second), a, old(View(h.mem, h.regions, h.lay, ps, cs)), View(h.mem, h.regions, h.lay, ps', cs'))
  {
    hide AllOk, Live, Holds, Kept, Kernel, Wraps, NoRoom, Disjoint, MatchesAt, Served, Spoilt, FirstFit, Need;
    ps', cs', a := ps, cs, -1;
    ghost var g, l, m := h.regions, h.lay, h.mem;
    if Kernel(h.regions, size, first, second) {
      var p;
      ghost var c;
      p, c := h.Malloc(size, first, second);
      a := p;
      if p != 0 {
        NewAt(h.mem, h.regions, h.lay, c);
        AllHeld(g, l, cs);
        Added(g, l, h.regions, h.lay, cs, c);
        StillMatches(m, h.mem, ps, cs, |cs|);
        NewMatches(h.mem, p, size, c);
        ps', cs' := ps + [Pointer(p, size, map[])], cs + [c];
      } else {
        HoldsSame(g, l, h.regions, h.lay, cs);
      }
    }
  }

  lemma NewAt(m: Block, gs: seq<Region>, lay: seq<seq<Blk>>, c: Chunk)
    requires AllOk(m, gs, lay) && Live(gs, lay, c)
    ensures c.at > 0
  {
    hide AllOk, Live;
    LivePlace(m, gs, lay, c);
  }

  lemma NewMatches(m: Block, p: int, size: nat, c: Chunk)
    requires p == c.at && size <= c.len < Need(size) - 8 + 16
    ensures MatchesAt(m, Pointer(p, size, map[]), c)
  {
  }

  method StepRelease(h: Heap, k: nat, ps: seq<Pointer>, ghost cs: seq<Chunk>)
    returns (ps': seq<Pointer>, ghost cs': seq<Chunk>, ghost a: int)
    requires h.Valid() && Holds(h.regions, h.lay, cs) && Matches(h.mem, ps, cs)
    modifies h
    ensures h.Valid() && Holds(h.regions, h.lay, cs') && Matches(h.mem, ps', cs')
    ensures Explained(Release(k), a, old(View(h.mem, h.regions, h.lay, ps, cs)), View(h.mem, h.regions, h.lay, ps', cs'))
  {
    hide AllOk, Live, Holds, Kept;
    ps', cs', a := ps, cs, 0;
    ghost var g, l, m := h.regions, h.lay, h.mem;
    if k < |ps| {
      assert MatchesAt(m, ps[k], cs[k]);
      hide MatchesAt;
      Held(g, l, cs, k);
      OneAt(h.mem, g, l, cs[k]);
      h.Free(ps[k].at);
      Dropped(g, l, h.regions, h.lay, cs, k);
      StillMatches(m, h.mem, ps, cs, k);
      DropMatches(h.mem, ps, cs, k);
      ps', cs' := ps[..k] + ps[k + 1..], cs[..k] + cs[k + 1..];
    }
  }

  lemma DropMatches(m: Block, ps: seq<Pointer>, cs: seq<Chunk>, k: nat)
    requires |ps| == |cs| && k < |ps| && forall i :: 0 <= i < |ps| && i != k ==> MatchesAt(m, ps[i], cs[i])
    ensures Matches(m, ps[..k] + ps[k + 1..], cs[..k] + cs[k + 1..])
  {
    hide MatchesAt;
  }

  method StepResize(h: Heap, k: nat, size: nat, first: int, second: int, ps: seq<Pointer>, ghost cs: seq<Chunk>)
    returns (ps': seq<Pointer>, ghost cs': seq<Chunk>, ghost a: int)
    requires h.Valid() && Holds(h.regions, h.lay, cs) && Matches(h.mem, ps, cs)
    requires k < |ps| ==> !Wraps(h.regions, size)
    modifies h
    ensures h.Valid() && Holds(h.regions, h.lay, cs') && Matches(h.mem, ps', cs')
    ensures Explained(Resize(k, size, first, second), a, old(View(h.mem, h.regions, h.lay, ps, cs)), View(h.mem, h.regions, h.lay, ps', cs'))
  {
    hide AllOk, Live, Holds, Kept, Kernel, Wraps, NoRoom, Disjoint, Copied, Cut, Spoilt;
    ps', cs', a := ps, cs, if k < |ps| then -1 else 0;
    ghost var g, l, m := h.regions, h.lay, h.mem;
    if k < |ps| && Kernel(h.regions, size, first, second) {
      assert MatchesAt(m, ps[k], cs[k]);
      hide MatchesAt;
      Held(g, l, cs, k);
      LivePlace(h.mem, g, l, cs[k]);
      var p;
      ghost var c;
      p, c := h.Realloc(ps[k].at, size, first, second, cs[k]);
      a := p;
      if p != 0 {
        NewAt(h.mem, h.regions, h.lay, c);
        Replaced(g, l, h.regions, h.lay, cs, k, c);
        StillMatches(m, h.mem, ps, cs, k);
        MovedMatches(m, h.mem, ps[k], cs[k], p, c, size);
        ps', cs' := ps[k := Pointer(p, size, Cut(ps[k].written, size))], cs[k := c];
      } else if size == 0 {
        Dropped(g, l, h.regions, h.lay, cs, k);
        StillMatches(m, h.mem, ps, cs, k);
        DropMatches(h.mem, ps, cs, k);
        ps', cs' := ps[..k] + ps[k + 1..], cs[..k] + cs[k + 1..];
      } else {
        HoldsSame(g, l, h.regions, h.lay, cs);
        StillMatches(m, h.mem, ps, cs, |cs|);
      }
    }
  }

  method StepPoke(h: Heap, k: nat, offset: nat, value: Byte, ps: seq<Pointer>, ghost cs: seq<Chunk>)
    returns (ps': seq<Pointer>, ghost cs': seq<Chunk>, ghost a: int)
    requires h.Valid() && Holds(h.regions, h.lay, cs) && Matches(h.mem, ps, cs)
    modifies h
    ensures h.Valid() && Holds(h.regions, h.lay, cs') && Matches(h.mem, ps', cs')
    ensures Explained(Poke(k, offset, value), a, old(View(h.mem, h.regions, h.lay, ps, cs)), View(h.mem, h.regions, h.lay, ps', cs'))
  {
    hide AllOk, Live, Holds, Kept;
    ps', cs', a := ps, cs, 0;
    ghost var g, l, m := h.regions, h.lay, h.mem;
    if k < |ps| && offset < ps[k].size {
      assert MatchesAt(m, ps[k], cs[k]);
      hide MatchesAt;
      Held(g, l, cs, k);
      h.PutByte(cs[k], ps[k].at + offset, value);
      StillMatches(m, h.mem, ps, cs, k);
      PokedMatches(m, h.mem, ps[k], cs[k], offset, value);
      ps' := ps[k := ps[k].(written := ps[k].written[offset := value])];
    }
  }
}
