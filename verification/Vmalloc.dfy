/** Kernel virtual memory by the page: the table of free ranges, and the pages mapped. Addresses are page numbers. */
module Vmalloc {
  const FREE_MAX := 256
  /** The end of the heap, as a page number. */
  const END := 0xC0800
  /** One past the last page of the address space. */
  const SPACE := 0x10_0000
  const MAX_PAGES := 65536

  datatype Range = Range(lo: nat, n: nat) {
    function End(): nat {
      lo + n
    }

    predicate Has(p: int) {
      lo <= p < lo + n
    }
  }

  /** The ranges neither overlap nor touch. */
  predicate Apart(a: Range, b: Range) {
    a.End() < b.lo || b.End() < a.lo
  }

  predicate AllApart(es: seq<Range>) {
    forall i, j :: 0 <= i < j < |es| ==> Apart(es[i], es[j])
  }

  /** No range is empty, and none reaches to the end of the address space. */
  predicate Proper(es: seq<Range>) {
    forall i :: 0 <= i < |es| ==> es[i].n > 0 && es[i].lo > 0 && es[i].End() < SPACE
  }

  predicate InOne(es: seq<Range>, p: int) {
    exists i :: 0 <= i < |es| && es[i].Has(p)
  }

  /** A table without entry `i`, the last one put in its place. */
  function Swapped(es: seq<Range>, i: nat): (r: seq<Range>)
    requires i < |es|
    ensures |r| == |es| - 1
  {
    es[i := es[|es| - 1]][..|es| - 1]
  }

  lemma SwappedHas(es: seq<Range>, i: nat)
    requires i < |es|
    ensures forall p :: InOne(es, p) <==> InOne(Swapped(es, i), p) || es[i].Has(p)
    ensures AllApart(es) ==> AllApart(Swapped(es, i))
    ensures Proper(es) ==> Proper(Swapped(es, i))
  {
    var r := Swapped(es, i);
    forall p
      ensures InOne(es, p) <==> InOne(r, p) || es[i].Has(p)
    {
      if InOne(es, p) && !es[i].Has(p) {
        var k :| 0 <= k < |es| && es[k].Has(p);
        assert r[if k == |es| - 1 then i else k].Has(p);
      }
      if InOne(r, p) {
        var k :| 0 <= k < |r| && r[k].Has(p);
        assert es[if k == i then |es| - 1 else k].Has(p);
      }
    }
    if AllApart(es) {
      forall a, b | 0 <= a < b < |r|
        ensures Apart(r[a], r[b])
      {
        assert Apart(es[a], es[b]);
        assert Apart(es[a], es[|es| - 1]) && Apart(es[b], es[|es| - 1]);
      }
    }
  }

  lemma AddedHas(es: seq<Range>, e: Range)
    ensures forall p :: InOne(es + [e], p) <==> InOne(es, p) || e.Has(p)
    ensures AllApart(es) && (forall i :: 0 <= i < |es| ==> Apart(es[i], e)) ==> AllApart(es + [e])
    ensures Proper(es) && e.n > 0 && e.lo > 0 && e.End() < SPACE ==> Proper(es + [e])
  {
    var r := es + [e];
    forall p
      ensures InOne(r, p) <==> InOne(es, p) || e.Has(p)
    {
      if InOne(es, p) {
        var k :| 0 <= k < |es| && es[k].Has(p);
        assert r[k].Has(p);
      }
      if e.Has(p) {
        assert r[|es|].Has(p);
      }
    }
  }

  /** Ranges that overlap or touch make one range of exactly their pages. */
  lemma Coalesced(a: Range, b: Range)
    requires !Apart(a, b)
    ensures var lo := if b.lo < a.lo then b.lo else a.lo;
            var hi := if b.End() > a.End() then b.End() else a.End();
            lo <= hi && forall p :: Range(lo, hi - lo).Has(p) <==> a.Has(p) || b.Has(p)
  {
  }

  /** A range that begins at `lo` is the first of the shortest that are long enough. */
  ghost predicate BestFit(es: seq<Range>, n: nat, lo: nat) {
    exists i :: 0 <= i < |es| && es[i].lo == lo && FitsBest(es, n, i)
  }

  /** The range is the front of the best fit, and only it is gone from the table, or, when none fits, lies at the frontier. */
  ghost predicate TakenFrom(es: seq<Range>, next: nat, es': seq<Range>, next': nat, n: nat, lo: nat) {
    if forall i :: 0 <= i < |es| ==> es[i].n < n then
      es' == es && lo == next && next' == next + n
    else
      && BestFit(es, n, lo) && next' == next
      && forall p :: InOne(es', p) <==> InOne(es, p) && !(lo <= p < lo + n)
  }

  ghost predicate FitsBest(es: seq<Range>, n: nat, i: nat)
    requires i < |es|
  {
    && es[i].n >= n && (forall j :: 0 <= j < |es| && es[j].n >= n ==> es[i].n <= es[j].n)
    && forall j :: 0 <= j < i && es[j].n >= n ==> es[i].n < es[j].n
  }

  /** The pages of the table and of the range being put in are those of before and of the range given. */
  ghost predicate SamePages(es: seq<Range>, r: Range, es0: seq<Range>, r0: Range) {
    forall p :: InOne(es, p) || r.Has(p) <==> InOne(es0, p) || r0.Has(p)
  }

  lemma SameStart(es: seq<Range>, r: Range)
    ensures SamePages(es, r, es, r)
  {
  }

  /** The smallest range around two. */
  function Around(a: Range, b: Range): Range {
    var lo := if b.lo < a.lo then b.lo else a.lo;
    var hi := if b.End() > a.End() then b.End() else a.End();
    Range(lo, if hi < lo then 0 else hi - lo)
  }

  /** One entry taken in: the others are still apart, and the pages are the same. */
  lemma TakenIn(es: seq<Range>, i: nat, r: Range, es0: seq<Range>, r0: Range)
    requires AllApart(es) && Proper(es) && i < |es| && !Apart(es[i], r) && SamePages(es, r, es0, r0)
    requires 0 < r.lo && r.n > 0 && r.End() < SPACE
    ensures var es', r' := Swapped(es, i), Around(r, es[i]);
            && AllApart(es') && Proper(es') && SamePages(es', r', es0, r0) && 0 < r'.lo && r'.n > 0 && r'.End() < SPACE
  {
    hide InOne, AllApart;
    SwappedHas(es, i);
    Coalesced(r, es[i]);
  }

  /** Some range of the table overlaps or touches `r`. */
  predicate Meets(es: seq<Range>, r: Range) {
    exists i :: 0 <= i < |es| && !Apart(es[i], r)
  }

  /**
    Every page from `start` to `next` is mapped, in the table, or in the range `held` that is in between, each in one
    of them only; unless a range has been lost.
   */
  ghost predicate Accounted(start: nat, next: nat, es: seq<Range>, mapped: set<nat>, held: Range, lost: bool) {
    && (forall p: nat :: InOne(es, p) ==> start <= p < next && p !in mapped && !held.Has(p))
    && (forall p: nat :: p in mapped ==> start <= p < next && !held.Has(p))
    && (forall p: nat :: held.Has(p) ==> start <= p < next)
    && (!lost ==> forall p: nat :: start <= p < next ==> p in mapped || InOne(es, p) || held.Has(p))
  }

  /** No request for `n` pages can be met: it is empty or too long, or neither the table nor the rest of the heap has room. */
  ghost predicate NoSpace(es: seq<Range>, next: nat, n: nat) {
    || n == 0 || n > MAX_PAGES
    || ((forall i :: 0 <= i < |es| ==> es[i].n < n) && (next > END || n > END - next))
  }

  /** The table has no pages but those it had and those of `r`. */
  ghost predicate NoMore(es': seq<Range>, es: seq<Range>, r: Range) {
    forall p: nat :: InOne(es', p) ==> InOne(es, p) || r.Has(p)
  }

  /** It has just those. */
  ghost predicate Just(es': seq<Range>, es: seq<Range>, r: Range) {
    forall p: nat :: InOne(es', p) <==> InOne(es, p) || r.Has(p)
  }

  lemma TakenOut(start: nat, next: nat, es: seq<Range>, es': seq<Range>, mapped: set<nat>, held: Range, lost: bool)
    requires Accounted(start, next, es, mapped, Range(0, 0), lost)
    requires forall p: nat :: InOne(es', p) <==> InOne(es, p) && !held.Has(p)
    requires forall p: nat :: held.Has(p) ==> InOne(es, p)
    ensures Accounted(start, next, es', mapped, held, lost)
  {
    hide InOne;
  }

  lemma NeverUsed(start: nat, next: nat, es: seq<Range>, mapped: set<nat>, n: nat, lost: bool)
    requires Accounted(start, next, es, mapped, Range(0, 0), lost) && start <= next
    ensures Accounted(start, next + n, es, mapped, Range(next, n), lost)
  {
    hide InOne;
  }

  lemma NowMapped(start: nat, next: nat, es: seq<Range>, mapped: set<nat>, mapped': set<nat>, held: Range, lost: bool)
    requires Accounted(start, next, es, mapped, held, lost) && forall p: nat :: p in mapped' <==> p in mapped || held.Has(p)
    ensures Accounted(start, next, es, mapped', Range(0, 0), lost)
  {
    hide InOne;
  }

  lemma PutBack(start: nat, next: nat, es: seq<Range>, es': seq<Range>, mapped: set<nat>, held: Range, lost: bool, lost': bool)
    requires Accounted(start, next, es, mapped, held, lost)
    requires NoMore(es', es, held) && (!lost' ==> !lost && Just(es', es, held))
    ensures Accounted(start, next, es', mapped, Range(0, 0), lost')
  {
    hide InOne;
  }

  /** A page that was mapped is in between. */
  lemma Unmapped(start: nat, next: nat, es: seq<Range>, mapped: set<nat>, page: nat, lost: bool)
    requires Accounted(start, next, es, mapped, Range(0, 0), lost) && page in mapped
    ensures Accounted(start, next, es, mapped - {page}, Range(page, 1), lost)
  {
    hide InOne;
  }

  class VirtualMemory {
    const table: array<Range>
    var count: nat
    /** The first page never handed out. */
    var next: nat
    /** Pages mapped by this allocator. */
    var mapped: set<nat>
    /** A range has been lost to a full table. */
    ghost var lost: bool
    /** Where the heap begins. */
    const start: nat

    ghost function Free(): seq<Range>
      reads this, table
      requires count <= table.Length
    {
      table[..count]
    }

    ghost predicate Valid()
      reads this, table
    {
      && table.Length == FREE_MAX && count <= FREE_MAX && 0 < start <= next < SPACE
      && AllApart(Free()) && Proper(Free())
      && Accounted(start, next, Free(), mapped, Range(0, 0), lost)
    }

    /** `vmalloc_init`, `kernelEnd` being the page after the kernel. */
    constructor (kernelEnd: nat)
      requires kernelEnd < SPACE
      ensures Valid() && fresh(table) && mapped == {} && Free() == []
    {
      table := new Range[FREE_MAX](_ => Range(0, 0));
      count := 0;
      next := if kernelEnd == 0 then 1 else kernelEnd;
      start := if kernelEnd == 0 then 1 else kernelEnd;
      mapped := {};
      lost := false;
    }

    /** A request of `n` pages that is refused, frames or not. */
    ghost predicate Refused(n: nat)
      reads this, table
      requires count <= table.Length
    {
      NoSpace(Free(), next, n)
    }

    /**
      `vmfree_insert`: the range goes in, made one with every range it meets, and with those that meet the result.
      It is lost exactly when the table is full and the range meets none of its entries.
     */
    method Insert(lo0: nat, n0: nat)
      requires table.Length == FREE_MAX && count <= FREE_MAX && AllApart(Free()) && Proper(Free())
      requires 0 < lo0 && lo0 + n0 < SPACE
      modifies table, this`count
      ensures count <= FREE_MAX && AllApart(Free()) && Proper(Free()) && (n0 == 0 ==> Free() == old(Free()))
      ensures if n0 > 0 && old(count) == FREE_MAX && !Meets(old(Free()), Range(lo0, n0)) then Free() == old(Free())
              else forall p :: InOne(Free(), p) <==> old(InOne(Free(), p)) || Range(lo0, n0).Has(p)
    {
      hide InOne, AllApart, Proper, SamePages;
      if n0 == 0 {
        return;
      }
      ghost var es0 := Free();
      var lo, hi := lo0, lo0 + n0;
      SameStart(es0, Range(lo, hi - lo));
      var i := 0;
      while i < count
        invariant i <= count <= old(count) && lo < hi < SPACE && 0 < lo
        invariant AllApart(Free()) && Proper(Free())
        invariant forall j :: 0 <= j < i ==> Apart(Free()[j], Range(lo, hi - lo))
        invariant SamePages(Free(), Range(lo, hi - lo), es0, Range(lo0, n0))
        invariant count == old(count) ==> Free() == es0 && lo == lo0 && hi == lo0 + n0
        invariant count < old(count) ==> Meets(es0, Range(lo0, n0))
        decreases count, count - i
      {
        var start, end := table[i].lo, table[i].lo + table[i].n;
        ghost var es, r := Free(), Range(lo, hi - lo);
        if end >= lo && start <= hi {
          TakenIn(es, i, r, es0, Range(lo0, n0));
          if start < lo {
            lo := start;
          }
          if end > hi {
            hi := end;
          }
          count := count - 1;
          table[i] := table[count];
          assert Free() == Swapped(es, i);
          i := 0;
        } else {
          i := i + 1;
        }
      }
      ghost var es, r := Free(), Range(lo, hi - lo);
      PutIn(es, r, es0, Range(lo0, n0));
      if count >= FREE_MAX {
        return;
      }
      table[count] := Range(lo, hi - lo);
      count := count + 1;
      assert Free() == es + [r];
    }

    /** The first of the smallest ranges that are long enough, or less than zero. */
    method Best(n: nat) returns (best: int)
      requires count <= table.Length
      ensures -1 <= best < count
      ensures best < 0 <==> forall i :: 0 <= i < count ==> table[i].n < n
      ensures best >= 0 ==> FitsBest(Free(), n, best)
    {
      best := -1;
      for i := 0 to count
        invariant -1 <= best < i
        invariant best < 0 ==> forall j :: 0 <= j < i ==> table[j].n < n
        invariant best >= 0 ==>
                    && table[best].n >= n && (forall j :: 0 <= j < i && table[j].n >= n ==> table[best].n <= table[j].n)
                    && forall j :: 0 <= j < best && table[j].n >= n ==> table[best].n < table[j].n
      {
        if table[i].n >= n && (best < 0 || table[i].n < table[best].n) {
          best := i;
        }
      }
    }

    /** `vmfree_take`: the first of the smallest ranges long enough gives up its front, or all of itself. */
    method Take(n: nat) returns (lo: nat)
      requires table.Length == FREE_MAX && count <= FREE_MAX && AllApart(Free()) && Proper(Free()) && n > 0
      modifies table, this`count
      ensures count <= FREE_MAX && AllApart(Free()) && Proper(Free())
      ensures lo == 0 <==> old(forall i :: 0 <= i < count ==> table[i].n < n)
      ensures lo == 0 ==> Free() == old(Free())
      ensures lo != 0 ==> BestFit(old(Free()), n, lo) && lo + n < SPACE
      ensures count <= old(count)
      ensures lo != 0 ==> (forall p :: lo <= p < lo + n ==> old(InOne(Free(), p)))
      ensures lo != 0 ==> forall p :: InOne(Free(), p) <==> old(InOne(Free(), p)) && !(lo <= p < lo + n)
    {
      hide InOne;
      var best := Best(n);
      if best < 0 {
        return 0;
      }
      ghost var es := Free();
      ghost var b := table[best];
      lo := table[best].lo;
      Outside(es, best);
      if table[best].n == n {
        SwappedHas(es, best);
        count := count - 1;
        table[best] := table[count];
        assert Free() == Swapped(es, best);
      } else {
        FrontGone(es, best, n);
        table[best] := Range(table[best].lo + n, table[best].n - n);
        assert Free() == es[best := Range(b.lo + n, b.n - n)];
      }
      assert es[best] == b;
    }

    /** A range goes back into the table, and `lost` tells if it did not. */
    method GiveBack(lo: nat, n: nat)
      requires table.Length == FREE_MAX && count <= FREE_MAX && AllApart(Free()) && Proper(Free())
      requires 0 < lo && lo + n < SPACE
      modifies table, this`count, this`lost
      ensures count <= FREE_MAX && AllApart(Free()) && Proper(Free())
      ensures NoMore(Free(), old(Free()), Range(lo, n)) && (!lost ==> !old(lost) && Just(Free(), old(Free()), Range(lo, n)))
      ensures n == 0 ==> Free() == old(Free())
      ensures lost <==> old(lost) || (n > 0 && old(count) == FREE_MAX && !Meets(old(Free()), Range(lo, n)))
    {
      hide InOne, AllApart, Proper, Meets;
      lost := lost || (n > 0 && count == FREE_MAX && !Meets(Free(), Range(lo, n)));
      Insert(lo, n);
    }

    /**
      `vmalloc_pages`: pages given back first, then pages never used. What is handed out was not mapped, and is mapped
      now and no longer free. When the `frames` there are run out on the way, everything mapped so far is unmapped and
      the whole range goes into the table.
     */
    method Pages(n: nat, frames: nat) returns (base: nat)
      requires Valid()
      modifies this, table
      ensures Valid() && start <= next && old(next) <= next
      ensures base == 0 <==> old(Refused(n)) || frames < n
      ensures old(Refused(n)) ==> Free() == old(Free()) && next == old(next) && lost == old(lost)
      ensures base == 0 ==> mapped == old(mapped)
      ensures base != 0 ==> TakenFrom(old(Free()), old(next), Free(), next, n, base)
      ensures lost ==> old(lost) || (base == 0 && old(count) == FREE_MAX)
      ensures base != 0 ==> (forall p :: p in mapped <==> p in old(mapped) || base <= p < base + n)
      ensures base != 0 ==> forall p :: base <= p < base + n ==> p !in old(mapped)
    {
      hide InOne, AllApart, Proper, Meets, Refused, Accounted, TakenFrom;
      base := Reserve(n);
      if base == 0 {
        return;
      }
      InBetween(start, next, Free(), mapped, Range(base, n), lost);
      ghost var es, was := Free(), mapped;
      var got := MapFrames(base, n, frames);
      if got == n {
        NowMapped(start, next, es, was, mapped, Range(base, n), lost);
      } else {
        Unmap(base, got);
        assert mapped == was;
        Return(base, got, n);
        return 0;
      }
    }

    /** The unwinding: the two parts of the range go back, the part that was mapped first. */
    method Return(base: nat, got: nat, n: nat)
      requires table.Length == FREE_MAX && count <= FREE_MAX && AllApart(Free()) && Proper(Free())
      requires 0 < base && base + n < SPACE && got < n && Accounted(start, next, Free(), mapped, Range(base, n), lost)
      modifies table, this`count, this`lost
      ensures count <= FREE_MAX && AllApart(Free()) && Proper(Free())
      ensures Accounted(start, next, Free(), mapped, Range(0, 0), lost)
      ensures lost ==> old(lost) || old(count) == FREE_MAX
    {
      hide InOne, AllApart, Proper, Meets, Accounted;
      ghost var es, l := Free(), lost;
      GiveBack(base, got);
      ghost var es1, l1 := Free(), lost;
      assert got > 0 ==> Range(base, got).Has(base + got - 1);
      NextMeets(Free(), base, got, n - got);
      GiveBack(base + got, n - got);
      TwoParts(es, es1, Free(), base, got, n);
      PutBack(start, next, es, Free(), mapped, Range(base, n), l, lost);
    }

    /** A run of `n` page numbers that are neither mapped nor, from now on, free: out of the table, or never used. */
    method Reserve(n: nat) returns (base: nat)
      requires Valid()
      modifies table, this`count, this`next
      ensures count <= old(count) && AllApart(Free()) && Proper(Free()) && old(next) <= next < SPACE
      ensures base == 0 <==> old(Refused(n))
      ensures base == 0 ==> Free() == old(Free()) && next == old(next)
      ensures base != 0 ==> TakenFrom(old(Free()), old(next), Free(), next, n, base)
      ensures base != 0 ==> base + n < SPACE && Accounted(start, next, Free(), mapped, Range(base, n), lost)
    {
      hide InOne, AllApart, Proper, BestFit, Accounted;
      if n == 0 || n > MAX_PAGES {
        return 0;
      }
      ghost var es := Free();
      base := Take(n);
      if base == 0 {
        if next > END || n > END - next {
          return 0;
        }
        base := next;
        NeverUsed(start, next, es, mapped, n, lost);
        next := next + n;
      } else {
        TakenOut(start, next, es, Free(), mapped, Range(base, n), lost);
      }
    }

    /** Maps the pages one by one while there are frames. */
    method MapFrames(base: nat, n: nat, frames: nat) returns (got: nat)
      modifies this`mapped
      ensures got == if frames < n then frames else n
      ensures forall p :: p in mapped <==> p in old(mapped) || base <= p < base + got
    {
      for i := 0 to n
        invariant i <= frames && forall p :: p in mapped <==> p in old(mapped) || base <= p < base + i
      {
        if i == frames {
          return i;
        }
        mapped := mapped + {base + i};
      }
      return n;
    }

    method Unmap(base: nat, n: nat)
      modifies this`mapped
      ensures forall p :: p in mapped <==> p in old(mapped) && !(base <= p < base + n)
    {
      for i := 0 to n
        invariant forall p :: p in mapped <==> p in old(mapped) && !(base <= p < base + i)
      {
        mapped := mapped - {base + i};
      }
    }

    /** `vmalloc_free` of a page: nothing, if it is not mapped. */
    method FreePage(page: nat)
      requires Valid()
      modifies this, table
      ensures Valid() && mapped == old(mapped) - {page} && next == old(next)
    {
      hide InOne, AllApart, Proper, Accounted;
      if page !in mapped {
        return;
      }
      Unmapped(start, next, Free(), mapped, page, lost);
      InBetween(start, next, Free(), mapped - {page}, Range(page, 1), lost);
      ghost var es, l := Free(), lost;
      mapped := mapped - {page};
      GiveBack(page, 1);
      PutBack(start, next, es, Free(), mapped, Range(page, 1), l, lost);
    }

    /** `vmalloc_free_pages`. */
    method FreePages(base: nat, n: nat)
      requires Valid()
      modifies this, table
      ensures Valid() && next == old(next) && forall p :: p in mapped <==> p in old(mapped) && !(base <= p < base + n)
    {
      hide InOne, AllApart, Proper, Apart;
      for i := 0 to n
        invariant Valid() && next == old(next)
        invariant forall p :: p in mapped <==> p in old(mapped) && !(base <= p < base + i)
      {
        FreePage(base + i);
      }
    }
  }

  lemma InBetween(start: nat, next: nat, es: seq<Range>, mapped: set<nat>, held: Range, lost: bool)
    requires Accounted(start, next, es, mapped, held, lost)
    ensures forall p: nat :: held.Has(p) ==> p !in mapped && start <= p < next
  {
    hide InOne;
  }

  lemma TwoParts(es: seq<Range>, es1: seq<Range>, es2: seq<Range>, base: nat, got: nat, n: nat)
    requires got <= n
    ensures var a, b, all := Range(base, got), Range(base + got, n - got), Range(base, n);
            && (NoMore(es1, es, a) && NoMore(es2, es1, b) ==> NoMore(es2, es, all))
            && (Just(es1, es, a) && Just(es2, es1, b) ==> Just(es2, es, all))
  {
    hide InOne;
  }

  /** What comes right behind a range that is free meets its entry. */
  lemma NextMeets(es: seq<Range>, lo: nat, i: nat, rest: nat)
    ensures i > 0 && InOne(es, lo + i - 1) ==> Meets(es, Range(lo + i, rest))
  {
    if i > 0 && InOne(es, lo + i - 1) {
      var k :| 0 <= k < |es| && es[k].Has(lo + i - 1);
      assert !Apart(es[k], Range(lo + i, rest));
    }
  }

  datatype Op = Get(n: nat, frames: nat) | Put(k: nat)

  /** The ranges held are mapped, and no two of them share a page. */
  ghost predicate Live(held: seq<Range>, mapped: set<nat>) {
    && (forall i, p: nat :: 0 <= i < |held| && held[i].Has(p) ==> p in mapped)
    && (forall i, j, p :: 0 <= i < |held| && 0 <= j < |held| && i != j && held[i].Has(p) ==> !held[j].Has(p))
  }

  lemma LiveMore(held: seq<Range>, mapped: set<nat>, mapped': set<nat>, r: Range)
    requires Live(held, mapped) && (forall p :: p in mapped' <==> p in mapped || r.Has(p))
    requires forall p: nat :: r.Has(p) ==> p !in mapped
    ensures Live(held + [r], mapped')
  {
    var more := held + [r];
    forall i, j, p | 0 <= i < |more| && 0 <= j < |more| && i != j && more[i].Has(p)
      ensures !more[j].Has(p)
    {
      assert i < |held| ==> held[i].Has(p);
      assert j < |held| ==> more[j] == held[j];
    }
  }

  lemma LiveLess(held: seq<Range>, mapped: set<nat>, mapped': set<nat>, k: nat)
    requires Live(held, mapped) && k < |held| && (forall p :: p in mapped' <==> p in mapped && !held[k].Has(p))
    ensures Live(held[..k] + held[k + 1..], mapped')
  {
    var less := held[..k] + held[k + 1..];
    forall i, p: nat | 0 <= i < |less| && less[i].Has(p)
      ensures p in mapped'
    {
      var m := if i < k then i else i + 1;
      assert held[m].Has(p);
    }
    forall i, j, p | 0 <= i < |less| && 0 <= j < |less| && i != j && less[i].Has(p)
      ensures !less[j].Has(p)
    {
      assert held[if i < k then i else i + 1].Has(p);
    }
  }

  /** A state of a run. */
  datatype View = View(es: seq<Range>, next: nat, mapped: set<nat>, held: seq<Range>)

  /** The operation, answered with the page `a` or nothing, did what it is for, or could not. */
  ghost predicate Explained(op: Op, a: nat, v: View, v': View) {
    match op
    case Get(n, frames) =>
      && (a == 0 <==> NoSpace(v.es, v.next, n) || frames < n)
      && (NoSpace(v.es, v.next, n) ==> v' == v)
      && v'.held == (if a == 0 then v.held else v.held + [Range(a, n)])
      && (a == 0 ==> v'.mapped == v.mapped)
      && (a != 0 ==> forall p :: p in v'.mapped <==> p in v.mapped || a <= p < a + n)
      && (a != 0 ==> forall p :: a <= p < a + n ==> p !in v.mapped)
      && (a != 0 ==> TakenFrom(v.es, v.next, v'.es, v'.next, n, a))
    case Put(k) =>
      if k < |v.held| then
        && v'.held == v.held[..k] + v.held[k + 1..] && v'.next == v.next
        && (forall p :: p in v'.mapped <==> p in v.mapped && !v.held[k].Has(p))
      else v' == v
  }

  /**
    Over every run of requests and releases of what is held, each request is met exactly when it can be, the ranges held
    never overlap each other, and no page of one is in the free table.
   */
  method Run(vm: VirtualMemory, ops: seq<Op>) returns (held: seq<Range>, answers: seq<nat>, ghost trace: seq<View>)
    requires vm.Valid() && vm.mapped == {}
    modifies vm, vm.table
    ensures vm.Valid() && Live(held, vm.mapped)
    ensures forall i, p: nat :: 0 <= i < |held| && held[i].Has(p) ==> !InOne(vm.Free(), p)
    ensures |answers| == |ops| && |trace| == |ops| + 1
    ensures trace[0] == View(old(vm.Free()), old(vm.next), {}, []) && trace[|ops|] == View(vm.Free(), vm.next, vm.mapped, held)
    ensures forall k :: 0 <= k < |ops| ==> Explained(ops[k], answers[k], trace[k], trace[k + 1])
  {
    hide InOne, AllApart, Proper, Live, NoSpace, Explained;
    held, answers := [], [];
    trace := [View(vm.Free(), vm.next, vm.mapped, held)];
    NoneHeld(vm.mapped);
    for i := 0 to |ops|
      invariant vm.Valid() && Live(held, vm.mapped)
      invariant |answers| == i && |trace| == i + 1 && trace[i] == View(vm.Free(), vm.next, vm.mapped, held)
      invariant trace[0] == View(old(vm.Free()), old(vm.next), {}, [])
      invariant forall k :: 0 <= k < i ==> Explained(ops[k], answers[k], trace[k], trace[k + 1])
    {
      var a;
      held, a := Step(vm, ops[i], held);
      answers := answers + [a];
      trace := trace + [View(vm.Free(), vm.next, vm.mapped, held)];
    }
    HeldMapped(held, vm.mapped);
    MappedNotFree(vm.start, vm.next, vm.Free(), vm.mapped, vm.lost);
  }

  method Step(vm: VirtualMemory, op: Op, held: seq<Range>) returns (held': seq<Range>, a: nat)
    requires vm.Valid() && Live(held, vm.mapped)
    modifies vm, vm.table
    ensures vm.Valid() && Live(held', vm.mapped)
    ensures Explained(op, a, View(old(vm.Free()), old(vm.next), old(vm.mapped), held), View(vm.Free(), vm.next, vm.mapped, held'))
  {
    hide InOne, AllApart, Proper, Live, NoSpace;
    held', a := held, 0;
    ghost var mapped := vm.mapped;
    match op
    case Get(n, frames) =>
      a := vm.Pages(n, frames);
      if a != 0 {
        LiveMore(held, mapped, vm.mapped, Range(a, n));
        held' := held + [Range(a, n)];
      }
    case Put(k) =>
      if k < |held| {
        vm.FreePages(held[k].lo, held[k].n);
        LiveLess(held, mapped, vm.mapped, k);
        held' := held[..k] + held[k + 1..];
      }
  }

  lemma MappedNotFree(start: nat, next: nat, es: seq<Range>, mapped: set<nat>, lost: bool)
    requires Accounted(start, next, es, mapped, Range(0, 0), lost)
    ensures forall p: nat :: p in mapped ==> !InOne(es, p)
  {
    hide InOne;
  }

  lemma NoneHeld(mapped: set<nat>)
    ensures Live([], mapped)
  {
  }

  lemma HeldMapped(held: seq<Range>, mapped: set<nat>)
    requires Live(held, mapped)
    ensures forall i, p: nat :: 0 <= i < |held| && held[i].Has(p) ==> p in mapped
  {
  }

  lemma PutIn(es: seq<Range>, r: Range, es0: seq<Range>, r0: Range)
    requires AllApart(es) && Proper(es) && SamePages(es, r, es0, r0) && r.n > 0 && r.lo > 0 && r.End() < SPACE
    requires forall j :: 0 <= j < |es| ==> Apart(es[j], r)
    ensures AllApart(es + [r]) && Proper(es + [r])
    ensures forall p :: InOne(es + [r], p) <==> InOne(es0, p) || r0.Has(p)
    ensures forall p :: InOne(es, p) ==> InOne(es0, p) || r0.Has(p)
  {
    hide InOne, AllApart, Proper;
    AddedHas(es, r);
  }

  /** A page is in one range of the table at most. */
  lemma Outside(es: seq<Range>, i: nat)
    requires AllApart(es) && i < |es|
    ensures forall p :: InOne(Swapped(es, i), p) ==> !es[i].Has(p)
    ensures forall p :: es[i].Has(p) ==> InOne(es, p)
  {
    var r := Swapped(es, i);
    forall p | InOne(r, p)
      ensures !es[i].Has(p)
    {
      var k :| 0 <= k < |r| && r[k].Has(p);
      var m := if k == i then |es| - 1 else k;
      assert if m < i then Apart(es[m], es[i]) else Apart(es[i], es[m]);
    }
  }

  lemma FrontGone(es: seq<Range>, i: nat, n: nat)
    requires AllApart(es) && Proper(es) && i < |es| && 0 < n < es[i].n
    ensures var r := es[i := Range(es[i].lo + n, es[i].n - n)];
            && AllApart(r) && Proper(r)
            && forall p :: InOne(r, p) <==> InOne(es, p) && !(es[i].lo <= p < es[i].lo + n)
  {
    var r := es[i := Range(es[i].lo + n, es[i].n - n)];
    forall a, b | 0 <= a < b < |r|
      ensures Apart(r[a], r[b])
    {
      assert Apart(es[a], es[b]);
    }
    forall p
      ensures InOne(r, p) <==> InOne(es, p) && !(es[i].lo <= p < es[i].lo + n)
    {
      if InOne(es, p) && !(es[i].lo <= p < es[i].lo + n) {
        var k :| 0 <= k < |es| && es[k].Has(p);
        assert r[k].Has(p);
      }
      if InOne(r, p) {
        var k :| 0 <= k < |r| && r[k].Has(p);
        assert es[k].Has(p);
        if k != i {
          assert if k < i then Apart(es[k], es[i]) else Apart(es[i], es[k]);
        }
      }
    }
  }
}
