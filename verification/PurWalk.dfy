/** The walks over the tree that lay the pipes, step by step, and what laying a whole plan comes to. */
module PurWalk {
  import opened PurTree
  import opened PurNet

  // ---------- the ranges the walks stay in ----------

  lemma CrossInRange(srcs: seq<nat>, dsts: seq<nat>)
    requires Within(srcs, 0, MAX_LEAVES) && Within(dsts, 0, MAX_LEAVES)
    ensures InRange(Cross(srcs, dsts))
  {
    var ps := Cross(srcs, dsts);
    forall k | 0 <= k < |ps|
      ensures ps[k].0 < MAX_LEAVES && ps[k].1 < MAX_LEAVES
    {
      CrossHas(srcs, dsts, ps[k]);
    }
  }

  lemma ForwardInRange(ps: seq<Pair>, lo: nat, hi: nat)
    requires Forward(ps, lo, hi) && hi <= MAX_LEAVES
    ensures InRange(ps)
  {
    forall k | 0 <= k < |ps|
      ensures ps[k].0 < MAX_LEAVES && ps[k].1 < MAX_LEAVES
    {
      assert ps[k] in ps;
    }
  }

  /** A tree whose commands have their places among the sixteen. */
  predicate Placed(t: Tree, lo: nat) {
    Numbered(t, lo) && lo + Size(t) <= MAX_LEAVES
  }

  /** Each member of a placed group is placed. */
  lemma MemberPlaced(t: Tree, lo: nat, j: nat)
    requires t.Group? && Placed(t, lo) && j < |t.members|
    ensures Placed(t.members[j], lo + SizeOf(t.members, j))
  {
    hide Numbered, NumberedOf, Size, SizeOf;
    PlacedGroup(t, lo);
    MemberAt(t.members, |t.members|, lo, j);
  }

  lemma PlacedGroup(t: Tree, lo: nat)
    requires t.Group? && Placed(t, lo)
    ensures NumberedOf(t.members, |t.members|, lo) && lo + SizeOf(t.members, |t.members|) <= MAX_LEAVES
  {
  }

  lemma OutsPlaced(t: Tree, lo: nat)
    requires Placed(t, lo)
    ensures Within(Outs(t), 0, MAX_LEAVES)
  {
    OutsRise(t, lo);
  }

  lemma EntriesPlaced(t: Tree, lo: nat)
    requires Placed(t, lo)
    ensures Within(Entries(t), 0, MAX_LEAVES)
  {
    EntriesWithin(t, lo);
  }

  lemma InternalPlaced(t: Tree, self: bool, lo: nat)
    requires Placed(t, lo)
    ensures InRange(Internal(t, self))
  {
    InternalForward(t, self, lo);
    ForwardInRange(Internal(t, self), lo, lo + Size(t));
  }

  lemma InternalOfPlaced(ms: seq<Tree>, k: nat, lo: nat)
    requires k <= |ms| && Placed(Group(ms), lo)
    ensures InRange(InternalOf(ms, k))
  {
    if k < |ms| {
      NumberedEach(ms, |ms|, lo, k);
      SizeOfGrows(ms, k, |ms|);
    }
    InternalOfForward(ms, k, lo);
    ForwardInRange(InternalOf(ms, k), lo, lo + SizeOf(ms, k));
  }

  lemma OutsOfPlaced(ms: seq<Tree>, k: nat, lo: nat)
    requires k <= |ms| && Placed(Group(ms), lo)
    ensures Within(OutsOf(ms, k), 0, MAX_LEAVES) && Within(EntriesOf(ms, k), 0, MAX_LEAVES)
  {
    if k < |ms| {
      NumberedEach(ms, |ms|, lo, k);
      SizeOfGrows(ms, k, |ms|);
    }
    OutsOfRise(ms, k, lo);
    EntriesOfWithin(ms, k, lo);
  }

  /** A walk that goes on from where an earlier one left off. */
  lemma CrossOn(n: Net, srcs: seq<nat>, a: seq<nat>, b: seq<nat>)
    requires n.Sized() && Within(srcs, 0, MAX_LEAVES) && Within(a, 0, MAX_LEAVES) && Within(b, 0, MAX_LEAVES)
    ensures InRange(Cross(srcs, a)) && InRange(Cross(srcs, b)) && InRange(Cross(srcs, a + b))
    ensures var r := AddAll(n, Cross(srcs, a));
      AddAll(n, Cross(srcs, a + b)) == if r.0 != OK then r else AddAll(r.1, Cross(srcs, b))
  {
    CrossInRange(srcs, a);
    CrossInRange(srcs, b);
    CrossJoin(srcs, a, b);
    AddAllJoin(n, Cross(srcs, a), Cross(srcs, b));
  }

  /** What is refused part of the way is refused in the whole. */
  lemma {:induction false} AddAllStops(n: Net, a: seq<Pair>, b: seq<Pair>)
    requires n.Sized() && InRange(a) && InRange(b)
    requires AddAll(n, a).0 != OK
    ensures InRange(a + b) && AddAll(n, a + b) == AddAll(n, a)
  {
    AddAllJoin(n, a, b);
  }

  lemma {:induction false} OutsOfSplit(ms: seq<Tree>, j: nat, k: nat) returns (b: seq<nat>)
    requires j <= k <= |ms|
    ensures OutsOf(ms, k) == OutsOf(ms, j) + b
  {
    if j == k {
      b := [];
    } else {
      hide Outs;
      var b0 := OutsOfSplit(ms, j, k - 1);
      b := b0 + Outs(ms[k - 1]);
      assert (OutsOf(ms, j) + b0) + Outs(ms[k - 1]) == OutsOf(ms, j) + b;
    }
  }

  lemma {:induction false} EntriesOfSplit(ms: seq<Tree>, j: nat, k: nat) returns (b: seq<nat>)
    requires j <= k <= |ms|
    ensures EntriesOf(ms, k) == EntriesOf(ms, j) + b
  {
    if j == k {
      b := [];
    } else {
      hide Entry;
      var b0 := EntriesOfSplit(ms, j, k - 1);
      b := b0 + Entry(ms[k - 1]);
      assert (EntriesOf(ms, j) + b0) + Entry(ms[k - 1]) == EntriesOf(ms, j) + b;
    }
  }

  lemma {:induction false} InternalOfSplit(ms: seq<Tree>, j: nat, k: nat) returns (b: seq<Pair>)
    requires j <= k <= |ms|
    ensures InternalOf(ms, k) == InternalOf(ms, j) + b
  {
    if j == k {
      b := [];
    } else {
      var b0 := InternalOfSplit(ms, j, k - 1);
      b := b0 + Internal(ms[k - 1], true);
    }
  }

  lemma CrossStops(n: Net, srcs: seq<nat>, a: seq<nat>, b: seq<nat>)
    requires n.Sized() && Within(srcs, 0, MAX_LEAVES) && Within(a + b, 0, MAX_LEAVES)
    ensures InRange(Cross(srcs, a)) && InRange(Cross(srcs, a + b))
    ensures AddAll(n, Cross(srcs, a)).0 != OK ==> AddAll(n, Cross(srcs, a + b)) == AddAll(n, Cross(srcs, a))
  {
    assert Within(a, 0, MAX_LEAVES) by {
      forall x | x in a
        ensures x in a + b
      {
      }
    }
    assert Within(b, 0, MAX_LEAVES) by {
      forall x | x in b
        ensures x in a + b
      {
      }
    }
    CrossOn(n, srcs, a, b);
  }

  lemma EntryPlaced(t: Tree, lo: nat)
    requires Placed(t, lo)
    ensures Within(Entry(t), 0, MAX_LEAVES)
  {
    if t.Pipe? {
      SidesWithin(t, lo);
    }
  }

  /** The pipes inside a pipe, side by side and then its own. */
  lemma InternalParts(n: Net, l: Tree, r: Tree, self: bool, lo: nat)
    requires n.Sized() && Placed(Pipe(l, r), lo)
    ensures InRange(Internal(l, true)) && InRange(Internal(r, true)) && InRange(Internal(Pipe(l, r), self))
    ensures InRange(Cross(Outs(l), Outs(r)))
    ensures var a := AddAll(n, Internal(l, true));
      var b := if a.0 != OK then a else AddAll(a.1, Internal(r, true));
      AddAll(n, Internal(Pipe(l, r), self)) ==
        if b.0 != OK || !self then b else AddAll(b.1, Cross(Outs(l), Outs(r)))
  {
    hide AddAll, InRange, Cross, Within, Outs;
    var il, ir := Internal(l, true), Internal(r, true);
    var own := Cross(Outs(l), Outs(r));
    InternalPlaced(Pipe(l, r), self, lo);
    InternalPlaced(l, true, lo);
    InternalPlaced(r, true, lo + Size(l));
    OutsPlaced(l, lo);
    OutsPlaced(r, lo + Size(l));
    CrossInRange(Outs(l), Outs(r));
    AddAllJoin(n, il, ir);
    AddAllJoin(n, il + ir, own);
    assert (il + ir) + [] == il + ir;
  }

  lemma CrossOne(srcs: seq<nat>, d: nat)
    ensures Cross(srcs, [d]) == Row(srcs, d)
  {
    assert [d][..0] == [];
    assert Cross(srcs, []) == [];
  }

  lemma SidesOf(t: Tree)
    ensures t.Pipe? ==> Sides(t) == Bare(t.left) + Bare(t.right)
    ensures t.Pipe? && t.left.Cmd? ==> Bare(t.left) == [t.left.leaf]
    ensures t.Pipe? && !t.left.Cmd? ==> Bare(t.left) == []
    ensures t.Pipe? && t.right.Cmd? ==> Bare(t.right) == [t.right.leaf]
    ensures t.Pipe? && !t.right.Cmd? ==> Bare(t.right) == []
  {
  }

  lemma BarePlaced(t: Tree, lo: nat)
    requires Placed(t, lo)
    ensures Within(Bare(t), 0, MAX_LEAVES)
  {
  }

  /** The walks read off the shape of a tree. */
  lemma WalkCases(t: Tree, self: bool)
    ensures t.Cmd? ==> Outs(t) == Entries(t) == Entry(t) == [t.leaf] && Internal(t, self) == []
    ensures t.Pipe? ==> Outs(t) == Outs(t.right) && Entries(t) == Entry(t) == Sides(t)
    ensures t.Group? ==> Outs(t) == OutsOf(t.members, |t.members|) && Entries(t) == EntriesOf(t.members, |t.members|)
    ensures t.Group? ==> Internal(t, self) == InternalOf(t.members, |t.members|) && Entry(t) == []
    ensures t.Group? ==> OutsOf(t.members, 0) == EntriesOf(t.members, 0) == [] && InternalOf(t.members, 0) == []
  {
  }

  lemma WalkNext(ms: seq<Tree>, i: nat)
    requires i < |ms|
    ensures OutsOf(ms, i + 1) == OutsOf(ms, i) + Outs(ms[i])
    ensures EntriesOf(ms, i + 1) == EntriesOf(ms, i) + Entry(ms[i])
    ensures InternalOf(ms, i + 1) == InternalOf(ms, i) + Internal(ms[i], true)
  {
    hide Outs, Entry, Internal;
  }

  /** One member further in a walk that delivers to the inside of a group. */
  lemma OutsStep(n: Net, srcs: seq<nat>, ms: seq<Tree>, i: nat, lo: nat)
    requires n.Sized() && Within(srcs, 0, MAX_LEAVES) && i < |ms| && Placed(Group(ms), lo)
    ensures InRange(Cross(srcs, OutsOf(ms, i))) && InRange(Cross(srcs, OutsOf(ms, i + 1)))
    ensures InRange(Cross(srcs, OutsOf(ms, |ms|))) && InRange(Cross(srcs, Outs(ms[i])))
    ensures var r := AddAll(n, Cross(srcs, OutsOf(ms, i)));
      AddAll(n, Cross(srcs, OutsOf(ms, i + 1))) == if r.0 != OK then r else AddAll(r.1, Cross(srcs, Outs(ms[i])))
    ensures var r := AddAll(n, Cross(srcs, OutsOf(ms, i + 1)));
      r.0 != OK ==> AddAll(n, Cross(srcs, OutsOf(ms, |ms|))) == r
  {
    hide *;
    WalkNext(ms, i);
    MemberPlaced(Group(ms), lo, i);
    OutsOfPlaced(ms, i, lo);
    OutsOfPlaced(ms, i + 1, lo);
    OutsOfPlaced(ms, |ms|, lo);
    OutsPlaced(ms[i], lo + SizeOf(ms, i));
    CrossOn(n, srcs, OutsOf(ms, i), Outs(ms[i]));
    var b := OutsOfSplit(ms, i + 1, |ms|);
    CrossStops(n, srcs, OutsOf(ms, i + 1), b);
  }

  /** And in one that delivers from outside. */
  lemma EntriesStep(n: Net, srcs: seq<nat>, ms: seq<Tree>, i: nat, lo: nat)
    requires n.Sized() && Within(srcs, 0, MAX_LEAVES) && i < |ms| && Placed(Group(ms), lo)
    ensures InRange(Cross(srcs, EntriesOf(ms, i))) && InRange(Cross(srcs, EntriesOf(ms, i + 1)))
    ensures InRange(Cross(srcs, EntriesOf(ms, |ms|))) && InRange(Cross(srcs, Entry(ms[i])))
    ensures var r := AddAll(n, Cross(srcs, EntriesOf(ms, i)));
      AddAll(n, Cross(srcs, EntriesOf(ms, i + 1))) == if r.0 != OK then r else AddAll(r.1, Cross(srcs, Entry(ms[i])))
    ensures var r := AddAll(n, Cross(srcs, EntriesOf(ms, i + 1)));
      r.0 != OK ==> AddAll(n, Cross(srcs, EntriesOf(ms, |ms|))) == r
  {
    hide *;
    WalkNext(ms, i);
    MemberPlaced(Group(ms), lo, i);
    OutsOfPlaced(ms, i, lo);
    OutsOfPlaced(ms, i + 1, lo);
    OutsOfPlaced(ms, |ms|, lo);
    EntryPlaced(ms[i], lo + SizeOf(ms, i));
    CrossOn(n, srcs, EntriesOf(ms, i), Entry(ms[i]));
    var b := EntriesOfSplit(ms, i + 1, |ms|);
    CrossStops(n, srcs, EntriesOf(ms, i + 1), b);
  }

  /** And in one over the pipes inside a group. */
  lemma InternalStep(n: Net, ms: seq<Tree>, i: nat, lo: nat)
    requires n.Sized() && i < |ms| && Placed(Group(ms), lo)
    ensures InRange(InternalOf(ms, i)) && InRange(InternalOf(ms, i + 1)) && InRange(InternalOf(ms, |ms|))
    ensures InRange(Internal(ms[i], true))
    ensures var r := AddAll(n, InternalOf(ms, i));
      AddAll(n, InternalOf(ms, i + 1)) == if r.0 != OK then r else AddAll(r.1, Internal(ms[i], true))
    ensures var r := AddAll(n, InternalOf(ms, i + 1));
      r.0 != OK ==> AddAll(n, InternalOf(ms, |ms|)) == r
  {
    hide *;
    WalkNext(ms, i);
    MemberPlaced(Group(ms), lo, i);
    InternalOfPlaced(ms, i, lo);
    InternalOfPlaced(ms, i + 1, lo);
    InternalOfPlaced(ms, |ms|, lo);
    InternalPlaced(ms[i], true, lo + SizeOf(ms, i));
    AddAllJoin(n, InternalOf(ms, i), Internal(ms[i], true));
    var b := InternalOfSplit(ms, i + 1, |ms|);
    RestInRange(InternalOf(ms, i + 1), b);
    AddAllJoin(n, InternalOf(ms, i + 1), b);
  }

  lemma RestInRange(a: seq<Pair>, b: seq<Pair>)
    requires InRange(a + b)
    ensures InRange(b)
  {
    forall k | 0 <= k < |b|
      ensures b[k].0 < MAX_LEAVES && b[k].1 < MAX_LEAVES
    {
      assert b[k] == (a + b)[|a| + k];
    }
  }

  lemma AddNone(n: Net, srcs: seq<nat>)
    requires n.Sized()
    ensures InRange([]) && AddAll(n, []) == (OK, n)
    ensures InRange(Cross(srcs, [])) && AddAll(n, Cross(srcs, [])) == (OK, n)
  {
  }

  /** How many streams the first `i` commands are short of. */
  function Gaps(n: Net, i: nat): nat
    requires n.Sized() && i <= MAX_LEAVES
  {
    if i == 0 then 0
    else Gaps(n, i - 1) + (if n.ins[i - 1] == 0 then 1 else 0) + (if n.outs[i - 1] == 0 then 1 else 0)
  }

  lemma GapsNone(n: Net)
    requires n.Sized()
    ensures Gaps(n, 0) == 0
  {
  }

  lemma {:induction false} GapsGrow(n: Net, i: nat, j: nat)
    requires n.Sized() && i <= j <= MAX_LEAVES
    ensures Gaps(n, i) <= Gaps(n, j) <= Gaps(n, i) + 2 * (j - i)
  {
    if i < j {
      GapsGrow(n, i, j - 1);
    }
  }

  /** A command short of input has one stream, from the opening whose turn it is; any other keeps what it had. */
  ghost predicate InDefault(n: Net, opens: seq<int>, j: nat, count: nat, fd: int)
    requires n.Sized() && j < MAX_LEAVES && |opens| == 2 * MAX_LEAVES
  {
    GapsGrow(n, 0, j);
    if n.ins[j] == 0 then count == 1 && fd == opens[Gaps(n, j)] else count == n.ins[j]
  }

  ghost predicate OutDefault(n: Net, opens: seq<int>, j: nat, count: nat, fd: int)
    requires n.Sized() && j < MAX_LEAVES && |opens| == 2 * MAX_LEAVES
  {
    GapsGrow(n, 0, j);
    if n.outs[j] == 0 then count == 1 && fd == opens[Gaps(n, j) + if n.ins[j] == 0 then 1 else 0] else count == n.outs[j]
  }

  lemma DefaultsAre(n: Net, opens: seq<int>, j: nat, inCount: nat, inFd: int, outCount: nat, outFd: int)
    requires n.Sized() && j < MAX_LEAVES && |opens| == 2 * MAX_LEAVES
    ensures Gaps(n, j) <= 2 * j
    ensures n.ins[j] == 0 && inCount == 1 && inFd == opens[Gaps(n, j)] ==> InDefault(n, opens, j, inCount, inFd)
    ensures n.ins[j] != 0 && inCount == n.ins[j] ==> InDefault(n, opens, j, inCount, inFd)
    ensures n.outs[j] == 0 && outCount == 1 && outFd == opens[Gaps(n, j) + if n.ins[j] == 0 then 1 else 0]
      ==> OutDefault(n, opens, j, outCount, outFd)
    ensures n.outs[j] != 0 && outCount == n.outs[j] ==> OutDefault(n, opens, j, outCount, outFd)
  {
    GapsGrow(n, 0, j);
  }

  lemma StreamsFit(n: Net, k: nat)
    requires GoodNet(n) && k < |n.edges|
    ensures var e := n.edges[k];
      e.src < MAX_LEAVES && e.dst < MAX_LEAVES && e.srcStream < MAX_STREAMS && e.dstStream < MAX_STREAMS
  {
    assert GoodEdge(n.edges, k);
    CountsFit(n.edges[..k], n.edges[k].src);
    CountsFit(n.edges[..k], n.edges[k].dst);
  }

  /** Every pipe laid was asked for. */
  lemma {:induction false} LaidFrom(ps: seq<Pair>)
    requires InRange(ps)
    ensures forall e :: e in AddAll(Empty(), ps).1.edges ==> (e.src, e.dst) in ps
  {
    if ps != [] {
      LaidFrom(ps[..|ps| - 1]);
      assert (ps[|ps| - 1].0, ps[|ps| - 1].1) == ps[|ps| - 1];
    }
  }

  /** What laying a plan comes to. */
  lemma PlanLaid(ps: seq<Pair>, hi: nat)
    requires InRange(ps) && Forward(ps, 0, hi)
    ensures var r := AddAll(Empty(), ps);
      && GoodNet(r.1)
      && (r.0 == OK <==> |Wanted(ps)| <= MAX_PIPES)
      && (r.0 == OK ==> Joined(r.1.edges) == Wanted(ps))
      && (r.0 != OK ==> r.0 == PIPES)
      && forall k :: 0 <= k < |r.1.edges| ==> r.1.edges[k].src < r.1.edges[k].dst < hi
  {
    hide AddAll, GoodNet, Wanted, Joined;
    AddAllExactly(ps);
    LaidFrom(ps);
    var es := AddAll(Empty(), ps).1.edges;
    forall k | 0 <= k < |es|
      ensures es[k].src < es[k].dst < hi
    {
      assert es[k] in es;
    }
  }
}
