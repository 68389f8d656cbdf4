/** The pipes of a statement while they are being laid: edges between commands, and how many each command has. */
module PurNet {
  import opened PurTree

  const MAX_PIPES := 14
  const MAX_STREAMS := 16

  datatype Code = OK | PIPES | STREAMS

  datatype Edge = Edge(src: nat, dst: nat, srcStream: nat, dstStream: nat, rfd: int, wfd: int)

  datatype Net = Net(edges: seq<Edge>, ins: seq<nat>, outs: seq<nat>) {
    predicate Sized() {
      |ins| == |outs| == MAX_LEAVES
    }
  }

  function Empty(): Net {
    Net([], seq(MAX_LEAVES, _ => 0), seq(MAX_LEAVES, _ => 0))
  }

  predicate Joins(es: seq<Edge>, s: nat, d: nat) {
    exists k :: 0 <= k < |es| && es[k].src == s && es[k].dst == d
  }

  predicate InRange(ps: seq<Pair>) {
    forall k :: 0 <= k < |ps| ==> ps[k].0 < MAX_LEAVES && ps[k].1 < MAX_LEAVES
  }

  /** One more pipe, unless it is there already or leads a command to itself. */
  function Add(n: Net, s: nat, d: nat): (Code, Net)
    requires n.Sized() && s < MAX_LEAVES && d < MAX_LEAVES
  {
    if s == d || Joins(n.edges, s, d) then (OK, n)
    else if |n.edges| >= MAX_PIPES then (PIPES, n)
    else if n.outs[s] >= MAX_STREAMS || n.ins[d] >= MAX_STREAMS then (STREAMS, n)
    else (OK, Net(n.edges + [Edge(s, d, n.outs[s], n.ins[d], -1, -1)], n.ins[d := n.ins[d] + 1], n.outs[s := n.outs[s] + 1]))
  }

  /** Pipe after pipe, up to the first that is refused. */
  function AddAll(n: Net, ps: seq<Pair>): (r: (Code, Net))
    requires n.Sized() && InRange(ps)
    ensures r.1.Sized()
  {
    if ps == [] then (OK, n)
    else
      var r := AddAll(n, ps[..|ps| - 1]);
      if r.0 != OK then r else Add(r.1, ps[|ps| - 1].0, ps[|ps| - 1].1)
  }

  lemma {:induction false} AddAllJoin(n: Net, a: seq<Pair>, b: seq<Pair>)
    requires n.Sized() && InRange(a) && InRange(b)
    ensures InRange(a + b)
    ensures AddAll(n, a + b) == if AddAll(n, a).0 != OK then AddAll(n, a) else AddAll(AddAll(n, a).1, b)
  {
    if b == [] {
      assert a + b == a;
    } else {
      var c := b[..|b| - 1];
      assert (a + b)[..|a + b| - 1] == a + c;
      AddAllJoin(n, a, c);
    }
  }

  // ---------- counts and stream numbers ----------

  function Into(es: seq<Edge>, i: nat): nat {
    if es == [] then 0 else Into(es[..|es| - 1], i) + if es[|es| - 1].dst == i then 1 else 0
  }

  function OutOf(es: seq<Edge>, i: nat): nat {
    if es == [] then 0 else OutOf(es[..|es| - 1], i) + if es[|es| - 1].src == i then 1 else 0
  }

  ghost predicate GoodEdge(es: seq<Edge>, k: nat)
    requires k < |es|
  {
    var e := es[k];
    && e.src < MAX_LEAVES && e.dst < MAX_LEAVES && e.src != e.dst
    && e.srcStream == OutOf(es[..k], e.src) && e.dstStream == Into(es[..k], e.dst)
    && !Joins(es[..k], e.src, e.dst)
  }

  /** Edges join different commands, no two the same; streams are numbered as they come; the counts are right. */
  ghost predicate GoodNet(n: Net) {
    && n.Sized() && |n.edges| <= MAX_PIPES
    && (forall k :: 0 <= k < |n.edges| ==> GoodEdge(n.edges, k))
    && (forall i :: 0 <= i < MAX_LEAVES ==> n.ins[i] == Into(n.edges, i) && n.outs[i] == OutOf(n.edges, i))
  }

  lemma {:induction false} CountsFit(es: seq<Edge>, i: nat)
    ensures Into(es, i) <= |es| && OutOf(es, i) <= |es|
  {
    if es != [] {
      CountsFit(es[..|es| - 1], i);
    }
  }

  lemma AddKeeps(n: Net, s: nat, d: nat)
    requires GoodNet(n) && s < MAX_LEAVES && d < MAX_LEAVES
    ensures GoodNet(Add(n, s, d).1) && Add(n, s, d).0 != STREAMS
  {
    CountsFit(n.edges, s);
    CountsFit(n.edges, d);
    var m := Add(n, s, d).1;
    if m != n {
      assert m.edges[..|n.edges|] == n.edges;
      forall k | 0 <= k < |m.edges|
        ensures GoodEdge(m.edges, k)
      {
        assert m.edges[..k] == n.edges[..k];
        assert k < |n.edges| ==> GoodEdge(n.edges, k);
      }
    }
  }

  /** Laying pipes keeps the net good whatever comes of it, and no command runs out of streams. */
  lemma {:induction false} AddAllKeeps(n: Net, ps: seq<Pair>)
    requires GoodNet(n) && InRange(ps)
    ensures GoodNet(AddAll(n, ps).1) && AddAll(n, ps).0 != STREAMS
  {
    hide GoodEdge, Add;
    if ps != [] {
      var rest := ps[..|ps| - 1];
      AddAllKeeps(n, rest);
      AddKeeps(AddAll(n, rest).1, ps[|ps| - 1].0, ps[|ps| - 1].1);
    }
  }

  lemma EmptyIsGood()
    ensures GoodNet(Empty())
  {
  }

  ghost predicate FeedsAt(es: seq<Edge>, j: int, i: nat, k: nat) {
    0 <= j < |es| && es[j].dst == i && es[j].dstStream == k
  }

  ghost predicate DrainsAt(es: seq<Edge>, j: int, i: nat, k: nat) {
    0 <= j < |es| && es[j].src == i && es[j].srcStream == k
  }

  lemma {:induction false} IntoGrows(es: seq<Edge>, j: nat, i: nat)
    requires j <= |es|
    ensures Into(es[..j], i) <= Into(es, i) && OutOf(es[..j], i) <= OutOf(es, i)
    ensures j < |es| && es[j].dst == i ==> Into(es[..j], i) < Into(es, i)
    ensures j < |es| && es[j].src == i ==> OutOf(es[..j], i) < OutOf(es, i)
  {
    if j == |es| {
      assert es[..j] == es;
    } else {
      var rest := es[..|es| - 1];
      IntoGrows(rest, j, i);
      assert rest[..j] == es[..j];
    }
  }

  lemma {:induction false} IntoFound(es: seq<Edge>, i: nat, k: nat) returns (j: nat)
    requires k < Into(es, i)
    ensures j < |es| && es[j].dst == i && Into(es[..j], i) == k
  {
    var rest := es[..|es| - 1];
    if k < Into(rest, i) {
      j := IntoFound(rest, i, k);
      assert rest[..j] == es[..j];
    } else {
      j := |rest|;
    }
  }

  lemma {:induction false} OutOfFound(es: seq<Edge>, i: nat, k: nat) returns (j: nat)
    requires k < OutOf(es, i)
    ensures j < |es| && es[j].src == i && OutOf(es[..j], i) == k
  {
    var rest := es[..|es| - 1];
    if k < OutOf(rest, i) {
      j := OutOfFound(rest, i, k);
      assert rest[..j] == es[..j];
    } else {
      j := |rest|;
    }
  }

  /** No two edges share an input slot, and none shares an output slot. */
  lemma SlotsApart(n: Net, j: nat, l: nat)
    requires GoodNet(n) && j < l < |n.edges|
    ensures n.edges[j].dst == n.edges[l].dst ==> n.edges[j].dstStream < n.edges[l].dstStream
    ensures n.edges[j].src == n.edges[l].src ==> n.edges[j].srcStream < n.edges[l].srcStream
  {
    var es := n.edges;
    assert GoodEdge(es, j) && GoodEdge(es, l);
    assert es[..l][..j] == es[..j];
    IntoGrows(es[..l], j, es[j].dst);
    IntoGrows(es[..l], j, es[j].src);
  }

  /** The input slots in use are numbered from 0 to one below the count, one edge each. */
  lemma InputsOneEach(n: Net, i: nat, k: nat)
    requires GoodNet(n) && i < MAX_LEAVES
    ensures k < n.ins[i] <==> exists j :: FeedsAt(n.edges, j, i, k)
    ensures forall j, l :: FeedsAt(n.edges, j, i, k) && FeedsAt(n.edges, l, i, k) ==> j == l
  {
    var es := n.edges;
    if k < n.ins[i] {
      var j := IntoFound(es, i, k);
      assert GoodEdge(es, j);
      assert FeedsAt(es, j, i, k);
    }
    if exists j :: FeedsAt(es, j, i, k) {
      var j :| FeedsAt(es, j, i, k);
      assert GoodEdge(es, j);
      IntoGrows(es, j, i);
    }
    forall j, l | FeedsAt(es, j, i, k) && FeedsAt(es, l, i, k)
      ensures j == l
    {
      if j < l {
        SlotsApart(n, j, l);
      } else if l < j {
        SlotsApart(n, l, j);
      }
    }
  }

  /** And so are the output slots. */
  lemma OutputsOneEach(n: Net, i: nat, k: nat)
    requires GoodNet(n) && i < MAX_LEAVES
    ensures k < n.outs[i] <==> exists j :: DrainsAt(n.edges, j, i, k)
    ensures forall j, l :: DrainsAt(n.edges, j, i, k) && DrainsAt(n.edges, l, i, k) ==> j == l
  {
    var es := n.edges;
    if k < n.outs[i] {
      var j := OutOfFound(es, i, k);
      assert GoodEdge(es, j);
      assert DrainsAt(es, j, i, k);
    }
    if exists j :: DrainsAt(es, j, i, k) {
      var j :| DrainsAt(es, j, i, k);
      assert GoodEdge(es, j);
      IntoGrows(es, j, i);
    }
    forall j, l | DrainsAt(es, j, i, k) && DrainsAt(es, l, i, k)
      ensures j == l
    {
      if j < l {
        SlotsApart(n, j, l);
      } else if l < j {
        SlotsApart(n, l, j);
      }
    }
  }

  /** No pipe leads to the command. */
  predicate Unfed(es: seq<Edge>, i: nat) {
    forall j :: 0 <= j < |es| ==> es[j].dst != i
  }

  /** No pipe leads from the command. */
  predicate Undrained(es: seq<Edge>, i: nat) {
    forall j :: 0 <= j < |es| ==> es[j].src != i
  }

  lemma UnfedWhen(n: Net, i: nat)
    requires GoodNet(n) && i < MAX_LEAVES
    ensures Unfed(n.edges, i) <==> n.ins[i] == 0
    ensures Undrained(n.edges, i) <==> n.outs[i] == 0
  {
    var es := n.edges;
    if n.ins[i] > 0 {
      var j := IntoFound(es, i, 0);
    }
    if n.outs[i] > 0 {
      var j := OutOfFound(es, i, 0);
    }
    forall j | 0 <= j < |es|
      ensures es[j].dst == i ==> n.ins[i] > 0
      ensures es[j].src == i ==> n.outs[i] > 0
    {
      IntoGrows(es, j, i);
    }
  }

  // ---------- which pipes are laid ----------

  ghost function Wanted(ps: seq<Pair>): set<Pair> {
    set p | p in ps && p.0 != p.1
  }

  ghost function Joined(es: seq<Edge>): set<Pair> {
    set k | 0 <= k < |es| :: (es[k].src, es[k].dst)
  }

  lemma {:induction false} JoinedCount(es: seq<Edge>)
    requires forall k :: 0 <= k < |es| ==> GoodEdge(es, k)
    ensures |Joined(es)| == |es|
  {
    if es != [] {
      var rest := es[..|es| - 1];
      var e := es[|es| - 1];
      forall k | 0 <= k < |rest|
        ensures GoodEdge(rest, k)
      {
        assert GoodEdge(es, k);
        assert rest[..k] == es[..k];
      }
      JoinedCount(rest);
      assert GoodEdge(es, |rest|);
      JoinedMore(rest, e);
      assert es == rest + [e];
      assert (e.src, e.dst) !in Joined(rest);
    }
  }

  lemma JoinedMore(es: seq<Edge>, e: Edge)
    ensures Joined(es + [e]) == Joined(es) + {(e.src, e.dst)}
  {
    var all := es + [e];
    forall p
      ensures p in Joined(all) <==> p in Joined(es) || p == (e.src, e.dst)
    {
      if p in Joined(es) {
        var k :| 0 <= k < |es| && p == (es[k].src, es[k].dst);
        assert all[k] == es[k];
      }
      if p == (e.src, e.dst) {
        assert all[|es|] == e;
      }
    }
  }

  /** The pairs that lead to a command, and those that lead from it. */
  ghost function To(ps: set<Pair>, i: nat): set<Pair> {
    set p | p in ps && p.1 == i
  }

  ghost function From(ps: set<Pair>, i: nat): set<Pair> {
    set p | p in ps && p.0 == i
  }

  /** A command's counts are the numbers of different commands it is joined with each way. */
  lemma {:induction false} CountsAre(es: seq<Edge>, i: nat)
    requires forall k :: 0 <= k < |es| ==> GoodEdge(es, k)
    ensures |To(Joined(es), i)| == Into(es, i) && |From(Joined(es), i)| == OutOf(es, i)
  {
    if es == [] {
      assert To(Joined(es), i) == {} && From(Joined(es), i) == {};
    } else {
      var rest := es[..|es| - 1];
      var e := es[|es| - 1];
      forall k | 0 <= k < |rest|
        ensures GoodEdge(rest, k)
      {
        assert GoodEdge(es, k);
        assert rest[..k] == es[..k];
      }
      CountsAre(rest, i);
      assert GoodEdge(es, |rest|);
      JoinedMore(rest, e);
      assert es == rest + [e];
      SidesMore(Joined(rest), (e.src, e.dst), i);
    }
  }

  lemma SidesMore(ps: set<Pair>, p: Pair, i: nat)
    requires p !in ps
    ensures |To(ps + {p}, i)| == |To(ps, i)| + if p.1 == i then 1 else 0
    ensures |From(ps + {p}, i)| == |From(ps, i)| + if p.0 == i then 1 else 0
  {
    assert To(ps + {p}, i) == if p.1 == i then To(ps, i) + {p} else To(ps, i);
    assert From(ps + {p}, i) == if p.0 == i then From(ps, i) + {p} else From(ps, i);
  }

  lemma WantedMore(ps: seq<Pair>, p: Pair)
    ensures Wanted(ps + [p]) == Wanted(ps) + if p.0 != p.1 then {p} else {}
  {
  }

  /** Giving edges their descriptors does not change what they join. */
  lemma SameEnds(a: seq<Edge>, b: seq<Edge>)
    requires |a| == |b|
    requires forall k :: 0 <= k < |a| ==> b[k] == a[k].(rfd := b[k].rfd, wfd := b[k].wfd)
    ensures Joined(a) == Joined(b)
    ensures forall i :: Unfed(a, i) <==> Unfed(b, i)
    ensures forall i :: Undrained(a, i) <==> Undrained(b, i)
  {
    forall k | 0 <= k < |a|
      ensures a[k].src == b[k].src && a[k].dst == b[k].dst
    {
      assert b[k] == a[k].(rfd := b[k].rfd, wfd := b[k].wfd);
    }
  }

  lemma JoinedWhen(es: seq<Edge>, s: nat, d: nat)
    ensures (s, d) in Joined(es) <==> Joins(es, s, d)
  {
  }

  /** The pipes asked for are laid, each once, just when there are no more than fourteen; otherwise PIPES is reported. */
  lemma {:induction false} AddAllExactly(ps: seq<Pair>)
    requires InRange(ps)
    ensures var r := AddAll(Empty(), ps);
      && GoodNet(r.1)
      && (r.0 == OK <==> |Wanted(ps)| <= MAX_PIPES)
      && (r.0 == OK ==> Joined(r.1.edges) == Wanted(ps))
      && (r.0 != OK ==> r.0 == PIPES)
  {
    EmptyIsGood();
    AddAllKeeps(Empty(), ps);
    if ps == [] {
      assert Joined([]) == {} == Wanted([]);
    } else {
      var rest := ps[..|ps| - 1];
      var p := ps[|ps| - 1];
      AddAllExactly(rest);
      AddAllKeeps(Empty(), rest);
      assert ps == rest + [p];
      WantedMore(rest, p);
      OneMore(AddAll(Empty(), rest), Wanted(rest), p);
    }
  }

  /** What one more pipe does to the account. */
  lemma OneMore(r: (Code, Net), wanted: set<Pair>, p: Pair)
    requires GoodNet(r.1) && p.0 < MAX_LEAVES && p.1 < MAX_LEAVES
    requires r.0 == OK <==> |wanted| <= MAX_PIPES
    requires r.0 == OK ==> Joined(r.1.edges) == wanted
    ensures var more := wanted + (if p.0 != p.1 then {p} else {});
      var t := if r.0 != OK then r else Add(r.1, p.0, p.1);
      && (t.0 == OK <==> |more| <= MAX_PIPES)
      && (t.0 == OK ==> Joined(t.1.edges) == more)
  {
    var es := r.1.edges;
    var more := wanted + (if p.0 != p.1 then {p} else {});
    JoinedCount(es);
    JoinedWhen(es, p.0, p.1);
    AddKeeps(r.1, p.0, p.1);
    assert |more| == |wanted| + if p.0 != p.1 && p !in wanted then 1 else 0 by {
      if p.0 == p.1 || p in wanted {
        assert more == wanted;
      }
    }
    JoinedMore(es, Edge(p.0, p.1, r.1.outs[p.0], r.1.ins[p.1], -1, -1));
    if p in wanted {
      assert more == wanted;
    }
  }

  // ---------- no loops ----------

  ghost predicate Route(es: seq<Edge>, path: seq<nat>) {
    |path| > 0 && forall k :: 0 <= k < |path| - 1 ==> Joins(es, path[k], path[k + 1])
  }

  /** When every edge goes forwards, no route along the pipes comes back to where it began. */
  lemma {:induction false} NoWayBack(es: seq<Edge>, path: seq<nat>)
    requires forall k :: 0 <= k < |es| ==> es[k].src < es[k].dst
    requires Route(es, path) && |path| > 1
    ensures path[0] < path[|path| - 1]
  {
    assert Joins(es, path[0], path[0 + 1]);
    if |path| > 2 {
      var rest := path[1..];
      forall k | 0 <= k < |rest| - 1
        ensures Joins(es, rest[k], rest[k + 1])
      {
        assert Joins(es, path[k + 1], path[k + 1 + 1]);
      }
      NoWayBack(es, rest);
    }
  }
}
