/** Laying the pipes of a statement, and giving every stream of every command its descriptor. */
module PurWire {
  import opened PurTree
  import opened PurNet
  import opened PurWalk

  class Wiring {
    const ast: Ast
    const root: nat
    const leaves: nat
    var edges: seq<Edge>
    const inCount: array<nat>
    const outCount: array<nat>
    const inFd: array2<int>
    const outFd: array2<int>
    const extra: array<int>
    var extras: nat

    /** The pools are those of a parsed statement: its commands are numbered from 0 in the order of the text. */
    constructor (ast: Ast, root: nat, leaves: nat)
      requires AllSound(ast) && leaves <= MAX_LEAVES
      requires leaves > 0 ==> root < |ast.nodes| && Numbered(Shape(ast, root), 0) && Size(Shape(ast, root)) == leaves
      ensures Valid() && fresh(inCount) && fresh(outCount) && fresh(inFd) && fresh(outFd) && fresh(extra)
      ensures this.ast == ast && this.root == root && this.leaves == leaves
    {
      this.ast, this.root, this.leaves := ast, root, leaves;
      edges, extras := [], 0;
      inCount := new nat[MAX_LEAVES](_ => 0);
      outCount := new nat[MAX_LEAVES](_ => 0);
      inFd := new int[MAX_LEAVES, MAX_STREAMS];
      outFd := new int[MAX_LEAVES, MAX_STREAMS];
      extra := new int[2 * MAX_LEAVES](_ => -1);
    }

    ghost predicate Valid() {
      && AllSound(ast) && leaves <= MAX_LEAVES
      && (leaves > 0 ==> root < |ast.nodes| && Placed(Shape(ast, root), 0) && Size(Shape(ast, root)) == leaves)
      && inCount.Length == outCount.Length == MAX_LEAVES && inCount != outCount
      && inFd.Length0 == outFd.Length0 == MAX_LEAVES && inFd.Length1 == outFd.Length1 == MAX_STREAMS && inFd != outFd
      && extra.Length == 2 * MAX_LEAVES
    }

    ghost function S(): (n: Net)
      requires Valid()
      reads this, inCount, outCount
      ensures n.Sized()
    {
      Net(edges, inCount[..], outCount[..])
    }

    ghost function T(node: nat): Tree
      requires Valid() && node < |ast.nodes|
    {
      Shape(ast, node)
    }

    /** What a node of each kind stands for. */
    lemma Unfold(node: nat, lo: nat)
      requires Valid() && node < |ast.nodes| && Placed(T(node), lo)
      ensures var p := ast.nodes[node];
        && (p.kind == LEAF ==> T(node) == Cmd(p.first) && p.first < MAX_LEAVES)
        && (p.kind == GROUP ==> T(node).Group? && |T(node).members| == p.count)
        && (p.kind == EXPR ==> p.first < node && p.rhs < node && T(node) == Pipe(T(p.first), T(p.rhs)))
        && (p.kind == EXPR ==> Placed(T(p.first), lo) && Placed(T(p.rhs), lo + Size(T(p.first))))
    {
      assert Sound(ast, node);
    }

    lemma UnfoldMember(node: nat, lo: nat, i: nat)
      requires Valid() && node < |ast.nodes| && Placed(T(node), lo)
      requires ast.nodes[node].kind == GROUP && i < ast.nodes[node].count
      ensures var p := ast.nodes[node];
        && T(node).Group? && |T(node).members| == p.count
        && p.first + i < |ast.members| && ast.members[p.first + i] < node
        && T(ast.members[p.first + i]) == T(node).members[i]
        && Placed(T(node).members[i], lo + SizeOf(T(node).members, i))
        && Group(T(node).members) == T(node)
    {
      hide Placed, Numbered, NumberedOf, Size, SizeOf;
      assert Sound(ast, node);
      MemberPlaced(T(node), lo, i);
    }

    method ResetState()
      requires Valid()
      modifies this, inCount, outCount, extra
      ensures S() == Empty() && extras == 0
    {
      edges, extras := [], 0;
      var i := 0;
      while i < MAX_LEAVES
        invariant i <= MAX_LEAVES && edges == [] && extras == 0
        invariant forall j :: 0 <= j < i ==> inCount[j] == 0 && outCount[j] == 0
      {
        inCount[i], outCount[i] := 0, 0;
        i := i + 1;
      }
      i := 0;
      while i < 2 * MAX_LEAVES
        invariant forall j :: 0 <= j < MAX_LEAVES ==> inCount[j] == 0 && outCount[j] == 0
        invariant edges == [] && extras == 0
      {
        extra[i] := -1;
        i := i + 1;
      }
    }

    method AddEdge(src: nat, dst: nat) returns (rc: Code)
      requires Valid() && src < MAX_LEAVES && dst < MAX_LEAVES
      modifies this`edges, inCount, outCount
      ensures (rc, S()) == Add(old(S()), src, dst)
    {
      if src == dst {
        return OK;
      }
      var i := 0;
      while i < |edges|
        invariant i <= |edges|
        invariant forall k :: 0 <= k < i ==> !(edges[k].src == src && edges[k].dst == dst)
      {
        if edges[i].src == src && edges[i].dst == dst {
          return OK;
        }
        i := i + 1;
      }
      if |edges| >= MAX_PIPES {
        return PIPES;
      }
      if outCount[src] >= MAX_STREAMS || inCount[dst] >= MAX_STREAMS {
        return STREAMS;
      }
      edges := edges + [Edge(src, dst, outCount[src], inCount[dst], -1, -1)];
      outCount[src] := outCount[src] + 1;
      inCount[dst] := inCount[dst] + 1;
      return OK;
    }

    method OutputsCollect(node: nat, out: array<nat>, n: nat, ghost lo: nat) returns (rc: Code, m: nat)
      requires Valid() && node < |ast.nodes| && Placed(T(node), lo)
      requires out.Length == MAX_LEAVES && n <= MAX_LEAVES
      modifies out
      ensures n <= m <= MAX_LEAVES
      ensures n + |Outs(T(node))| <= MAX_LEAVES ==> rc == OK && out[..m] == old(out[..n]) + Outs(T(node))
      ensures n + |Outs(T(node))| > MAX_LEAVES ==> rc == STREAMS
      decreases node
    {
      hide Placed, Shape, Numbered, Size, SizeOf, AllSound;
      Unfold(node, lo);
      var p := ast.nodes[node];
      m := n;
      match p.kind
      case LEAF =>
        if m >= MAX_LEAVES {
          return STREAMS, m;
        }
        out[m] := p.first;
        assert out[..m] == old(out[..n]);
        return OK, m + 1;
      case GROUP =>
        ghost var ms := T(node).members;
        var i := 0;
        while i < p.count
          invariant i <= p.count && n <= m <= MAX_LEAVES
          invariant n + |OutsOf(ms, i)| <= MAX_LEAVES && out[..m] == old(out[..n]) + OutsOf(ms, i)
        {
          UnfoldMember(node, lo, i);
          SizeOfGrows(ms, i + 1, p.count);
          rc, m := OutputsCollect(ast.members[p.first + i], out, m, lo + SizeOf(ms, i));
          if rc != OK {
            return;
          }
          i := i + 1;
        }
        return OK, m;
      case EXPR =>
        rc, m := OutputsCollect(p.rhs, out, m, lo + Size(T(p.first)));
    }

    /** Pipes from every source to one command. */
    method DeliverLeaf(srcs: seq<nat>, leaf: nat) returns (rc: Code)
      requires Valid() && Within(srcs, 0, MAX_LEAVES) && leaf < MAX_LEAVES
      modifies this`edges, inCount, outCount
      ensures InRange(Cross(srcs, [leaf])) && (rc, S()) == AddAll(old(S()), Cross(srcs, [leaf]))
    {
      hide Add;
      CrossInRange(srcs, [leaf]);
      CrossOne(srcs, leaf);
      ghost var row := Row(srcs, leaf);
      var i := 0;
      while i < |srcs|
        invariant i <= |srcs|
        invariant (OK, S()) == AddAll(old(S()), row[..i])
      {
        assert row[..i + 1][..i] == row[..i];
        assert srcs[i] in srcs;
        rc := AddEdge(srcs[i], leaf);
        if rc != OK {
          AddAllStops(old(S()), row[..i + 1], row[i + 1..]);
          assert row[..i + 1] + row[i + 1..] == row;
          return;
        }
        i := i + 1;
      }
      assert row[..i] == row;
      return OK;
    }

    method DeliverInternal(srcs: seq<nat>, node: nat, ghost lo: nat) returns (rc: Code)
      requires Valid() && node < |ast.nodes| && Placed(T(node), lo) && Within(srcs, 0, MAX_LEAVES)
      modifies this`edges, inCount, outCount
      ensures InRange(Cross(srcs, Outs(T(node)))) && (rc, S()) == AddAll(old(S()), Cross(srcs, Outs(T(node))))
      decreases node
    {
      hide *;
      WalkCases(T(node), true);
      OutsPlaced(T(node), lo);
      CrossInRange(srcs, Outs(T(node)));
      Unfold(node, lo);
      var p := ast.nodes[node];
      match p.kind
      case LEAF =>
        rc := DeliverLeaf(srcs, p.first);
      case GROUP =>
        ghost var ms := T(node).members;
        rc := OK;
        var i := 0;
        AddNone(S(), srcs);
        while i < p.count
          invariant i <= p.count
          invariant InRange(Cross(srcs, OutsOf(ms, i))) && (OK, S()) == AddAll(old(S()), Cross(srcs, OutsOf(ms, i)))
          invariant rc == OK
        {
          UnfoldMember(node, lo, i);
          OutsStep(old(S()), srcs, ms, i, lo);
          rc := DeliverInternal(srcs, ast.members[p.first + i], lo + SizeOf(ms, i));
          if rc != OK {
            return;
          }
          i := i + 1;
        }
      case EXPR =>
        rc := DeliverInternal(srcs, p.rhs, lo + Size(T(p.first)));
    }

    method WireBareSides(srcs: seq<nat>, node: nat, ghost lo: nat) returns (rc: Code)
      requires Valid() && node < |ast.nodes| && Placed(T(node), lo) && T(node).Pipe? && Within(srcs, 0, MAX_LEAVES)
      modifies this`edges, inCount, outCount
      ensures InRange(Cross(srcs, Sides(T(node)))) && (rc, S()) == AddAll(old(S()), Cross(srcs, Sides(T(node))))
    {
      hide *;
      Unfold(node, lo);
      var p := ast.nodes[node];
      ghost var l, r := T(p.first), T(p.rhs);
      Unfold(p.first, lo);
      Unfold(p.rhs, lo + Size(l));
      BarePlaced(l, lo);
      BarePlaced(r, lo + Size(l));
      SidesOf(T(node));
      CrossOn(S(), srcs, Bare(l), Bare(r));
      AddNone(S(), srcs);
      rc := OK;
      if ast.nodes[p.first].kind == LEAF {
        rc := DeliverLeaf(srcs, ast.nodes[p.first].first);
        if rc != OK {
          return;
        }
      }
      AddNone(S(), srcs);
      if ast.nodes[p.rhs].kind == LEAF {
        rc := DeliverLeaf(srcs, ast.nodes[p.rhs].first);
      }
    }

    method DeliverExternal(srcs: seq<nat>, node: nat, ghost lo: nat) returns (rc: Code)
      requires Valid() && node < |ast.nodes| && Placed(T(node), lo) && Within(srcs, 0, MAX_LEAVES)
      modifies this`edges, inCount, outCount
      ensures InRange(Cross(srcs, Entries(T(node)))) && (rc, S()) == AddAll(old(S()), Cross(srcs, Entries(T(node))))
    {
      hide *;
      WalkCases(T(node), true);
      EntriesPlaced(T(node), lo);
      CrossInRange(srcs, Entries(T(node)));
      Unfold(node, lo);
      var p := ast.nodes[node];
      match p.kind
      case LEAF =>
        rc := DeliverLeaf(srcs, p.first);
      case GROUP =>
        ghost var ms := T(node).members;
        rc := OK;
        var i := 0;
        AddNone(S(), srcs);
        while i < p.count
          invariant i <= p.count
          invariant InRange(Cross(srcs, EntriesOf(ms, i)))
          invariant (OK, S()) == AddAll(old(S()), Cross(srcs, EntriesOf(ms, i)))
          invariant rc == OK
        {
          UnfoldMember(node, lo, i);
          EntriesStep(old(S()), srcs, ms, i, lo);
          var member := ast.members[p.first + i];
          rc := DeliverMember(srcs, member, lo + SizeOf(ms, i));
          if rc != OK {
            return;
          }
          i := i + 1;
        }
      case EXPR =>
        rc := WireBareSides(srcs, node, lo);
    }

    /** A group one level down is passed over. */
    method DeliverMember(srcs: seq<nat>, member: nat, ghost lo: nat) returns (rc: Code)
      requires Valid() && member < |ast.nodes| && Placed(T(member), lo) && Within(srcs, 0, MAX_LEAVES)
      modifies this`edges, inCount, outCount
      ensures InRange(Cross(srcs, Entry(T(member)))) && (rc, S()) == AddAll(old(S()), Cross(srcs, Entry(T(member))))
    {
      hide *;
      WalkCases(T(member), true);
      Unfold(member, lo);
      AddNone(S(), srcs);
      if ast.nodes[member].kind == LEAF {
        rc := DeliverLeaf(srcs, ast.nodes[member].first);
      } else if ast.nodes[member].kind == EXPR {
        rc := WireBareSides(srcs, member, lo);
      } else {
        rc := OK;
      }
    }

    method WireInternals(node: nat, wireSelf: bool, ghost lo: nat) returns (rc: Code)
      requires Valid() && node < |ast.nodes| && Placed(T(node), lo)
      modifies this`edges, inCount, outCount
      ensures InRange(Internal(T(node), wireSelf))
      ensures (rc, S()) == AddAll(old(S()), Internal(T(node), wireSelf))
      decreases node
    {
      hide *;
      WalkCases(T(node), wireSelf);
      InternalPlaced(T(node), wireSelf, lo);
      Unfold(node, lo);
      var p := ast.nodes[node];
      AddNone(S(), []);
      if p.kind == GROUP {
        ghost var ms := T(node).members;
        var i := 0;
        while i < p.count
          invariant i <= p.count
          invariant InRange(InternalOf(ms, i)) && (OK, S()) == AddAll(old(S()), InternalOf(ms, i))
        {
          UnfoldMember(node, lo, i);
          InternalStep(old(S()), ms, i, lo);
          rc := WireInternals(ast.members[p.first + i], true, lo + SizeOf(ms, i));
          if rc != OK {
            return;
          }
          i := i + 1;
        }
        return OK;
      }
      if p.kind != EXPR {
        return OK;
      }
      ghost var l, r := T(p.first), T(p.rhs);
      InternalParts(S(), l, r, wireSelf, lo);
      rc := WireInternals(p.first, true, lo);
      if rc != OK {
        return;
      }
      rc := WireInternals(p.rhs, true, lo + Size(l));
      if rc != OK {
        return;
      }
      AddNone(S(), []);
      if !wireSelf {
        return OK;
      }
      var outs := Collect(p.first, lo);
      OutsPlaced(l, lo);
      rc := DeliverInternal(outs, p.rhs, lo + Size(l));
    }

    /** The outputs of a side: there is always room for them. */
    method Collect(node: nat, ghost lo: nat) returns (outs: seq<nat>)
      requires Valid() && node < |ast.nodes| && Placed(T(node), lo)
      ensures outs == Outs(T(node))
    {
      var buffer := new nat[MAX_LEAVES];
      OutsRise(T(node), lo);
      RisingFits(Outs(T(node)), lo, lo + Size(T(node)));
      var rc, n := OutputsCollect(node, buffer, 0, lo);
      return buffer[..n];
    }

    /**
      The pipes laid are those of the plan, each once and forwards, whenever there are no more than fourteen of them;
      with more, the code is PIPES. Either way streams are numbered from 0 for each command.
     */
    method WireGraph() returns (rc: Code)
      requires Valid()
      modifies this, inCount, outCount, extra
      ensures GoodNet(S()) && extras == 0
      ensures rc == OK <==> |Wanted(StatementPlan())| <= MAX_PIPES
      ensures rc == OK ==> Joined(edges) == Wanted(StatementPlan())
      ensures rc == OK || rc == PIPES
      ensures forall k :: 0 <= k < |edges| ==> edges[k].src < edges[k].dst < leaves
    {
      hide AddAll, Cross, GoodNet, InRange, Within, Wanted, Joined, Forward, Internal, Outs, Entries;
      hide Placed, Numbered, Size, SizeOf, Shape, AllSound;
      ResetState();
      PlanInRange();
      PlanLaid(StatementPlan(), leaves);
      AddNone(S(), []);
      if leaves == 0 {
        return OK;
      }
      Unfold(root, 0);
      if ast.nodes[root].kind != EXPR {
        return OK;
      }
      var p := ast.nodes[root];
      ghost var l, r := T(p.first), T(p.rhs);
      OutsPlaced(l, 0);
      EntriesPlaced(r, Size(l));
      CrossInRange(Outs(l), Entries(r));
      InternalPlaced(T(root), false, 0);
      AddAllJoin(S(), Internal(T(root), false), Cross(Outs(l), Entries(r)));
      rc := WireInternals(root, false, 0);
      if rc != OK {
        return;
      }
      var outs := Collect(p.first, 0);
      rc := DeliverExternal(outs, p.rhs, Size(l));
    }

    method OpenDefault(fd: int) returns (rc: int)
      requires Valid() && extras < extra.Length
      modifies this`extras, extra
      ensures fd < 0 ==> rc == -1 && extras == old(extras) && extra[..] == old(extra[..])
      ensures fd >= 0 ==> rc == 0 && extras == old(extras) + 1 && extra[..] == old(extra[..])[old(extras) := fd]
    {
      if fd < 0 {
        return -1;
      }
      extra[extras] := fd;
      extras := extras + 1;
      return 0;
    }

    /** A command with no input gets the default one; `fd` is what opening it gives. */
    method WireInput(i: nat, fd: int) returns (rc: int)
      requires Valid() && i < leaves && extras < extra.Length
      modifies this`extras, inCount, inFd, extra
      ensures old(inCount[i]) != 0 ==>
        rc == 0 && extras == old(extras) && extra[..] == old(extra[..]) && inCount[..] == old(inCount[..])
      ensures old(inCount[i]) == 0 ==> (rc == 0 <==> fd >= 0)
      ensures old(inCount[i]) == 0 && rc == 0 ==> inCount[..] == old(inCount[..])[i := 1] && inFd[i, 0] == fd
      ensures old(inCount[i]) == 0 && rc == 0 ==> extras == old(extras) + 1 && extra[..] == old(extra[..])[old(extras) := fd]
      ensures forall j :: 0 <= j < MAX_LEAVES && j != i ==> inFd[j, 0] == old(inFd[j, 0])
    {
      if inCount[i] == 0 {
        rc := OpenDefault(fd);
        if rc != 0 {
          return;
        }
        inFd[i, 0] := extra[extras - 1];
        inCount[i] := 1;
      }
      return 0;
    }

    method WireOutput(i: nat, fd: int) returns (rc: int)
      requires Valid() && i < leaves && extras < extra.Length
      modifies this`extras, outCount, outFd, extra
      ensures old(outCount[i]) != 0 ==>
        rc == 0 && extras == old(extras) && extra[..] == old(extra[..]) && outCount[..] == old(outCount[..])
      ensures old(outCount[i]) == 0 ==> (rc == 0 <==> fd >= 0)
      ensures old(outCount[i]) == 0 && rc == 0 ==> outCount[..] == old(outCount[..])[i := 1] && outFd[i, 0] == fd
      ensures old(outCount[i]) == 0 && rc == 0 ==> extras == old(extras) + 1 && extra[..] == old(extra[..])[old(extras) := fd]
      ensures forall j :: 0 <= j < MAX_LEAVES && j != i ==> outFd[j, 0] == old(outFd[j, 0])
    {
      if outCount[i] == 0 {
        rc := OpenDefault(fd);
        if rc != 0 {
          return;
        }
        outFd[i, 0] := extra[extras - 1];
        outCount[i] := 1;
      }
      return 0;
    }

    /** Both streams of one command; `n` is what the pipes gave it. */
    method WireBoth(i: nat, opens: seq<int>, ghost n: Net) returns (rc: int)
      requires Valid() && i < leaves && |opens| == 2 * MAX_LEAVES && n.Sized()
      requires extras == Gaps(n, i) <= 2 * i && inCount[i] == n.ins[i] && outCount[i] == n.outs[i]
      modifies this`extras, inCount, outCount, inFd, outFd, extra
      ensures rc == 0 <==> forall k :: old(extras) <= k < Gaps(n, i + 1) && k < |opens| ==> opens[k] >= 0
      ensures rc == 0 ==> extras == Gaps(n, i + 1) <= 2 * (i + 1)
      ensures rc == 0 ==> InDefault(n, opens, i, inCount[i], inFd[i, 0]) && OutDefault(n, opens, i, outCount[i], outFd[i, 0])
      ensures rc == 0 ==> forall k :: old(extras) <= k < extras && k < |opens| ==> extra[k] == opens[k]
      ensures rc == 0 ==> forall k :: 0 <= k < old(extras) ==> extra[k] == old(extra[k])
      ensures rc == 0 ==> forall j :: 0 <= j < MAX_LEAVES && j != i ==>
        && inCount[j] == old(inCount[j]) && inFd[j, 0] == old(inFd[j, 0])
        && outCount[j] == old(outCount[j]) && outFd[j, 0] == old(outFd[j, 0])
    {
      hide AllSound, Placed, Shape, InDefault, OutDefault;
      rc := WireInput(i, opens[extras]);
      if rc != 0 {
        return;
      }
      rc := WireOutput(i, opens[extras]);
      if rc != 0 {
        return;
      }
      DefaultsAre(n, opens, i, inCount[i], inFd[i, 0], outCount[i], outFd[i, 0]);
    }

    /** Commands with no input or no output get the defaults; `opens` is what each opening of one gives in turn. */
    method WireDefaults(opens: seq<int>) returns (rc: int)
      requires Valid() && extras == 0 && |opens| == 2 * MAX_LEAVES
      modifies this`extras, inCount, outCount, inFd, outFd, extra
      ensures rc == 0 <==> AllOpen(opens, Gaps(old(S()), leaves))
      ensures rc == 0 ==> Defaulted(old(S()), opens, leaves)
      ensures rc == 0 ==> extras == Gaps(old(S()), leaves) <= extra.Length
      ensures rc == 0 ==> forall k :: 0 <= k < extras ==> extra[k] == opens[k]
    {
      hide AllSound, Placed, Shape, Gaps;
      ghost var n := S();
      var i := 0;
      GapsGrow(n, 0, 0);
      GapsNone(n);
      while i < leaves
        invariant i <= leaves
        invariant extras == Gaps(n, i) <= 2 * i
        invariant AllOpen(opens, extras)
        invariant forall k :: 0 <= k < extras ==> extra[k] == opens[k]
        invariant Defaulted(n, opens, i)
        invariant forall j :: i <= j < MAX_LEAVES ==> inCount[j] == n.ins[j] && outCount[j] == n.outs[j]
      {
        GapsGrow(n, i + 1, leaves);
        GapsGrow(n, 0, leaves);
        rc := WireBoth(i, opens, n);
        if rc != 0 {
          return;
        }
        i := i + 1;
      }
      return 0;
    }

    /** The first `n` openings succeed. */
    ghost predicate AllOpen(opens: seq<int>, n: nat) {
      n <= |opens| && forall j :: 0 <= j < n ==> opens[j] >= 0
    }

    /** The first `i` commands have at least one stream each way, the missing ones from the openings in turn. */
    ghost predicate Defaulted(n: Net, opens: seq<int>, i: nat)
      requires Valid() && n.Sized() && i <= MAX_LEAVES && |opens| == 2 * MAX_LEAVES
      reads inCount, outCount, inFd, outFd
    {
      forall j :: 0 <= j < i ==> InDefault(n, opens, j, inCount[j], inFd[j, 0]) && OutDefault(n, opens, j, outCount[j], outFd[j, 0])
    }

    /** The first `i` edges have their pipes, an end of each in the slot its stream number says. */
    ghost predicate Piped(n: Net, fds: seq<(int, int)>, i: nat)
      requires Valid() && i <= |n.edges|
      reads this`edges, inFd, outFd
    {
      && i <= |fds| && |edges| == |n.edges|
      && forall k :: 0 <= k < i ==> InPlace(n.edges[k], fds[k]) && edges[k] == n.edges[k].(rfd := fds[k].0, wfd := fds[k].1)
    }

    ghost predicate InPlace(e: Edge, fd: (int, int))
      requires Valid()
      reads inFd, outFd
    {
      && e.src < MAX_LEAVES && e.srcStream < MAX_STREAMS && outFd[e.src, e.srcStream] == fd.1
      && e.dst < MAX_LEAVES && e.dstStream < MAX_STREAMS && inFd[e.dst, e.dstStream] == fd.0
    }

    /** A pipe for every edge, each end put in the slot its stream number says; `fds` is what the system gives. */
    method CreatePipes(fds: seq<(int, int)>, ghost n: Net) returns (rc: int)
      requires Valid() && GoodNet(n) && n.edges == edges
      modifies this`edges, inFd, outFd
      ensures rc == 0 <==> |edges| <= |fds|
      ensures rc == 0 ==> Piped(n, fds, |n.edges|)
      ensures forall i :: 0 <= i < MAX_LEAVES && Unfed(n.edges, i) ==> inFd[i, 0] == old(inFd[i, 0])
      ensures forall i :: 0 <= i < MAX_LEAVES && Undrained(n.edges, i) ==> outFd[i, 0] == old(outFd[i, 0])
      ensures |edges| == |n.edges|
    {
      var i := 0;
      while i < |edges|
        invariant i <= |edges| == |n.edges| && i <= |fds|
        invariant Piped(n, fds, i)
        invariant forall k :: i <= k < |edges| ==> edges[k] == n.edges[k]
        invariant forall i :: 0 <= i < MAX_LEAVES && Unfed(n.edges, i) ==> inFd[i, 0] == old(inFd[i, 0])
        invariant forall i :: 0 <= i < MAX_LEAVES && Undrained(n.edges, i) ==> outFd[i, 0] == old(outFd[i, 0])
      {
        if i >= |fds| {
          return -1;
        }
        var rfd, wfd := fds[i].0, fds[i].1;
        StreamsFit(n, i);
        ghost var e := n.edges[i];
        edges := edges[i := edges[i].(rfd := rfd, wfd := wfd)];
        outFd[edges[i].src, edges[i].srcStream] := wfd;
        inFd[edges[i].dst, edges[i].dstStream] := rfd;
        assert !Undrained(n.edges, e.src) && !Unfed(n.edges, e.dst);
        forall k | 0 <= k < i
          ensures !(n.edges[k].src == e.src && n.edges[k].srcStream == e.srcStream)
          ensures !(n.edges[k].dst == e.dst && n.edges[k].dstStream == e.dstStream)
        {
          SlotsApart(n, k, i);
        }
        i := i + 1;
      }
      return 0;
    }

    /**
      From the tree to the descriptors the commands are started with: every command has at least one stream each way;
      a command no pipe leads to reads from a default, any other from pipes only, a different one in every slot; and in
      the same way for what it writes.
     */
    method Connect(opens: seq<int>, fds: seq<(int, int)>) returns (rc: Code, ready: bool)
      requires Valid() && |opens| == 2 * MAX_LEAVES
      modifies this, inCount, outCount, inFd, outFd, extra
      ensures ready ==> rc == OK && Joined(edges) == Wanted(StatementPlan()) && |edges| <= |fds|
      ensures ready ==> forall i :: 0 <= i < leaves ==> Fed(opens, fds, i) && Drained(opens, fds, i)
      ensures rc == OK <==> |Wanted(StatementPlan())| <= MAX_PIPES
    {
      hide GoodNet, Joined, Wanted, StatementPlan, AllSound, Placed, Shape;
      ready := false;
      rc := WireGraph();
      if rc != OK {
        return;
      }
      ghost var n := S();
      GapsGrow(n, 0, leaves);
      var d := WireDefaults(opens);
      if d != 0 {
        return;
      }
      label Before:
      var c := CreatePipes(fds, n);
      if c != 0 {
        return;
      }
      ready := true;
      assert Piped(n, fds, |edges|);
      SameEnds(n.edges, edges);
      forall i | 0 <= i < leaves
        ensures Fed(opens, fds, i) && Drained(opens, fds, i)
      {
        assert InDefault(n, opens, i, inCount[i], old@Before(inFd[i, 0])) && OutDefault(n, opens, i, outCount[i], old@Before(outFd[i, 0]));
        UnfedWhen(n, i);
        IsFed(n, opens, fds, i);
        IsDrained(n, opens, fds, i);
      }
    }

    lemma IsFed(n: Net, opens: seq<int>, fds: seq<(int, int)>, i: nat)
      requires Valid() && GoodNet(n) && i < leaves && |opens| == 2 * MAX_LEAVES
      requires |edges| == |n.edges| && Piped(n, fds, |edges|) && InDefault(n, opens, i, inCount[i], inFd[i, 0])
      ensures Fed(opens, fds, i)
    {
      UnfedWhen(n, i);
      GapsGrow(n, 0, i);
      SameEnds(n.edges, edges);
      if !Unfed(edges, i) {
        CountsFit(n.edges, i);
        forall k | 0 <= k < inCount[i]
          ensures Filled(inFd[i, k], fds, i, k)
        {
          InputsOneEach(n, i, k);
          var j :| FeedsAt(n.edges, j, i, k);
          assert InPlace(n.edges[j], fds[j]);
          assert FeedsAt(edges, j, i, k);
          forall l | FeedsAt(edges, l, i, k)
            ensures l == j
          {
            assert FeedsAt(n.edges, l, i, k);
          }
        }
      }
    }

    lemma IsDrained(n: Net, opens: seq<int>, fds: seq<(int, int)>, i: nat)
      requires Valid() && GoodNet(n) && i < leaves && |opens| == 2 * MAX_LEAVES
      requires |edges| == |n.edges| && Piped(n, fds, |edges|) && OutDefault(n, opens, i, outCount[i], outFd[i, 0])
      ensures Drained(opens, fds, i)
    {
      UnfedWhen(n, i);
      GapsGrow(n, 0, i);
      SameEnds(n.edges, edges);
      if !Undrained(edges, i) {
        CountsFit(n.edges, i);
        forall k | 0 <= k < outCount[i]
          ensures FilledOut(outFd[i, k], fds, i, k)
        {
          OutputsOneEach(n, i, k);
          var j :| DrainsAt(n.edges, j, i, k);
          assert InPlace(n.edges[j], fds[j]);
          assert DrainsAt(edges, j, i, k);
          forall l | DrainsAt(edges, l, i, k)
            ensures l == j
          {
            assert DrainsAt(n.edges, l, i, k);
          }
        }
      }
    }

    /** The inputs of a command: one default, or the reading ends of different pipes. */
    ghost predicate Fed(opens: seq<int>, fds: seq<(int, int)>, i: nat)
      requires Valid() && i < leaves && |edges| <= |fds|
      reads this`edges, inCount, inFd
    {
      if Unfed(edges, i) then inCount[i] == 1 && inFd[i, 0] in opens
      else 0 < inCount[i] <= MAX_STREAMS && forall k :: 0 <= k < inCount[i] ==> Filled(inFd[i, k], fds, i, k)
    }

    /** The slot holds the reading end of one pipe, the only one that belongs there. */
    ghost predicate Filled(fd: int, fds: seq<(int, int)>, i: nat, k: nat)
      requires |edges| <= |fds|
      reads this`edges
    {
      exists j :: FeedsAt(edges, j, i, k) && fd == fds[j].0 && forall l :: FeedsAt(edges, l, i, k) ==> l == j
    }

    ghost predicate FilledOut(fd: int, fds: seq<(int, int)>, i: nat, k: nat)
      requires |edges| <= |fds|
      reads this`edges
    {
      exists j :: DrainsAt(edges, j, i, k) && fd == fds[j].1 && forall l :: DrainsAt(edges, l, i, k) ==> l == j
    }

    ghost predicate Drained(opens: seq<int>, fds: seq<(int, int)>, i: nat)
      requires Valid() && i < leaves && |edges| <= |fds|
      reads this`edges, outCount, outFd
    {
      if Undrained(edges, i) then outCount[i] == 1 && outFd[i, 0] in opens
      else 0 < outCount[i] <= MAX_STREAMS && forall k :: 0 <= k < outCount[i] ==> FilledOut(outFd[i, k], fds, i, k)
    }

    /** The plan of the statement; a lone command or group has none. */
    ghost function StatementPlan(): seq<Pair>
      requires Valid()
    {
      if leaves == 0 then [] else Plan(T(root))
    }

    lemma PlanInRange()
      requires Valid()
      ensures InRange(StatementPlan()) && Forward(StatementPlan(), 0, leaves)
    {
      if leaves > 0 {
        PlanForward(T(root));
      }
      ForwardInRange(StatementPlan(), 0, leaves);
    }
  }
}
