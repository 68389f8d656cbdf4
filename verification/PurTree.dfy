/**
  A pipeline as the tree its text stands for, kept in a pool of numbered nodes; and the pairs of commands that the tree
  says are to be joined by pipes.
 */
module PurTree {
  const MAX_LEAVES := 16

  /** A command, known by its number; commands run together; one side piped into the other. */
  datatype Tree = Cmd(leaf: nat) | Group(members: seq<Tree>) | Pipe(left: Tree, right: Tree)

  // ---------- the pools ----------

  datatype Kind = LEAF | GROUP | EXPR

  datatype Node = Node(kind: Kind, first: nat, count: nat, rhs: nat)

  datatype Ast = Ast(nodes: seq<Node>, members: seq<nat>)

  /** What a node names comes before it in the pools. */
  predicate Sound(a: Ast, n: nat)
    requires n < |a.nodes|
  {
    var p := a.nodes[n];
    match p.kind
    case LEAF => true
    case GROUP => p.first + p.count <= |a.members| && forall i :: p.first <= i < p.first + p.count ==> a.members[i] < n
    case EXPR => p.first < n && p.rhs < n
  }

  predicate AllSound(a: Ast) {
    forall n :: 0 <= n < |a.nodes| ==> Sound(a, n)
  }

  /** The tree a node stands for. */
  function Shape(a: Ast, n: nat): Tree
    requires AllSound(a) && n < |a.nodes|
    decreases n
  {
    var p := a.nodes[n];
    assert Sound(a, n);
    match p.kind
    case LEAF => Cmd(p.first)
    case GROUP => Group(seq(p.count, i requires 0 <= i < p.count => Shape(a, a.members[p.first + i])))
    case EXPR => Pipe(Shape(a, p.first), Shape(a, p.rhs))
  }

  /** Pools that only grew keep the shape of every node they had. */
  lemma {:induction false} ShapeKept(a: Ast, b: Ast, n: nat)
    requires AllSound(a) && AllSound(b) && n < |a.nodes|
    requires a.nodes <= b.nodes && a.members <= b.members
    ensures Shape(b, n) == Shape(a, n)
    decreases n
  {
    var p := a.nodes[n];
    assert Sound(a, n) && Sound(b, n) && b.nodes[n] == p;
    match p.kind
    case LEAF =>
    case GROUP =>
      var s, t := Shape(a, n).members, Shape(b, n).members;
      forall i | 0 <= i < |s|
        ensures s[i] == t[i]
      {
        var m := p.first + i;
        assert a.members[m] == b.members[m];
        ShapeKept(a, b, a.members[m]);
      }
    case EXPR =>
      ShapeKept(a, b, p.first);
      ShapeKept(a, b, p.rhs);
  }

  // ---------- numbering ----------

  function Size(t: Tree): nat {
    match t
    case Cmd(_) => 1
    case Group(ms) => SizeOf(ms, |ms|)
    case Pipe(l, r) => Size(l) + Size(r)
  }

  function SizeOf(ms: seq<Tree>, k: nat): nat
    requires k <= |ms|
  {
    if k == 0 then 0 else SizeOf(ms, k - 1) + Size(ms[k - 1])
  }

  /** The commands are numbered from `lo` on, in the order of the text. */
  predicate Numbered(t: Tree, lo: nat) {
    match t
    case Cmd(leaf) => leaf == lo
    case Group(ms) => NumberedOf(ms, |ms|, lo)
    case Pipe(l, r) => Numbered(l, lo) && Numbered(r, lo + Size(l))
  }

  predicate NumberedOf(ms: seq<Tree>, k: nat, lo: nat)
    requires k <= |ms|
  {
    k > 0 ==> NumberedOf(ms, k - 1, lo) && Numbered(ms[k - 1], lo + SizeOf(ms, k - 1))
  }

  function Leaves(t: Tree): seq<nat> {
    match t
    case Cmd(leaf) => [leaf]
    case Group(ms) => LeavesOf(ms, |ms|)
    case Pipe(l, r) => Leaves(l) + Leaves(r)
  }

  function LeavesOf(ms: seq<Tree>, k: nat): seq<nat>
    requires k <= |ms|
  {
    if k == 0 then [] else LeavesOf(ms, k - 1) + Leaves(ms[k - 1])
  }

  // ---------- what is to be joined ----------

  /** The commands whose output is the tree's output, which are also those its input goes to inside a compound. */
  function Outs(t: Tree): seq<nat> {
    match t
    case Cmd(leaf) => [leaf]
    case Group(ms) => OutsOf(ms, |ms|)
    case Pipe(_, r) => Outs(r)
  }

  function OutsOf(ms: seq<Tree>, k: nat): seq<nat>
    requires k <= |ms|
  {
    if k == 0 then [] else OutsOf(ms, k - 1) + Outs(ms[k - 1])
  }

  function Bare(t: Tree): seq<nat> {
    if t.Cmd? then [t.leaf] else []
  }

  /** The commands right at the two ends of a pipe. */
  function Sides(t: Tree): seq<nat>
    requires t.Pipe?
  {
    Bare(t.left) + Bare(t.right)
  }

  /** The commands the input from outside goes to: a group inside the group is passed over. */
  function Entries(t: Tree): seq<nat> {
    match t
    case Cmd(leaf) => [leaf]
    case Group(ms) => EntriesOf(ms, |ms|)
    case Pipe(_, _) => Sides(t)
  }

  function Entry(m: Tree): seq<nat> {
    if m.Pipe? then Sides(m) else Bare(m)
  }

  function EntriesOf(ms: seq<Tree>, k: nat): seq<nat>
    requires k <= |ms|
  {
    if k == 0 then [] else EntriesOf(ms, k - 1) + Entry(ms[k - 1])
  }

  type Pair = (nat, nat)

  function Row(srcs: seq<nat>, d: nat): seq<Pair> {
    seq(|srcs|, i requires 0 <= i < |srcs| => (srcs[i], d))
  }

  /** Every source with every destination. */
  function Cross(srcs: seq<nat>, dsts: seq<nat>): seq<Pair> {
    if dsts == [] then [] else Cross(srcs, dsts[..|dsts| - 1]) + Row(srcs, dsts[|dsts| - 1])
  }

  /** The pipes inside a tree, its own first pipe counted if `self`. */
  function Internal(t: Tree, self: bool): seq<Pair> {
    match t
    case Cmd(_) => []
    case Group(ms) => InternalOf(ms, |ms|)
    case Pipe(l, r) => Internal(l, true) + Internal(r, true) + if self then Cross(Outs(l), Outs(r)) else []
  }

  function InternalOf(ms: seq<Tree>, k: nat): seq<Pair>
    requires k <= |ms|
  {
    if k == 0 then [] else InternalOf(ms, k - 1) + Internal(ms[k - 1], true)
  }

  /** All the pipes of a statement. */
  function Plan(t: Tree): seq<Pair> {
    if t.Pipe? then Internal(t, false) + Cross(Outs(t.left), Entries(t.right)) else []
  }

  lemma {:induction false} CrossJoin(srcs: seq<nat>, a: seq<nat>, b: seq<nat>)
    ensures Cross(srcs, a + b) == Cross(srcs, a) + Cross(srcs, b)
  {
    if b == [] {
      assert a + b == a;
    } else {
      var c := b[..|b| - 1];
      assert (a + b)[..|a + b| - 1] == a + c;
      CrossJoin(srcs, a, c);
    }
  }

  /** The product holds just the pairs it should. */
  lemma {:induction false} CrossHas(srcs: seq<nat>, dsts: seq<nat>, p: Pair)
    ensures p in Cross(srcs, dsts) <==> p.0 in srcs && p.1 in dsts
  {
    if dsts != [] {
      var d := dsts[|dsts| - 1];
      var rest := dsts[..|dsts| - 1];
      CrossHas(srcs, rest, p);
      assert dsts == rest + [d];
      if p.0 in srcs && p.1 == d {
        var i :| 0 <= i < |srcs| && srcs[i] == p.0;
        assert Row(srcs, d)[i] == p;
      }
    }
  }

  // ---------- pipes run forwards ----------

  /** Rising numbers from `lo` to below `hi`. */
  predicate Rising(s: seq<nat>, lo: nat, hi: nat) {
    && (forall i :: 0 <= i < |s| ==> lo <= s[i] < hi)
    && (forall i, j :: 0 <= i < j < |s| ==> s[i] < s[j])
  }

  lemma {:induction false} RisingFits(s: seq<nat>, lo: nat, hi: nat)
    requires Rising(s, lo, hi) && lo <= hi
    ensures |s| <= hi - lo
  {
    if s != [] {
      RisingFits(s[..|s| - 1], lo, s[|s| - 1]);
    }
  }

  /** The output commands lie within the tree, no one twice. */
  lemma {:induction false} OutsRise(t: Tree, lo: nat)
    requires Numbered(t, lo)
    ensures Rising(Outs(t), lo, lo + Size(t))
  {
    match t
    case Cmd(_) =>
    case Group(ms) => OutsOfRise(ms, |ms|, lo);
    case Pipe(l, r) => OutsRise(r, lo + Size(l));
  }

  lemma {:induction false} OutsOfRise(ms: seq<Tree>, k: nat, lo: nat)
    requires k <= |ms| && NumberedOf(ms, k, lo)
    ensures Rising(OutsOf(ms, k), lo, lo + SizeOf(ms, k))
  {
    if k > 0 {
      OutsOfRise(ms, k - 1, lo);
      OutsRise(ms[k - 1], lo + SizeOf(ms, k - 1));
    }
  }

  ghost predicate Within(s: seq<nat>, lo: nat, hi: nat) {
    forall x :: x in s ==> lo <= x < hi
  }

  lemma {:induction false} SidesWithin(t: Tree, lo: nat)
    requires t.Pipe? && Numbered(t, lo)
    ensures Within(Sides(t), lo, lo + Size(t))
  {
  }

  lemma EntryWithin(m: Tree, lo: nat)
    requires Numbered(m, lo)
    ensures Within(Entry(m), lo, lo + Size(m))
  {
    if m.Pipe? {
      SidesWithin(m, lo);
    }
  }

  lemma {:induction false} EntriesOfWithin(ms: seq<Tree>, k: nat, lo: nat)
    requires k <= |ms| && NumberedOf(ms, k, lo)
    ensures Within(EntriesOf(ms, k), lo, lo + SizeOf(ms, k))
  {
    if k > 0 {
      hide Numbered, Entry, Size;
      EntriesOfWithin(ms, k - 1, lo);
      EntryWithin(ms[k - 1], lo + SizeOf(ms, k - 1));
    }
  }

  lemma {:induction false} EntriesWithin(t: Tree, lo: nat)
    requires Numbered(t, lo)
    ensures Within(Entries(t), lo, lo + Size(t))
  {
    match t
    case Cmd(_) =>
    case Group(ms) => EntriesOfWithin(ms, |ms|, lo);
    case Pipe(_, _) => SidesWithin(t, lo);
  }

  /** Each pair goes from a command to a later one, both within `lo` to `hi`. */
  ghost predicate Forward(ps: seq<Pair>, lo: nat, hi: nat) {
    forall p :: p in ps ==> lo <= p.0 < p.1 < hi
  }

  lemma CrossForward(srcs: seq<nat>, dsts: seq<nat>, lo: nat, mid: nat, hi: nat)
    requires Within(srcs, lo, mid) && Within(dsts, mid, hi)
    ensures Forward(Cross(srcs, dsts), lo, hi)
  {
    forall p | p in Cross(srcs, dsts)
      ensures lo <= p.0 < p.1 < hi
    {
      CrossHas(srcs, dsts, p);
    }
  }

  lemma {:induction false} InternalForward(t: Tree, self: bool, lo: nat)
    requires Numbered(t, lo)
    ensures Forward(Internal(t, self), lo, lo + Size(t))
  {
    match t
    case Cmd(_) =>
    case Group(ms) => InternalOfForward(ms, |ms|, lo);
    case Pipe(l, r) =>
      InternalForward(l, true, lo);
      InternalForward(r, true, lo + Size(l));
      OutsRise(l, lo);
      OutsRise(r, lo + Size(l));
      CrossForward(Outs(l), Outs(r), lo, lo + Size(l), lo + Size(t));
  }

  lemma {:induction false} InternalOfForward(ms: seq<Tree>, k: nat, lo: nat)
    requires k <= |ms| && NumberedOf(ms, k, lo)
    ensures Forward(InternalOf(ms, k), lo, lo + SizeOf(ms, k))
  {
    if k > 0 {
      InternalOfForward(ms, k - 1, lo);
      InternalForward(ms[k - 1], true, lo + SizeOf(ms, k - 1));
    }
  }

  /** Every pipe of a statement goes from a command to one that comes after it in the text. */
  lemma PlanForward(t: Tree)
    requires Numbered(t, 0)
    ensures Forward(Plan(t), 0, Size(t))
  {
    if t.Pipe? {
      InternalForward(t, false, 0);
      OutsRise(t.left, 0);
      EntriesWithin(t.right, Size(t.left));
      CrossForward(Outs(t.left), Entries(t.right), 0, Size(t.left), Size(t));
    }
  }

  // ---------- how far an output reaches ----------

  predicate Pipeless(t: Tree) {
    match t
    case Cmd(_) => true
    case Group(ms) => forall i :: 0 <= i < |ms| ==> Pipeless(ms[i])
    case Pipe(_, _) => false
  }

  /** No group is empty, as the parser sees to. */
  predicate Peopled(t: Tree) {
    match t
    case Cmd(_) => true
    case Group(ms) => |ms| > 0 && forall i :: 0 <= i < |ms| ==> Peopled(ms[i])
    case Pipe(l, r) => Peopled(l) && Peopled(r)
  }

  lemma {:induction false} OutsCount(t: Tree)
    requires Peopled(t)
    ensures 0 < |Outs(t)| <= |Leaves(t)|
    ensures Pipeless(t) ==> Outs(t) == Leaves(t)
    ensures !Pipeless(t) ==> |Outs(t)| < |Leaves(t)|
  {
    match t
    case Cmd(_) =>
    case Group(ms) => OutsOfCount(ms, |ms|);
    case Pipe(l, r) =>
      OutsCount(l);
      OutsCount(r);
  }

  lemma {:induction false} OutsOfCount(ms: seq<Tree>, k: nat)
    requires k <= |ms| && forall i :: 0 <= i < k ==> Peopled(ms[i])
    ensures k <= |OutsOf(ms, k)| <= |LeavesOf(ms, k)|
    ensures (forall i :: 0 <= i < k ==> Pipeless(ms[i])) ==> OutsOf(ms, k) == LeavesOf(ms, k)
    ensures (exists i :: 0 <= i < k && !Pipeless(ms[i])) ==> |OutsOf(ms, k)| < |LeavesOf(ms, k)|
  {
    if k > 0 {
      OutsOfCount(ms, k - 1);
      OutsCount(ms[k - 1]);
    }
  }

  lemma {:induction false} LeavesRise(t: Tree, lo: nat)
    requires Numbered(t, lo)
    ensures Rising(Leaves(t), lo, lo + Size(t)) && |Leaves(t)| == Size(t)
  {
    match t
    case Cmd(_) =>
    case Group(ms) => LeavesOfRise(ms, |ms|, lo);
    case Pipe(l, r) =>
      LeavesRise(l, lo);
      LeavesRise(r, lo + Size(l));
  }

  lemma {:induction false} LeavesOfRise(ms: seq<Tree>, k: nat, lo: nat)
    requires k <= |ms| && NumberedOf(ms, k, lo)
    ensures Rising(LeavesOf(ms, k), lo, lo + SizeOf(ms, k)) && |LeavesOf(ms, k)| == SizeOf(ms, k)
  {
    if k > 0 {
      LeavesOfRise(ms, k - 1, lo);
      LeavesRise(ms[k - 1], lo + SizeOf(ms, k - 1));
    }
  }

  /** Different rising sequences with the same members have the same length. */
  lemma {:induction false} RisingSame(a: seq<nat>, b: seq<nat>, lo: nat, hi: nat)
    requires Rising(a, lo, hi) && Rising(b, lo, hi)
    requires forall x :: x in b ==> x in a
    ensures |b| <= |a|
  {
    if b != [] {
      var x := b[|b| - 1];
      assert x in b;
      var i :| 0 <= i < |a| && a[i] == x;
      forall y | y in b[..|b| - 1]
        ensures y in a[..i]
      {
        var k :| 0 <= k < |b| - 1 && b[k] == y;
        assert y in b;
        var j :| 0 <= j < |a| && a[j] == y;
        assert y < x;
        assert j < i;
      }
      RisingSame(a[..i], b[..|b| - 1], lo, hi);
    }
  }

  // ---------- members of a group keep to their own numbers ----------

  lemma {:induction false} SizeOfGrows(ms: seq<Tree>, j: nat, k: nat)
    requires j <= k <= |ms|
    ensures SizeOf(ms, j) <= SizeOf(ms, k) && |OutsOf(ms, j)| <= |OutsOf(ms, k)|
  {
    if j < k {
      SizeOfGrows(ms, j, k - 1);
    }
  }

  lemma SizeOfNext(ms: seq<Tree>, j: nat)
    requires j < |ms|
    ensures SizeOf(ms, j + 1) == SizeOf(ms, j) + Size(ms[j])
  {
  }

  lemma {:induction false} NumberedEach(ms: seq<Tree>, k: nat, lo: nat, j: nat)
    requires j < k <= |ms| && NumberedOf(ms, k, lo)
    ensures Numbered(ms[j], lo + SizeOf(ms, j)) && NumberedOf(ms, j, lo)
  {
    if j < k - 1 {
      NumberedEach(ms, k - 1, lo, j);
    }
  }

  /** Where the numbers of member `j` of a group lie. */
  lemma MemberAt(ms: seq<Tree>, k: nat, lo: nat, j: nat)
    requires j < k <= |ms| && NumberedOf(ms, k, lo)
    ensures Numbered(ms[j], lo + SizeOf(ms, j)) && SizeOf(ms, j) + Size(ms[j]) <= SizeOf(ms, k)
  {
    hide Numbered, NumberedOf, Size, SizeOf;
    NumberedEach(ms, k, lo, j);
    SizeOfNext(ms, j);
    SizeOfGrows(ms, j + 1, k);
  }

  /** Pipes between commands of one member of a group are those inside that member. */
  lemma {:induction false} InternalOfAt(ms: seq<Tree>, k: nat, lo: nat, j: nat, p: Pair)
    requires j < k <= |ms| && NumberedOf(ms, k, lo)
    requires lo + SizeOf(ms, j) <= p.0 < lo + SizeOf(ms, j) + Size(ms[j])
    ensures p in InternalOf(ms, k) <==> p in Internal(ms[j], true)
  {
    hide Numbered, Internal, Size;
    MemberAt(ms, k, lo, j);
    InternalForward(ms[k - 1], true, lo + SizeOf(ms, k - 1));
    InternalOfForward(ms, k - 1, lo);
    if j < k - 1 {
      MemberAt(ms, k - 1, lo, j);
      InternalOfAt(ms, k - 1, lo, j, p);
    }
  }

  lemma {:induction false} EntriesOfAt(ms: seq<Tree>, k: nat, lo: nat, j: nat, d: nat)
    requires j < k <= |ms| && NumberedOf(ms, k, lo)
    requires lo + SizeOf(ms, j) <= d < lo + SizeOf(ms, j) + Size(ms[j])
    ensures d in EntriesOf(ms, k) <==> d in Entry(ms[j])
  {
    hide Numbered, Entry, Size;
    MemberAt(ms, k, lo, j);
    EntryWithin(ms[k - 1], lo + SizeOf(ms, k - 1));
    EntriesOfWithin(ms, k - 1, lo);
    if j < k - 1 {
      MemberAt(ms, k - 1, lo, j);
      EntriesOfAt(ms, k - 1, lo, j, d);
    }
  }

  lemma {:induction false} LeavesOfHas(ms: seq<Tree>, k: nat, d: nat)
    requires k <= |ms|
    ensures d in LeavesOf(ms, k) <==> exists j :: 0 <= j < k && d in Leaves(ms[j])
  {
    hide Leaves;
    if k > 0 {
      LeavesOfHas(ms, k - 1, d);
    }
  }

  // ---------- which commands a pipe reaches ----------

  /** `p` is `t` or somewhere in it. */
  predicate Part(t: Tree, p: Tree) {
    p == t ||
    match t
    case Cmd(_) => false
    case Group(ms) => exists i :: 0 <= i < |ms| && Part(ms[i], p)
    case Pipe(l, r) => Part(l, p) || Part(r, p)
  }

  lemma {:induction false} PartPlace(t: Tree, lo: nat, p: Tree) returns (at: nat)
    requires Numbered(t, lo) && Peopled(t) && Part(t, p)
    ensures Numbered(p, at) && Peopled(p)
  {
    if p == t {
      return lo;
    }
    match t
    case Group(ms) =>
      var i :| 0 <= i < |ms| && Part(ms[i], p);
      NumberedEach(ms, |ms|, lo, i);
      at := PartPlace(ms[i], lo + SizeOf(ms, i), p);
    case Pipe(l, r) =>
      if Part(l, p) {
        at := PartPlace(l, lo, p);
      } else {
        at := PartPlace(r, lo + Size(l), p);
      }
  }

  /** No pipe but the tree's own leads from the left of it to the right. */
  lemma OwnPairs(t: Tree, lo: nat, s: nat, d: nat)
    requires t.Pipe? && Numbered(t, lo) && s in Outs(t.left) && d in Leaves(t.right)
    ensures lo <= s < lo + Size(t.left) <= d < lo + Size(t)
    ensures (s, d) !in Internal(t.left, true) && (s, d) !in Internal(t.right, true) && (s, d) !in Internal(t, false)
  {
    hide Numbered, Outs, Leaves;
    var mid := lo + Size(t.left);
    assert Numbered(t.left, lo) && Numbered(t.right, mid) by {
      NumberedPipe(t, lo);
    }
    OutsRise(t.left, lo);
    LeavesRise(t.right, mid);
    InternalForward(t.left, true, lo);
    InternalForward(t.right, true, mid);
  }

  lemma NumberedPipe(t: Tree, lo: nat)
    requires t.Pipe? && Numbered(t, lo)
    ensures Numbered(t.left, lo) && Numbered(t.right, lo + Size(t.left)) && Size(t) == Size(t.left) + Size(t.right)
  {
  }

  /** A pipe inside a tree goes to the outputs of its right side, and nothing else in the tree does its work. */
  lemma {:induction false} PartPairs(t: Tree, lo: nat, p: Tree, s: nat, d: nat)
    requires Numbered(t, lo) && Part(t, p) && p.Pipe? && s in Outs(p.left) && d in Leaves(p.right)
    ensures (s, d) in Internal(t, true) <==> d in Outs(p.right)
    ensures lo <= s < d < lo + Size(t)
    decreases t, 1
  {
    hide Outs, Leaves, Cross, Size;
    if p == t {
      OwnPairs(t, lo, s, d);
      CrossHas(Outs(t.left), Outs(t.right), (s, d));
    } else {
      match t
      case Group(ms) =>
        var i :| 0 <= i < |ms| && Part(ms[i], p);
        MemberAt(ms, |ms|, lo, i);
        PartPairs(ms[i], lo + SizeOf(ms, i), p, s, d);
        InternalOfAt(ms, |ms|, lo, i, (s, d));
        GroupSize(ms);
      case Pipe(l, r) =>
        PartOfPipe(t, lo, p, s, d);
        OwnAdded(t);
        NumberedPipe(t, lo);
        OutsRise(r, lo + Size(l));
        CrossHas(Outs(l), Outs(r), (s, d));
    }
  }

  lemma OwnAdded(t: Tree)
    requires t.Pipe?
    ensures Internal(t, true) == Internal(t, false) + Cross(Outs(t.left), Outs(t.right))
  {
  }

  lemma GroupSize(ms: seq<Tree>)
    ensures Size(Group(ms)) == SizeOf(ms, |ms|)
  {
  }

  /** A pipe in one of the two sides of another. */
  lemma {:induction false} PartOfPipe(t: Tree, lo: nat, p: Tree, s: nat, d: nat)
    requires t.Pipe? && Numbered(t, lo) && (Part(t.left, p) || Part(t.right, p))
    requires p.Pipe? && s in Outs(p.left) && d in Leaves(p.right)
    ensures (s, d) in Internal(t, false) <==> d in Outs(p.right)
    ensures lo <= s < d < lo + Size(t) && !(s in Outs(t.left) && lo + Size(t.left) <= d)
    decreases t, 0
  {
    hide Numbered, Outs, Leaves, Cross, Size;
    var mid := lo + Size(t.left);
    NumberedPipe(t, lo);
    OutsRise(t.left, lo);
    InternalForward(t.left, true, lo);
    InternalForward(t.right, true, mid);
    if Part(t.left, p) {
      PartPairs(t.left, lo, p, s, d);
    } else {
      PartPairs(t.right, mid, p, s, d);
    }
  }

  /** A command, or a pipe from one command to another. */
  predicate Brief(t: Tree) {
    t.Cmd? || (t.Pipe? && t.left.Cmd? && t.right.Cmd?)
  }

  /** And a group of such: nothing deeper. */
  predicate Shallow(t: Tree) {
    match t
    case Group(ms) => forall i :: 0 <= i < |ms| ==> Brief(ms[i])
    case _ => Brief(t)
  }

  lemma FirstLeaf(t: Tree, lo: nat)
    requires Numbered(t, lo) && Peopled(t)
    ensures Leaves(t) != [] && lo <= Leaves(t)[0] < lo + Size(t)
  {
    OutsCount(t);
    LeavesRise(t, lo);
  }

  /** What comes in at a member of a group reaches all of it just when it is brief. */
  lemma EntryCovers(m: Tree, lo: nat)
    requires Numbered(m, lo) && Peopled(m)
    ensures Brief(m) <==> forall d :: d in Leaves(m) ==> d in Entry(m)
  {
    FirstLeaf(m, lo);
    if !Brief(m) {
      var d := MissedBy(m, lo);
      assert d in Leaves(m) && d !in Entry(m);
    }
  }

  lemma MissedBy(m: Tree, lo: nat) returns (d: nat)
    requires Numbered(m, lo) && Peopled(m) && !Brief(m)
    ensures d in Leaves(m) && d !in Entry(m)
  {
    FirstLeaf(m, lo);
    if m.Group? {
      d := Leaves(m)[0];
    } else {
      FirstLeaf(m.left, lo);
      FirstLeaf(m.right, lo + Size(m.left));
      d := if m.left.Cmd? then Leaves(m.right)[0] else Leaves(m.left)[0];
    }
  }

  lemma EntriesCover(t: Tree, lo: nat)
    requires Numbered(t, lo) && Peopled(t)
    ensures Shallow(t) <==> forall d :: d in Leaves(t) ==> d in Entries(t)
  {
    hide Numbered, Peopled, Brief, Leaves, Entry, EntriesOf, LeavesOf, Size;
    if t.Group? {
      var ms := t.members;
      GroupParts(t, lo);
      forall i | 0 <= i < |ms|
        ensures Brief(ms[i]) <==> forall d :: d in Leaves(ms[i]) ==> d in EntriesOf(ms, |ms|)
      {
        MemberAt(ms, |ms|, lo, i);
        EntryCovers(ms[i], lo + SizeOf(ms, i));
        LeavesRise(ms[i], lo + SizeOf(ms, i));
        forall d | d in Leaves(ms[i])
          ensures d in EntriesOf(ms, |ms|) <==> d in Entry(ms[i])
        {
          EntriesOfAt(ms, |ms|, lo, i, d);
        }
      }
      forall d
        ensures d in Leaves(t) <==> exists j :: 0 <= j < |ms| && d in Leaves(ms[j])
      {
        LeavesOfHas(ms, |ms|, d);
      }
      if !Shallow(t) {
        var i :| 0 <= i < |ms| && !Brief(ms[i]);
        var d :| d in Leaves(ms[i]) && d !in EntriesOf(ms, |ms|);
        assert d in Leaves(t);
      }
    } else {
      EntryCovers(t, lo);
      EntriesOfOne(t);
    }
  }

  lemma GroupParts(t: Tree, lo: nat)
    requires t.Group? && Numbered(t, lo) && Peopled(t)
    ensures NumberedOf(t.members, |t.members|, lo) && forall i :: 0 <= i < |t.members| ==> Peopled(t.members[i])
    ensures Leaves(t) == LeavesOf(t.members, |t.members|)
  {
  }

  lemma EntriesOfOne(t: Tree)
    requires !t.Group?
    ensures Entries(t) == Entry(t)
  {
  }

  /** A statement's own pipe reaches every command on its right just when there is no group in a group there and no
      side of a pipe that is more than a command. */
  lemma OwnReaches(t: Tree, s: nat)
    requires t.Pipe? && Numbered(t, 0) && Peopled(t) && s in Outs(t.left)
    ensures Shallow(t.right) <==> forall d :: d in Leaves(t.right) ==> (s, d) in Plan(t)
  {
    hide Numbered, Outs, Leaves, Internal, Entries, Shallow, Cross, Size;
    NumberedPipe(t, 0);
    EntriesCover(t.right, Size(t.left));
    forall d | d in Leaves(t.right)
      ensures (s, d) in Plan(t) <==> d in Entries(t.right)
    {
      OwnPairs(t, 0, s, d);
      CrossHas(Outs(t.left), Entries(t.right), (s, d));
    }
  }

  /** A pipe further inside a statement reaches every command on its right just when there is no pipe there. */
  lemma InnerReaches(t: Tree, p: Tree, s: nat)
    requires t.Pipe? && Numbered(t, 0) && Peopled(t) && (Part(t.left, p) || Part(t.right, p))
    requires p.Pipe? && s in Outs(p.left)
    ensures Pipeless(p.right) <==> forall d :: d in Leaves(p.right) ==> (s, d) in Plan(t)
  {
    hide Numbered, Outs, Leaves, Internal, Entries, Pipeless, Cross, Size, Part, Peopled;
    assert Part(t, p) by {
      PartInside(t, p);
    }
    var at := PartPlace(t, 0, p);
    NumberedPipe(p, at);
    NumberedPipe(t, 0);
    EntriesWithin(t.right, Size(t.left));
    OutsAreAll(p.right, at + Size(p.left));
    forall d | d in Leaves(p.right)
      ensures (s, d) in Plan(t) <==> d in Outs(p.right)
    {
      PartOfPipe(t, 0, p, s, d);
      CrossHas(Outs(t.left), Entries(t.right), (s, d));
    }
  }

  lemma PartInside(t: Tree, p: Tree)
    requires t.Pipe? && (Part(t.left, p) || Part(t.right, p))
    ensures Part(t, p)
  {
  }

  lemma OutsAreAll(t: Tree, lo: nat)
    requires Numbered(t, lo) && Peopled(t)
    ensures Pipeless(t) <==> forall d :: d in Leaves(t) ==> d in Outs(t)
  {
    hide Numbered, Outs, Leaves, Pipeless, Size;
    OutsCount(t);
    OutsRise(t, lo);
    LeavesRise(t, lo);
    if forall d :: d in Leaves(t) ==> d in Outs(t) {
      RisingSame(Outs(t), Leaves(t), lo, lo + Size(t));
    }
  }

  // ---------- the pipes of a statement, told by its parts ----------

  /** A command of the tree that stands on the left of no pipe in it. */
  ghost predicate Final(t: Tree, d: nat) {
    d in Leaves(t) && forall p: Tree :: p.Pipe? && Part(t, p) ==> d !in Leaves(p.left)
  }

  /** The command itself, or one side of a pipe. */
  predicate Bared(t: Tree, d: nat) {
    t == Cmd(d) || (t.Pipe? && (t.left == Cmd(d) || t.right == Cmd(d)))
  }

  /** So, or a member of a group that is so. */
  predicate AtMouth(t: Tree, d: nat) {
    if t.Group? then exists i :: 0 <= i < |t.members| && Bared(t.members[i], d) else Bared(t, d)
  }

  /** A pipe of the tree from the commands its left side puts out to those its right side does. */
  ghost predicate Joins(t: Tree, s: nat, d: nat) {
    exists p: Tree :: p.Pipe? && Part(t, p) && Final(p.left, s) && Final(p.right, d)
  }

  lemma {:induction false} PartLeaves(t: Tree, p: Tree, d: nat)
    requires Part(t, p) && d in Leaves(p)
    ensures d in Leaves(t)
  {
    if p != t {
      match t
      case Group(ms) =>
        var i :| 0 <= i < |ms| && Part(ms[i], p);
        PartLeaves(ms[i], p, d);
        LeavesOfHas(ms, |ms|, d);
      case Pipe(l, r) =>
        PartLeaves(if Part(l, p) then l else r, p, d);
    }
  }

  lemma LeftInside(t: Tree, p: Tree, d: nat)
    requires p.Pipe? && Part(t, p) && d in Leaves(p.left)
    ensures d in Leaves(t)
  {
    PartLeaves(t, p, d);
  }

  lemma PipeLeaves(t: Tree, d: nat)
    requires t.Pipe?
    ensures d in Leaves(t) <==> d in Leaves(t.left) || d in Leaves(t.right)
    ensures Outs(t) == Outs(t.right)
  {
  }

  lemma PartsOfPipe(t: Tree, p: Tree)
    requires t.Pipe?
    ensures Part(t, p) <==> p == t || Part(t.left, p) || Part(t.right, p)
  {
  }

  /** What a tree puts out comes from the commands on the left of no pipe in it. */
  lemma {:induction false} OutsExactly(t: Tree, lo: nat, d: nat)
    requires Numbered(t, lo)
    ensures d in Outs(t) <==> Final(t, d)
    decreases t
  {
    match t
    case Cmd(_) =>
    case Group(ms) =>
      forall i | 0 <= i < |ms|
        ensures d in Outs(ms[i]) <==> Final(ms[i], d)
      {
        NumberedEach(ms, |ms|, lo, i);
        OutsExactly(ms[i], lo + SizeOf(ms, i), d);
      }
      LastInGroup(ms, lo, d);
      OutsOfHas(ms, |ms|, d);
    case Pipe(l, r) =>
      NumberedPipe(t, lo);
      OutsExactly(r, lo + Size(l), d);
      LastInPipe(t, lo, d);
  }

  lemma LastInPipe(t: Tree, lo: nat, d: nat)
    requires t.Pipe? && Numbered(t, lo)
    ensures Final(t, d) <==> Final(t.right, d)
  {
    hide Leaves, Size, Part, Numbered;
    var mid := lo + Size(t.left);
    NumberedPipe(t, lo);
    LeavesRise(t.left, lo);
    LeavesRise(t.right, mid);
    PipeLeaves(t, d);
    forall p: Tree
      ensures Part(t, p) <==> p == t || Part(t.left, p) || Part(t.right, p)
      ensures p.Pipe? && Part(t.left, p) && d in Leaves(p.left) ==> d in Leaves(t.left)
    {
      PartsOfPipe(t, p);
      if p.Pipe? && Part(t.left, p) && d in Leaves(p.left) {
        LeftInside(t.left, p, d);
      }
    }
  }

  lemma LastInGroup(ms: seq<Tree>, lo: nat, d: nat)
    requires NumberedOf(ms, |ms|, lo)
    ensures Final(Group(ms), d) <==> exists i :: 0 <= i < |ms| && Final(ms[i], d)
  {
    var t := Group(ms);
    forall p: Tree
      ensures p.Pipe? ==> (Part(t, p) <==> exists i :: 0 <= i < |ms| && Part(ms[i], p))
    {
    }
    hide Leaves, Size, Part, Numbered, NumberedOf;
    GroupHas(ms, d);
    if i :| 0 <= i < |ms| && Final(ms[i], d) {
      forall p: Tree | p.Pipe? && Part(t, p)
        ensures d !in Leaves(p.left)
      {
        var j :| 0 <= j < |ms| && Part(ms[j], p);
        if d in Leaves(p.left) {
          LeftInside(ms[j], p, d);
          OneMember(ms, lo, i, j, d);
        }
      }
    }
    if Final(t, d) {
      var i :| 0 <= i < |ms| && d in Leaves(ms[i]);
      assert Final(ms[i], d);
    }
  }

  lemma GroupHas(ms: seq<Tree>, d: nat)
    ensures d in Leaves(Group(ms)) <==> exists i :: 0 <= i < |ms| && d in Leaves(ms[i])
  {
    LeavesOfHas(ms, |ms|, d);
  }

  /** No command is in two members of a group. */
  lemma OneMember(ms: seq<Tree>, lo: nat, i: nat, j: nat, d: nat)
    requires NumberedOf(ms, |ms|, lo) && i < |ms| && j < |ms| && d in Leaves(ms[i]) && d in Leaves(ms[j])
    ensures i == j
  {
    hide Leaves, Size, Numbered, NumberedOf;
    MemberAt(ms, |ms|, lo, i);
    MemberAt(ms, |ms|, lo, j);
    LeavesRise(ms[i], lo + SizeOf(ms, i));
    LeavesRise(ms[j], lo + SizeOf(ms, j));
    SizeOfNext(ms, i);
    SizeOfNext(ms, j);
    if i < j {
      SizeOfGrows(ms, i + 1, j);
    } else if j < i {
      SizeOfGrows(ms, j + 1, i);
    }
  }

  lemma {:induction false} OutsOfHas(ms: seq<Tree>, k: nat, d: nat)
    requires k <= |ms|
    ensures d in OutsOf(ms, k) <==> exists i :: 0 <= i < k && d in Outs(ms[i])
  {
    hide Outs;
    if k > 0 {
      OutsOfHas(ms, k - 1, d);
    }
  }

  lemma {:induction false} EntriesOfHas(ms: seq<Tree>, k: nat, d: nat)
    requires k <= |ms|
    ensures d in EntriesOf(ms, k) <==> exists i :: 0 <= i < k && Bared(ms[i], d)
  {
    hide Entry, Bared;
    if k > 0 {
      EntriesOfHas(ms, k - 1, d);
      EntryIs(ms[k - 1], d);
    }
  }

  lemma EntryIs(m: Tree, d: nat)
    ensures d in Entry(m) <==> Bared(m, d)
  {
  }

  lemma EntriesExactly(t: Tree, d: nat)
    ensures d in Entries(t) <==> AtMouth(t, d)
  {
    if t.Group? {
      EntriesOfHas(t.members, |t.members|, d);
    }
  }

  /** Inside a tree just the pipes in it are laid. */
  lemma {:induction false} InternalExactly(t: Tree, lo: nat, s: nat, d: nat)
    requires Numbered(t, lo)
    ensures (s, d) in Internal(t, true) <==> Joins(t, s, d)
    decreases t
  {
    match t
    case Cmd(_) =>
    case Group(ms) =>
      forall i | 0 <= i < |ms|
        ensures (s, d) in Internal(ms[i], true) <==> Joins(ms[i], s, d)
      {
        NumberedEach(ms, |ms|, lo, i);
        InternalExactly(ms[i], lo + SizeOf(ms, i), s, d);
      }
      JoinsInGroup(ms, s, d);
      InternalOfHas(ms, |ms|, (s, d));
    case Pipe(l, r) =>
      NumberedPipe(t, lo);
      InternalExactly(l, lo, s, d);
      InternalExactly(r, lo + Size(l), s, d);
      OutsExactly(l, lo, s);
      OutsExactly(r, lo + Size(l), d);
      CrossHas(Outs(l), Outs(r), (s, d));
      JoinsInPipe(t, s, d);
  }

  lemma JoinsInGroup(ms: seq<Tree>, s: nat, d: nat)
    ensures Joins(Group(ms), s, d) <==> exists i :: 0 <= i < |ms| && Joins(ms[i], s, d)
  {
    hide Final;
    if i :| 0 <= i < |ms| && Joins(ms[i], s, d) {
      var p: Tree :| p.Pipe? && Part(ms[i], p) && Final(p.left, s) && Final(p.right, d);
      assert Part(Group(ms), p);
    }
  }

  lemma JoinsInPipe(t: Tree, s: nat, d: nat)
    requires t.Pipe?
    ensures Joins(t, s, d) <==> Joins(t.left, s, d) || Joins(t.right, s, d) || (Final(t.left, s) && Final(t.right, d))
  {
    hide Final;
    if Final(t.left, s) && Final(t.right, d) {
      assert Part(t, t);
    }
    if u: Tree :| (u == t.left || u == t.right) && Joins(u, s, d) {
      var p: Tree :| p.Pipe? && Part(u, p) && Final(p.left, s) && Final(p.right, d);
      assert Part(t, p);
    }
  }

  lemma {:induction false} InternalOfHas(ms: seq<Tree>, k: nat, p: Pair)
    requires k <= |ms|
    ensures p in InternalOf(ms, k) <==> exists i :: 0 <= i < k && p in Internal(ms[i], true)
  {
    hide Internal;
    if k > 0 {
      InternalOfHas(ms, k - 1, p);
    }
  }

  /**
    Just which pairs a statement asks for. Its own pipe leads from what its left side puts out to the commands at the
    mouth of its right side; a pipe further in, from what its left side puts out to what its right side puts out.
   */
  lemma PlanExactly(t: Tree, s: nat, d: nat)
    requires t.Pipe? && Numbered(t, 0)
    ensures (s, d) in Plan(t) <==>
            (Final(t.left, s) && AtMouth(t.right, d)) || Joins(t.left, s, d) || Joins(t.right, s, d)
  {
    hide Numbered, Outs, Entries, Cross, Final, AtMouth, Joins, Size;
    NumberedPipe(t, 0);
    OutsExactly(t.left, 0, s);
    EntriesExactly(t.right, d);
    CrossHas(Outs(t.left), Entries(t.right), (s, d));
    InternalExactly(t.left, 0, s, d);
    InternalExactly(t.right, Size(t.left), s, d);
    InternalSides(t);
  }

  lemma InternalSides(t: Tree)
    requires t.Pipe?
    ensures Internal(t, false) == Internal(t.left, true) + Internal(t.right, true)
  {
    assert Internal(t.left, true) + Internal(t.right, true) + [] == Internal(t.left, true) + Internal(t.right, true);
  }

  /** Every output of the pipe's left side goes to every command on its right. */
  ghost predicate Complete(t: Tree, p: Tree)
    requires p.Pipe?
  {
    forall s, d :: s in Outs(p.left) && d in Leaves(p.right) ==> (s, d) in Plan(t)
  }

  /** Everywhere in a statement an output reaches all that is downstream of it, exactly when its own right side is
      shallow and no inner pipe has a pipe to its right. */
  lemma DownstreamExactly(t: Tree)
    requires t.Pipe? && Numbered(t, 0) && Peopled(t)
    ensures (forall p: Tree :: p.Pipe? && Part(t, p) ==> Complete(t, p)) <==>
            Shallow(t.right) && forall p: Tree :: p.Pipe? && (Part(t.left, p) || Part(t.right, p)) ==> Pipeless(p.right)
  {
    hide Numbered, Outs, Leaves, Plan, Pipeless, Peopled, Shallow;
    forall p: Tree | p.Pipe? && (Part(t.left, p) || Part(t.right, p))
      ensures Complete(t, p) <==> Pipeless(p.right)
    {
      hide Part;
      InnerComplete(t, p);
    }
    OwnComplete(t);
  }

  lemma OwnComplete(t: Tree)
    requires t.Pipe? && Numbered(t, 0) && Peopled(t)
    ensures Complete(t, t) <==> Shallow(t.right)
  {
    hide Numbered, Outs, Leaves, Plan, Shallow;
    OutsSome(t, t, 0);
    forall s | s in Outs(t.left)
      ensures Shallow(t.right) <==> forall d :: d in Leaves(t.right) ==> (s, d) in Plan(t)
    {
      OwnReaches(t, s);
    }
  }

  lemma InnerComplete(t: Tree, p: Tree)
    requires t.Pipe? && Numbered(t, 0) && Peopled(t) && p.Pipe? && (Part(t.left, p) || Part(t.right, p))
    ensures Complete(t, p) <==> Pipeless(p.right)
  {
    hide Numbered, Outs, Leaves, Plan, Pipeless, Part;
    assert Part(t, p) by {
      PartInside(t, p);
    }
    OutsSome(t, p, 0);
    forall s | s in Outs(p.left)
      ensures Pipeless(p.right) <==> forall d :: d in Leaves(p.right) ==> (s, d) in Plan(t)
    {
      InnerReaches(t, p, s);
    }
  }

  lemma OutsSome(t: Tree, p: Tree, lo: nat)
    requires Numbered(t, lo) && Peopled(t) && Part(t, p) && p.Pipe?
    ensures Outs(p.left) != [] && Outs(p.left)[0] in Outs(p.left)
  {
    hide Outs, Leaves, Pipeless, Part, Numbered;
    var at := PartPlace(t, lo, p);
    OutsCount(p.left);
  }

  /** There is something to lay inside a tree just when there is a pipe in it. */
  lemma {:induction false} InternalWhen(t: Tree)
    requires Peopled(t)
    ensures Internal(t, true) == [] <==> Pipeless(t)
  {
    match t
    case Cmd(_) =>
    case Group(ms) => InternalOfWhen(ms, |ms|);
    case Pipe(l, r) =>
      OutsCount(l);
      OutsCount(r);
      CrossHas(Outs(l), Outs(r), (Outs(l)[0], Outs(r)[0]));
  }

  lemma {:induction false} InternalOfWhen(ms: seq<Tree>, k: nat)
    requires k <= |ms| && forall i :: 0 <= i < k ==> Peopled(ms[i])
    ensures InternalOf(ms, k) == [] <==> forall i :: 0 <= i < k ==> Pipeless(ms[i])
  {
    if k > 0 {
      InternalOfWhen(ms, k - 1);
      InternalWhen(ms[k - 1]);
    }
  }

  /** A group that is a whole statement is not wired: that leaves nothing out just when there is no pipe in it. */
  lemma LoneGroupUnwired(t: Tree)
    requires t.Group? && Peopled(t)
    ensures Plan(t) == []
    ensures Plan(t) == Internal(t, true) <==> Pipeless(t)
  {
    InternalWhen(t);
  }

  /** In `0 > (1 > (2 > 3) ; 4)` the output of 1 goes to 3 and not to 2. */
  lemma PassedOver()
    ensures var t := Pipe(Cmd(0), Group([Pipe(Cmd(1), Pipe(Cmd(2), Cmd(3))), Cmd(4)]));
      Numbered(t, 0) && (1, 3) in Plan(t) && (1, 2) !in Plan(t)
  {
    var inner := Pipe(Cmd(1), Pipe(Cmd(2), Cmd(3)));
    var ms := [inner, Cmd(4)];
    var t := Pipe(Cmd(0), Group(ms));
    assert Size(inner) == 3 && Numbered(inner, 1);
    TwoMembers(inner, Cmd(4), 1);
    assert Part(Group(ms), inner) by {
      assert Part(ms[0], inner);
    }
    hide InternalOf, SizeOf, NumberedOf, Part, Entries;
    assert Outs(inner.left) == [1] && Leaves(inner.right) == [2, 3] && Outs(inner.right) == [3];
    EntriesWithin(t.right, 1);
    PartOfPipe(t, 0, inner, 1, 2);
    PartOfPipe(t, 0, inner, 1, 3);
    CrossHas(Outs(t.left), Entries(t.right), (1, 2));
  }

  lemma TwoMembers(a: Tree, b: Tree, lo: nat)
    ensures var ms := [a, b];
      && SizeOf(ms, 2) == Size(a) + Size(b) && (NumberedOf(ms, 2, lo) <==> Numbered(a, lo) && Numbered(b, lo + Size(a)))
      && InternalOf(ms, 2) == Internal(a, true) + Internal(b, true) && EntriesOf(ms, 2) == Entry(a) + Entry(b)
  {
    hide Size, Numbered, Internal, Entry;
    var ms := [a, b];
    assert SizeOf(ms, 0) == 0 && SizeOf(ms, 1) == Size(a);
    assert NumberedOf(ms, 0, lo) && (NumberedOf(ms, 1, lo) <==> Numbered(a, lo));
    assert InternalOf(ms, 1) == [] + Internal(a, true);
    assert EntriesOf(ms, 1) == [] + Entry(a);
  }

  /** In `0 > ((1 ; 2) ; 3)` there is no pipe on the right, and yet 0 goes to neither 1 nor 2. */
  lemma GroupPassedOver()
    ensures var t := Pipe(Cmd(0), Group([Group([Cmd(1), Cmd(2)]), Cmd(3)]));
      Numbered(t, 0) && Pipeless(t.right) && (0, 1) !in Plan(t) && (0, 2) !in Plan(t) && (0, 3) in Plan(t)
  {
    hide InternalOf, SizeOf, NumberedOf, EntriesOf, Cross;
    var inner := Group([Cmd(1), Cmd(2)]);
    var right := Group([inner, Cmd(3)]);
    TwoMembers(Cmd(1), Cmd(2), 1);
    assert Size(inner) == 2 && Numbered(inner, 1) && Internal(inner, true) == [] && Entry(inner) == [];
    TwoMembers(inner, Cmd(3), 1);
    assert Numbered(right, 1) && Internal(right, true) == [] && Entries(right) == [3];
    assert Pipeless(inner) && Pipeless(right);
    OneLink(0, 3);
    OneSource(0, right);
  }

  lemma OneSource(s: nat, r: Tree)
    ensures Plan(Pipe(Cmd(s), r)) == Internal(r, true) + Cross([s], Entries(r))
  {
    hide Cross, Entries;
    assert Internal(Cmd(s), true) == [] && Outs(Cmd(s)) == [s];
    assert [] + Internal(r, true) + [] == Internal(r, true);
  }

  /** In `0 > (1 > 2)` there is one, and 0 goes to both. */
  lemma BothReached()
    ensures var t := Pipe(Cmd(0), Pipe(Cmd(1), Cmd(2)));
      Numbered(t, 0) && !Pipeless(t.right) && (0, 1) in Plan(t) && (0, 2) in Plan(t)
  {
    var t := Pipe(Cmd(0), Pipe(Cmd(1), Cmd(2)));
    CrossHas(Outs(t.left), Entries(t.right), (0, 1));
    CrossHas(Outs(t.left), Entries(t.right), (0, 2));
  }

  /** In `(0 > 1 ; 2)` nothing is wired, though 0 is piped into 1. */
  lemma LoneGroupLoses()
    ensures var t := Group([Pipe(Cmd(0), Cmd(1)), Cmd(2)]);
      Numbered(t, 0) && Peopled(t) && Plan(t) == [] && Internal(t, true) == [(0, 1)]
  {
    hide InternalOf, SizeOf, NumberedOf, Cross;
    var pipe := Pipe(Cmd(0), Cmd(1));
    TwoMembers(pipe, Cmd(2), 0);
    assert Numbered(pipe, 0) && Size(pipe) == 2 && Peopled(pipe);
    OneLink(0, 1);
    assert Internal(pipe, true) == [(0, 1)];
  }

  /** A plain pipeline of `n` commands. */
  function Chain(n: nat): Tree
    requires n > 0
  {
    if n == 1 then Cmd(0) else Pipe(Chain(n - 1), Cmd(n - 1))
  }

  /** Each number with the next, below `n`. */
  function Links(n: nat): seq<Pair>
    requires n > 0
  {
    seq(n - 1, i requires 0 <= i < n - 1 => (i, i + 1))
  }

  /** In a plain pipeline each command is joined to the next and to no other. */
  lemma {:induction false} ChainPlan(n: nat)
    requires n > 0
    ensures Size(Chain(n)) == n && Numbered(Chain(n), 0) && Outs(Chain(n)) == [n - 1]
    ensures Plan(Chain(n)) == Links(n) && Internal(Chain(n), true) == Links(n)
  {
    hide Plan, Internal, Links, Outs;
    if n == 1 {
      ChainStart();
    } else {
      ChainPlan(n - 1);
      ChainStep(Chain(n - 1), n - 1);
      OneLink(n - 2, n - 1);
      LinksNext(n - 1);
    }
  }

  lemma ChainStart()
    ensures Outs(Cmd(0)) == [0] && Plan(Cmd(0)) == Internal(Cmd(0), true) == Links(1)
  {
  }

  lemma LinksNext(n: nat)
    requires n > 0
    ensures Links(n + 1) == Links(n) + [(n - 1, n)]
  {
  }

  lemma ChainStep(l: Tree, d: nat)
    ensures Plan(Pipe(l, Cmd(d))) == Internal(Pipe(l, Cmd(d)), true) == Internal(l, true) + Cross(Outs(l), [d])
    ensures Outs(Pipe(l, Cmd(d))) == [d]
  {
    assert Outs(Cmd(d)) == [d] && Internal(Cmd(d), true) == [] && Entries(Cmd(d)) == [d];
    assert Internal(l, true) + [] == Internal(l, true);
  }

  lemma OneLink(s: nat, d: nat)
    ensures Cross([s], [d]) == [(s, d)]
  {
    assert [d][..0] == [];
    assert Cross([s], []) == [];
  }
}
