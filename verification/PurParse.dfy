/** The parser: a cursor over the tokens, and the pools the tree of an expression is built in. */
module PurParse {
  import opened PurTree
  import opened PurGrammar

  const MAX_EXPRS := 64

  datatype Leaf = Leaf(argvFirst: nat, argc: nat)

  datatype Op = OP_NONE | OP_AND | OP_OR | OP_BG

  /** Each leaf's words lie within the pool of words. */
  predicate LeavesOk(leaves: seq<Leaf>, argv: seq<nat>) {
    forall i :: 0 <= i < |leaves| ==> leaves[i].argvFirst + leaves[i].argc <= |argv|
  }

  /** The commands the leaves stand for. */
  function Commands(leaves: seq<Leaf>, argv: seq<nat>): (cs: seq<Command>)
    requires LeavesOk(leaves, argv)
    ensures |cs| == |leaves|
  {
    seq(|leaves|, i requires 0 <= i < |leaves| => argv[leaves[i].argvFirst..leaves[i].argvFirst + leaves[i].argc])
  }

  lemma CommandsKept(leaves: seq<Leaf>, argv: seq<nat>, more: seq<nat>)
    requires LeavesOk(leaves, argv)
    ensures LeavesOk(leaves, argv + more) && Commands(leaves, argv + more) == Commands(leaves, argv)
  {
    var a, b := Commands(leaves, argv), Commands(leaves, argv + more);
    forall i | 0 <= i < |leaves|
      ensures a[i] == b[i]
    {
    }
  }

  lemma CommandAdded(leaves: seq<Leaf>, argv: seq<nat>, l: Leaf)
    requires LeavesOk(leaves, argv) && l.argvFirst + l.argc <= |argv|
    ensures LeavesOk(leaves + [l], argv)
    ensures Commands(leaves + [l], argv) == Commands(leaves, argv) + [argv[l.argvFirst..l.argvFirst + l.argc]]
  {
  }

  /** The nodes of a list are in the pool, and these are their trees. */
  predicate Held(a: Ast, ns: seq<nat>) {
    forall i :: 0 <= i < |ns| ==> ns[i] < |a.nodes|
  }

  function Shapes(a: Ast, ns: seq<nat>): (ts: seq<Tree>)
    requires AllSound(a) && Held(a, ns)
    ensures |ts| == |ns|
  {
    seq(|ns|, i requires 0 <= i < |ns| => Shape(a, ns[i]))
  }

  lemma ShapesKept(a: Ast, b: Ast, ns: seq<nat>)
    requires AllSound(a) && AllSound(b) && Held(a, ns) && a.nodes <= b.nodes && a.members <= b.members
    ensures Held(b, ns) && Shapes(b, ns) == Shapes(a, ns)
  {
    forall i | 0 <= i < |ns|
      ensures Shape(b, ns[i]) == Shape(a, ns[i])
    {
      ShapeKept(a, b, ns[i]);
    }
    assert Shapes(b, ns) == Shapes(a, ns);
  }

  lemma ShapesMore(a: Ast, ns: seq<nat>, n: nat)
    requires AllSound(a) && Held(a, ns) && n < |a.nodes|
    ensures Held(a, ns + [n]) && Shapes(a, ns + [n]) == Shapes(a, ns) + [Shape(a, n)]
  {
  }

  /** A new node whose parts are in the pools already. */
  lemma NodeAdded(a: Ast, p: Node)
    requires AllSound(a)
    requires p.kind == EXPR ==> p.first < |a.nodes| && p.rhs < |a.nodes|
    requires p.kind == GROUP ==> p.count == 0 && p.first <= |a.members|
    ensures AllSound(Ast(a.nodes + [p], a.members))
  {
    var b := Ast(a.nodes + [p], a.members);
    forall n | 0 <= n < |b.nodes|
      ensures Sound(b, n)
    {
      assert n < |a.nodes| ==> Sound(a, n);
    }
  }

  /** The members of the newest node put in place. */
  lemma MembersAdded(a: Ast, p: Node, ns: seq<nat>)
    requires AllSound(a) && p.kind == GROUP && p.first == |a.members| && p.count == |ns| && Held(a, ns)
    ensures var b := Ast(a.nodes + [p], a.members + ns);
      AllSound(b) && Shape(b, |a.nodes|) == Group(Shapes(a, ns))
  {
    var b := Ast(a.nodes + [p], a.members + ns);
    forall n | 0 <= n < |b.nodes|
      ensures Sound(b, n)
    {
      assert n < |a.nodes| ==> Sound(a, n);
    }
    ShapesKept(a, b, ns);
    var ts := Shape(b, |a.nodes|).members;
    forall i | 0 <= i < |ts|
      ensures ts[i] == Shapes(a, ns)[i]
    {
      assert b.members[p.first + i] == ns[i];
      assert Shapes(b, ns)[i] == Shape(b, ns[i]);
    }
  }

  lemma PipeAdded(a: Ast, l: nat, r: nat)
    requires AllSound(a) && l < |a.nodes| && r < |a.nodes|
    ensures var b := Ast(a.nodes + [Node(EXPR, l, 0, r)], a.members);
      AllSound(b) && Shape(b, |a.nodes|) == Pipe(Shape(a, l), Shape(a, r))
  {
    var b := Ast(a.nodes + [Node(EXPR, l, 0, r)], a.members);
    NodeAdded(a, Node(EXPR, l, 0, r));
    ShapeKept(a, b, l);
    ShapeKept(a, b, r);
  }

  lemma LeafAdded(a: Ast, leaf: nat)
    requires AllSound(a)
    ensures var b := Ast(a.nodes + [Node(LEAF, leaf, 0, 0)], a.members);
      AllSound(b) && Shape(b, |a.nodes|) == Cmd(leaf)
  {
    NodeAdded(a, Node(LEAF, leaf, 0, 0));
  }

  // ---------- a whole command ----------

  /** Where each expression begins, and the operator after it. */
  datatype Line = Parsed(starts: seq<nat>, ops: seq<Op>) | Refused(code: Status)

  function OpOf(t: Token): Op {
    match t
    case AND => OP_AND
    case OR => OP_OR
    case BG => OP_BG
    case _ => OP_NONE
  }

  /** The rest of a command from `p` on, the expressions before it read already. */
  function ReadLine(toks: seq<Token>, p: nat, starts: seq<nat>, ops: seq<Op>): Line
    requires Ended(toks) && p < |toks| && |starts| == |ops| && (toks[p].END? ==> |ops| > 0)
    decreases |toks| - p
  {
    if toks[p].PIPE? then Refused(RESERVED)
    else if toks[p].AND? || toks[p].OR? || toks[p].BG? then Refused(OPERATOR)
    else if toks[p].END? then Refused(if ops[|ops| - 1] == OP_BG then TRAILING_BG else OPERATOR)
    else if |starts| >= MAX_EXPRS then Refused(EXPRS)
    else
      var x := ReadExpr(toks, p, 0, []);
      if x.Bad? then Refused(x.code)
      else if toks[x.at].END? then Parsed(starts + [p], ops + [OP_NONE])
      else if toks[x.at].PIPE? then Refused(RESERVED)
      else if toks[x.at].AND? || toks[x.at].OR? || toks[x.at].BG? then
        ReadLine(toks, x.at + 1, starts + [p], ops + [OpOf(toks[x.at])])
      else Refused(SYNTAX)
  }

  function ReadCommand(toks: seq<Token>): Line
    requires Ended(toks)
  {
    if toks[0].END? then Refused(EMPTY) else ReadLine(toks, 0, [], [])
  }

  /** Expression `i` reads well, and ends where its operator stands, just before the next. */
  ghost predicate Stage(toks: seq<Token>, starts: seq<nat>, ops: seq<Op>, i: nat)
    requires Ended(toks) && i < |starts| == |ops|
  {
    && starts[i] < |toks| && ReadExpr(toks, starts[i], 0, []).Got?
    && var at := ReadExpr(toks, starts[i], 0, []).at;
    && ops[i] == OpOf(toks[at])
    && (if i == |starts| - 1 then toks[at].END? else ops[i] != OP_NONE && starts[i + 1] == at + 1)
  }

  /** As `Stage`, for a list of expressions that is still to go on at `p`. */
  ghost predicate StageBefore(toks: seq<Token>, p: nat, starts: seq<nat>, ops: seq<Op>, i: nat)
    requires Ended(toks) && i < |starts| == |ops|
  {
    && starts[i] < |toks| && ReadExpr(toks, starts[i], 0, []).Got?
    && var at := ReadExpr(toks, starts[i], 0, []).at;
    && ops[i] == OpOf(toks[at]) && ops[i] != OP_NONE
    && (if i == |starts| - 1 then p else starts[i + 1]) == at + 1
  }

  /** An accepted command is a chain of expressions that read well, joined by operators, from its first token to its last. */
  ghost predicate Chained(toks: seq<Token>, starts: seq<nat>, ops: seq<Op>)
    requires Ended(toks)
  {
    && 0 < |starts| == |ops| <= MAX_EXPRS && starts[0] == 0
    && forall i :: 0 <= i < |starts| ==> Stage(toks, starts, ops, i)
  }

  /** One more expression read, and the stages before it. */
  lemma StageOn(toks: seq<Token>, p: nat, starts: seq<nat>, ops: seq<Op>, i: nat)
    requires Ended(toks) && p < |toks| && |starts| == |ops| && i <= |starts| && ReadExpr(toks, p, 0, []).Got?
    requires i < |starts| ==> StageBefore(toks, p, starts, ops, i)
    ensures var x := ReadExpr(toks, p, 0, []);
      var ss, oo := starts + [p], ops + [OpOf(toks[x.at])];
      && (toks[x.at].END? ==> Stage(toks, ss, oo, i))
      && (OpOf(toks[x.at]) != OP_NONE ==> StageBefore(toks, x.at + 1, ss, oo, i))
  {
    hide ReadExpr;
    var ss := starts + [p];
    assert i < |starts| ==> ss[i + 1] == if i == |starts| - 1 then p else starts[i + 1];
  }

  lemma {:induction false} LineChained(toks: seq<Token>, p: nat, starts: seq<nat>, ops: seq<Op>)
    requires Ended(toks) && p < |toks| && |starts| == |ops| && (toks[p].END? ==> |ops| > 0)
    requires if starts == [] then p == 0 else starts[0] == 0
    requires forall i :: 0 <= i < |starts| ==> StageBefore(toks, p, starts, ops, i)
    requires ReadLine(toks, p, starts, ops).Parsed?
    ensures var r := ReadLine(toks, p, starts, ops); Chained(toks, r.starts, r.ops)
    decreases |toks| - p
  {
    hide ReadExpr, Stage, StageBefore;
    var x := ReadExpr(toks, p, 0, []);
    var ss, oo := starts + [p], ops + [OpOf(toks[x.at])];
    if toks[x.at].END? {
      forall i | 0 <= i < |ss|
        ensures Stage(toks, ss, oo, i)
      {
        StageOn(toks, p, starts, ops, i);
      }
    } else {
      var q := x.at + 1;
      forall i | 0 <= i < |ss|
        ensures StageBefore(toks, q, ss, oo, i)
      {
        StageOn(toks, p, starts, ops, i);
      }
      LineChained(toks, q, ss, oo);
    }
  }

  /** A chain of expressions that read well is accepted, and comes out as that chain. */
  lemma {:induction false} ChainedLine(toks: seq<Token>, starts: seq<nat>, ops: seq<Op>, k: nat)
    requires Ended(toks) && Chained(toks, starts, ops) && k < |starts|
    ensures starts[k] < |toks| && !toks[starts[k]].END?
    ensures ReadLine(toks, starts[k], starts[..k], ops[..k]) == Parsed(starts, ops)
    decreases |starts| - k
  {
    hide ReadExpr;
    assert Stage(toks, starts, ops, k);
    var p := starts[k];
    Begins(toks, p);
    var x := ReadExpr(toks, p, 0, []);
    assert starts[..k] + [p] == starts[..k + 1] && ops[..k] + [ops[k]] == ops[..k + 1];
    if k == |starts| - 1 {
      assert starts[..k + 1] == starts && ops[..k + 1] == ops;
    } else {
      ChainedLine(toks, starts, ops, k + 1);
    }
  }

  /** What reads as an expression begins with a word or a bracket. */
  lemma Begins(toks: seq<Token>, p: nat)
    requires Ended(toks) && p < |toks| && ReadExpr(toks, p, 0, []).Got?
    ensures toks[p].WORD? || toks[p].LPAREN?
  {
    hide ReadGroup, ReadLeaf, ReadPipes;
  }

  /** Exactly the chains of up to 64 expressions are accepted, each in one way. */
  lemma AcceptedExactly(toks: seq<Token>)
    requires Ended(toks)
    ensures var r := ReadCommand(toks);
      && (r.Parsed? ==> Chained(toks, r.starts, r.ops))
      && (forall starts, ops :: Chained(toks, starts, ops) ==> r == Parsed(starts, ops))
  {
    hide ReadLine, Chained;
    if ReadCommand(toks).Parsed? {
      LineChained(toks, 0, [], []);
    }
    forall starts, ops | Chained(toks, starts, ops)
      ensures ReadCommand(toks) == Parsed(starts, ops)
    {
      FirstOf(toks, starts, ops);
      ChainedLine(toks, starts, ops, 0);
      assert starts[..0] == [] && ops[..0] == [];
    }
  }

  lemma FirstOf(toks: seq<Token>, starts: seq<nat>, ops: seq<Op>)
    requires Ended(toks) && Chained(toks, starts, ops)
    ensures 0 < |starts| == |ops| && starts[0] == 0
  {
  }

  // ---------- why a command is refused ----------

  predicate Joint(t: Token) {
    t == AND || t == OR || t == BG
  }

  /** An expression is looked for at `q`: at the start, or behind an operator. */
  predicate Expected(toks: seq<Token>, q: nat) {
    q < |toks| && (q > 0 ==> Joint(toks[q - 1]))
  }

  function Joints(toks: seq<Token>, p: nat): nat
    requires p <= |toks|
  {
    if p == 0 then 0 else Joints(toks, p - 1) + if Joint(toks[p - 1]) then 1 else 0
  }

  /** What in the tokens answers for the code. */
  ghost predicate Fault(toks: seq<Token>, code: Status)
    requires Ended(toks)
  {
    match code
    case EMPTY => toks[0] == END
    case RESERVED => PIPE in toks
    case OPERATOR => exists q: nat :: Expected(toks, q) && (Joint(toks[q]) || (toks[q] == END && q > 0 && toks[q - 1] != BG))
    case TRAILING_BG => exists q: nat :: Expected(toks, q) && q > 0 && toks[q] == END && toks[q - 1] == BG
    case EXPRS => Joints(toks, |toks|) >= 64
    case SYNTAX => forall starts, ops :: !Chained(toks, starts, ops)
    case _ => exists q: nat :: Expected(toks, q) && ReadExpr(toks, q, 0, []) == Bad(code) && Reason(toks, q, 0, 0, code)
  }

  lemma {:induction false} JointsGrow(toks: seq<Token>, p: nat, q: nat)
    requires p <= q <= |toks|
    ensures Joints(toks, p) <= Joints(toks, q)
  {
    if p < q {
      JointsGrow(toks, p, q - 1);
    }
  }

  lemma {:induction false} LineFault(toks: seq<Token>, p: nat, starts: seq<nat>, ops: seq<Op>)
    requires Ended(toks) && Expected(toks, p) && |starts| == |ops| <= Joints(toks, p) && (toks[p].END? ==> |ops| > 0)
    requires if ops == [] then p == 0 else p > 0 && ops[|ops| - 1] == OpOf(toks[p - 1])
    requires ReadLine(toks, p, starts, ops).Refused? && forall ss, oo :: !Chained(toks, ss, oo)
    ensures Fault(toks, ReadLine(toks, p, starts, ops).code)
    decreases |toks| - p
  {
    hide ReadExpr, Chained, Reason, Runs, Signs;
    JointsGrow(toks, p, |toks|);
    if !toks[p].PIPE? && !Joint(toks[p]) && !toks[p].END? && |starts| < MAX_EXPRS {
      var x := ReadExpr(toks, p, 0, []);
      if x.Bad? {
        RefusedWhy(toks, p);
        BadFault(toks, p);
      } else if Joint(toks[x.at]) {
        JointsGrow(toks, p, x.at);
        LineFault(toks, x.at + 1, starts + [p], ops + [OpOf(toks[x.at])]);
      }
    }
  }

  lemma BadFault(toks: seq<Token>, p: nat)
    requires Ended(toks) && Expected(toks, p) && ReadExpr(toks, p, 0, []).Bad?
    requires Reason(toks, p, 0, 0, ReadExpr(toks, p, 0, []).code) && forall ss, oo :: !Chained(toks, ss, oo)
    ensures Fault(toks, ReadExpr(toks, p, 0, []).code)
  {
    hide ReadExpr, Chained, Runs, Signs;
  }

  /** The code of a refusal names something that is there in the tokens; a command without a token is the empty one. */
  lemma RefusedFor(toks: seq<Token>)
    requires Ended(toks) && ReadCommand(toks).Refused?
    ensures Fault(toks, ReadCommand(toks).code)
    ensures ReadCommand(toks) == Refused(EMPTY) <==> toks[0] == END
  {
    hide ReadLine, Chained;
    AcceptedExactly(toks);
    if toks[0] != END {
      LineFault(toks, 0, [], []);
      assert !Fault(toks, EMPTY);
    }
  }

  // ---------- the parser ----------

  class Parser {
    const toks: seq<Token>
    var pos: nat
    var nodes: seq<Node>
    var members: seq<nat>
    var leaves: seq<Leaf>
    var argv: seq<nat>
    var root: nat
    var starts: seq<nat>
    var ops: seq<Op>
    /** Memory ran out since the pools were last reset. */
    ghost var starved: bool

    /** Over the tokens of a line. */
    constructor (toks: seq<Token>)
      requires Ended(toks)
      ensures Valid() && this.toks == toks && starts == [] && ops == []
    {
      this.toks := toks;
      pos, nodes, members, leaves, argv, root := 0, [], [], [], [], 0;
      starts, ops, starved := [], [], false;
    }

    ghost function A(): Ast
      reads this`nodes, this`members
    {
      Ast(nodes, members)
    }

    ghost predicate Valid()
      reads this`pos, this`nodes, this`members, this`leaves, this`argv
    {
      Ended(toks) && pos < |toks| && AllSound(A()) && LeavesOk(leaves, argv) && |leaves| <= MAX_LEAVES
    }

    ghost function Cmds(): (cs: seq<Command>)
      requires Valid()
      reads this`pos, this`nodes, this`members, this`leaves, this`argv
      ensures |cs| == |leaves|
    {
      Commands(leaves, argv)
    }

    /** What a parsing step returns is what the reading says, unless memory ran out on the way. */
    ghost predicate Agrees(rc: Status, out: nat, o: Outcome)
      requires Valid()
      reads this`pos, this`nodes, this`members, this`leaves, this`argv, this`starved
    {
      if starved then rc != OK
      else if rc != OK then o == Bad(rc)
      else out < |nodes| && o == Got(Shape(A(), out), pos, Cmds())
    }

    /** The pools are only added to. */
    twostate predicate Grown()
      reads this`nodes, this`members
    {
      old(nodes) <= nodes && old(members) <= members
    }

    /** Asking for more room, which there may not be. */
    method Reserve() returns (ok: bool)
      requires !starved
      modifies this`starved
      ensures starved <==> !ok
    {
      ok := *;
      starved := !ok;
    }

    method AstReset()
      requires Valid()
      modifies this`nodes, this`members, this`leaves, this`argv, this`root, this`starved
      ensures Valid() && Cmds() == [] && nodes == [] && !starved
    {
      nodes, members, leaves, argv, root := [], [], [], [], 0;
      starved := false;
    }

    method ParseLeaf() returns (rc: Status, out: nat)
      requires Valid() && !starved && toks[pos].WORD?
      modifies this`pos, this`nodes, this`members, this`leaves, this`argv, this`starved
      ensures Valid() && Grown()
      ensures Agrees(rc, out, ReadLeaf(toks, old(pos), old(Cmds())))
    {
      hide AllSound, Shape;
      var argvFirst := |argv|;
      var argc := 0;
      out := 0;
      ghost var run := RunEnd(toks, pos);
      ghost var words := Offsets(toks, old(pos), run);
      while toks[pos].WORD?
        invariant pos == old(pos) + argc <= run && argc <= MAX_ARGV && !starved
        invariant argv == old(argv) + words[..argc] && leaves == old(leaves)
        invariant nodes == old(nodes) && members == old(members)
        decreases |toks| - pos
      {
        if argc >= MAX_ARGV {
          CommandsKept(leaves, old(argv), words[..argc]);
          return ARGV, 0;
        }
        var ok := Reserve();
        if !ok {
          CommandsKept(leaves, old(argv), words[..argc]);
          return ARGV, 0;
        }
        argv := argv + [toks[pos].off];
        argc := argc + 1;
        pos := pos + 1;
      }
      assert pos == run && words[..argc] == words;
      CommandsKept(leaves, old(argv), words);
      if |leaves| >= MAX_LEAVES {
        return LEAVES, 0;
      }
      var leaf := |leaves|;
      CommandAdded(leaves, argv, Leaf(argvFirst, argc));
      leaves := leaves + [Leaf(argvFirst, argc)];
      assert argv[argvFirst..argvFirst + argc] == words;
      var ok := Reserve();
      if !ok {
        return NODES, 0;
      }
      LeafAdded(A(), leaf);
      nodes := nodes + [Node(LEAF, leaf, 0, 0)];
      return OK, |nodes| - 1;
    }

    method ParseOperand(depth: nat) returns (rc: Status, out: nat)
      requires Valid() && !starved
      modifies this`pos, this`nodes, this`members, this`leaves, this`argv, this`starved
      ensures Valid() && Grown()
      ensures Agrees(rc, out, ReadOperand(toks, old(pos), depth, old(Cmds())))
      decreases |toks| - pos, 2
    {
      hide AllSound, Shape, ReadGroup, ReadLeaf, Agrees;
      if toks[pos].LPAREN? {
        rc, out := ParseGroup(depth);
        return;
      }
      if toks[pos].WORD? {
        rc, out := ParseLeaf();
        return;
      }
      rc, out := SYNTAX, 0;
      Refuses(rc, out);
    }

    lemma Refuses(rc: Status, out: nat)
      requires Valid() && !starved && rc != OK
      ensures Agrees(rc, out, Bad(rc))
    {
    }

    /** The members of a group, up to the token that ought to close it. */
    method ParseMembers(depth: nat) returns (rc: Status, ms: seq<nat>)
      requires Valid() && !starved
      modifies this`pos, this`nodes, this`members, this`leaves, this`argv, this`starved
      ensures Valid() && Grown()
      ensures starved ==> rc != OK
      ensures var o := ReadMembers(toks, old(pos), depth, old(Cmds()), []);
        && (!starved && rc != OK ==> o == Bad(rc))
        && (rc == OK ==> Held(A(), ms) && ms != [])
        && (rc == OK ==> o == if toks[pos].RPAREN? then Got(Closed(Shapes(A(), ms)), pos + 1, Cmds()) else Bad(SYNTAX))
      decreases |toks| - pos, 4
    {
      hide AllSound, Shape, Shapes, ReadMembers, ReadExpr, Commands, Held, Closed, LeavesOk;
      ms := [];
      ghost var o := ReadMembers(toks, pos, depth, Cmds(), []);
      HeldNone(A());
      while true
        invariant Valid() && Grown() && !starved && pos >= old(pos)
        invariant Held(A(), ms) && ReadMembers(toks, pos, depth, Cmds(), Shapes(A(), ms)) == o
        decreases |toks| - pos
      {
        var ok := Reserve();
        if !ok {
          return MEMORY, ms;
        }
        ghost var a, cs, p := A(), Cmds(), pos;
        var m;
        rc, m := ParseExpr(depth + 1);
        if rc != OK {
          MembersBad(p, depth, cs, Shapes(a, ms));
          return;
        }
        MembersStep(toks, p, depth, cs, Shapes(a, ms));
        ShapesKept(a, A(), ms);
        ShapesMore(A(), ms, m);
        ms := ms + [m];
        if !toks[pos].SEMI? {
          return OK, ms;
        }
        pos := pos + 1;
        if toks[pos].RPAREN? {
          return OK, ms;
        }
      }
    }

    lemma HeldNone(a: Ast)
      requires AllSound(a)
      ensures Held(a, []) && Shapes(a, []) == []
    {
    }

    lemma MembersBad(p: nat, depth: nat, cmds: seq<Command>, done: seq<Tree>)
      requires Ended(toks) && p < |toks|
      ensures var x := ReadExpr(toks, p, depth + 1, cmds);
        x.Bad? ==> ReadMembers(toks, p, depth, cmds, done) == x
    {
      hide ReadExpr;
    }

    method ParseGroup(depth: nat) returns (rc: Status, out: nat)
      requires Valid() && !starved && toks[pos].LPAREN?
      modifies this`pos, this`nodes, this`members, this`leaves, this`argv, this`starved
      ensures Valid() && Grown()
      ensures Agrees(rc, out, ReadGroup(toks, old(pos), depth, old(Cmds())))
      decreases |toks| - pos, 1
    {
      hide AllSound, Shape, Shapes, ReadMembers, Commands, LeavesOk;
      out := 0;
      pos := pos + 1;
      if depth >= MAX_DEPTH {
        return COMPLEX, 0;
      }
      if toks[pos].RPAREN? {
        return EMPTY_GROUP, 0;
      }
      var ms;
      rc, ms := ParseMembers(depth);
      if rc == OK && !toks[pos].RPAREN? {
        rc := SYNTAX;
      }
      if rc != OK {
        return;
      }
      pos := pos + 1;
      ghost var a := A();
      var ok := Reserve();
      if !ok {
        return NODES, 0;
      }
      NodeAdded(a, Node(GROUP, 0, 0, 0));
      nodes := nodes + [Node(GROUP, 0, 0, 0)];
      var g := |nodes| - 1;
      ok := Reserve();
      if !ok {
        return NODES, 0;
      }
      MembersAdded(a, Node(GROUP, |members|, |ms|, 0), ms);
      nodes := nodes[g := Node(GROUP, |members|, |ms|, 0)];
      members := members + ms;
      assert nodes == a.nodes + [Node(GROUP, |a.members|, |ms|, 0)];
      ShapesKept(a, A(), ms);
      ShapesAt(A(), ms);
      if |ms| == 1 {
        out := ms[0];
      } else {
        out := g;
      }
    }

    lemma ShapesAt(a: Ast, ns: seq<nat>)
      requires AllSound(a) && Held(a, ns) && ns != []
      ensures Shapes(a, ns)[0] == Shape(a, ns[0])
    {
    }

    method ParseExpr(depth: nat) returns (rc: Status, out: nat)
      requires Valid() && !starved
      modifies this`pos, this`nodes, this`members, this`leaves, this`argv, this`starved
      ensures Valid() && Grown()
      ensures Agrees(rc, out, ReadExpr(toks, old(pos), depth, old(Cmds())))
      decreases |toks| - pos, 3
    {
      hide AllSound, Shape, ReadOperand, ReadPipes, Commands, LeavesOk;
      var node: nat;
      ghost var o := ReadExpr(toks, pos, depth, Cmds());
      rc, node := ParseOperand(depth);
      if rc != OK {
        return rc, 0;
      }
      var fold := 0;
      while toks[pos].GT?
        invariant Valid() && Grown() && !starved && pos > old(pos)
        invariant node < |nodes| && ReadPipes(toks, pos, depth, fold, Shape(A(), node), Cmds()) == o
        decreases |toks| - pos
      {
        fold := fold + 1;
        var d := depth + fold;
        PipesStep(toks, pos, depth, fold - 1, Shape(A(), node), Cmds());
        if d > MAX_DEPTH {
          return COMPLEX, 0;
        }
        pos := pos + 1;
        if !toks[pos].WORD? && !toks[pos].LPAREN? {
          return SYNTAX, 0;
        }
        ghost var a := A();
        var rhs;
        rc, rhs := ParseOperand(d);
        if rc != OK {
          return rc, 0;
        }
        ShapeKept(a, A(), node);
        var ok := Reserve();
        if !ok {
          return NODES, 0;
        }
        PipeAdded(A(), node, rhs);
        nodes := nodes + [Node(EXPR, node, 0, rhs)];
        node := |nodes| - 1;
      }
      PipesEnd(toks, pos, depth, fold, Shape(A(), node), Cmds());
      return OK, node;
    }

    /** An expression is parsed to see that it reads well, and its tree thrown away. */
    method Validate() returns (rc: Status)
      requires Valid() && !starved
      modifies this`pos, this`nodes, this`members, this`leaves, this`argv, this`root, this`starved
      ensures Valid() && (starved ==> rc != OK)
      ensures var x := ReadExpr(toks, old(pos), 0, []);
        !starved ==> if rc == OK then x.Got? && x.at == pos else x == Bad(rc)
    {
      hide AllSound, Shape, ReadExpr, Commands, LeavesOk;
      AstReset();
      var out;
      rc, out := ParseExpr(0);
    }

    /** A command is accepted or refused as the reading says, with its expressions noted, unless memory runs out. */
    method ParseCommand() returns (rc: Status)
      requires Valid()
      modifies this
      ensures Valid()
      ensures starved ==> rc != OK
      ensures !starved ==> if rc == OK then ReadCommand(toks) == Parsed(starts, ops) else ReadCommand(toks) == Refused(rc)
      ensures rc == OK ==> Chained(toks, starts, ops)
    {
      hide AllSound, Shape, ReadExpr, ReadLine, ReadCommand, Commands, LeavesOk, Chained, LineWith;
      starts, ops, pos := [], [], 0;
      starved := false;
      CommandStarts();
      AcceptedExactly(toks);
      if toks[pos].END? {
        return EMPTY;
      }
      while true
        invariant Valid() && !starved && |starts| == |ops| && (toks[pos].END? ==> |ops| > 0)
        invariant ReadCommand(toks) == ReadLine(toks, pos, starts, ops)
        decreases |toks| - pos
      {
        LineStep(pos, starts, ops);
        LineGoesOn(pos, starts, ops);
        var t := toks[pos];
        if t.PIPE? {
          return RESERVED;
        }
        if t.AND? || t.OR? || t.BG? {
          return OPERATOR;
        }
        if t.END? {
          return if ops[|ops| - 1] == OP_BG then TRAILING_BG else OPERATOR;
        }
        if |starts| >= MAX_EXPRS {
          return EXPRS;
        }
        starts := starts + [pos];
        rc := Validate();
        if rc != OK {
          return;
        }
        var after := toks[pos];
        if after.AND? || after.OR? || after.BG? {
          ops := ops + [if after.AND? then OP_AND else if after.OR? then OP_OR else OP_BG];
        } else if after.END? {
          ops := ops + [OP_NONE];
          return OK;
        } else if after.PIPE? {
          return RESERVED;
        } else {
          return SYNTAX;
        }
        pos := pos + 1;
      }
    }

    lemma LineStep(p: nat, starts: seq<nat>, ops: seq<Op>)
      requires Ended(toks) && p < |toks| && |starts| == |ops| && (toks[p].END? ==> |ops| > 0)
      ensures var r := ReadLine(toks, p, starts, ops);
        && (toks[p].PIPE? ==> r == Refused(RESERVED))
        && (toks[p].AND? || toks[p].OR? || toks[p].BG? ==> r == Refused(OPERATOR))
        && (toks[p].END? ==> r == Refused(if ops[|ops| - 1] == OP_BG then TRAILING_BG else OPERATOR))
        && (toks[p].WORD? || toks[p].LPAREN? || toks[p].RPAREN? || toks[p].SEMI? || toks[p].GT? ==>
              r == LineWith(p, starts, ops))
    {
      hide ReadExpr;
    }

    lemma CommandStarts()
      requires Ended(toks)
      ensures ReadCommand(toks) == if toks[0].END? then Refused(EMPTY) else ReadLine(toks, 0, [], [])
    {
      hide ReadLine;
    }

    lemma LineGoesOn(p: nat, starts: seq<nat>, ops: seq<Op>)
      requires Ended(toks) && p < |toks| && |starts| == |ops|
      ensures var x := ReadExpr(toks, p, 0, []); var r := LineWith(p, starts, ops);
        && (|starts| >= MAX_EXPRS ==> r == Refused(EXPRS))
        && (|starts| < MAX_EXPRS && x.Bad? ==> r == Refused(x.code))
        && (|starts| < MAX_EXPRS && x.Got? ==> r == LineAfter(p, x.at, starts, ops))
    {
      hide ReadExpr, ReadLine;
    }

    ghost function LineAfter(p: nat, at: nat, starts: seq<nat>, ops: seq<Op>): Line
      requires Ended(toks) && at < |toks| && |starts| == |ops|
    {
      if toks[at].END? then Parsed(starts + [p], ops + [OP_NONE])
      else if toks[at].PIPE? then Refused(RESERVED)
      else if toks[at].AND? || toks[at].OR? || toks[at].BG? then
        ReadLine(toks, at + 1, starts + [p], ops + [OpOf(toks[at])])
      else Refused(SYNTAX)
    }

    ghost function LineWith(p: nat, starts: seq<nat>, ops: seq<Op>): Line
      requires Ended(toks) && p < |toks| && |starts| == |ops|
    {
      var x := ReadExpr(toks, p, 0, []);
      if |starts| >= MAX_EXPRS then Refused(EXPRS)
      else if x.Bad? then Refused(x.code)
      else if toks[x.at].END? then Parsed(starts + [p], ops + [OP_NONE])
      else if toks[x.at].PIPE? then Refused(RESERVED)
      else if toks[x.at].AND? || toks[x.at].OR? || toks[x.at].BG? then
        ReadLine(toks, x.at + 1, starts + [p], ops + [OpOf(toks[x.at])])
      else Refused(SYNTAX)
    }

    /**
      Loading an expression of an accepted command fails only for want of memory, and gives a tree that can be wired:
      its commands numbered from 0, sixteen at most, each with its words.
     */
    method ParseLoad(index: int) returns (rc: Status)
      requires Valid() && (starts != [] ==> Chained(toks, starts, ops)) && |starts| == |ops|
      modifies this
      ensures Valid() && starts == old(starts) && ops == old(ops)
      ensures !(0 <= index < |starts|) ==> rc == SYNTAX && A() == old(A())
      ensures 0 <= index < |starts| ==> (rc == OK <==> !starved)
      ensures rc == OK ==> root < |nodes| && starts[index] < |toks| && Loaded(starts[index])
    {
      hide AllSound, Shape, ReadExpr, Commands, LeavesOk;
      if index < 0 || index >= |starts| {
        return SYNTAX;
      }
      assert Stage(toks, starts, ops, index);
      AstReset();
      pos := starts[index];
      ReadIsWireable(toks, pos);
      var out;
      rc, out := ParseExpr(0);
      if rc != OK {
        return;
      }
      root := out;
      return OK;
    }

    /** The tree at the root is what the tokens from `p` mean. */
    ghost predicate Loaded(p: nat)
      requires Valid() && root < |nodes| && p < |toks|
      reads this
    {
      var t := Shape(A(), root);
      && ReadExpr(toks, p, 0, []) == Got(t, pos, Cmds())
      && Numbered(t, 0) && Size(t) == |leaves| && 0 < |leaves| <= MAX_LEAVES && Peopled(t)
      && forall c :: c in Cmds() ==> 0 < |c| <= MAX_ARGV
    }
  }
}
