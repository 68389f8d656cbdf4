/** A command line from its characters to what a dry run of it shows. */
module PurShell {
  import opened PurTree
  import opened PurGrammar
  import opened PurLexer
  import opened PurParse
  import opened PurNet
  import opened PurWire

  /** What is shown of a command: its name, and how many streams go in and out. */
  datatype Row = Row(name: string, ins: nat, outs: nat)

  /** The word of the line that starts at `off` is `name`. */
  ghost predicate Spelt(text: string, xs: seq<Piece>, off: nat, name: string) {
    exists k :: 0 <= k < |xs| && WordAt(text, xs[k], off, name)
  }

  predicate WordAt(text: string, x: Piece, off: nat, name: string) {
    x.token == WORD(off) && off + x.len <= |text| && name == text[off..off + x.len]
  }

  /** Every word of the line reads, where it stands in the buffer, as just its own characters. */
  ghost predicate WordsStand(b: seq<char>, text: string, xs: seq<Piece>) {
    forall k :: 0 <= k < |xs| && xs[k].token.WORD? ==> ReadsAs(b, text, xs[k].token.off, xs[k].len)
  }

  /** The row of each command of the expression that starts at token `p`: its first word, and the streams of the plan. */
  ghost predicate Shows(text: string, xs: seq<Piece>, p: nat, row: seq<Row>) {
    p < |TokensOf(xs)| && ReadExpr(TokensOf(xs), p, 0, []).Got? &&
    var x := ReadExpr(TokensOf(xs), p, 0, []);
    && |row| == Size(x.t) == |x.cmds|
    && forall i :: 0 <= i < |row| ==>
         && x.cmds[i] != [] && Spelt(text, xs, x.cmds[i][0], row[i].name)
         && row[i].ins == |To(Wanted(Plan(x.t)), i)| && row[i].outs == |From(Wanted(Plan(x.t)), i)|
  }

  /** The expression that starts at token `p` asks for more pipes than there may be. */
  ghost predicate TooMany(toks: seq<Token>, p: nat)
    requires Ended(toks)
  {
    p < |toks| && ReadExpr(toks, p, 0, []).Got? && |Wanted(Plan(ReadExpr(toks, p, 0, []).t))| > MAX_PIPES
  }

  /** Nothing fails in a dry run, so what stands after `||` is not reached. */
  predicate Reached(ops: seq<Op>, i: nat)
    requires i < |ops|
  {
    i == 0 || ops[i - 1] != OP_OR
  }

  /** `pur_op_should_run`: whether an expression behind the operator is run when the last status is `status`. */
  predicate ShouldRun(op: Op, status: int) {
    match op
    case OP_AND => status == 0
    case OP_OR => status != 0
    case _ => true
  }

  /** The status before expression `n`, when each expression that is run leaves its own and one passed over leaves it alone. */
  function StatusBefore(ops: seq<Op>, statuses: seq<int>, n: nat): int
    requires n <= |ops| == |statuses|
    decreases n, 0
  {
    if n == 0 then 0
    else if IsRun(ops, statuses, n - 1) then statuses[n - 1]
    else StatusBefore(ops, statuses, n - 1)
  }

  predicate IsRun(ops: seq<Op>, statuses: seq<int>, i: nat)
    requires i < |ops| == |statuses|
    decreases i, 1
  {
    i == 0 || ShouldRun(ops[i - 1], StatusBefore(ops, statuses, i))
  }

  /** When nothing fails, just the expressions reached are run; so when something behind `||` is run, something failed. */
  lemma {:induction false} ReachedAreRun(ops: seq<Op>, statuses: seq<int>, i: nat)
    requires i < |ops| == |statuses| && forall k :: 0 <= k < i ==> statuses[k] == 0
    ensures StatusBefore(ops, statuses, i) == 0 && (IsRun(ops, statuses, i) <==> Reached(ops, i))
  {
    if i > 0 {
      ReachedAreRun(ops, statuses, i - 1);
    }
  }

  /** The numbers of the expressions a dry run comes to, among the first `n`. */
  function Visited(ops: seq<Op>, n: nat): (vs: seq<nat>)
    requires n <= |ops|
    ensures forall k :: 0 <= k < |vs| ==> vs[k] < n
  {
    if n == 0 then [] else Visited(ops, n - 1) + if Reached(ops, n - 1) then [n - 1] else []
  }

  lemma {:induction false} VisitedOn(ops: seq<Op>, m: nat, n: nat)
    requires m <= n <= |ops|
    ensures Visited(ops, m) <= Visited(ops, n)
  {
    if m < n {
      VisitedOn(ops, m, n - 1);
    }
  }

  /** The first rows are those of the expressions come to first, none of which asks for too many pipes. */
  ghost predicate ShowsFirst(text: string, xs: seq<Piece>, starts: seq<nat>, visited: seq<nat>, rows: seq<seq<Row>>) {
    && |rows| <= |visited|
    && forall k :: 0 <= k < |rows| ==>
         && visited[k] < |starts| && Shows(text, xs, starts[visited[k]], rows[k])
         && !TooMany(TokensOf(xs), starts[visited[k]])
  }

  /**
    What a dry run of an accepted line comes to: it succeeds when every expression it comes to has been shown, and
    otherwise has stopped at the first that asks for too many pipes.
   */
  ghost predicate DryRunOf(text: string, xs: seq<Piece>, starts: seq<nat>, ops: seq<Op>, rc: int, rows: seq<seq<Row>>) {
    var visited := Visited(ops, |ops|);
    && |starts| == |ops| && ShowsFirst(text, xs, starts, visited, rows)
    && (rc == 0 <==> |rows| == |visited|)
    && (|rows| < |visited| ==> TooMany(TokensOf(xs), starts[visited[|rows|]]))
  }

  /** So it succeeds exactly when none of the expressions it comes to asks for too many pipes. */
  lemma SucceedsExactly(text: string, xs: seq<Piece>, starts: seq<nat>, ops: seq<Op>, rc: int, rows: seq<seq<Row>>)
    requires DryRunOf(text, xs, starts, ops, rc, rows)
    ensures rc == 0 <==> forall i :: i in Visited(ops, |ops|) ==> !TooMany(TokensOf(xs), starts[i])
  {
    hide TooMany, Shows, TokensOf;
    var visited := Visited(ops, |ops|);
    if rc != 0 {
      assert visited[|rows|] in visited;
    }
  }

  // ---------- one expression ----------

  /** The rows of the expression that is loaded. */
  method Plans(parser: Parser, line: array<char>, ghost text: string, ghost xs: seq<Piece>, ghost p: nat) returns (rc: Code, row: seq<Row>)
    requires parser.Valid() && parser.root < |parser.nodes| && p < |parser.toks| && parser.Loaded(p)
    requires parser.toks == TokensOf(xs) && WordsStand(line[..], text, xs)
    ensures rc == Code.OK <==> !TooMany(parser.toks, p)
    ensures rc == Code.OK ==> Shows(text, xs, p, row)
  {
    hide ReadExpr, Plan, Wanted, Joined, GoodEdge, AllSound, Shape, Numbered, To, From, WordsStand, Spelt, CString,
         Commands, LeavesOk;
    var w := new Wiring(Ast(parser.nodes, parser.members), parser.root, |parser.leaves|);
    rc := w.WireGraph();
    row := [];
    if rc != Code.OK {
      return;
    }
    ghost var n := w.S();
    ghost var x := ReadExpr(parser.toks, p, 0, []);
    var i := 0;
    while i < w.leaves
      invariant i == |row| <= w.leaves && n == w.S()
      invariant forall k :: 0 <= k < i ==>
                  && row[k].ins == n.ins[k] && row[k].outs == n.outs[k]
                  && x.cmds[k] != [] && Spelt(text, xs, x.cmds[k][0], row[k].name)
    {
      var name := NameOf(parser, line, text, xs, p, i);
      row := row + [Row(name, w.inCount[i], w.outCount[i])];
      i := i + 1;
    }
    RowShows(n, x.t, row);
  }

  /** The name of a command, as it is printed. */
  method NameOf(parser: Parser, line: array<char>, ghost text: string, ghost xs: seq<Piece>, ghost p: nat, i: nat) returns (name: string)
    requires parser.Valid() && parser.root < |parser.nodes| && p < |parser.toks| && parser.Loaded(p) && i < |parser.leaves|
    requires parser.toks == TokensOf(xs) && WordsStand(line[..], text, xs)
    ensures var x := ReadExpr(parser.toks, p, 0, []);
      x.Got? && i < |x.cmds| && x.cmds[i] != [] && Spelt(text, xs, x.cmds[i][0], name)
  {
    hide ReadExpr, AllSound, Shape, Numbered, Peopled, WordsStand, Spelt, CString;
    CommandNamed(line[..], text, xs, p, i);
    assert parser.Cmds()[i] == ReadExpr(parser.toks, p, 0, []).cmds[i];
    var leaf := parser.leaves[i];
    name := if leaf.argc > 0 then CString(line[..], parser.argv[leaf.argvFirst]) else "?";
  }

  /** The first word of a command, read from the buffer. */
  lemma CommandNamed(b: seq<char>, text: string, xs: seq<Piece>, p: nat, i: nat)
    requires WordsStand(b, text, xs) && p < |TokensOf(xs)| && ReadExpr(TokensOf(xs), p, 0, []).Got?
    requires i < |ReadExpr(TokensOf(xs), p, 0, []).cmds|
    ensures var c := ReadExpr(TokensOf(xs), p, 0, []).cmds[i];
      c != [] && c[0] < |b| && b[|b| - 1] == '\0' && Spelt(text, xs, c[0], CString(b, c[0]))
  {
    hide ReadExpr, CString, WordsStand, TokensOf, Spelt;
    FirstWord(TokensOf(xs), p, i);
    WordStands(b, text, xs, ReadExpr(TokensOf(xs), p, 0, []).cmds[i][0]);
  }

  lemma FirstWord(toks: seq<Token>, p: nat, i: nat)
    requires Ended(toks) && p < |toks| && ReadExpr(toks, p, 0, []).Got? && i < |ReadExpr(toks, p, 0, []).cmds|
    ensures var c := ReadExpr(toks, p, 0, []).cmds[i]; c != [] && WORD(c[0]) in toks
  {
    hide ReadExpr, Numbered, Peopled, Size;
    ReadIsWireable(toks, p);
    ReadWords(toks, p);
    var cmds := ReadExpr(toks, p, 0, []).cmds;
    assert cmds[i] in cmds && cmds[i][0] in cmds[i];
  }

  lemma WordStands(b: seq<char>, text: string, xs: seq<Piece>, off: nat)
    requires WordsStand(b, text, xs) && WORD(off) in TokensOf(xs)
    ensures off < |b| && b[|b| - 1] == '\0' && Spelt(text, xs, off, CString(b, off))
  {
    hide CString;
    var toks := TokensOf(xs);
    var k :| 0 <= k < |toks| && toks[k] == WORD(off);
    assert ReadsAs(b, text, xs[k].token.off, xs[k].len);
    assert WordAt(text, xs[k], off, CString(b, off));
  }

  lemma RowShows(n: Net, t: Tree, row: seq<Row>)
    requires GoodNet(n) && Joined(n.edges) == Wanted(Plan(t)) && |row| == Size(t) <= MAX_LEAVES
    requires forall k :: 0 <= k < |row| ==> row[k].ins == n.ins[k] && row[k].outs == n.outs[k]
    ensures forall i :: 0 <= i < |row| ==> row[i].ins == |To(Wanted(Plan(t)), i)| && row[i].outs == |From(Wanted(Plan(t)), i)|
  {
    hide Plan, Wanted, Joined, GoodEdge, To, From;
    forall i | 0 <= i < |row|
      ensures row[i].ins == |To(Wanted(Plan(t)), i)| && row[i].outs == |From(Wanted(Plan(t)), i)|
    {
      CountsAre(n.edges, i);
    }
  }

  // ---------- a whole command ----------

  /** A dry run of an accepted command, unless memory runs out. */
  method DryRun(parser: Parser, line: array<char>, ghost text: string, ghost xs: seq<Piece>) returns (rc: int, rows: seq<seq<Row>>)
    requires parser.Valid() && Chained(parser.toks, parser.starts, parser.ops)
    requires parser.toks == TokensOf(xs) && WordsStand(line[..], text, xs)
    modifies parser
    ensures parser.starts == old(parser.starts) && parser.ops == old(parser.ops)
    ensures if parser.starved then rc != 0 else DryRunOf(text, xs, parser.starts, parser.ops, rc, rows)
  {
    hide ReadExpr, Plan, Wanted, AllSound, Chained, ShowsFirst, Shows, TooMany, WordsStand, TokensOf, Shape, Commands;
    rows := [];
    var i, status := 0, 0;
    ChainLength(parser.toks, parser.starts, parser.ops);
    ghost var visited := Visited(parser.ops, |parser.ops|);
    NothingShown(text, xs, parser.starts, visited);
    while i < |parser.starts|
      invariant status == 0 && parser.Valid() && parser.starts == old(parser.starts) && parser.ops == old(parser.ops)
      invariant i <= |parser.starts| == |parser.ops| && (i > 0 ==> !parser.starved)
      invariant |rows| == |Visited(parser.ops, i)| && ShowsFirst(text, xs, parser.starts, visited, rows)
    {
      if i == 0 || ShouldRun(parser.ops[i - 1], status) {
        NextVisited(parser.ops, i);
        var prc := parser.ParseLoad(i);
        if prc != Status.OK {
          return -1, rows;
        }
        var xrc, row := Plans(parser, line, text, xs, parser.starts[i]);
        if xrc != Code.OK {
          return -1, rows;
        }
        ShowsMore(text, xs, parser.starts, visited, rows, row);
        rows := rows + [row];
      }
      i := i + 1;
    }
    return 0, rows;
  }

  lemma NothingShown(text: string, xs: seq<Piece>, starts: seq<nat>, visited: seq<nat>)
    ensures ShowsFirst(text, xs, starts, visited, [])
  {
  }

  lemma ShowsMore(text: string, xs: seq<Piece>, starts: seq<nat>, visited: seq<nat>, rows: seq<seq<Row>>, row: seq<Row>)
    requires ShowsFirst(text, xs, starts, visited, rows) && |rows| < |visited| && visited[|rows|] < |starts|
    requires var p := starts[visited[|rows|]]; Shows(text, xs, p, row) && !TooMany(TokensOf(xs), p)
    ensures ShowsFirst(text, xs, starts, visited, rows + [row])
  {
    hide Shows, TooMany, TokensOf;
  }

  /** An expression the run comes to is the next one of those visited. */
  lemma NextVisited(ops: seq<Op>, i: nat)
    requires i < |ops| && Reached(ops, i)
    ensures var k := |Visited(ops, i)|; k < |Visited(ops, |ops|)| && Visited(ops, |ops|)[k] == i
    ensures |Visited(ops, i + 1)| == |Visited(ops, i)| + 1
  {
    VisitedOn(ops, i + 1, |ops|);
    assert Visited(ops, i + 1) == Visited(ops, i) + [i];
    assert Visited(ops, |ops|)[|Visited(ops, i)|] == Visited(ops, i + 1)[|Visited(ops, i)|];
  }

  lemma ChainLength(toks: seq<Token>, starts: seq<nat>, ops: seq<Op>)
    requires Ended(toks) && Chained(toks, starts, ops)
    ensures 0 < |starts| == |ops|
  {
  }

  // ---------- from the line ----------

  /**
    What a dry run of a line comes to: an open quote, or a refusal of its tokens, or the run of its expressions. `prc`
    is the code of the parser, and `rc` is less than zero when it is not OK.
   */
  ghost predicate LineRun(text: string, xs: seq<Piece>, starts: seq<nat>, ops: seq<Op>, prc: Status, rc: int, rows: seq<seq<Row>>) {
    if prc == QUOTE && !Lexing(text, xs) then rc == -1 && rows == [] && exists q :: OpenQuote(text, xs, q)
    else
      && Lexing(text, xs)
      && match ReadCommand(TokensOf(xs))
         case Refused(code) => prc == code && rc == -1 && rows == []
         case Parsed(ss, oo) => prc == Status.OK && ss == starts && oo == ops && DryRunOf(text, xs, starts, ops, rc, rows)
  }

  /**
    `pur -n`: the line is cut into tokens where it stands, its words closed, its expressions read, wired and shown.
    Unless memory runs out, `LineRun` says what comes of it.
   */
  method RunLine(line: array<char>, ghost text: string)
    returns (prc: Status, rc: int, rows: seq<seq<Row>>, ghost xs: seq<Piece>, ghost starts: seq<nat>, ghost ops: seq<Op>,
             ghost starved: bool)
    requires IsLine(line, text)
    modifies line
    ensures if starved then rc != 0 else LineRun(text, xs, starts, ops, prc, rc, rows)
  {
    hide Lexing, ReadCommand, Chained, DryRunOf, TokensOf, OpenQuote;
    rc, rows, starts, ops, starved := -1, [], [], [], false;
    var toks, lens;
    prc, toks, lens, xs := Tokenize(line, text);
    if prc != Status.OK {
      starved := prc == MEMORY;
      if prc == QUOTE {
        OpenNotCut(text, xs);
      }
      return;
    }
    TerminateWords(line, text, toks, lens, xs);
    TokensAre(line[..], text, toks, lens, xs);
    var parser := new Parser(toks);
    prc := parser.ParseCommand();
    if prc != Status.OK {
      starved := parser.starved;
      return;
    }
    starts, ops := parser.starts, parser.ops;
    rc, rows := DryRun(parser, line, text, xs);
    starved := parser.starved;
  }

  lemma OpenNotCut(text: string, xs: seq<Piece>)
    requires exists ys, q :: OpenQuote(text, ys, q)
    ensures !Lexing(text, xs)
  {
    hide Lexing, OpenQuote;
    if Lexing(text, xs) {
      LexingOnce(text, xs);
    }
  }

  lemma TokensAre(b: seq<char>, text: string, toks: seq<Token>, lens: seq<nat>, xs: seq<Piece>)
    requires toks == TokensOf(xs) && |lens| == |xs| && forall i :: 0 <= i < |xs| ==> lens[i] == xs[i].len
    requires forall i :: 0 <= i < |xs| && toks[i].WORD? ==> ReadsAs(b, text, toks[i].off, lens[i])
    ensures WordsStand(b, text, xs)
  {
    hide ReadsAs;
  }
}
