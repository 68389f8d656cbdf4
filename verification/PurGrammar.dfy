/** Statements as they are written, the trees they mean, and the reading of one from its tokens. */
module PurGrammar {
  import opened PurTree

  const MAX_DEPTH := 16
  const MAX_ARGV := 32

  datatype Token = END | WORD(off: nat) | LPAREN | RPAREN | SEMI | GT | AND | OR | BG | PIPE

  datatype Status = OK | EMPTY | SYNTAX | EMPTY_GROUP | QUOTE | NODES | LEAVES | ARGV | COMPLEX | MEMORY | OPERATOR
                  | TRAILING_BG | RESERVED | EXPRS

  // ---------- what is written ----------

  /** A command and its arguments, or expressions in brackets with or without a last semicolon. */
  datatype Operand = Words(words: seq<nat>) | Paren(members: Members, trailing: bool)

  datatype Members = Last(e: Expr) | More(e: Expr, rest: Members)

  /** Operands piped from left to right. */
  datatype Expr = Single(op: Operand) | Then(left: Expr, op: Operand)

  function TextO(o: Operand): seq<Token> {
    match o
    case Words(ws) => seq(|ws|, i requires 0 <= i < |ws| => WORD(ws[i]))
    case Paren(ms, trailing) => [LPAREN] + TextM(ms) + (if trailing then [SEMI] else []) + [RPAREN]
  }

  function TextM(ms: Members): seq<Token> {
    match ms
    case Last(e) => TextE(e)
    case More(e, rest) => TextE(e) + [SEMI] + TextM(rest)
  }

  function TextE(e: Expr): seq<Token> {
    match e
    case Single(o) => TextO(o)
    case Then(l, o) => TextE(l) + [GT] + TextO(o)
  }

  function Folds(e: Expr): nat {
    match e
    case Single(_) => 0
    case Then(l, _) => Folds(l) + 1
  }

  /** Within the limits on nesting and on arguments. */
  predicate FitsO(o: Operand, depth: nat) {
    match o
    case Words(ws) => 0 < |ws| <= MAX_ARGV
    case Paren(ms, _) => depth < MAX_DEPTH && FitsM(ms, depth + 1)
  }

  predicate FitsM(ms: Members, depth: nat) {
    match ms
    case Last(e) => FitsE(e, depth)
    case More(e, rest) => FitsE(e, depth) && FitsM(rest, depth)
  }

  predicate FitsE(e: Expr, depth: nat) {
    match e
    case Single(o) => FitsO(o, depth)
    case Then(l, o) => FitsE(l, depth) && depth + Folds(e) <= MAX_DEPTH && FitsO(o, depth + Folds(e))
  }

  /** Every command has a word: all that the grammar asks for. */
  predicate PlainO(o: Operand) {
    match o
    case Words(ws) => 0 < |ws|
    case Paren(ms, _) => PlainM(ms)
  }

  predicate PlainM(ms: Members) {
    match ms
    case Last(e) => PlainE(e)
    case More(e, rest) => PlainE(e) && PlainM(rest)
  }

  predicate PlainE(e: Expr) {
    match e
    case Single(o) => PlainO(o)
    case Then(l, o) => PlainE(l) && PlainO(o)
  }

  // ---------- what it means ----------

  type Command = seq<nat>

  /** The commands, each with its arguments, in the order of the text. */
  function CmdsO(o: Operand): seq<Command> {
    match o
    case Words(ws) => [ws]
    case Paren(ms, _) => CmdsM(ms)
  }

  function CmdsM(ms: Members): seq<Command> {
    match ms
    case Last(e) => CmdsE(e)
    case More(e, rest) => CmdsE(e) + CmdsM(rest)
  }

  function CmdsE(e: Expr): seq<Command> {
    match e
    case Single(o) => CmdsO(o)
    case Then(l, o) => CmdsE(l) + CmdsO(o)
  }

  /** The tree, its commands numbered from `lo`; brackets round one expression mean just that expression. */
  function TreeO(o: Operand, lo: nat): Tree {
    match o
    case Words(_) => Cmd(lo)
    case Paren(ms, _) => Closed(TreesM(ms, lo))
  }

  function Closed(ts: seq<Tree>): Tree {
    if |ts| == 1 then ts[0] else Group(ts)
  }

  function TreesM(ms: Members, lo: nat): seq<Tree> {
    match ms
    case Last(e) => [TreeE(e, lo)]
    case More(e, rest) => [TreeE(e, lo)] + TreesM(rest, lo + |CmdsE(e)|)
  }

  function TreeE(e: Expr, lo: nat): Tree {
    match e
    case Single(o) => TreeO(o, lo)
    case Then(l, o) => Pipe(TreeE(l, lo), TreeO(o, lo + |CmdsE(l)|))
  }

  // ---------- reading ----------

  datatype Outcome = Got(t: Tree, at: nat, cmds: seq<Command>) | Bad(code: Status)

  /** The list of tokens is closed by an end mark. */
  predicate Ended(toks: seq<Token>) {
    |toks| > 0 && toks[|toks| - 1] == END
  }

  /** Where a run of words that starts at `p` ends. */
  function RunEnd(toks: seq<Token>, p: nat): (q: nat)
    requires Ended(toks) && p < |toks|
    ensures p <= q < |toks| && !toks[q].WORD?
    ensures forall i :: p <= i < q ==> toks[i].WORD?
    ensures toks[p].WORD? ==> p < q
    decreases |toks| - p
  {
    if toks[p].WORD? then RunEnd(toks, p + 1) else p
  }

  function Offsets(toks: seq<Token>, p: nat, q: nat): (ws: seq<nat>)
    requires p <= q <= |toks| && forall i :: p <= i < q ==> toks[i].WORD?
    ensures |ws| == q - p
  {
    seq(q - p, i requires 0 <= i < q - p => toks[p + i].off)
  }

  function ReadLeaf(toks: seq<Token>, p: nat, cmds: seq<Command>): (o: Outcome)
    requires Ended(toks) && p < |toks| && toks[p].WORD?
    ensures o.Got? ==> p < o.at < |toks|
  {
    var q := RunEnd(toks, p);
    if q - p > MAX_ARGV then Bad(ARGV)
    else if |cmds| >= MAX_LEAVES then Bad(LEAVES)
    else Got(Cmd(|cmds|), q, cmds + [Offsets(toks, p, q)])
  }

  function ReadOperand(toks: seq<Token>, p: nat, depth: nat, cmds: seq<Command>): (o: Outcome)
    requires Ended(toks) && p < |toks|
    ensures o.Got? ==> p < o.at < |toks|
    decreases |toks| - p, 2
  {
    if toks[p].LPAREN? then ReadGroup(toks, p, depth, cmds)
    else if toks[p].WORD? then ReadLeaf(toks, p, cmds)
    else Bad(SYNTAX)
  }

  function ReadGroup(toks: seq<Token>, p: nat, depth: nat, cmds: seq<Command>): (o: Outcome)
    requires Ended(toks) && p < |toks| && toks[p].LPAREN?
    ensures o.Got? ==> p < o.at < |toks|
    decreases |toks| - p, 1
  {
    if depth >= MAX_DEPTH then Bad(COMPLEX)
    else if toks[p + 1].RPAREN? then Bad(EMPTY_GROUP)
    else ReadMembers(toks, p + 1, depth, cmds, [])
  }

  /** The rest of a group whose first members are read already. */
  function ReadMembers(toks: seq<Token>, p: nat, depth: nat, cmds: seq<Command>, done: seq<Tree>): (o: Outcome)
    requires Ended(toks) && p < |toks|
    ensures o.Got? ==> p < o.at < |toks|
    decreases |toks| - p, 4
  {
    var x := ReadExpr(toks, p, depth + 1, cmds);
    if x.Bad? then x
    else
      var ts := done + [x.t];
      if toks[x.at].SEMI? then
        if toks[x.at + 1].RPAREN? then Got(Closed(ts), x.at + 2, x.cmds)
        else ReadMembers(toks, x.at + 1, depth, x.cmds, ts)
      else if toks[x.at].RPAREN? then Got(Closed(ts), x.at + 1, x.cmds)
      else Bad(SYNTAX)
  }

  function ReadExpr(toks: seq<Token>, p: nat, depth: nat, cmds: seq<Command>): (o: Outcome)
    requires Ended(toks) && p < |toks|
    ensures o.Got? ==> p < o.at < |toks|
    decreases |toks| - p, 3
  {
    var x := ReadOperand(toks, p, depth, cmds);
    if x.Bad? then x else ReadPipes(toks, x.at, depth, 0, x.t, x.cmds)
  }

  /** The rest of an expression with `fold` pipes read already. */
  function ReadPipes(toks: seq<Token>, p: nat, depth: nat, fold: nat, t: Tree, cmds: seq<Command>): (o: Outcome)
    requires Ended(toks) && p < |toks|
    ensures o.Got? ==> p <= o.at < |toks|
    decreases |toks| - p, 3
  {
    if !toks[p].GT? then Got(t, p, cmds)
    else if depth + fold + 1 > MAX_DEPTH then Bad(COMPLEX)
    else if !toks[p + 1].WORD? && !toks[p + 1].LPAREN? then Bad(SYNTAX)
    else
      var y := ReadOperand(toks, p + 1, depth + fold + 1, cmds);
      if y.Bad? then y else ReadPipes(toks, y.at, depth, fold + 1, Pipe(t, y.t), y.cmds)
  }

  // ---------- what is written is read ----------

  /** The text stands at `p`, and ends before a token that cannot belong to its last command. */
  ghost predicate Stands(toks: seq<Token>, p: nat, text: seq<Token>) {
    && Ended(toks) && p + |text| < |toks| && toks[p..p + |text|] == text && !toks[p + |text|].WORD?
  }

  lemma StandsAt(toks: seq<Token>, p: nat, text: seq<Token>, i: nat)
    requires Stands(toks, p, text) && i < |text|
    ensures toks[p + i] == text[i]
  {
    assert toks[p..p + |text|][i] == toks[p + i];
  }

  /** Two texts end to end. */
  lemma StandsParts(toks: seq<Token>, p: nat, a: seq<Token>, b: seq<Token>)
    requires Stands(toks, p, a + b) && |b| > 0
    ensures !b[0].WORD? ==> Stands(toks, p, a)
    ensures Stands(toks, p + |a|, b) && toks[p + |a|] == b[0]
  {
    var text := a + b;
    assert toks[p..p + |text|] == text;
    assert toks[p..p + |a|] == text[..|a|] == a;
    assert toks[p + |a|..p + |text|] == text[|a|..] == b;
    StandsAt(toks, p, text, |a|);
  }

  lemma {:induction false} RunIs(toks: seq<Token>, p: nat, q: nat)
    requires Ended(toks) && p <= q < |toks| && !toks[q].WORD? && forall i :: p <= i < q ==> toks[i].WORD?
    ensures RunEnd(toks, p) == q
    decreases q - p
  {
    if p < q {
      RunIs(toks, p + 1, q);
    }
  }

  lemma {:induction false} TextStarts(e: Expr)
    requires PlainE(e)
    ensures |TextE(e)| > 0 && (TextE(e)[0].WORD? || TextE(e)[0].LPAREN?)
  {
    if e.Then? {
      TextStarts(e.left);
    }
  }

  lemma MembersStart(ms: Members)
    requires PlainM(ms)
    ensures |TextM(ms)| > 0 && (TextM(ms)[0].WORD? || TextM(ms)[0].LPAREN?)
  {
    TextStarts(ms.e);
  }

  /** Read as what it means, if it is within the limits, and else refused for one of them. */
  predicate Meets(got: Outcome, fits: bool, t: Tree, at: nat, cmds: seq<Command>) {
    if fits then got == Got(t, at, cmds) && |cmds| <= MAX_LEAVES
    else got.Bad? && (got.code == COMPLEX || got.code == ARGV || got.code == LEAVES)
  }

  predicate RoomO(o: Operand, depth: nat, cmds: seq<Command>) {
    FitsO(o, depth) && |cmds| + |CmdsO(o)| <= MAX_LEAVES
  }

  predicate RoomM(ms: Members, depth: nat, cmds: seq<Command>) {
    FitsM(ms, depth) && |cmds| + |CmdsM(ms)| <= MAX_LEAVES
  }

  predicate RoomE(e: Expr, depth: nat, cmds: seq<Command>) {
    FitsE(e, depth) && |cmds| + |CmdsE(e)| <= MAX_LEAVES
  }

  lemma WordsRead(toks: seq<Token>, p: nat, ws: seq<nat>, depth: nat, cmds: seq<Command>)
    requires Stands(toks, p, TextO(Words(ws))) && 0 < |ws| && |cmds| <= MAX_LEAVES
    ensures toks[p].WORD?
    ensures Meets(ReadLeaf(toks, p, cmds), RoomO(Words(ws), depth, cmds), Cmd(|cmds|), p + |ws|, cmds + [ws])
  {
    var text := TextO(Words(ws));
    forall i | 0 <= i < |ws|
      ensures toks[p + i] == WORD(ws[i])
    {
      StandsAt(toks, p, text, i);
    }
    forall i | p <= i < p + |ws|
      ensures toks[i].WORD?
    {
      assert toks[p + (i - p)] == WORD(ws[i - p]);
    }
    RunIs(toks, p, p + |ws|);
    assert Offsets(toks, p, p + |ws|) == ws;
  }

  lemma {:induction false} OperandRead(toks: seq<Token>, p: nat, o: Operand, depth: nat, cmds: seq<Command>)
    requires Stands(toks, p, TextO(o)) && PlainO(o) && |cmds| <= MAX_LEAVES
    ensures Meets(ReadOperand(toks, p, depth, cmds), RoomO(o, depth, cmds), TreeO(o, |cmds|), p + |TextO(o)|, cmds + CmdsO(o))
    decreases o, 0
  {
    match o
    case Words(ws) => WordsRead(toks, p, ws, depth, cmds);
    case Paren(ms, trailing) =>
      hide ReadMembers, FitsM, PlainM, Closed, TreesM, CmdsM, TextM;
      MembersStart(ms);
      ParenParts(toks, p, ms, trailing);
      MembersRead(toks, p + 1, ms, trailing, depth, cmds, []);
      assert [] + TreesM(ms, |cmds|) == TreesM(ms, |cmds|);
  }

  function Closing(trailing: bool): seq<Token> {
    (if trailing then [SEMI] else []) + [RPAREN]
  }

  lemma ParenParts(toks: seq<Token>, p: nat, ms: Members, trailing: bool)
    requires Stands(toks, p, TextO(Paren(ms, trailing)))
    requires |TextM(ms)| > 0 && (TextM(ms)[0].WORD? || TextM(ms)[0].LPAREN?)
    ensures p + 1 < |toks| && toks[p].LPAREN? && !toks[p + 1].RPAREN?
    ensures Stands(toks, p + 1, TextM(ms) + Closing(trailing))
    ensures |TextO(Paren(ms, trailing))| == 1 + |TextM(ms)| + |Closing(trailing)|
  {
    hide TextM;
    var inner := TextM(ms) + Closing(trailing);
    assert TextO(Paren(ms, trailing)) == [LPAREN] + inner;
    StandsParts(toks, p, [LPAREN], inner);
    StandsAt(toks, p, [LPAREN] + inner, 0);
    StandsAt(toks, p, [LPAREN] + inner, 1);
  }

  /** One member read, and how the group goes on. */
  lemma MembersStep(toks: seq<Token>, p: nat, depth: nat, cmds: seq<Command>, done: seq<Tree>)
    requires Ended(toks) && p < |toks| && ReadExpr(toks, p, depth + 1, cmds).Got?
    ensures var x := ReadExpr(toks, p, depth + 1, cmds);
      && (toks[x.at].RPAREN? ==> ReadMembers(toks, p, depth, cmds, done) == Got(Closed(done + [x.t]), x.at + 1, x.cmds))
      && (toks[x.at].SEMI? && toks[x.at + 1].RPAREN? ==>
            ReadMembers(toks, p, depth, cmds, done) == Got(Closed(done + [x.t]), x.at + 2, x.cmds))
      && (toks[x.at].SEMI? && !toks[x.at + 1].RPAREN? ==>
            ReadMembers(toks, p, depth, cmds, done) == ReadMembers(toks, x.at + 1, depth, x.cmds, done + [x.t]))
      && (!toks[x.at].SEMI? && !toks[x.at].RPAREN? ==> ReadMembers(toks, p, depth, cmds, done) == Bad(SYNTAX))
  {
    hide ReadExpr, Closed;
  }

  lemma MembersStop(toks: seq<Token>, p: nat, depth: nat, cmds: seq<Command>, done: seq<Tree>)
    requires Ended(toks) && p < |toks| && ReadExpr(toks, p, depth + 1, cmds).Bad?
    ensures ReadMembers(toks, p, depth, cmds, done) == ReadExpr(toks, p, depth + 1, cmds)
  {
    hide ReadExpr, Closed;
  }

  lemma ClosingAt(toks: seq<Token>, p: nat, text: seq<Token>, trailing: bool)
    requires Stands(toks, p, text + Closing(trailing))
    ensures Stands(toks, p, text) && p + |text| + 1 < |toks| && |Closing(trailing)| == if trailing then 2 else 1
    ensures if trailing then toks[p + |text|].SEMI? && toks[p + |text| + 1].RPAREN? else toks[p + |text|].RPAREN?
  {
    StandsParts(toks, p, text, Closing(trailing));
    StandsAt(toks, p + |text|, Closing(trailing), 0);
    if trailing {
      StandsAt(toks, p + |text|, Closing(trailing), 1);
    }
  }

  lemma SemiAt(toks: seq<Token>, p: nat, text: seq<Token>, after: seq<Token>)
    requires Stands(toks, p, text + [SEMI] + after) && |after| > 0
    ensures Stands(toks, p, text) && p + |text| + 1 < |toks|
    ensures Stands(toks, p + |text| + 1, after)
    ensures toks[p + |text|].SEMI? && toks[p + |text| + 1] == after[0]
  {
    assert text + [SEMI] + after == text + ([SEMI] + after);
    StandsParts(toks, p, text, [SEMI] + after);
    StandsParts(toks, p + |text|, [SEMI], after);
  }

  lemma {:induction false} MembersRead(toks: seq<Token>, p: nat, ms: Members, trailing: bool, depth: nat,
                                       cmds: seq<Command>, done: seq<Tree>)
    requires Stands(toks, p, TextM(ms) + Closing(trailing)) && PlainM(ms) && |cmds| <= MAX_LEAVES
    ensures Meets(ReadMembers(toks, p, depth, cmds, done), RoomM(ms, depth + 1, cmds),
                  Closed(done + TreesM(ms, |cmds|)), p + |TextM(ms)| + |Closing(trailing)|, cmds + CmdsM(ms))
    decreases ms
  {
    hide ReadExpr, ReadMembers, TextE, FitsE, PlainE, CmdsE, TreeE, Closed, Stands, Closing;
    var e := ms.e;
    match ms
    case Last(_) =>
      ClosingAt(toks, p, TextE(e), trailing);
      ExprRead(toks, p, e, depth + 1, cmds);
      if RoomE(e, depth + 1, cmds) {
        MembersStep(toks, p, depth, cmds, done);
      } else {
        MembersStop(toks, p, depth, cmds, done);
      }
    case More(_, rest) =>
      var after := TextM(rest) + Closing(trailing);
      assert TextM(ms) + Closing(trailing) == TextE(e) + [SEMI] + after;
      MembersStart(rest);
      SemiAt(toks, p, TextE(e), after);
      ExprRead(toks, p, e, depth + 1, cmds);
      if RoomE(e, depth + 1, cmds) {
        MembersStep(toks, p, depth, cmds, done);
        MembersRead(toks, p + |TextE(e)| + 1, rest, trailing, depth, cmds + CmdsE(e), done + [TreeE(e, |cmds|)]);
        MoreJoins(done, TreeE(e, |cmds|), TreesM(rest, |cmds| + |CmdsE(e)|));
        assert cmds + CmdsE(e) + CmdsM(rest) == cmds + CmdsM(ms);
      } else {
        MembersStop(toks, p, depth, cmds, done);
      }
  }

  lemma MoreJoins(done: seq<Tree>, t: Tree, ts: seq<Tree>)
    ensures done + [t] + ts == done + ([t] + ts)
  {
  }

  /** One pipe read, and how the expression goes on. */
  lemma PipesStep(toks: seq<Token>, p: nat, depth: nat, fold: nat, t: Tree, cmds: seq<Command>)
    requires Ended(toks) && p < |toks| && toks[p].GT?
    ensures ReadPipes(toks, p, depth, fold, t, cmds) ==
      if depth + fold + 1 > MAX_DEPTH then Bad(COMPLEX)
      else if !toks[p + 1].WORD? && !toks[p + 1].LPAREN? then Bad(SYNTAX)
      else
        var y := ReadOperand(toks, p + 1, depth + fold + 1, cmds);
        if y.Bad? then y else ReadPipes(toks, y.at, depth, fold + 1, Pipe(t, y.t), y.cmds)
  {
    hide ReadOperand;
  }

  lemma PipesEnd(toks: seq<Token>, p: nat, depth: nat, fold: nat, t: Tree, cmds: seq<Command>)
    requires Ended(toks) && p < |toks| && !toks[p].GT?
    ensures ReadPipes(toks, p, depth, fold, t, cmds) == Got(t, p, cmds)
  {
  }

  /** Reading an expression gets to the end of its text, and goes on from there with what follows. */
  lemma {:induction false} PipesOn(toks: seq<Token>, p: nat, e: Expr, depth: nat, cmds: seq<Command>)
    requires Stands(toks, p, TextE(e)) && PlainE(e) && |cmds| <= MAX_LEAVES
    ensures if RoomE(e, depth, cmds) then
        ReadExpr(toks, p, depth, cmds) ==
          ReadPipes(toks, p + |TextE(e)|, depth, Folds(e), TreeE(e, |cmds|), cmds + CmdsE(e))
      else Meets(ReadExpr(toks, p, depth, cmds), false, Cmd(0), 0, [])
    decreases e, 0
  {
    hide ReadOperand, ReadPipes, TextO, FitsO, PlainO, CmdsO, TreeO;
    match e
    case Single(o) =>
      OperandRead(toks, p, o, depth, cmds);
    case Then(l, o) =>
      hide ReadExpr;
      var after := [GT] + TextO(o);
      assert TextE(e) == TextE(l) + after;
      StandsParts(toks, p, TextE(l), after);
      hide Stands;
      PipesOn(toks, p, l, depth, cmds);
      if RoomE(l, depth, cmds) {
        var at, mid := p + |TextE(l)|, cmds + CmdsE(l);
        assert mid + CmdsO(o) == cmds + CmdsE(e);
        OperandAfter(toks, at, o, depth + Folds(e), mid);
        PipesStep(toks, at, depth, Folds(l), TreeE(l, |cmds|), mid);
      }
  }

  lemma {:induction false} OperandAfter(toks: seq<Token>, at: nat, o: Operand, depth: nat, cmds: seq<Command>)
    requires Stands(toks, at, [GT] + TextO(o)) && PlainO(o) && |cmds| <= MAX_LEAVES
    ensures at + 1 < |toks| && toks[at].GT? && (toks[at + 1].WORD? || toks[at + 1].LPAREN?)
    ensures Meets(ReadOperand(toks, at + 1, depth, cmds), RoomO(o, depth, cmds), TreeO(o, |cmds|), at + 1 + |TextO(o)|,
                  cmds + CmdsO(o))
    decreases o, 1
  {
    hide ReadOperand, FitsO, CmdsO, TreeO, PlainO;
    StandsAt(toks, at, [GT] + TextO(o), 0);
    OperandStarts(o);
    StandsParts(toks, at, [GT], TextO(o));
    OperandRead(toks, at + 1, o, depth, cmds);
  }

  lemma OperandStarts(o: Operand)
    requires PlainO(o)
    ensures TextO(o) != [] && (TextO(o)[0].WORD? || TextO(o)[0].LPAREN?)
  {
  }

  /** Every expression is read as what it means, whatever redundant brackets it has, or refused for one of the limits. */
  lemma {:induction false} ExprRead(toks: seq<Token>, p: nat, e: Expr, depth: nat, cmds: seq<Command>)
    requires Stands(toks, p, TextE(e)) && !toks[p + |TextE(e)|].GT? && PlainE(e) && |cmds| <= MAX_LEAVES
    ensures Meets(ReadExpr(toks, p, depth, cmds), RoomE(e, depth, cmds), TreeE(e, |cmds|), p + |TextE(e)|, cmds + CmdsE(e))
    decreases e, 1
  {
    hide ReadExpr, ReadPipes, TextE, FitsE, PlainE, CmdsE, TreeE;
    PipesOn(toks, p, e, depth, cmds);
    if RoomE(e, depth, cmds) {
      PipesEnd(toks, p + |TextE(e)|, depth, Folds(e), TreeE(e, |cmds|), cmds + CmdsE(e));
    }
  }

  /** What is within the limits has a word in every command. */
  lemma {:induction false} FitsPlain(e: Expr, depth: nat)
    requires FitsE(e, depth)
    ensures PlainE(e)
    decreases e, 1
  {
    match e
    case Single(o) => FitsPlainO(o, depth);
    case Then(l, o) =>
      FitsPlain(l, depth);
      FitsPlainO(o, depth + Folds(e));
  }

  lemma {:induction false} FitsPlainO(o: Operand, depth: nat)
    requires FitsO(o, depth)
    ensures PlainO(o)
    decreases o, 0
  {
    if o.Paren? {
      FitsPlainM(o.members, depth + 1);
    }
  }

  lemma {:induction false} FitsPlainM(ms: Members, depth: nat)
    requires FitsM(ms, depth)
    ensures PlainM(ms)
    decreases ms, 2
  {
    FitsPlain(ms.e, depth);
    if ms.More? {
      FitsPlainM(ms.rest, depth);
    }
  }

  // ---------- what is read is written ----------

  ghost predicate Spells(toks: seq<Token>, p: nat, n: nat, text: seq<Token>) {
    p <= n <= |toks| && toks[p..n] == text
  }

  lemma SpellsOn(toks: seq<Token>, p: nat, m: nat, n: nat, a: seq<Token>, b: seq<Token>)
    requires Spells(toks, p, m, a) && Spells(toks, m, n, b)
    ensures Spells(toks, p, n, a + b)
  {
    assert toks[p..n] == toks[p..m] + toks[m..n];
  }

  lemma SpellsOne(toks: seq<Token>, p: nat)
    requires p < |toks|
    ensures Spells(toks, p, p + 1, [toks[p]])
  {
  }

  /** An operand, a list of members, an expression is what was read from `p`, the commands before it being `cmds`. */
  ghost predicate IsO(toks: seq<Token>, p: nat, o: Operand, depth: nat, cmds: seq<Command>, got: Outcome) {
    && got.Got? && Spells(toks, p, got.at, TextO(o)) && FitsO(o, depth)
    && got.t == TreeO(o, |cmds|) && got.cmds == cmds + CmdsO(o) && |got.cmds| <= MAX_LEAVES
  }

  ghost predicate IsM(toks: seq<Token>, p: nat, ms: Members, trailing: bool, depth: nat, cmds: seq<Command>,
                      done: seq<Tree>, got: Outcome) {
    && got.Got? && Spells(toks, p, got.at, TextM(ms) + Closing(trailing)) && FitsM(ms, depth + 1)
    && got.t == Closed(done + TreesM(ms, |cmds|)) && got.cmds == cmds + CmdsM(ms) && |got.cmds| <= MAX_LEAVES
  }

  ghost predicate IsE(toks: seq<Token>, p: nat, e: Expr, depth: nat, cmds: seq<Command>, got: Outcome) {
    && got.Got? && Spells(toks, p, got.at, TextE(e)) && FitsE(e, depth)
    && got.t == TreeE(e, |cmds|) && got.cmds == cmds + CmdsE(e) && |got.cmds| <= MAX_LEAVES
  }

  lemma LeafWritten(toks: seq<Token>, p: nat, depth: nat, cmds: seq<Command>) returns (o: Operand)
    requires Ended(toks) && p < |toks| && toks[p].WORD? && ReadLeaf(toks, p, cmds).Got?
    ensures IsO(toks, p, o, depth, cmds, ReadLeaf(toks, p, cmds))
  {
    var q := RunEnd(toks, p);
    o := Words(Offsets(toks, p, q));
    assert toks[p..q] == TextO(o);
  }

  lemma {:induction false} OperandWritten(toks: seq<Token>, p: nat, depth: nat, cmds: seq<Command>) returns (o: Operand)
    requires Ended(toks) && p < |toks| && |cmds| <= MAX_LEAVES && ReadOperand(toks, p, depth, cmds).Got?
    ensures IsO(toks, p, o, depth, cmds, ReadOperand(toks, p, depth, cmds))
    decreases |toks| - p, 2
  {
    hide IsO, IsM, ReadLeaf, ReadMembers;
    if toks[p].LPAREN? {
      var ms, trailing := MembersWritten(toks, p + 1, depth, cmds, []);
      o := Paren(ms, trailing);
      ParenWritten(toks, p, ms, trailing, depth, cmds, ReadMembers(toks, p + 1, depth, cmds, []));
    } else {
      o := LeafWritten(toks, p, depth, cmds);
    }
  }

  lemma ParenWritten(toks: seq<Token>, p: nat, ms: Members, trailing: bool, depth: nat, cmds: seq<Command>, got: Outcome)
    requires p < |toks| && toks[p].LPAREN? && depth < MAX_DEPTH && IsM(toks, p + 1, ms, trailing, depth, cmds, [], got)
    ensures IsO(toks, p, Paren(ms, trailing), depth, cmds, got)
  {
    hide TextM, FitsM, TreesM, CmdsM, Closed;
    SpellsOne(toks, p);
    SpellsOn(toks, p, p + 1, got.at, [LPAREN], TextM(ms) + Closing(trailing));
    assert TextO(Paren(ms, trailing)) == [LPAREN] + (TextM(ms) + Closing(trailing));
    assert [] + TreesM(ms, |cmds|) == TreesM(ms, |cmds|);
  }

  lemma {:induction false} MembersWritten(toks: seq<Token>, p: nat, depth: nat, cmds: seq<Command>, done: seq<Tree>)
    returns (ms: Members, trailing: bool)
    requires Ended(toks) && p < |toks| && |cmds| <= MAX_LEAVES && ReadMembers(toks, p, depth, cmds, done).Got?
    ensures IsM(toks, p, ms, trailing, depth, cmds, done, ReadMembers(toks, p, depth, cmds, done))
    decreases |toks| - p, 4
  {
    hide IsM, IsE, ReadExpr, ReadMembers, Closed;
    MembersBegin(toks, p, depth, cmds, done);
    var e := ExprWritten(toks, p, depth + 1, cmds);
    var x := ReadExpr(toks, p, depth + 1, cmds);
    MembersStep(toks, p, depth, cmds, done);
    MeansFits(toks, p, e, depth + 1, cmds, x);
    if toks[x.at].SEMI? && !toks[x.at + 1].RPAREN? {
      var rest;
      rest, trailing := MembersWritten(toks, x.at + 1, depth, x.cmds, done + [x.t]);
      ms := More(e, rest);
      MoreWritten(toks, p, e, rest, trailing, depth, cmds, done, x, ReadMembers(toks, x.at + 1, depth, x.cmds, done + [x.t]));
    } else {
      ms, trailing := Last(e), toks[x.at].SEMI?;
      LastWritten(toks, p, e, trailing, depth, cmds, done, x, ReadMembers(toks, p, depth, cmds, done));
    }
  }

  lemma MembersBegin(toks: seq<Token>, p: nat, depth: nat, cmds: seq<Command>, done: seq<Tree>)
    requires Ended(toks) && p < |toks| && ReadMembers(toks, p, depth, cmds, done).Got?
    ensures ReadExpr(toks, p, depth + 1, cmds).Got?
  {
    hide ReadExpr, Closed;
  }

  lemma MeansFits(toks: seq<Token>, p: nat, e: Expr, depth: nat, cmds: seq<Command>, x: Outcome)
    requires IsE(toks, p, e, depth, cmds, x)
    ensures x.Got? && |x.cmds| <= MAX_LEAVES
  {
  }

  lemma LastWritten(toks: seq<Token>, p: nat, e: Expr, trailing: bool, depth: nat, cmds: seq<Command>, done: seq<Tree>,
                    x: Outcome, got: Outcome)
    requires IsE(toks, p, e, depth + 1, cmds, x) && x.at < |toks| && (trailing ==> x.at + 1 < |toks|)
    requires if trailing then toks[x.at].SEMI? && toks[x.at + 1].RPAREN? else toks[x.at].RPAREN?
    requires got == Got(Closed(done + [x.t]), x.at + |Closing(trailing)|, x.cmds)
    ensures IsM(toks, p, Last(e), trailing, depth, cmds, done, got)
  {
    hide TextE, FitsE, TreeE, CmdsE, Closed;
    assert toks[x.at..got.at] == Closing(trailing);
    SpellsOn(toks, p, x.at, got.at, TextE(e), Closing(trailing));
  }

  lemma MoreWritten(toks: seq<Token>, p: nat, e: Expr, rest: Members, trailing: bool, depth: nat, cmds: seq<Command>,
                    done: seq<Tree>, x: Outcome, got: Outcome)
    requires IsE(toks, p, e, depth + 1, cmds, x) && x.at + 1 < |toks| && toks[x.at].SEMI?
    requires IsM(toks, x.at + 1, rest, trailing, depth, x.cmds, done + [x.t], got)
    ensures IsM(toks, p, More(e, rest), trailing, depth, cmds, done, got)
  {
    hide TextE, FitsE, TreeE, CmdsE, Closed, Closing;
    SpellsOne(toks, x.at);
    SpellsOn(toks, p, x.at, x.at + 1, TextE(e), [SEMI]);
    SpellsOn(toks, p, x.at + 1, got.at, TextE(e) + [SEMI], TextM(rest) + Closing(trailing));
    assert TextE(e) + [SEMI] + (TextM(rest) + Closing(trailing)) == TextM(More(e, rest)) + Closing(trailing);
    MoreJoins(done, x.t, TreesM(rest, |x.cmds|));
  }

  lemma {:induction false} ExprWritten(toks: seq<Token>, p: nat, depth: nat, cmds: seq<Command>) returns (e: Expr)
    requires Ended(toks) && p < |toks| && |cmds| <= MAX_LEAVES && ReadExpr(toks, p, depth, cmds).Got?
    ensures IsE(toks, p, e, depth, cmds, ReadExpr(toks, p, depth, cmds))
    decreases |toks| - p, 3
  {
    hide IsE, ReadOperand, ReadPipes;
    var o := OperandWritten(toks, p, depth, cmds);
    var x := ReadOperand(toks, p, depth, cmds);
    SingleWritten(toks, p, o, depth, cmds, x);
    e := PipesWritten(toks, p, Single(o), x, depth, cmds);
  }

  lemma SingleWritten(toks: seq<Token>, p: nat, o: Operand, depth: nat, cmds: seq<Command>, x: Outcome)
    requires IsO(toks, p, o, depth, cmds, x)
    ensures IsE(toks, p, Single(o), depth, cmds, x)
  {
  }

  lemma {:induction false} PipesWritten(toks: seq<Token>, p: nat, e0: Expr, x: Outcome, depth: nat, cmds: seq<Command>)
    returns (e: Expr)
    requires Ended(toks) && p < |toks| && IsE(toks, p, e0, depth, cmds, x) && p < x.at < |toks|
    requires ReadPipes(toks, x.at, depth, Folds(e0), x.t, x.cmds).Got?
    ensures IsE(toks, p, e, depth, cmds, ReadPipes(toks, x.at, depth, Folds(e0), x.t, x.cmds))
    decreases |toks| - x.at, 5
  {
    hide IsE, IsO, ReadOperand, ReadPipes;
    MeansFits(toks, p, e0, depth, cmds, x);
    if !toks[x.at].GT? {
      PipesEnd(toks, x.at, depth, Folds(e0), x.t, x.cmds);
      e := e0;
      assert x == Got(x.t, x.at, x.cmds);
    } else {
      var d := depth + Folds(e0) + 1;
      PipesBegin(toks, x.at, depth, Folds(e0), x.t, x.cmds);
      PipesStep(toks, x.at, depth, Folds(e0), x.t, x.cmds);
      var o := OperandWritten(toks, x.at + 1, d, x.cmds);
      var y := ReadOperand(toks, x.at + 1, d, x.cmds);
      ThenWritten(toks, p, e0, o, depth, cmds, x, y);
      e := PipesWritten(toks, p, Then(e0, o), Got(Pipe(x.t, y.t), y.at, y.cmds), depth, cmds);
    }
  }

  lemma PipesBegin(toks: seq<Token>, p: nat, depth: nat, fold: nat, t: Tree, cmds: seq<Command>)
    requires Ended(toks) && p < |toks| && toks[p].GT? && ReadPipes(toks, p, depth, fold, t, cmds).Got?
    ensures depth + fold + 1 <= MAX_DEPTH && (toks[p + 1].WORD? || toks[p + 1].LPAREN?)
    ensures ReadOperand(toks, p + 1, depth + fold + 1, cmds).Got?
  {
    hide ReadOperand;
  }

  lemma ThenWritten(toks: seq<Token>, p: nat, l: Expr, o: Operand, depth: nat, cmds: seq<Command>, x: Outcome, y: Outcome)
    requires IsE(toks, p, l, depth, cmds, x) && x.at < |toks| && toks[x.at].GT?
    requires depth + Folds(l) + 1 <= MAX_DEPTH && IsO(toks, x.at + 1, o, depth + Folds(l) + 1, x.cmds, y)
    ensures IsE(toks, p, Then(l, o), depth, cmds, Got(Pipe(x.t, y.t), y.at, y.cmds))
  {
    hide TextO, FitsO, TreeO, CmdsO;
    SpellsOne(toks, x.at);
    SpellsOn(toks, p, x.at, x.at + 1, TextE(l), [GT]);
    SpellsOn(toks, p, x.at + 1, y.at, TextE(l) + [GT], TextO(o));
  }

  /** The stretch from `p` to `n` is the text of an expression within the limits, `k` commands coming before it. */
  ghost predicate Writes(toks: seq<Token>, p: nat, n: nat, e: Expr, depth: nat, k: nat) {
    Spells(toks, p, n, TextE(e)) && FitsE(e, depth) && k + |CmdsE(e)| <= MAX_LEAVES
  }

  /**
    A stretch of tokens that no word and no pipe sign follows is read to its end just when it is the text of an
    expression within the limits; and what is read is then what that expression means.
   */
  lemma ReadsExactly(toks: seq<Token>, p: nat, n: nat, depth: nat, cmds: seq<Command>)
    requires Ended(toks) && p < n < |toks| && !toks[n].WORD? && !toks[n].GT? && |cmds| <= MAX_LEAVES
    ensures var got := ReadExpr(toks, p, depth, cmds);
      && (got.Got? && got.at == n <==> exists e :: Writes(toks, p, n, e, depth, |cmds|))
      && forall e :: Writes(toks, p, n, e, depth, |cmds|) ==> got == Got(TreeE(e, |cmds|), n, cmds + CmdsE(e))
  {
    hide ReadExpr, TextE, FitsE, TreeE, CmdsE;
    var got := ReadExpr(toks, p, depth, cmds);
    if got.Got? && got.at == n {
      var e := ExprWritten(toks, p, depth, cmds);
      assert Writes(toks, p, n, e, depth, |cmds|);
    }
    forall e | Writes(toks, p, n, e, depth, |cmds|)
      ensures got == Got(TreeE(e, |cmds|), n, cmds + CmdsE(e))
    {
      assert p + |TextE(e)| == n;
      FitsPlain(e, depth);
      ExprRead(toks, p, e, depth, cmds);
    }
  }

  // ---------- why a stretch is refused ----------

  /** How many runs of words end at `p` or behind it. */
  function Runs(toks: seq<Token>, p: nat): nat
    decreases |toks| - p
  {
    if p >= |toks| then 0
    else (if toks[p].WORD? && (p + 1 < |toks| ==> !toks[p + 1].WORD?) then 1 else 0) + Runs(toks, p + 1)
  }

  /** How many brackets are opened, and pipes written, from `p` on. */
  function Signs(toks: seq<Token>, p: nat): nat
    decreases |toks| - p
  {
    if p >= |toks| then 0 else (if toks[p].LPAREN? || toks[p].GT? then 1 else 0) + Signs(toks, p + 1)
  }

  /** What in the tokens from `p` on answers for the code, at this depth and with `k` commands before. */
  ghost predicate Reason(toks: seq<Token>, p: nat, depth: nat, k: nat, code: Status) {
    match code
    case ARGV => exists i :: p <= i && i + 32 < |toks| && LongRun(toks, i)
    case LEAVES => k + Runs(toks, p) > 16
    case COMPLEX => depth + Signs(toks, p) > 16
    case EMPTY_GROUP => exists i :: p <= i && i + 1 < |toks| && toks[i].LPAREN? && toks[i + 1].RPAREN?
    case SYNTAX => true
    case _ => false
  }

  /** More words from `i` on than a command may have. */
  ghost predicate LongRun(toks: seq<Token>, i: nat)
    requires i + 32 < |toks|
  {
    forall j :: i <= j <= i + 32 ==> toks[j].WORD?
  }

  lemma {:induction false} LaterFewer(toks: seq<Token>, p: nat, q: nat)
    requires p <= q
    ensures Runs(toks, q) <= Runs(toks, p) && Signs(toks, q) <= Signs(toks, p)
    decreases q - p
  {
    if p < q {
      LaterFewer(toks, p + 1, q);
    }
  }

  /** A reason found further on is one from here. */
  lemma ReasonEarlier(toks: seq<Token>, p: nat, depth: nat, k: nat, q: nat, depth': nat, k': nat, code: Status)
    requires Reason(toks, q, depth', k', code) && p <= q
    requires depth' + Signs(toks, q) <= depth + Signs(toks, p) && k' + Runs(toks, q) <= k + Runs(toks, p)
    ensures Reason(toks, p, depth, k, code)
  {
    hide Runs, Signs;
  }

  lemma {:induction false} RunCounts(toks: seq<Token>, p: nat)
    requires Ended(toks) && p < |toks| && toks[p].WORD?
    ensures Runs(toks, p) == 1 + Runs(toks, RunEnd(toks, p))
    decreases |toks| - p
  {
    if toks[p + 1].WORD? {
      RunCounts(toks, p + 1);
    }
  }

  /** The outcome of a reading from `p`: refused for a reason, or gone on to where fewer signs and commands are left. */
  ghost predicate Told(toks: seq<Token>, p: nat, depth: nat, k: nat, o: Outcome) {
    match o
    case Bad(code) => Reason(toks, p, depth, k, code)
    case Got(_, at, cmds) => p <= at && |cmds| + Runs(toks, at) <= k + Runs(toks, p)
  }

  lemma LeafTold(toks: seq<Token>, p: nat, depth: nat, cmds: seq<Command>)
    requires Ended(toks) && p < |toks| && toks[p].WORD?
    ensures Told(toks, p, depth, |cmds|, ReadLeaf(toks, p, cmds))
  {
    hide Runs;
    RunCounts(toks, p);
    if RunEnd(toks, p) - p > MAX_ARGV {
      assert LongRun(toks, p);
    }
  }

  lemma {:induction false} OperandTold(toks: seq<Token>, p: nat, depth: nat, cmds: seq<Command>)
    requires Ended(toks) && p < |toks|
    ensures Told(toks, p, depth, |cmds|, ReadOperand(toks, p, depth, cmds))
    decreases |toks| - p, 2
  {
    hide ReadMembers, ReadLeaf;
    if toks[p].LPAREN? {
      if depth < MAX_DEPTH && !toks[p + 1].RPAREN? {
        MembersTold(toks, p + 1, depth, cmds, []);
        FurtherTold(toks, p, depth, |cmds|, p + 1, depth + 1, |cmds|, ReadMembers(toks, p + 1, depth, cmds, []));
      }
    } else if toks[p].WORD? {
      LeafTold(toks, p, depth, cmds);
    }
  }

  /** What is told of a reading from further on is told from here. */
  lemma FurtherTold(toks: seq<Token>, p: nat, depth: nat, k: nat, q: nat, depth': nat, k': nat, o: Outcome)
    requires Told(toks, q, depth', k', o) && p <= q
    requires depth' + Signs(toks, q) <= depth + Signs(toks, p) && k' + Runs(toks, q) <= k + Runs(toks, p)
    ensures Told(toks, p, depth, k, o)
  {
    hide Runs, Signs;
    if o.Bad? {
      ReasonEarlier(toks, p, depth, k, q, depth', k', o.code);
    }
  }

  lemma {:induction false} MembersTold(toks: seq<Token>, p: nat, depth: nat, cmds: seq<Command>, done: seq<Tree>)
    requires Ended(toks) && p < |toks|
    ensures Told(toks, p, depth + 1, |cmds|, ReadMembers(toks, p, depth, cmds, done))
    decreases |toks| - p, 4
  {
    hide ReadExpr, ReadMembers, Closed, Runs, Signs, Reason;
    var x := ReadExpr(toks, p, depth + 1, cmds);
    ExprTold(toks, p, depth + 1, cmds);
    if x.Bad? {
      MembersStop(toks, p, depth, cmds, done);
    } else {
      MembersStep(toks, p, depth, cmds, done);
      LaterFewer(toks, p, x.at);
      LaterFewer(toks, x.at, x.at + 1);
      LaterFewer(toks, x.at, x.at + 2);
      if toks[x.at].SEMI? && !toks[x.at + 1].RPAREN? {
        MembersTold(toks, x.at + 1, depth, x.cmds, done + [x.t]);
        FurtherTold(toks, p, depth + 1, |cmds|, x.at + 1, depth + 1, |x.cmds|,
                    ReadMembers(toks, x.at + 1, depth, x.cmds, done + [x.t]));
      } else {
        SyntaxTold(toks, p, depth + 1, |cmds|);
      }
    }
  }

  lemma SyntaxTold(toks: seq<Token>, p: nat, depth: nat, k: nat)
    ensures Told(toks, p, depth, k, Bad(SYNTAX))
  {
  }

  lemma {:induction false} ExprTold(toks: seq<Token>, p: nat, depth: nat, cmds: seq<Command>)
    requires Ended(toks) && p < |toks|
    ensures Told(toks, p, depth, |cmds|, ReadExpr(toks, p, depth, cmds))
    decreases |toks| - p, 3
  {
    hide ReadOperand, ReadPipes, Runs, Signs, Reason;
    OperandTold(toks, p, depth, cmds);
    var x := ReadOperand(toks, p, depth, cmds);
    if x.Got? {
      LaterFewer(toks, p, x.at);
      PipesTold(toks, x.at, depth, 0, x.t, x.cmds);
      FurtherTold(toks, p, depth, |cmds|, x.at, depth, |x.cmds|, ReadPipes(toks, x.at, depth, 0, x.t, x.cmds));
    }
  }

  lemma {:induction false} PipesTold(toks: seq<Token>, p: nat, depth: nat, fold: nat, t: Tree, cmds: seq<Command>)
    requires Ended(toks) && p < |toks|
    ensures Told(toks, p, depth + fold, |cmds|, ReadPipes(toks, p, depth, fold, t, cmds))
    decreases |toks| - p, 3
  {
    hide ReadOperand, ReadPipes, Reason;
    if !toks[p].GT? {
      PipesEnd(toks, p, depth, fold, t, cmds);
    } else {
      SignHere(toks, p);
      PipesStep(toks, p, depth, fold, t, cmds);
      hide Runs, Signs;
      if depth + fold + 1 > MAX_DEPTH {
        TooDeep(toks, p, depth + fold, |cmds|);
      } else if !toks[p + 1].WORD? && !toks[p + 1].LPAREN? {
        SyntaxTold(toks, p, depth + fold, |cmds|);
      } else {
        var d := depth + fold + 1;
        var y := ReadOperand(toks, p + 1, d, cmds);
        OperandTold(toks, p + 1, d, cmds);
        if y.Bad? {
          FurtherTold(toks, p, depth + fold, |cmds|, p + 1, d, |cmds|, y);
        } else {
          LaterFewer(toks, p + 1, y.at);
          PipesTold(toks, y.at, depth, fold + 1, Pipe(t, y.t), y.cmds);
          FurtherTold(toks, p, depth + fold, |cmds|, y.at, d, |y.cmds|, ReadPipes(toks, y.at, depth, fold + 1, Pipe(t, y.t), y.cmds));
        }
      }
    }
  }

  lemma SignHere(toks: seq<Token>, p: nat)
    requires p < |toks| && toks[p].GT?
    ensures Signs(toks, p) == 1 + Signs(toks, p + 1) && Runs(toks, p) == Runs(toks, p + 1)
  {
  }

  lemma TooDeep(toks: seq<Token>, p: nat, depth: nat, k: nat)
    requires depth + Signs(toks, p) > 16
    ensures Told(toks, p, depth, k, Bad(COMPLEX))
  {
  }

  /** No stretch from `p` that ends before a token that cannot belong to it is the text of an expression. */
  ghost predicate NoText(toks: seq<Token>, p: nat) {
    forall e :: PlainE(e) && Stands(toks, p, TextE(e)) ==> toks[p + |TextE(e)|].GT?
  }

  /** A refusal says what is the matter: a limit, an empty bracket, or that no expression stands there at all. */
  lemma RefusedWhy(toks: seq<Token>, p: nat)
    requires Ended(toks) && p < |toks| && ReadExpr(toks, p, 0, []).Bad?
    ensures var code := ReadExpr(toks, p, 0, []).code;
      Reason(toks, p, 0, 0, code) && (code == SYNTAX || code == EMPTY_GROUP ==> NoText(toks, p))
  {
    hide ReadExpr, Reason, TextE, PlainE, FitsE, CmdsE, Stands;
    ExprTold(toks, p, 0, []);
    var got := ReadExpr(toks, p, 0, []);
    if got.code == SYNTAX || got.code == EMPTY_GROUP {
      forall e | PlainE(e) && Stands(toks, p, TextE(e))
        ensures p + |TextE(e)| < |toks| && toks[p + |TextE(e)|].GT?
      {
        StandsFits(toks, p, TextE(e));
        if !toks[p + |TextE(e)|].GT? {
          ExprRead(toks, p, e, 0, []);
        }
      }
    }
  }

  lemma StandsFits(toks: seq<Token>, p: nat, text: seq<Token>)
    requires Stands(toks, p, text)
    ensures p + |text| < |toks|
  {
  }

  // ---------- the trees that come out ----------

  /** Commands are numbered in the order of the text, and no group is empty. */
  lemma {:induction false} TreeOGood(o: Operand, lo: nat, depth: nat)
    requires FitsO(o, depth)
    ensures Numbered(TreeO(o, lo), lo) && Size(TreeO(o, lo)) == |CmdsO(o)| && Peopled(TreeO(o, lo))
    decreases o, 0
  {
    match o
    case Words(_) =>
    case Paren(ms, _) =>
      hide Numbered, NumberedOf, Size, SizeOf, TreesM;
      NoTrees(lo);
      TreesGood(ms, lo, depth + 1, [], lo);
      assert [] + TreesM(ms, lo) == TreesM(ms, lo);
      ClosedGood(TreesM(ms, lo), lo);
  }

  lemma NoTrees(lo: nat)
    ensures NumberedOf([], 0, lo) && SizeOf([], 0) == 0
  {
  }

  lemma ClosedGood(ts: seq<Tree>, lo: nat)
    requires |ts| > 0 && NumberedOf(ts, |ts|, lo) && forall i :: 0 <= i < |ts| ==> Peopled(ts[i])
    ensures Numbered(Closed(ts), lo) && Size(Closed(ts)) == SizeOf(ts, |ts|) && Peopled(Closed(ts))
  {
    if |ts| == 1 {
      assert SizeOf(ts, 1) == SizeOf(ts, 0) + Size(ts[0]);
      assert Numbered(ts[0], lo + SizeOf(ts, 0));
    }
  }

  lemma {:induction false} PrefixSame(a: seq<Tree>, b: seq<Tree>, k: nat, lo: nat)
    requires k <= |a|
    ensures SizeOf(a + b, k) == SizeOf(a, k) && (NumberedOf(a + b, k, lo) <==> NumberedOf(a, k, lo))
  {
    if k > 0 {
      PrefixSame(a, b, k - 1, lo);
    }
  }

  /** One more tree, its commands numbered on from those of the trees before it. */
  lemma OneMoreTree(done: seq<Tree>, t: Tree, lo: nat)
    requires NumberedOf(done, |done|, lo) && Numbered(t, lo + SizeOf(done, |done|))
    ensures NumberedOf(done + [t], |done| + 1, lo)
    ensures SizeOf(done + [t], |done| + 1) == SizeOf(done, |done|) + Size(t)
  {
    hide Numbered, Size;
    PrefixSame(done, [t], |done|, lo);
    assert (done + [t])[|done|] == t;
  }

  lemma {:induction false} TreesGood(ms: Members, lo: nat, depth: nat, done: seq<Tree>, base: nat)
    requires FitsM(ms, depth) && NumberedOf(done, |done|, base) && lo == base + SizeOf(done, |done|)
    requires forall i :: 0 <= i < |done| ==> Peopled(done[i])
    ensures var ts := done + TreesM(ms, lo);
      && |TreesM(ms, lo)| > 0 && NumberedOf(ts, |ts|, base) && SizeOf(ts, |ts|) == SizeOf(done, |done|) + |CmdsM(ms)|
      && forall i :: 0 <= i < |ts| ==> Peopled(ts[i])
    decreases ms
  {
    hide Numbered, NumberedOf, Size, SizeOf, TreeE, CmdsE, FitsE, Peopled;
    var e := ms.e;
    var t := TreeE(e, lo);
    TreeEGood(e, lo, depth);
    OneMoreTree(done, t, base);
    match ms
    case Last(_) =>
    case More(_, rest) =>
      TreesGood(rest, lo + |CmdsE(e)|, depth, done + [t], base);
      MoreJoins(done, t, TreesM(rest, lo + |CmdsE(e)|));
  }

  lemma {:induction false} TreeEGood(e: Expr, lo: nat, depth: nat)
    requires FitsE(e, depth)
    ensures Numbered(TreeE(e, lo), lo) && Size(TreeE(e, lo)) == |CmdsE(e)| && Peopled(TreeE(e, lo))
    decreases e, 1
  {
    match e
    case Single(o) => TreeOGood(o, lo, depth);
    case Then(l, o) =>
      TreeEGood(l, lo, depth);
      TreeOGood(o, lo + |CmdsE(l)|, depth + Folds(e));
  }

  /** Whatever is read can be wired: its commands are numbered from 0, sixteen at most, each with 1 to 32 words. */
  lemma ReadIsWireable(toks: seq<Token>, p: nat)
    requires Ended(toks) && p < |toks| && ReadExpr(toks, p, 0, []).Got?
    ensures var got := ReadExpr(toks, p, 0, []);
      Numbered(got.t, 0) && Size(got.t) == |got.cmds| <= MAX_LEAVES && Peopled(got.t) && |got.cmds| > 0
    ensures forall c :: c in ReadExpr(toks, p, 0, []).cmds ==> 0 < |c| <= MAX_ARGV
  {
    hide ReadExpr, TreeE, FitsE;
    var e := ExprWritten(toks, p, 0, []);
    TreeEGood(e, 0, 0);
    CmdsEGood(e, 0);
  }

  lemma {:induction false} CmdsEGood(e: Expr, depth: nat)
    requires FitsE(e, depth)
    ensures CmdsE(e) != [] && forall c :: c in CmdsE(e) ==> 0 < |c| <= MAX_ARGV
    decreases e, 1
  {
    match e
    case Single(o) => CmdsOGood(o, depth);
    case Then(l, o) =>
      CmdsEGood(l, depth);
      CmdsOGood(o, depth + Folds(e));
  }

  lemma {:induction false} CmdsOGood(o: Operand, depth: nat)
    requires FitsO(o, depth)
    ensures CmdsO(o) != [] && forall c :: c in CmdsO(o) ==> 0 < |c| <= MAX_ARGV
    decreases o, 0
  {
    if o.Paren? {
      CmdsMGood(o.members, depth + 1);
    }
  }

  lemma {:induction false} CmdsMGood(ms: Members, depth: nat)
    requires FitsM(ms, depth)
    ensures CmdsM(ms) != [] && forall c :: c in CmdsM(ms) ==> 0 < |c| <= MAX_ARGV
    decreases ms, 0
  {
    CmdsEGood(ms.e, depth);
    if ms.More? {
      CmdsMGood(ms.rest, depth);
    }
  }

  /** The words of what is read are words of the text. */
  lemma ReadWords(toks: seq<Token>, p: nat)
    requires Ended(toks) && p < |toks| && ReadExpr(toks, p, 0, []).Got?
    ensures forall c, w :: c in ReadExpr(toks, p, 0, []).cmds && w in c ==> WORD(w) in toks
  {
    hide ReadExpr, TreeE, FitsE, TextE, CmdsE;
    var e := ExprWritten(toks, p, 0, []);
    WordsOfE(e);
    forall x | x in TextE(e)
      ensures x in toks
    {
      var i :| 0 <= i < |TextE(e)| && TextE(e)[i] == x;
      assert toks[p + i] == TextE(e)[i];
    }
  }

  lemma {:induction false} WordsOfE(e: Expr)
    ensures forall c, w :: c in CmdsE(e) && w in c ==> WORD(w) in TextE(e)
    decreases e, 1
  {
    match e
    case Single(o) => WordsOfO(o);
    case Then(l, o) =>
      WordsOfE(l);
      WordsOfO(o);
  }

  lemma {:induction false} WordsOfO(o: Operand)
    ensures forall c, w :: c in CmdsO(o) && w in c ==> WORD(w) in TextO(o)
    decreases o, 0
  {
    match o
    case Words(ws) =>
      forall i | 0 <= i < |ws|
        ensures WORD(ws[i]) in TextO(o)
      {
        assert TextO(o)[i] == WORD(ws[i]);
      }
    case Paren(ms, _) => WordsOfM(ms);
  }

  lemma {:induction false} WordsOfM(ms: Members)
    ensures forall c, w :: c in CmdsM(ms) && w in c ==> WORD(w) in TextM(ms)
    decreases ms, 0
  {
    WordsOfE(ms.e);
    if ms.More? {
      WordsOfM(ms.rest);
    }
  }
}
