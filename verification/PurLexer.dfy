/** A line cut into tokens, and its words made into strings of their own where they stand. */
module PurLexer {
  import opened PurGrammar

  predicate IsSpace(c: char) {
    c == ' ' || c == '\t' || c == '\n' || c == '\r'
  }

  predicate IsDelim(c: char) {
    IsSpace(c) || c == '(' || c == ')' || c == ';' || c == '>' || c == '&' || c == '|' || c == '"'
  }

  /** A token with the length of its text, and where the stretch it takes up begins and ends. */
  datatype Piece = Piece(token: Token, len: nat, from: nat, to: nat)

  predicate Spaces(text: string, p: nat, q: nat) {
    p <= q <= |text| && forall i :: p <= i < q ==> IsSpace(text[i])
  }

  /** A run of plain characters, as long as can be. */
  predicate Plain(text: string, x: Piece)
    requires x.token.WORD?
  {
    && x.token.off == x.from < x.to == x.from + x.len <= |text|
    && (forall i :: x.from <= i < x.to ==> !IsDelim(text[i]))
    && (x.to < |text| ==> IsDelim(text[x.to]))
  }

  /** What stands between two quotes. */
  predicate Quoted(text: string, x: Piece)
    requires x.token.WORD?
  {
    && x.token.off == x.from + 1 && x.to == x.from + x.len + 2 <= |text|
    && text[x.from] == '"' == text[x.to - 1]
    && forall i :: x.from < i < x.to - 1 ==> text[i] != '"'
  }

  /** A sign of one character that is not the first half of the sign of two, or that sign. */
  predicate Sign(text: string, x: Piece, c: char, double: bool, alone: bool) {
    && x.from < x.to <= |text| && text[x.from] == c
    && (if double then x.to == x.from + 2 && text[x.from + 1] == c
        else x.to == x.from + 1 && (alone || !(x.to < |text| && text[x.to] == c)))
  }

  /** The stretch from `from` to `to` is just this token. */
  predicate IsPiece(text: string, x: Piece) {
    match x.token
    case END => false
    case WORD(_) => Plain(text, x) || Quoted(text, x)
    case LPAREN => Sign(text, x, '(', false, true)
    case RPAREN => Sign(text, x, ')', false, true)
    case SEMI => Sign(text, x, ';', false, true)
    case GT => Sign(text, x, '>', false, true)
    case AND => Sign(text, x, '&', true, true)
    case BG => Sign(text, x, '&', false, false)
    case OR => Sign(text, x, '|', true, true)
    case PIPE => Sign(text, x, '|', false, false)
  }

  /** The length a token carries: that of its word, or of its sign. */
  predicate LenOk(x: Piece) {
    !x.token.WORD? ==> x.len == x.to - x.from
  }

  function EndOf(xs: seq<Piece>): nat {
    if xs == [] then 0 else xs[|xs| - 1].to
  }

  /** Pieces one after the other from the start of the text, nothing but white space between them. */
  predicate Pieces(text: string, xs: seq<Piece>) {
    forall i :: 0 <= i < |xs| ==> PieceAt(text, xs, i)
  }

  predicate PieceAt(text: string, xs: seq<Piece>, i: nat)
    requires i < |xs|
  {
    && IsPiece(text, xs[i]) && LenOk(xs[i]) && xs[i].from < xs[i].to <= |text|
    && Spaces(text, if i == 0 then 0 else xs[i - 1].to, xs[i].from)
  }

  /** The whole text cut up. */
  predicate Lexing(text: string, xs: seq<Piece>) {
    Pieces(text, xs) && EndOf(xs) <= |text| && Spaces(text, EndOf(xs), |text|)
  }

  /** After some pieces comes a quote that nothing closes. */
  predicate OpenQuote(text: string, xs: seq<Piece>, q: nat) {
    && Pieces(text, xs) && EndOf(xs) <= q < |text| && Spaces(text, EndOf(xs), q) && text[q] == '"'
    && forall i :: q < i < |text| ==> text[i] != '"'
  }

  // ---------- one way to cut ----------

  /** What stands at a place can be only one token. */
  lemma PieceOnce(text: string, x: Piece, y: Piece)
    requires IsPiece(text, x) && IsPiece(text, y) && LenOk(x) && LenOk(y) && x.from == y.from
    ensures x == y
  {
  }

  lemma SpacesOnce(text: string, p: nat, q: nat, r: nat)
    requires Spaces(text, p, q) && Spaces(text, p, r) && q < |text| && !IsSpace(text[q])
    ensures r <= q
  {
  }

  lemma PieceStarts(text: string, x: Piece)
    requires IsPiece(text, x)
    ensures x.from < |text| && !IsSpace(text[x.from])
  {
  }

  /** Two cuts of the same text go together as far as both go. */
  lemma {:induction false} PiecesOnce(text: string, xs: seq<Piece>, ys: seq<Piece>, k: nat)
    requires Pieces(text, xs) && Pieces(text, ys) && k <= |xs| && k <= |ys|
    ensures xs[..k] == ys[..k]
  {
    hide IsPiece, Spaces, LenOk;
    if k > 0 {
      PiecesOnce(text, xs, ys, k - 1);
      var i := k - 1;
      assert PieceAt(text, xs, i) && PieceAt(text, ys, i);
      assert i > 0 ==> xs[..i][i - 1] == xs[i - 1] == ys[i - 1];
      var p := if i == 0 then 0 else xs[i - 1].to;
      PieceStarts(text, xs[i]);
      PieceStarts(text, ys[i]);
      SpacesOnce(text, p, xs[i].from, ys[i].from);
      SpacesOnce(text, p, ys[i].from, xs[i].from);
      PieceOnce(text, xs[i], ys[i]);
      assert xs[..k] == xs[..i] + [xs[i]] && ys[..k] == ys[..i] + [ys[i]];
    }
  }

  /** Pieces cut from the text before a place from which no piece can be cut are all there are. */
  lemma NoMore(text: string, xs: seq<Piece>, ys: seq<Piece>, q: nat)
    requires Pieces(text, xs) && Pieces(text, ys) && EndOf(xs) <= q <= |text| && Spaces(text, EndOf(xs), q)
    requires q < |text| ==> !IsSpace(text[q]) && forall y :: IsPiece(text, y) ==> y.from != q
    ensures |ys| <= |xs|
  {
    hide IsPiece, LenOk;
    if |xs| < |ys| {
      var k := |xs|;
      PiecesOnce(text, xs, ys, k);
      assert PieceAt(text, ys, k);
      assert k > 0 ==> ys[..k][k - 1] == xs[..k][k - 1];
      PieceStarts(text, ys[k]);
    }
  }

  /** A text is cut in one way, or has an open quote: never both. */
  lemma LexingOnce(text: string, xs: seq<Piece>)
    requires Lexing(text, xs)
    ensures forall ys :: Lexing(text, ys) ==> ys == xs
    ensures forall ys, q :: !OpenQuote(text, ys, q)
  {
    hide IsPiece, Spaces, LenOk, Pieces;
    forall ys | Lexing(text, ys)
      ensures ys == xs
    {
      NoMore(text, xs, ys, |text|);
      NoMore(text, ys, xs, |text|);
      PiecesOnce(text, xs, ys, |xs|);
      assert xs[..|xs|] == xs && ys[..|ys|] == ys;
    }
    forall ys, q
      ensures !OpenQuote(text, ys, q)
    {
      if OpenQuote(text, ys, q) {
        NoneAtQuote(text, q);
        NoMore(text, ys, xs, q);
        NoMore(text, xs, ys, |text|);
        PiecesOnce(text, xs, ys, |xs|);
        assert xs[..|xs|] == xs && ys[..|ys|] == ys;
        SpaceNoQuote(text, EndOf(xs), q);
      }
    }
  }

  lemma NoneAtQuote(text: string, q: nat)
    requires q < |text| && text[q] == '"' && forall i :: q < i < |text| ==> text[i] != '"'
    ensures !IsSpace(text[q]) && forall y :: IsPiece(text, y) ==> y.from != q
  {
  }

  lemma SpaceNoQuote(text: string, p: nat, q: nat)
    requires p <= q < |text| && text[q] == '"'
    ensures !Spaces(text, p, |text|)
  {
  }

  // ---------- cutting ----------

  /** The tokens of the pieces, with the mark at the end. */
  function TokensOf(xs: seq<Piece>): (ts: seq<Token>)
    ensures Ended(ts)
  {
    seq(|xs|, i requires 0 <= i < |xs| => xs[i].token) + [END]
  }

  /** A line in its buffer: characters, none of them NUL, and a NUL. */
  ghost predicate IsLine(line: array<char>, text: string)
    reads line
  {
    line.Length == |text| + 1 && line[..|text|] == text && line[|text|] == '\0' && forall i :: 0 <= i < |text| ==> text[i] != '\0'
  }

  lemma PiecesMore(text: string, xs: seq<Piece>, x: Piece)
    requires Pieces(text, xs) && IsPiece(text, x) && LenOk(x) && x.from < x.to <= |text|
    requires Spaces(text, EndOf(xs), x.from)
    ensures Pieces(text, xs + [x]) && EndOf(xs + [x]) == x.to
  {
    hide IsPiece, LenOk;
    var ys := xs + [x];
    forall i | 0 <= i < |ys|
      ensures PieceAt(text, ys, i)
    {
      assert i < |xs| ==> PieceAt(text, xs, i);
    }
  }

  /** The word that starts at `p`, quoted or not. */
  method CutWord(line: array<char>, ghost text: string, p: nat) returns (ok: bool, off: nat, len: nat, q: nat)
    requires IsLine(line, text) && p < |text| && (line[p] == '"' || !IsDelim(line[p]))
    ensures ok ==> p < q <= |text| && IsPiece(text, Piece(WORD(off), len, p, q))
    ensures !ok ==> text[p] == '"' && forall i :: p < i < |text| ==> text[i] != '"'
  {
    q := p;
    assert text[p] == line[p];
    if line[p] == '"' {
      q := q + 1;
      off := q;
      while line[q] != '\0' && line[q] != '"'
        invariant off <= q <= |text|
        decreases |text| - q
        invariant forall i :: off <= i < q ==> text[i] != '"'
      {
        q := q + 1;
      }
      assert q < |text| ==> line[q] == text[q];
      if line[q] != '"' {
        return false, off, 0, q;
      }
      len := q - off;
      q := q + 1;
      assert Quoted(text, Piece(WORD(off), len, p, q));
    } else {
      off := q;
      while line[q] != '\0' && line[q] !in [' ', '\t', '\n', '\r', '(', ')', ';', '>', '&', '|', '"']
        invariant off <= q <= |text|
        decreases |text| - q
        invariant forall i :: off <= i < q ==> !IsDelim(text[i])
        invariant q == off ==> line[q] != '\0' && !IsDelim(line[q])
      {
        assert line[q] == text[q];
        q := q + 1;
      }
      assert q < |text| ==> line[q] == text[q];
      len := q - off;
      assert Plain(text, Piece(WORD(off), len, p, q));
    }
    ok := true;
  }

  /** The line is cut up, or has an open quote, or memory runs out. */
  method Tokenize(line: array<char>, ghost text: string) returns (rc: Status, toks: seq<Token>, lens: seq<nat>, ghost xs: seq<Piece>)
    requires IsLine(line, text)
    ensures rc == OK || rc == QUOTE || rc == MEMORY
    ensures rc == OK ==> Lexing(text, xs) && toks == TokensOf(xs) && |lens| == |xs|
    ensures rc == OK ==> forall i :: 0 <= i < |xs| ==> lens[i] == xs[i].len
    ensures rc == QUOTE ==> exists q :: OpenQuote(text, xs, q)
  {
    hide IsPiece, LenOk, Pieces;
    var p := 0;
    toks, lens, xs := [], [], [];
    NoPieces(text);
    while line[p] != '\0'
      invariant EndOf(xs) <= p <= |text| && Spaces(text, EndOf(xs), p) && Pieces(text, xs)
      invariant |toks| == |lens| == |xs|
      invariant forall i :: 0 <= i < |xs| ==> toks[i] == xs[i].token && lens[i] == xs[i].len
      decreases |text| - p
    {
      assert line[p] == text[p];
      if line[p] == ' ' || line[p] == '\t' || line[p] == '\n' || line[p] == '\r' {
        p := p + 1;
      } else {
        var token, len, q;
        if line[p] in ['(', ')', ';', '>', '&', '|'] {
          token, len := CutSign(line, text, p);
          q := p + len;
        } else {
          var ok, off;
          ok, off, len, q := CutWord(line, text, p);
          token := WORD(off);
          WordLen(Piece(token, len, p, q));
          if !ok {
            assert OpenQuote(text, xs, p);
            return QUOTE, toks, lens, xs;
          }
        }
        var room: bool := *;
        if !room {
          return MEMORY, toks, lens, xs;
        }
        PiecesMore(text, xs, Piece(token, len, p, q));
        toks, lens, xs := toks + [token], lens + [len], xs + [Piece(token, len, p, q)];
        p := q;
      }
    }
    var room: bool := *;
    if !room {
      return MEMORY, toks, lens, xs;
    }
    assert toks + [END] == TokensOf(xs);
    return OK, toks + [END], lens, xs;
  }

  lemma NoPieces(text: string)
    ensures Pieces(text, []) && EndOf([]) == 0
  {
  }

  lemma WordLen(x: Piece)
    requires x.token.WORD?
    ensures LenOk(x)
  {
  }

  method CutSign(line: array<char>, ghost text: string, p: nat) returns (token: Token, len: nat)
    requires IsLine(line, text) && p < |text| && line[p] in ['(', ')', ';', '>', '&', '|']
    ensures len > 0 && p + len <= |text|
    ensures IsPiece(text, Piece(token, len, p, p + len)) && LenOk(Piece(token, len, p, p + len))
  {
    assert text[p] == line[p] && (p + 1 < |text| ==> line[p + 1] == text[p + 1]);
    if line[p] == '(' {
      token, len := LPAREN, 1;
    } else if line[p] == ')' {
      token, len := RPAREN, 1;
    } else if line[p] == ';' {
      token, len := SEMI, 1;
    } else if line[p] == '>' {
      token, len := GT, 1;
    } else if line[p] == '&' {
      if line[p + 1] == '&' {
        token, len := AND, 2;
      } else {
        token, len := BG, 1;
      }
    } else if line[p + 1] == '|' {
      token, len := OR, 2;
    } else {
      token, len := PIPE, 1;
    }
  }

  // ---------- words as strings ----------

  /** What a string that starts at `p` of the buffer reads as: everything up to the first NUL. */
  function CString(b: seq<char>, p: nat): string
    requires p < |b| && b[|b| - 1] == '\0'
    decreases |b| - p
  {
    if b[p] == '\0' then "" else [b[p]] + CString(b, p + 1)
  }

  lemma {:induction false} CStringIs(b: seq<char>, p: nat, n: nat)
    requires p + n < |b| && b[|b| - 1] == '\0' && b[p + n] == '\0'
    requires forall i :: p <= i < p + n ==> b[i] != '\0'
    ensures CString(b, p) == b[p..p + n]
    decreases n
  {
    if n > 0 {
      CStringIs(b, p + 1, n - 1);
    }
  }

  /** The end of one word is within no word. */
  lemma EndsApart(text: string, xs: seq<Piece>, i: nat, j: nat)
    requires Pieces(text, xs) && i < |xs| && j < |xs| && xs[i].token.WORD? && xs[j].token.WORD?
    ensures var w := xs[j].token.off + xs[j].len; !(xs[i].token.off <= w < xs[i].token.off + xs[i].len)
    ensures xs[j].token.off + xs[j].len <= |text|
  {
    hide Spaces;
    assert PieceAt(text, xs, i) && PieceAt(text, xs, j);
    if i < j {
      Ascending(text, xs, i, j);
    } else if j < i {
      Ascending(text, xs, j, i);
    }
  }

  lemma {:induction false} Ascending(text: string, xs: seq<Piece>, i: nat, j: nat)
    requires Pieces(text, xs) && i < j < |xs|
    ensures xs[i].to <= xs[j].from
  {
    hide IsPiece, LenOk;
    assert PieceAt(text, xs, j);
    if i < j - 1 {
      Ascending(text, xs, i, j - 1);
      assert PieceAt(text, xs, j - 1);
    }
  }

  /** Word `i` stands in the buffer as it stood in the text. */
  ghost predicate WordKept(text: string, b: seq<char>, x: Piece)
    requires x.token.WORD?
  {
    && x.token.off + x.len <= |text| < |b|
    && forall k :: x.token.off <= k < x.token.off + x.len ==> b[k] == text[k]
  }

  /** The string at a place of the buffer is so many characters of the text from there. */
  ghost predicate ReadsAs(b: seq<char>, text: string, off: nat, len: nat) {
    off + len <= |text| && |b| == |text| + 1 && b[|text|] == '\0' && CString(b, off) == text[off..off + len]
  }

  /** With each word closed by a NUL put after it, every word reads as just its own characters. */
  method TerminateWords(line: array<char>, ghost text: string, toks: seq<Token>, lens: seq<nat>, ghost xs: seq<Piece>)
    requires IsLine(line, text) && Lexing(text, xs) && toks == TokensOf(xs) && |lens| == |xs|
    requires forall i :: 0 <= i < |xs| ==> lens[i] == xs[i].len
    modifies line
    ensures line[|text|] == '\0'
    ensures forall i :: 0 <= i < |xs| && toks[i].WORD? ==> ReadsAs(line[..], text, toks[i].off, lens[i])
  {
    hide Pieces, Spaces, CString;
    var i := 0;
    forall k | 0 <= k < |xs| && xs[k].token.WORD?
      ensures WordKept(text, line[..], xs[k])
    {
      EndsApart(text, xs, k, k);
    }
    while i < |lens|
      invariant i <= |lens| && line[|text|] == '\0'
      invariant forall k :: 0 <= k < |xs| && xs[k].token.WORD? ==> WordKept(text, line[..], xs[k])
      invariant forall k :: 0 <= k < i && xs[k].token.WORD? ==> line[xs[k].token.off + xs[k].len] == '\0'
    {
      if toks[i].WORD? {
        EndsApart(text, xs, i, i);
        forall k | 0 <= k < |xs| && xs[k].token.WORD?
          ensures var w := xs[i].token.off + xs[i].len; !(xs[k].token.off <= w < xs[k].token.off + xs[k].len)
        {
          EndsApart(text, xs, k, i);
        }
        line[toks[i].off + lens[i]] := '\0';
      }
      i := i + 1;
    }
    forall k | 0 <= k < |xs| && toks[k].WORD?
      ensures ReadsAs(line[..], text, toks[k].off, lens[k])
    {
      var x := xs[k];
      assert WordKept(text, line[..], x);
      CStringIs(line[..], x.token.off, x.len);
      assert line[..][x.token.off..x.token.off + x.len] == text[x.token.off..x.token.off + x.len];
    }
  }
}
