/**
  The calculator: expressions as trees that remember their white space, what they are worth, and the texts they are
  written as; and the recursive descent that reads and evaluates a text in one pass.
 */
module Calc {
  import Arith
  import opened Options

  const MAX_DEPTH := 64
  const LONG_MAX := 0x7FFF_FFFF
  const LONG_MIN := -0x8000_0000

  datatype Error = Syntax | DivZero | Overflow | Complex | Trailing

  datatype Value = Ok(v: int) | Err(e: Error)

  // ---------- expressions ----------

  /** A number, an expression in brackets, or a signed factor, each after some white space. */
  datatype Factor =
    | Num(ws: string, digits: string)
    | Paren(ws: string, inner: Expr, close: string)
    | Sign(ws: string, sign: char, of: Factor)

  /** Factors multiplied and divided, from the left. */
  datatype Term = One(f: Factor) | Mul(left: Term, ws: string, op: char, right: Factor)

  /** Terms added and subtracted, from the left. */
  datatype Expr = Single(t: Term) | Add(left: Expr, ws: string, op: char, right: Term)

  predicate IsSpace(c: char) {
    c == ' ' || c == '\t' || c == '\n' || c == '\r'
  }

  predicate Spaces(s: string) {
    forall i :: 0 <= i < |s| ==> IsSpace(s[i])
  }

  predicate IsDigit(c: char) {
    '0' <= c <= '9'
  }

  predicate Digits(s: string) {
    s != "" && forall i :: 0 <= i < |s| ==> IsDigit(s[i])
  }

  predicate IsMulOp(c: char) {
    c == '*' || c == '/' || c == '%'
  }

  predicate IsAddOp(c: char) {
    c == '+' || c == '-'
  }

  predicate WellF(f: Factor) {
    match f
    case Num(ws, digits) => Spaces(ws) && Digits(digits)
    case Paren(ws, inner, close) => Spaces(ws) && WellE(inner) && Spaces(close)
    case Sign(ws, sign, of) => Spaces(ws) && IsAddOp(sign) && WellF(of)
  }

  predicate WellT(t: Term) {
    match t
    case One(f) => WellF(f)
    case Mul(left, ws, op, right) => WellT(left) && Spaces(ws) && IsMulOp(op) && WellF(right)
  }

  predicate WellE(e: Expr) {
    match e
    case Single(t) => WellT(t)
    case Add(left, ws, op, right) => WellE(left) && Spaces(ws) && IsAddOp(op) && WellT(right)
  }

  /** How deep brackets and signs are nested. */
  function DepthF(f: Factor): nat {
    match f
    case Num(_, _) => 0
    case Paren(_, inner, _) => 1 + DepthE(inner)
    case Sign(_, _, of) => 1 + DepthF(of)
  }

  function DepthT(t: Term): nat {
    match t
    case One(f) => DepthF(f)
    case Mul(left, _, _, right) => Max(DepthT(left), DepthF(right))
  }

  function DepthE(e: Expr): nat {
    match e
    case Single(t) => DepthT(t)
    case Add(left, _, _, right) => Max(DepthE(left), DepthT(right))
  }

  function Max(a: nat, b: nat): nat {
    if a < b then b else a
  }

  // ---------- what they are worth ----------

  function DigitsValue(s: string): nat
    requires forall i :: 0 <= i < |s| ==> IsDigit(s[i])
  {
    if s == "" then 0
    else
      assert IsDigit(s[|s| - 1]);
      10 * DigitsValue(s[..|s| - 1]) + ((s[|s| - 1] as int) - ('0' as int))
  }

  function InRange(v: int): Value {
    if LONG_MIN <= v <= LONG_MAX then Ok(v) else Err(Overflow)
  }

  /** C division, towards zero. */
  function Quotient(a: int, b: int): int
    requires b != 0
  {
    var q := Abs(a) / Abs(b);
    if (a < 0) == (b < 0) then q else -q
  }

  function Remainder(a: int, b: int): int
    requires b != 0
  {
    a - b * Quotient(a, b)
  }

  function Abs(a: int): nat {
    if a < 0 then -a else a
  }

  /** One operation; the smallest number divided by -1, for the remainder too, overflows. */
  function Apply(op: char, a: int, b: int): Value {
    if op == '+' then InRange(a + b)
    else if op == '-' then InRange(a - b)
    else if op == '*' then InRange(a * b)
    else if b == 0 then Err(DivZero)
    else if b == -1 && a == LONG_MIN then Err(Overflow)
    else if op == '/' then Ok(Quotient(a, b))
    else Ok(Remainder(a, b))
  }

  lemma NotSmaller(y: int, d: int)
    requires y > 0
    ensures d > 0 ==> y * d >= y
    ensures d < 0 ==> y * d <= -y
  {
    Arith.MulMono(1, d, y);
    Arith.MulMono(d, -1, y);
  }

  lemma OneMultiple(y: int, d: int, e: int)
    requires y > 0 && y * d == e && -y < e < y
    ensures d == 0
  {
    NotSmaller(y, d);
  }

  lemma NegatedFactor(y: int, k: int)
    ensures (-y) * k == -(y * k) && y * -k == -(y * k) && (-y) * -k == y * k
  {
  }

  lemma QuotientHolds(a: int, b: int)
    requires b != 0
    ensures var r := Remainder(a, b);
            a == b * Quotient(a, b) + r && Abs(r) < Abs(b) && (r == 0 || (r < 0 <==> a < 0))
  {
    var q, r := Quotient(a, b), Remainder(a, b);
    assert r == a - b * q;
    assert r == if a < 0 then -(Abs(a) % Abs(b)) else Abs(a) % Abs(b) by {
      hide Remainder;
      SignedRest(a, b);
    }
    hide *;
    RestSize(a, b, r);
  }

  lemma RestSize(a: int, b: int, r: int)
    requires b != 0 && r == if a < 0 then -(Abs(a) % Abs(b)) else Abs(a) % Abs(b)
    ensures Abs(r) < Abs(b) && (r == 0 || (r < 0 <==> a < 0))
  {
  }

  lemma SignedRest(a: int, b: int)
    requires b != 0
    ensures a - b * Quotient(a, b) == if a < 0 then -(Abs(a) % Abs(b)) else Abs(a) % Abs(b)
  {
    var x: int, y: int := Abs(a), Abs(b);
    SignedProduct(a, b, y, x / y);
  }

  lemma SignedProduct(a: int, b: int, y: int, k: int)
    requires y == if b < 0 then -b else b
    ensures b * (if (a < 0) == (b < 0) then k else -k) == if a < 0 then -(y * k) else y * k
  {
    NegatedFactor(y, k);
  }

  lemma OneQuotient(b: int, q: int, r: int, q': int, r': int)
    requires b != 0 && b * q + r == b * q' + r' && Abs(r - r') < Abs(b)
    ensures q == q' && r == r'
  {
    var d := q - q';
    assert b * d == b * q - b * q';
    NegatedFactor(b, d);
    if b < 0 {
      OneMultiple(-b, d, r - r');
    } else {
      OneMultiple(b, d, r' - r);
    }
  }

  /** Quotient and remainder are the one pair whose remainder is smaller than the divisor and signed as the dividend. */
  lemma QuotientExactly(a: int, b: int, q: int, r: int)
    requires b != 0
    ensures q == Quotient(a, b) && r == Remainder(a, b) <==>
            && a == b * q + r && (if r < 0 then -r else r) < (if b < 0 then -b else b)
            && (r == 0 || (r < 0 <==> a < 0))
  {
    hide Quotient, Remainder;
    QuotientHolds(a, b);
    if a == b * q + r && Abs(r) < Abs(b) && (r == 0 || (r < 0 <==> a < 0)) {
      OneQuotient(b, q, r, Quotient(a, b), Remainder(a, b));
    }
  }

  /** What `/` and `%` come to where C defines them. */
  lemma DividesTowardsZero(a: int, b: int, q: int, r: int)
    requires b != 0 && !(a == -0x8000_0000 && b == -1)
    ensures Apply('/', a, b) == Ok(q) && Apply('%', a, b) == Ok(r) <==>
            && a == b * q + r && (if r < 0 then -r else r) < (if b < 0 then -b else b)
            && (r == 0 || (r < 0 <==> a < 0))
  {
    hide Quotient, Remainder;
    QuotientExactly(a, b, q, r);
  }

  /** The value of a factor, or the first error met from left to right. */
  function EvalF(f: Factor): Value
    requires WellF(f)
  {
    match f
    case Num(_, digits) => InRange(DigitsValue(digits))
    case Paren(_, inner, _) => EvalE(inner)
    case Sign(_, sign, of) =>
      match EvalF(of)
      case Err(e) => Err(e)
      case Ok(v) => if sign == '-' then InRange(-v) else Ok(v)
  }

  function EvalT(t: Term): Value
    requires WellT(t)
  {
    match t
    case One(f) => EvalF(f)
    case Mul(left, _, op, right) => Both(op, EvalT(left), EvalF(right))
  }

  function EvalE(e: Expr): Value
    requires WellE(e)
  {
    match e
    case Single(t) => EvalT(t)
    case Add(left, _, op, right) => Both(op, EvalE(left), EvalT(right))
  }

  function Both(op: char, a: Value, b: Value): Value {
    if a.Err? then a else if b.Err? then b else Apply(op, a.v, b.v)
  }

  // ---------- how they are written ----------

  function TextF(f: Factor): string {
    match f
    case Num(ws, digits) => ws + digits
    case Paren(ws, inner, close) => ws + "(" + TextE(inner) + close + ")"
    case Sign(ws, sign, of) => ws + [sign] + TextF(of)
  }

  function TextT(t: Term): string {
    match t
    case One(f) => TextF(f)
    case Mul(left, ws, op, right) => TextT(left) + ws + [op] + TextF(right)
  }

  function TextE(e: Expr): string {
    match e
    case Single(t) => TextT(t)
    case Add(left, ws, op, right) => TextE(left) + ws + [op] + TextT(right)
  }

  // ---------- reading ----------

  /** What a part of the reader comes to: a value and where it stopped, or an error. */
  datatype Out = Got(v: int, at: nat) | Fail(e: Error)

  /** `skip_ws`. */
  function Skip(text: string, p: nat): (q: nat)
    ensures p <= q && (p <= |text| ==> q <= |text|)
    decreases |text| - p
  {
    if p < |text| && IsSpace(text[p]) then Skip(text, p + 1) else p
  }

  /** The end of the digits from `p` on. */
  function EndOfDigits(text: string, p: nat): (q: nat)
    requires p <= |text|
    ensures p <= q <= |text| && (forall i :: p <= i < q ==> IsDigit(text[i])) && (q < |text| ==> !IsDigit(text[q]))
    decreases |text| - p
  {
    if p < |text| && IsDigit(text[p]) then EndOfDigits(text, p + 1) else p
  }

  function ReadNumber(text: string, p: nat): (o: Out)
    requires p <= |text|
    ensures o.Got? ==> p < o.at <= |text|
  {
    var q := EndOfDigits(text, p);
    if q == p then Fail(Syntax)
    else
      var v := DigitsValue(text[p..q]);
      if v > LONG_MAX then Fail(Overflow) else Got(v, q)
  }

  function ReadFactor(text: string, p: nat, depth: nat): (o: Out)
    requires p <= |text|
    ensures o.Got? ==> p < o.at <= |text|
    decreases |text| - p, 0
  {
    var q := Skip(text, p);
    if depth >= MAX_DEPTH then Fail(Complex)
    else if q < |text| && text[q] == '(' then
      match ReadExpr(text, q + 1, depth + 1)
      case Fail(e) => Fail(e)
      case Got(v, r) =>
        var c := Skip(text, r);
        if c < |text| && text[c] == ')' then Got(v, c + 1) else Fail(Syntax)
    else if q < |text| && IsAddOp(text[q]) then
      match ReadFactor(text, q + 1, depth + 1)
      case Fail(e) => Fail(e)
      case Got(v, r) =>
        if text[q] == '+' then Got(v, r)
        else
          match InRange(-v)
          case Err(e) => Fail(e)
          case Ok(n) => Got(n, r)
    else ReadNumber(text, q)
  }

  function ReadTerm(text: string, p: nat, depth: nat): (o: Out)
    requires p <= |text|
    ensures o.Got? ==> p < o.at <= |text|
    decreases |text| - p, 1
  {
    match ReadFactor(text, p, depth)
    case Fail(e) => Fail(e)
    case Got(v, q) => ReadFactors(text, v, q, depth)
  }

  /** The rest of a term, the part before `p` being worth `v`. */
  function ReadFactors(text: string, v: int, p: nat, depth: nat): (o: Out)
    requires p <= |text|
    ensures o.Got? ==> p <= o.at <= |text|
    decreases |text| - p, 1
  {
    var q := Skip(text, p);
    if !(q < |text| && IsMulOp(text[q])) then Got(v, q)
    else
      match ReadFactor(text, q + 1, depth)
      case Fail(e) => Fail(e)
      case Got(rhs, r) =>
        match Apply(text[q], v, rhs)
        case Err(e) => Fail(e)
        case Ok(n) => ReadFactors(text, n, r, depth)
  }

  function ReadExpr(text: string, p: nat, depth: nat): (o: Out)
    requires p <= |text|
    ensures o.Got? ==> p < o.at <= |text|
    decreases |text| - p, 3
  {
    match ReadTerm(text, p, depth)
    case Fail(e) => Fail(e)
    case Got(v, q) => ReadTerms(text, v, q, depth)
  }

  /** The rest of an expression, the part before `p` being worth `v`. */
  function ReadTerms(text: string, v: int, p: nat, depth: nat): (o: Out)
    requires p <= |text|
    ensures o.Got? ==> p <= o.at <= |text|
    decreases |text| - p, 2
  {
    var q := Skip(text, p);
    if !(q < |text| && IsAddOp(text[q])) then Got(v, q)
    else
      match ReadTerm(text, q + 1, depth)
      case Fail(e) => Fail(e)
      case Got(rhs, r) =>
        match Apply(text[q], v, rhs)
        case Err(e) => Fail(e)
        case Ok(n) => ReadTerms(text, n, r, depth)
  }

  /** `calc_eval`, as a function of the text. */
  function Calculate(text: string): Value {
    match ReadExpr(text, 0, 0)
    case Fail(e) => Err(e)
    case Got(v, p) => if Skip(text, p) < |text| then Err(Trailing) else Ok(v)
  }

  // ---------- a written tree is read as its value ----------

  /** `s` stands at `p`. */
  predicate Here(text: string, p: nat, s: string) {
    p + |s| <= |text| && text[p..p + |s|] == s
  }

  lemma HereBoth(text: string, p: nat, a: string, b: string)
    ensures Here(text, p, a + b) <==> Here(text, p, a) && Here(text, p + |a|, b)
  {
    var n := p + |a| + |b|;
    if n <= |text| {
      assert text[p..n] == text[p..p + |a|] + text[p + |a|..n];
      if Here(text, p, a + b) {
        assert text[p..p + |a|] == (a + b)[..|a|] == a;
        assert text[p + |a|..n] == (a + b)[|a|..] == b;
      }
    }
  }

  lemma HereChar(text: string, p: nat, c: char)
    ensures Here(text, p, [c]) <==> p < |text| && text[p] == c
  {
  }

  /** What stands at `p` does not go on with a digit. */
  predicate NoDigit(text: string, p: nat) {
    p < |text| ==> !IsDigit(text[p])
  }

  lemma {:induction false} SkipSpaces(text: string, p: nat, ws: string)
    requires Here(text, p, ws) && Spaces(ws) && (p + |ws| < |text| ==> !IsSpace(text[p + |ws|]))
    ensures Skip(text, p) == p + |ws|
    decreases |ws|
  {
    if ws != "" {
      assert text[p] == ws[0];
      assert text[p + 1..p + |ws|] == ws[1..];
      SkipSpaces(text, p + 1, ws[1..]);
    }
  }

  lemma {:induction false} DigitsEnd(text: string, p: nat, ds: string)
    requires Here(text, p, ds) && (forall i :: 0 <= i < |ds| ==> IsDigit(ds[i])) && NoDigit(text, p + |ds|)
    ensures p <= |text| && EndOfDigits(text, p) == p + |ds|
    decreases |ds|
  {
    if ds != "" {
      assert text[p] == ds[0];
      assert text[p + 1..p + |ds|] == ds[1..];
      DigitsEnd(text, p + 1, ds[1..]);
    }
  }

  /** What the reader makes of a value that was written up to `q`. */
  function Reads(v: Value, q: nat): Out {
    match v
    case Ok(n) => Got(n, q)
    case Err(e) => Fail(e)
  }

  lemma NumRead(text: string, p: nat, ws: string, digits: string, depth: nat)
    requires var f := Num(ws, digits);
             WellF(f) && Here(text, p, TextF(f)) && NoDigit(text, p + |TextF(f)|) && depth < MAX_DEPTH
    ensures p <= |text| && ReadFactor(text, p, depth) == Reads(EvalF(Num(ws, digits)), p + |TextF(Num(ws, digits))|)
  {
    hide Skip, EndOfDigits, DigitsValue, ReadExpr;
    var q := p + |ws|;
    HereBoth(text, p, ws, digits);
    assert text[q] == digits[0];
    assert IsDigit(digits[0]);
    SkipSpaces(text, p, ws);
    DigitsEnd(text, q, digits);
    NotNegative(digits);
  }

  lemma NotNegative(digits: string)
    requires forall i :: 0 <= i < |digits| ==> IsDigit(digits[i])
    ensures DigitsValue(digits) >= LONG_MIN
  {
  }

  /** Brackets are read by reading what is in them. */
  lemma ParenStep(text: string, p: nat, depth: nat, q: nat, o: Out)
    requires p <= |text| && q == Skip(text, p) && q < |text| && text[q] == '(' && depth < MAX_DEPTH
    requires o == ReadExpr(text, q + 1, depth + 1)
    ensures ReadFactor(text, p, depth) ==
            if o.Fail? then o
            else if Skip(text, o.at) < |text| && text[Skip(text, o.at)] == ')' then Got(o.v, Skip(text, o.at) + 1)
            else Fail(Syntax)
  {
    hide Skip, ReadExpr, IsSpace;
  }

  lemma SignStep(text: string, p: nat, depth: nat, q: nat)
    requires p <= |text| && q == Skip(text, p) && q < |text| && IsAddOp(text[q]) && depth < MAX_DEPTH
    ensures ReadFactor(text, p, depth) ==
            var o := ReadFactor(text, q + 1, depth + 1);
            if o.Fail? then o else if text[q] == '+' then o else Reads(InRange(-o.v), o.at)
  {
    hide Skip, ReadExpr, IsSpace;
  }

  lemma {:induction false} FactorRead(text: string, p: nat, f: Factor, depth: nat)
    requires WellF(f) && Here(text, p, TextF(f)) && NoDigit(text, p + |TextF(f)|) && depth + DepthF(f) < MAX_DEPTH
    ensures p <= |text| && ReadFactor(text, p, depth) == Reads(EvalF(f), p + |TextF(f)|)
    decreases f
  {
    hide Here, Skip, ReadFactor, ReadExpr, ReadTerms, IsSpace, Spaces, InRange;
    match f
    case Num(ws, digits) =>
      NumRead(text, p, ws, digits, depth);
    case Paren(ws, inner, close) =>
      ParenParts(text, p, ws, inner, close);
      var q := p + |ws|;
      var r := q + 1 + |TextE(inner)|;
      CloseBracket(text, r, close);
      ExprRead(text, q + 1, inner, depth + 1);
      ParenRead(text, p, ws, inner, close, depth, q, r);
    case Sign(ws, sign, of) =>
      SignParts(text, p, ws, sign, of);
      FactorRead(text, p + |ws| + 1, of, depth + 1);
      SignStep(text, p, depth, p + |ws|);
  }

  lemma ParenRead(text: string, p: nat, ws: string, inner: Expr, close: string, depth: nat, q: nat, r: nat)
    requires WellE(inner) && Spaces(ws) && Spaces(close) && depth < MAX_DEPTH
    requires Here(text, p, ws) && q == p + |ws| && q < |text| && text[q] == '('
    requires Here(text, r, close) && r + |close| < |text| && text[r + |close|] == ')'
    requires var w := EvalE(inner);
             ReadExpr(text, q + 1, depth + 1) ==
             if w.Ok? then ReadTerms(text, w.v, Skip(text, r), depth + 1) else Fail(w.e)
    ensures p <= |text| && ReadFactor(text, p, depth) == Reads(EvalE(inner), r + |close| + 1)
  {
    hide Here, Skip, ReadFactor, ReadExpr, ReadTerms, IsSpace, Spaces, EvalE, WellE;
    OpenBracket(text, p, ws, q);
    CloseBracket(text, r, close);
    ParenStep(text, p, depth, q, ReadExpr(text, q + 1, depth + 1));
    if EvalE(inner).Ok? {
      LastTerm(text, EvalE(inner).v, Skip(text, r), depth + 1);
    }
  }

  lemma SignParts(text: string, p: nat, ws: string, sign: char, of: Factor)
    requires Here(text, p, TextF(Sign(ws, sign, of))) && Spaces(ws) && IsAddOp(sign)
    ensures var q := p + |ws|;
            && q < |text| && text[q] == sign && Skip(text, p) == q && Here(text, q + 1, TextF(of))
            && |TextF(Sign(ws, sign, of))| == |ws| + 1 + |TextF(of)|
  {
    HereBoth(text, p, ws + [sign], TextF(of));
    HereBoth(text, p, ws, [sign]);
    HereChar(text, p + |ws|, sign);
    SkipSpaces(text, p, ws);
  }

  lemma OpenBracket(text: string, p: nat, ws: string, q: nat)
    requires Here(text, p, ws) && Spaces(ws) && q == p + |ws| && q < |text| && text[q] == '('
    ensures p <= |text| && Skip(text, p) == q
  {
    SkipSpaces(text, p, ws);
  }

  lemma CloseBracket(text: string, r: nat, close: string)
    requires Here(text, r, close) && Spaces(close) && r + |close| < |text| && text[r + |close|] == ')'
    ensures Skip(text, r) == r + |close| && Skip(text, Skip(text, r)) == Skip(text, r)
  {
    SkipSpaces(text, r, close);
    SkipTwice(text, r);
  }

  /** With no further operator an expression ends. */
  lemma LastTerm(text: string, v: int, p: nat, depth: nat)
    requires p <= |text| && Skip(text, p) == p && (p < |text| ==> !IsAddOp(text[p]))
    ensures ReadTerms(text, v, p, depth) == Got(v, p)
  {
    hide Skip, ReadTerm;
  }

  lemma ParenParts(text: string, p: nat, ws: string, inner: Expr, close: string)
    requires Here(text, p, TextF(Paren(ws, inner, close))) && Spaces(ws) && Spaces(close)
    ensures var q := p + |ws|;
            var r := q + 1 + |TextE(inner)|;
            && Here(text, p, ws) && q < |text| && text[q] == '(' && Here(text, q + 1, TextE(inner))
            && Here(text, r, close) && r + |close| < |text| && text[r + |close|] == ')'
            && |TextF(Paren(ws, inner, close))| == r + |close| + 1 - p
            && NoDigit(text, r)
  {
    hide Here, Spaces, IsSpace, TextE, NoDigit;
    var t := TextE(inner);
    HereBoth(text, p, ws + "(" + t + close, ")");
    HereBoth(text, p, ws + "(" + t, close);
    HereBoth(text, p, ws + "(", t);
    HereBoth(text, p, ws, "(");
    HereChar(text, p + |ws|, '(');
    var r := p + |ws| + 1 + |t|;
    HereChar(text, r + |close|, ')');
    NoDigitBefore(text, r, close);
  }

  lemma NoDigitBefore(text: string, r: nat, close: string)
    requires Here(text, r, close) && Spaces(close) && r + |close| < |text| && text[r + |close|] == ')'
    ensures NoDigit(text, r)
  {
    if close != "" {
      assert text[r] == close[0] && IsSpace(close[0]);
    }
  }

  lemma {:induction false} SkipTwice(text: string, p: nat)
    ensures Skip(text, Skip(text, p)) == Skip(text, p)
    decreases |text| - p
  {
    if p < |text| && IsSpace(text[p]) {
      SkipTwice(text, p + 1);
    }
  }

  /** One more operator and factor. */
  lemma MulStep(text: string, v: int, p: nat, depth: nat, q: nat, b: Value, r: nat)
    requires p <= |text| && q == Skip(text, p) && q < |text| && IsMulOp(text[q]) && r <= |text|
    requires ReadFactor(text, q + 1, depth) == Reads(b, r)
    ensures ReadFactors(text, v, p, depth) ==
            var w := Both(text[q], Ok(v), b);
            if w.Ok? then ReadFactors(text, w.v, r, depth) else Fail(w.e)
  {
    hide Skip, ReadFactor, Apply, IsSpace;
  }

  /** Reading a term comes, after the text of a tree, to reading what may follow with the tree's value in hand. */
  lemma {:induction false} TermRead(text: string, p: nat, t: Term, depth: nat)
    requires WellT(t) && Here(text, p, TextT(t)) && NoDigit(text, p + |TextT(t)|) && depth + DepthT(t) < MAX_DEPTH
    ensures p <= |text| && p + |TextT(t)| <= |text|
    ensures ReadTerm(text, p, depth) ==
            var w := EvalT(t);
            if w.Ok? then ReadFactors(text, w.v, p + |TextT(t)|, depth) else Fail(w.e)
    decreases t
  {
    hide Skip, ReadFactor, ReadFactors, Apply, IsSpace, Spaces, Here, EvalF, TextF, DepthF, WellF;
    Ends(text, p, TextT(t));
    match t
    case One(f) =>
      FactorRead(text, p, f, depth);
    case Mul(left, ws, op, right) =>
      OpParts(text, p, TextT(left), ws, op, TextF(right));
      TermRead(text, p, left, depth);
      var q := p + |TextT(left)|;
      FactorRead(text, q + |ws| + 1, right, depth);
      Ends(text, q + |ws| + 1, TextF(right));
      if EvalT(left).Ok? {
        MulStep(text, EvalT(left).v, q, depth, q + |ws|, EvalF(right), q + |ws| + 1 + |TextF(right)|);
      }
  }

  lemma Ends(text: string, p: nat, s: string)
    requires Here(text, p, s)
    ensures p <= p + |s| <= |text|
  {
  }

  lemma OpParts(text: string, p: nat, a: string, ws: string, op: char, b: string)
    requires Here(text, p, a + ws + [op] + b) && Spaces(ws) && (IsMulOp(op) || IsAddOp(op))
    ensures var q := p + |a|;
            && Here(text, p, a) && Here(text, q, ws) && q + |ws| < |text| && text[q + |ws|] == op
            && Here(text, q + |ws| + 1, b) && |a + ws + [op] + b| == |a| + |ws| + 1 + |b| && NoDigit(text, q)
            && Skip(text, q) == q + |ws| && Skip(text, Skip(text, q)) == Skip(text, q)
  {
    hide Here, Skip, Spaces, IsSpace, NoDigit;
    HereBoth(text, p, a + ws + [op], b);
    HereBoth(text, p, a + ws, [op]);
    HereBoth(text, p, a, ws);
    var q := p + |a|;
    HereChar(text, q + |ws|, op);
    SpaceOrOp(text, q, ws, op);
  }

  lemma SpaceOrOp(text: string, q: nat, ws: string, op: char)
    requires Here(text, q, ws) && Spaces(ws) && q + |ws| < |text| && text[q + |ws|] == op && (IsMulOp(op) || IsAddOp(op))
    ensures NoDigit(text, q) && Skip(text, q) == q + |ws| && Skip(text, Skip(text, q)) == Skip(text, q)
  {
    if ws != "" {
      assert text[q] == ws[0] && IsSpace(ws[0]);
    }
    SkipSpaces(text, q, ws);
    SkipTwice(text, q);
  }

  lemma AddStep(text: string, v: int, p: nat, depth: nat, q: nat)
    requires p <= |text| && q == Skip(text, p) && q < |text| && IsAddOp(text[q])
    ensures ReadTerms(text, v, p, depth) ==
            var o := ReadTerm(text, q + 1, depth);
            if o.Fail? then o
            else
              var w := Apply(text[q], v, o.v);
              if w.Ok? then ReadTerms(text, w.v, o.at, depth) else Fail(w.e)
  {
    hide Skip, ReadTerm, Apply, IsSpace;
  }

  /** With no further operator a term ends, past the white space behind it. */
  lemma LastFactor(text: string, v: int, p: nat, depth: nat)
    requires p <= |text| && (Skip(text, p) < |text| ==> !IsMulOp(text[Skip(text, p)]))
    ensures ReadFactors(text, v, p, depth) == Got(v, Skip(text, p))
  {
    hide Skip, ReadFactor;
  }

  lemma {:induction false} ExprRead(text: string, p: nat, e: Expr, depth: nat)
    requires WellE(e) && Here(text, p, TextE(e)) && depth + DepthE(e) < MAX_DEPTH
    requires var q := p + |TextE(e)|; NoDigit(text, q) && (Skip(text, q) < |text| ==> !IsMulOp(text[Skip(text, q)]))
    ensures p <= |text| && p + |TextE(e)| <= |text|
    ensures ReadExpr(text, p, depth) ==
            var w := EvalE(e);
            if w.Ok? then ReadTerms(text, w.v, Skip(text, p + |TextE(e)|), depth) else Fail(w.e)
    decreases e
  {
    hide Skip, ReadTerm, ReadTerms, ReadFactors, Apply, IsSpace, Spaces, Here, EvalT, TextT, DepthT, WellT;
    Ends(text, p, TextE(e));
    var end := p + |TextE(e)|;
    match e
    case Single(t) =>
      TermRead(text, p, t, depth);
      if EvalT(t).Ok? {
        LastFactor(text, EvalT(t).v, end, depth);
      }
    case Add(left, ws, op, right) =>
      OpParts(text, p, TextE(left), ws, op, TextT(right));
      var q := p + |TextE(left)|;
      ExprRead(text, p, left, depth);
      TermRead(text, q + |ws| + 1, right, depth);
      if EvalT(right).Ok? {
        LastFactor(text, EvalT(right).v, end, depth);
      }
      if EvalE(left).Ok? {
        AddStep(text, EvalE(left).v, Skip(text, q), depth, q + |ws|);
      }
  }

  /**
    Every text written from a tree nested below the limit, with white space wherever it may stand and behind it, is
    worth what the tree is: its value, or the first overflow or division by zero from left to right.
   */
  lemma WrittenIsRead(e: Expr, ws: string)
    requires WellE(e) && Spaces(ws) && DepthE(e) < MAX_DEPTH
    ensures Calculate(TextE(e) + ws) == EvalE(e)
  {
    var text := TextE(e) + ws;
    var q := |TextE(e)|;
    assert text[0..q] == TextE(e) && text[q..q + |ws|] == ws;
    assert ws != "" ==> text[q] == ws[0];
    SkipSpaces(text, q, ws);
    SkipTwice(text, q);
    ExprRead(text, 0, e, 0);
  }

  /** The text is a term and a factor, both with a value, joined by `op`. */
  predicate Splits(text: string, left: Term, ws: string, op: char, right: Factor)
    ensures Splits(text, left, ws, op, right) ==> WellT(left) && WellF(right) && EvalT(left).Ok? && EvalF(right).Ok?
  {
    && WellT(left) && WellF(right) && Spaces(ws) && DepthT(left) < 64 && DepthF(right) < 64
    && text == TextT(left) + ws + [op] + TextF(right) && EvalT(left).Ok? && EvalF(right).Ok?
  }

  /**
    What C's `/` and `%` make of `a` and `b`: nothing for 0 or a quotient out of range, else what leaves a rest smaller
    than the divisor and with the sign of the dividend, or that rest.
   */
  predicate Divided(op: char, a: int, b: int, v: Value) {
    if b == 0 then v == Err(DivZero)
    else if a == -0x8000_0000 && b == -1 then v == Err(Overflow)
    else
      && v.Ok?
      && var r := if op == '/' then a - b * v.v else v.v;
         && (a - r) % b == 0 && (if r < 0 then -r else r) < (if b < 0 then -b else b)
         && (r == 0 || (r < 0 <==> a < 0))
  }

  lemma NoRest(b: int, q: int)
    requires b != 0
    ensures (b * q) % b == 0
  {
    var y := if b < 0 then -b else b;
    var d := if b < 0 then -q - b * q / b else q - b * q / b;
    var k := b * q / b;
    assert b * q == b * k + b * q % b;
    assert b * (q - k) == b * q % b;
    if b < 0 {
      NegatedFactor(b, q - k);
      assert (-b) * (k - q) == b * q % b;
      OneMultiple(-b, k - q, b * q % b);
    } else {
      OneMultiple(b, q - k, b * q % b);
    }
  }

  /** A written quotient or remainder is what C divides the value on the left by that on the right into. */
  lemma WrittenQuotient(text: string, left: Term, ws: string, op: char, right: Factor)
    requires (op == '/' || op == '%') && Splits(text, left, ws, op, right)
    ensures Divided(op, EvalT(left).v, EvalF(right).v, Calculate(text))
  {
    hide Calculate, Quotient, Remainder;
    var a, b := EvalT(left).v, EvalF(right).v;
    OpRead(left, ws, op, right);
    if b != 0 && !(a == -0x8000_0000 && b == -1) {
      QuotientDivided(a, b);
    }
  }

  lemma QuotientDivided(a: int, b: int)
    requires b != 0 && !(a == -0x8000_0000 && b == -1)
    ensures Divided('/', a, b, Ok(Quotient(a, b))) && Divided('%', a, b, Ok(Remainder(a, b)))
  {
    hide Quotient, Remainder;
    var q, r := Quotient(a, b), Remainder(a, b);
    QuotientExactly(a, b, q, r);
    NoRest(b, q);
    assert a - r == b * q;
  }

  lemma OpRead(left: Term, ws: string, op: char, right: Factor)
    requires WellT(left) && WellF(right) && Spaces(ws) && IsMulOp(op) && DepthT(left) < 64 && DepthF(right) < 64
    ensures Calculate(TextT(left) + ws + [op] + TextF(right)) == Both(op, EvalT(left), EvalF(right))
  {
    var e := Single(Mul(left, ws, op, right));
    WrittenIsRead(e, "");
    assert TextE(e) + "" == TextE(e) == TextT(left) + ws + [op] + TextF(right);
  }

  /** A number in decimal. */
  function Decimal(n: nat): (ds: string)
    ensures Digits(ds)
  {
    var d := ['0', '1', '2', '3', '4', '5', '6', '7', '8', '9'][n % 10];
    if n < 10 then [d] else Decimal(n / 10) + [d]
  }

  lemma {:induction false} DecimalValue(n: nat)
    ensures DigitsValue(Decimal(n)) == n
  {
    var ds := Decimal(n);
    if n >= 10 {
      DecimalValue(n / 10);
      assert ds[..|ds| - 1] == Decimal(n / 10);
    }
  }

  /** A number in decimal is read as that number, as long as it fits. */
  lemma DecimalIsRead(n: nat)
    ensures Calculate(Decimal(n)) == if n <= 0x7FFF_FFFF then Ok(n) else Err(Overflow)
  {
    hide Calculate, DigitsValue, Decimal;
    DecimalValue(n);
    JustNumber(Decimal(n));
  }

  lemma JustNumber(ds: string)
    requires Digits(ds)
    ensures Calculate(ds) == InRange(DigitsValue(ds))
  {
    hide Calculate, DigitsValue;
    var f := Num("", ds);
    var e := Single(One(f));
    assert WellF(f) && DepthF(f) == 0 && TextF(f) == "" + ds == ds && EvalF(f) == InRange(DigitsValue(ds));
    assert WellT(One(f)) && DepthT(One(f)) == 0 && TextT(One(f)) == ds && EvalT(One(f)) == EvalF(f);
    WrittenIsRead(e, "");
    assert TextE(e) + "" == ds;
  }

  // ---------- what is read was written ----------

  lemma {:induction false} SkippedSpaces(text: string, p: nat)
    requires p <= |text|
    ensures Spaces(text[p..Skip(text, p)])
    decreases |text| - p
  {
    if p < |text| && IsSpace(text[p]) {
      SkippedSpaces(text, p + 1);
      var ws := text[p..Skip(text, p)];
      assert ws[1..] == text[p + 1..Skip(text, p)];
      assert forall i :: 0 < i < |ws| ==> ws[i] == ws[1..][i - 1];
    }
  }

  /** `f` is written from `p` to `q`, is worth `v` and does not nest past the limit. */
  predicate WritesF(text: string, p: nat, q: nat, f: Factor, v: int, depth: nat) {
    p <= q <= |text| && WellF(f) && text[p..q] == TextF(f) && EvalF(f) == Ok(v) && depth + DepthF(f) < MAX_DEPTH
  }

  predicate WritesT(text: string, p: nat, q: nat, t: Term, v: int, depth: nat) {
    p <= q <= |text| && WellT(t) && text[p..q] == TextT(t) && EvalT(t) == Ok(v) && depth + DepthT(t) < MAX_DEPTH
  }

  predicate WritesE(text: string, p: nat, q: nat, e: Expr, v: int, depth: nat) {
    p <= q <= |text| && WellE(e) && text[p..q] == TextE(e) && EvalE(e) == Ok(v) && depth + DepthE(e) < MAX_DEPTH
  }

  lemma NumWritten(text: string, p: nat, q: nat, depth: nat)
    requires p <= |text| && q == Skip(text, p) && depth < MAX_DEPTH && ReadNumber(text, q).Got?
    ensures var o := ReadNumber(text, q); WritesF(text, p, o.at, Num(text[p..q], text[q..o.at]), o.v, depth)
  {
    hide Skip, IsSpace, Spaces;
    SkippedSpaces(text, p);
    var at := EndOfDigits(text, q);
    assert text[p..at] == text[p..q] + text[q..at];
    NotNegative(text[q..at]);
  }

  lemma ParenWritten(text: string, p: nat, q: nat, e: Expr, v: int, r: nat, c: nat, depth: nat)
    requires p <= |text| && q == Skip(text, p) && q < |text| && text[q] == '(' && WritesE(text, q + 1, r, e, v, depth + 1)
    requires c == Skip(text, r) && c < |text| && text[c] == ')'
    ensures WritesF(text, p, c + 1, Paren(text[p..q], e, text[r..c]), v, depth)
  {
    hide Skip, IsSpace, Spaces, TextE, EvalE, WellE, DepthE;
    SkippedSpaces(text, p);
    SkippedSpaces(text, r);
    BracketText(text, p, q, r, c, TextE(e));
  }

  lemma BracketText(text: string, p: nat, q: nat, r: nat, c: nat, inner: string)
    requires p <= q < r <= c < |text| && text[q] == '(' && text[c] == ')' && text[q + 1..r] == inner
    ensures text[p..c + 1] == text[p..q] + "(" + inner + text[r..c] + ")"
  {
    FiveSlices(text, p, q, q + 1, r, c);
    assert text[q..q + 1] == "(" && text[c..c + 1] == ")";
  }

  lemma FiveSlices(text: string, a: nat, b: nat, c: nat, d: nat, e: nat)
    requires a <= b <= c <= d <= e < |text|
    ensures text[a..e + 1] == text[a..b] + text[b..c] + text[c..d] + text[d..e] + text[e..e + 1]
  {
    TwoSlices(text, a, b, c);
    TwoSlices(text, a, c, d);
    TwoSlices(text, a, d, e);
    TwoSlices(text, a, e, e + 1);
  }

  lemma TwoSlices(text: string, a: nat, b: nat, c: nat)
    requires a <= b <= c <= |text|
    ensures text[a..c] == text[a..b] + text[b..c]
  {
  }

  lemma SignWritten(text: string, p: nat, q: nat, g: Factor, v: int, r: nat, w: int, depth: nat)
    requires p <= |text| && q == Skip(text, p) && q < |text| && IsAddOp(text[q]) && WritesF(text, q + 1, r, g, v, depth + 1)
    requires if text[q] == '-' then InRange(-v) == Ok(w) else w == v
    ensures WritesF(text, p, r, Sign(text[p..q], text[q], g), w, depth)
  {
    hide Skip, IsSpace, Spaces, InRange;
    SkippedSpaces(text, p);
    ThreeSlices(text, p, q, r);
  }

  lemma ThreeSlices(text: string, a: nat, b: nat, d: nat)
    requires a <= b < d <= |text|
    ensures text[a..d] == text[a..b] + [text[b]] + text[b + 1..d]
  {
  }

  lemma FourSlices(text: string, a: nat, m: nat, b: nat, d: nat)
    requires a <= m <= b < d <= |text|
    ensures text[a..d] == text[a..m] + text[m..b] + [text[b]] + text[b + 1..d]
  {
  }

  lemma {:induction false} FactorWritten(text: string, p: nat, depth: nat) returns (f: Factor)
    requires p <= |text| && ReadFactor(text, p, depth).Got?
    ensures var o := ReadFactor(text, p, depth); WritesF(text, p, o.at, f, o.v, depth)
    decreases |text| - p, 0
  {
    hide Skip, IsSpace, WritesF, WritesE, ReadNumber, ReadFactor, ReadExpr, InRange;
    var q := Skip(text, p);
    NotTooDeep(text, p, depth);
    if q < |text| && text[q] == '(' {
      ParenStep(text, p, depth, q, ReadExpr(text, q + 1, depth + 1));
      var e, r := ExprWritten(text, q + 1, depth + 1);
      var x := ReadExpr(text, q + 1, depth + 1);
      SkipTwice(text, r);
      ParenWritten(text, p, q, e, x.v, r, Skip(text, r), depth);
      f := Paren(text[p..q], e, text[r..Skip(text, r)]);
    } else if q < |text| && IsAddOp(text[q]) {
      SignStep(text, p, depth, q);
      var g := FactorWritten(text, q + 1, depth + 1);
      var x := ReadFactor(text, q + 1, depth + 1);
      SignWritten(text, p, q, g, x.v, x.at, ReadFactor(text, p, depth).v, depth);
      f := Sign(text[p..q], text[q], g);
    } else {
      NumStep(text, p, depth, q);
      NumWritten(text, p, q, depth);
      f := Num(text[p..q], text[q..ReadNumber(text, q).at]);
    }
  }

  lemma NotTooDeep(text: string, p: nat, depth: nat)
    requires p <= |text| && ReadFactor(text, p, depth).Got?
    ensures depth < MAX_DEPTH
  {
    hide Skip, ReadNumber, ReadExpr;
  }

  lemma NumStep(text: string, p: nat, depth: nat, q: nat)
    requires p <= |text| && q == Skip(text, p) && depth < MAX_DEPTH
    requires !(q < |text| && (text[q] == '(' || IsAddOp(text[q])))
    ensures ReadFactor(text, p, depth) == ReadNumber(text, q)
  {
    hide Skip, ReadNumber, ReadExpr;
  }

  lemma {:induction false} TermWritten(text: string, p: nat, depth: nat) returns (t: Term, r: nat)
    requires p <= |text| && ReadTerm(text, p, depth).Got?
    ensures var o := ReadTerm(text, p, depth);
            WritesT(text, p, r, t, o.v, depth) && p < r <= o.at && o.at == Skip(text, r)
    decreases |text| - p, 1
  {
    hide Skip, ReadFactor, ReadFactors, WellF, TextF, EvalF, DepthF;
    var f := FactorWritten(text, p, depth);
    var o := ReadFactor(text, p, depth);
    t, r := FactorsWritten(text, p, One(f), o.v, o.at, depth);
  }

  lemma MulWritten(text: string, p: nat, m: nat, t: Term, v: int, q: nat, f: Factor, w: int, x: nat, n: int, depth: nat)
    requires WritesT(text, p, m, t, v, depth) && q == Skip(text, m) && q < |text| && IsMulOp(text[q])
    requires WritesF(text, q + 1, x, f, w, depth) && Apply(text[q], v, w) == Ok(n)
    ensures WritesT(text, p, x, Mul(t, text[m..q], text[q], f), n, depth)
  {
    hide Skip, IsSpace, Spaces, Apply, WellF, TextF, EvalF, DepthF;
    SkippedSpaces(text, m);
    FourSlices(text, p, m, q, x);
  }

  /** The end of a run of factors, and one more of them. */
  lemma FactorsCases(text: string, v: int, m: nat, depth: nat, q: nat)
    requires m <= |text| && q == Skip(text, m) && ReadFactors(text, v, m, depth).Got?
    ensures !(q < |text| && IsMulOp(text[q])) ==> ReadFactors(text, v, m, depth) == Got(v, q)
    ensures q < |text| && IsMulOp(text[q]) ==>
              var x := ReadFactor(text, q + 1, depth);
              && x.Got? && Apply(text[q], v, x.v).Ok?
              && ReadFactors(text, v, m, depth) == ReadFactors(text, Apply(text[q], v, x.v).v, x.at, depth)
  {
    hide Skip, ReadFactor, Apply, IsSpace;
  }

  lemma {:induction false} FactorsWritten(text: string, p: nat, t0: Term, v: int, m: nat, depth: nat)
    returns (t: Term, r: nat)
    requires WritesT(text, p, m, t0, v, depth) && p < m && m <= |text| && ReadFactors(text, v, m, depth).Got?
    ensures var o := ReadFactors(text, v, m, depth);
            WritesT(text, p, r, t, o.v, depth) && p < r <= o.at && o.at == Skip(text, r)
    decreases |text| - m, 1
  {
    hide Skip, IsSpace, ReadFactor, ReadFactors, Apply, WritesT, WritesF;
    var q := Skip(text, m);
    FactorsCases(text, v, m, depth, q);
    if !(q < |text| && IsMulOp(text[q])) {
      t, r := t0, m;
    } else {
      var f := FactorWritten(text, q + 1, depth);
      var x := ReadFactor(text, q + 1, depth);
      var n := Apply(text[q], v, x.v).v;
      MulWritten(text, p, m, t0, v, q, f, x.v, x.at, n, depth);
      t, r := FactorsWritten(text, p, Mul(t0, text[m..q], text[q], f), n, x.at, depth);
    }
  }

  lemma {:induction false} ExprWritten(text: string, p: nat, depth: nat) returns (e: Expr, r: nat)
    requires p <= |text| && ReadExpr(text, p, depth).Got?
    ensures var o := ReadExpr(text, p, depth);
            WritesE(text, p, r, e, o.v, depth) && p < r <= o.at && o.at == Skip(text, r)
    decreases |text| - p, 3
  {
    hide Skip, ReadTerm, ReadTerms, WellT, TextT, EvalT, DepthT;
    var t, m := TermWritten(text, p, depth);
    var o := ReadTerm(text, p, depth);
    e, r := TermsWritten(text, p, Single(t), o.v, m, o.at, depth);
  }

  lemma AddWritten(text: string, p: nat, m: nat, e: Expr, v: int, q: nat, t: Term, w: int, x: nat, n: int, depth: nat)
    requires WritesE(text, p, m, e, v, depth) && q == Skip(text, m) && q < |text| && IsAddOp(text[q])
    requires WritesT(text, q + 1, x, t, w, depth) && Apply(text[q], v, w) == Ok(n)
    ensures WritesE(text, p, x, Add(e, text[m..q], text[q], t), n, depth)
  {
    hide Skip, IsSpace, Spaces, Apply, WellT, TextT, EvalT, DepthT;
    SkippedSpaces(text, m);
    FourSlices(text, p, m, q, x);
  }

  lemma TermsCases(text: string, v: int, p: nat, depth: nat, q: nat)
    requires p <= |text| && q == Skip(text, p) && ReadTerms(text, v, p, depth).Got?
    ensures !(q < |text| && IsAddOp(text[q])) ==> ReadTerms(text, v, p, depth) == Got(v, q)
    ensures q < |text| && IsAddOp(text[q]) ==>
              var x := ReadTerm(text, q + 1, depth);
              && x.Got? && Apply(text[q], v, x.v).Ok?
              && ReadTerms(text, v, p, depth) == ReadTerms(text, Apply(text[q], v, x.v).v, x.at, depth)
  {
    hide Skip, ReadTerm, Apply, IsSpace;
  }

  lemma {:induction false} TermsWritten(text: string, p: nat, e0: Expr, v: int, m: nat, at: nat, depth: nat)
    returns (e: Expr, r: nat)
    requires WritesE(text, p, m, e0, v, depth) && p < m && m <= at <= |text| && at == Skip(text, m)
    requires ReadTerms(text, v, at, depth).Got?
    ensures var o := ReadTerms(text, v, at, depth);
            WritesE(text, p, r, e, o.v, depth) && p < r <= o.at && o.at == Skip(text, r)
    decreases |text| - at, 2
  {
    hide Skip, IsSpace, ReadTerm, ReadTerms, Apply, WritesT, WritesE;
    SkipTwice(text, m);
    TermsCases(text, v, at, depth, at);
    if !(at < |text| && IsAddOp(text[at])) {
      e, r := e0, m;
    } else {
      var t, m1 := TermWritten(text, at + 1, depth);
      var x := ReadTerm(text, at + 1, depth);
      var n := Apply(text[at], v, x.v).v;
      AddWritten(text, p, m, e0, v, at, t, x.v, m1, n, depth);
      e, r := TermsWritten(text, p, Add(e0, text[m..at], text[at], t), n, m1, x.at, depth);
    }
  }

  /** The text is `e`, and white space; `e` is nested below the limit and is worth `v`. */
  predicate WrittenAs(text: string, e: Expr, ws: string, v: int) {
    WellE(e) && Spaces(ws) && DepthE(e) < MAX_DEPTH && text == TextE(e) + ws && EvalE(e) == Ok(v)
  }

  /** A text has a value exactly when it is written from a tree nested below the limit that has this value. */
  lemma ValueExactly(text: string, v: int)
    ensures Calculate(text) == Ok(v) <==> exists e, ws :: WrittenAs(text, e, ws, v)
  {
    hide Skip, ReadExpr, WellE, TextE, EvalE, DepthE, Spaces;
    if Calculate(text) == Ok(v) {
      var e, r := ExprWritten(text, 0, 0);
      SkippedSpaces(text, r);
      SkipTwice(text, r);
      assert text[r..Skip(text, r)] == text[r..];
      assert text == text[0..r] + text[r..];
      assert WrittenAs(text, e, text[r..], v);
    }
    forall e, ws | WrittenAs(text, e, ws, v)
      ensures Calculate(text) == Ok(v)
    {
      WrittenIsRead(e, ws);
    }
  }

  // ---------- the reader ----------

  /** `calc_parser_t`: where the reader is in the text, how deep, and the error met, if any. */
  class Parser {
    const text: string
    var p: nat
    var depth: nat
    var err: Option<Error>

    constructor (text: string)
      ensures this.text == text && p == 0 && depth == 0 && err == None
    {
      this.text, p, depth, err := text, 0, 0, None;
    }

    ghost predicate Fine()
      reads this
    {
      p <= |text| && err == None
    }

    /** The reader has come to what the function says. */
    ghost predicate CameTo(o: Out, v: int)
      reads this
    {
      p <= |text| && match o
                     case Got(n, at) => err == None && v == n && p == at
                     case Fail(e) => err == Some(e)
    }

    method SkipWs()
      requires p <= |text|
      modifies this`p
      ensures p == Skip(text, old(p)) <= |text|
    {
      while p < |text| && (text[p] == ' ' || text[p] == '\t' || text[p] == '\n' || text[p] == '\r')
        invariant p <= |text| && Skip(text, p) == Skip(text, old(p))
      {
        p := p + 1;
      }
    }

    /** `parse_number`: the digits go into the value while it stays in range. */
    method ParseNumber() returns (v: int)
      requires Fine()
      modifies this`p, this`err
      ensures CameTo(ReadNumber(text, old(p)), v)
    {
      hide EndOfDigits, DigitsValue, ReadNumber;
      ghost var start := p;
      ghost var end := EndOfDigits(text, p);
      NumberStart(text, start, end);
      if !(p < |text| && '0' <= text[p] <= '9') {
        err := Some(Syntax);
        return 0;
      }
      v := 0;
      while p < |text| && '0' <= text[p] <= '9'
        invariant start <= p <= end <= |text| && err == None && end == EndOfDigits(text, start) && start < end
        invariant v == DigitsValue(text[start..p]) && 0 <= v <= LONG_MAX
        decreases |text| - p
      {
        var d := (text[p] as int) - ('0' as int);
        NumberStep(text, start, p, end, v);
        if v > (LONG_MAX - d) / 10 {
          err := Some(Overflow);
          return 0;
        }
        v := v * 10 + d;
        p := p + 1;
      }
      NumberDone(text, start, p, end, v);
    }

    method ParseFactor() returns (v: int)
      requires Fine()
      modifies this
      ensures CameTo(ReadFactor(text, old(p), old(depth)), v) && depth == old(depth)
      decreases |text| - p, 0
    {
      hide Skip, ReadNumber, ReadExpr, ReadFactor, InRange;
      ghost var start := p;
      SkipWs();
      if depth >= MAX_DEPTH {
        TooDeep(text, start, depth);
        err := Some(Complex);
        return 0;
      }
      if p < |text| && text[p] == '(' {
        ParenStep(text, start, depth, p, ReadExpr(text, p + 1, depth + 1));
        p := p + 1;
        depth := depth + 1;
        v := ParseExpr();
        depth := depth - 1;
        if err != None {
          return 0;
        }
        SkipWs();
        if !(p < |text| && text[p] == ')') {
          err := Some(Syntax);
          return 0;
        }
        p := p + 1;
        return;
      }
      if p < |text| && (text[p] == '-' || text[p] == '+') {
        SignStep(text, start, depth, p);
        var c := text[p];
        p := p + 1;
        depth := depth + 1;
        v := ParseFactor();
        depth := depth - 1;
        if err != None {
          return 0;
        }
        if c == '+' {
          return;
        }
        NegationFits(v);
        if !(LONG_MIN <= 0 - v <= LONG_MAX) {
          err := Some(Overflow);
          return 0;
        }
        return 0 - v;
      }
      NumStep(text, start, depth, p);
      v := ParseNumber();
    }

    method ParseTerm() returns (v: int)
      requires Fine()
      modifies this
      ensures CameTo(ReadTerm(text, old(p), old(depth)), v) && depth == old(depth)
      decreases |text| - p, 1
    {
      hide Skip, ReadFactor, ReadFactors, Apply;
      ghost var start := p;
      v := ParseFactor();
      ghost var o := ReadTerm(text, start, depth);
      while err == None
        invariant p <= |text| && depth == old(depth)
        invariant start < p || err != None
        invariant err == None ==> ReadFactors(text, v, p, depth) == o
        invariant err != None ==> o == Fail(err.value)
        decreases if err == None then |text| - p + 1 else 0
      {
        ghost var before, was := p, v;
        SkipWs();
        MulCases(text, v, before, depth, p);
        if !(p < |text| && (text[p] == '*' || text[p] == '/' || text[p] == '%')) {
          break;
        }
        var c := text[p];
        p := p + 1;
        var rhs := ParseFactor();
        if err != None {
          return 0;
        }
        OpCases(c, v, rhs);
        if c == '*' {
          if !(LONG_MIN <= v * rhs <= LONG_MAX) {
            err := Some(Overflow);
            return 0;
          }
          v := v * rhs;
          continue;
        }
        if rhs == 0 {
          err := Some(DivZero);
          return 0;
        }
        if rhs == -1 && v == LONG_MIN {
          err := Some(Overflow);
          return 0;
        }
        v := if c == '/' then Quotient(v, rhs) else Remainder(v, rhs);
      }
    }

    method ParseExpr() returns (v: int)
      requires Fine()
      modifies this
      ensures CameTo(ReadExpr(text, old(p), old(depth)), v) && depth == old(depth)
      decreases |text| - p, 2
    {
      hide Skip, ReadTerm, ReadTerms, Apply;
      ghost var start := p;
      v := ParseTerm();
      ghost var o := ReadExpr(text, start, depth);
      while err == None
        invariant p <= |text| && depth == old(depth)
        invariant start < p || err != None
        invariant err == None ==> ReadTerms(text, v, p, depth) == o
        invariant err != None ==> o == Fail(err.value)
        decreases if err == None then |text| - p + 1 else 0
      {
        ghost var before := p;
        SkipWs();
        AddCases(text, v, before, depth, p);
        if !(p < |text| && (text[p] == '+' || text[p] == '-')) {
          break;
        }
        var c := text[p];
        p := p + 1;
        var rhs := ParseTerm();
        if err != None {
          return 0;
        }
        OpCases(c, v, rhs);
        var r := if c == '+' then v + rhs else v - rhs;
        if !(LONG_MIN <= r <= LONG_MAX) {
          err := Some(Overflow);
          return 0;
        }
        v := r;
      }
    }
  }

  lemma TooDeep(text: string, p: nat, depth: nat)
    requires p <= |text| && depth >= MAX_DEPTH
    ensures ReadFactor(text, p, depth) == Fail(Complex)
  {
    hide Skip, ReadExpr, ReadNumber;
  }

  lemma NegationFits(v: int)
    ensures InRange(-v) == if LONG_MIN <= 0 - v <= LONG_MAX then Ok(0 - v) else Err(Overflow)
  {
  }

  lemma OpCases(c: char, a: int, b: int)
    ensures c == '+' ==> Apply(c, a, b) == if LONG_MIN <= a + b <= LONG_MAX then Ok(a + b) else Err(Overflow)
    ensures c == '-' ==> Apply(c, a, b) == if LONG_MIN <= a - b <= LONG_MAX then Ok(a - b) else Err(Overflow)
    ensures c == '*' ==> Apply(c, a, b) == if LONG_MIN <= a * b <= LONG_MAX then Ok(a * b) else Err(Overflow)
    ensures c == '/' || c == '%' ==>
              Apply(c, a, b) == if b == 0 then Err(DivZero) else if b == -1 && a == LONG_MIN then Err(Overflow)
                                else if c == '/' then Ok(Quotient(a, b)) else Ok(Remainder(a, b))
  {
  }

  /** The next round of a term, or its end. */
  lemma MulCases(text: string, v: int, m: nat, depth: nat, q: nat)
    requires m <= |text| && q == Skip(text, m)
    ensures var o := ReadFactors(text, v, m, depth);
            if !(q < |text| && IsMulOp(text[q])) then o == Got(v, q)
            else
              var x := ReadFactor(text, q + 1, depth);
              if x.Fail? then o == x
              else
                var w := Apply(text[q], v, x.v);
                o == if w.Ok? then ReadFactors(text, w.v, x.at, depth) else Fail(w.e)
  {
    hide Skip, ReadFactor, Apply, IsSpace;
  }

  lemma AddCases(text: string, v: int, m: nat, depth: nat, q: nat)
    requires m <= |text| && q == Skip(text, m)
    ensures var o := ReadTerms(text, v, m, depth);
            if !(q < |text| && IsAddOp(text[q])) then o == Got(v, q)
            else
              var x := ReadTerm(text, q + 1, depth);
              if x.Fail? then o == x
              else
                var w := Apply(text[q], v, x.v);
                o == if w.Ok? then ReadTerms(text, w.v, x.at, depth) else Fail(w.e)
  {
    hide Skip, ReadTerm, Apply, IsSpace;
  }

  /** `calc_eval`. */
  method CalcEval(text: string) returns (r: Value)
    ensures r == Calculate(text)
    ensures forall v :: r == Ok(v) <==> exists e, ws :: WrittenAs(text, e, ws, v)
    ensures forall left, ws, op, right :: (op == '/' || op == '%') && Splits(text, left, ws, op, right) ==>
              Divided(op, EvalT(left).v, EvalF(right).v, r)
  {
    hide ReadExpr, Skip, WrittenAs, Splits, Divided, WellT, WellF, EvalT, EvalF;
    forall left, ws, op, right | (op == '/' || op == '%') && Splits(text, left, ws, op, right)
      ensures Divided(op, EvalT(left).v, EvalF(right).v, Calculate(text))
    {
      WrittenQuotient(text, left, ws, op, right);
    }
    forall v
      ensures Calculate(text) == Ok(v) <==> exists e, ws :: WrittenAs(text, e, ws, v)
    {
      ValueExactly(text, v);
    }
    var ps := new Parser(text);
    var v := ps.ParseExpr();
    if ps.err != None {
      return Err(ps.err.value);
    }
    ps.SkipWs();
    if ps.p < |text| {
      return Err(Trailing);
    }
    return Ok(v);
  }

  lemma NumberStart(text: string, start: nat, end: nat)
    requires start <= |text| && end == EndOfDigits(text, start)
    ensures DigitsValue(text[start..start]) == 0 && forall i :: start <= i < end ==> IsDigit(text[i])
    ensures start < end <==> start < |text| && IsDigit(text[start])
    ensures start == end ==> ReadNumber(text, start) == Fail(Syntax)
  {
  }

  /** One more digit: the test before it is taken is exact, and a number too large stays too large. */
  lemma NumberStep(text: string, start: nat, p: nat, end: nat, v: int)
    requires start <= p < |text| && IsDigit(text[p]) && p <= end <= |text| && start < end && end == EndOfDigits(text, start)
    requires (forall i :: start <= i < end ==> IsDigit(text[i])) && v == DigitsValue(text[start..p]) && 0 <= v <= LONG_MAX
    ensures p < end && (forall i :: start <= i < p + 1 ==> IsDigit(text[i]))
    ensures var d := (text[p] as int) - ('0' as int);
            && 0 <= d <= 9 && (v > (LONG_MAX - d) / 10 <==> v * 10 + d > LONG_MAX)
            && DigitsValue(text[start..p + 1]) == v * 10 + d
            && (v * 10 + d > LONG_MAX ==> ReadNumber(text, start) == Fail(Overflow))
  {
    hide DigitsValue;
    OneDigit(text, start, p);
    DigitsGrow(text, start, p + 1, end);
  }

  lemma NumberDone(text: string, start: nat, p: nat, end: nat, v: int)
    requires start < end <= |text| && end == EndOfDigits(text, start) && start <= p <= end
    requires !(p < |text| && IsDigit(text[p])) && (forall i :: start <= i < end ==> IsDigit(text[i]))
    requires v == DigitsValue(text[start..p]) && v <= LONG_MAX
    ensures p == end && ReadNumber(text, start) == Got(v, p)
  {
    hide DigitsValue, EndOfDigits;
  }

  lemma OneDigit(text: string, start: nat, p: nat)
    requires start <= p < |text| && forall i :: start <= i <= p ==> IsDigit(text[i])
    ensures DigitsValue(text[start..p + 1]) == 10 * DigitsValue(text[start..p]) + ((text[p] as int) - ('0' as int))
  {
    var s := text[start..p + 1];
    assert s[..|s| - 1] == text[start..p];
  }

  /** More digits never make a smaller number. */
  lemma {:induction false} DigitsGrow(text: string, start: nat, p: nat, q: nat)
    requires start <= p <= q <= |text| && forall i :: start <= i < q ==> IsDigit(text[i])
    ensures DigitsValue(text[start..p]) <= DigitsValue(text[start..q])
    decreases q - p
  {
    if p < q {
      DigitsGrow(text, start, p, q - 1);
      OneDigit(text, start, q - 1);
    }
  }
}
