/** The calculator of src/calc.rs: a tokeniser and a recursive-descent parser that evaluates as it reads. */
module Calc {
  import opened Prelude
  import opened Text

  const MAX: int := 0x7fff_ffff_ffff_ffff
  const MIN: int := -0x8000_0000_0000_0000

  datatype Token = Num(n: int) | Plus | Minus | Star | Slash | Percent | LParen | RParen

  datatype Op = Add | Sub | Mul | Div | Rem {
    function Spelled(): Token {
      match this
      case Add => Plus
      case Sub => Minus
      case Mul => Star
      case Div => Slash
      case Rem => Percent
    }

    /** 2 for the operators of an expression, 1 for those of a term. */
    function Level(): nat {
      if Add? || Sub? then 2 else 1
    }
  }

  /** Why there is no value: a message of the source, or a result outside 64 bits. */
  datatype Fault = Message(text: string) | Overflow

  type Outcome = Result<int, Fault>

  function Checked(v: int): Outcome {
    if MIN <= v <= MAX then Ok(v) else Err(Overflow)
  }

  /** One operator on 64-bit integers; division rounds toward zero. */
  function Apply(op: Op, a: int, b: int): Outcome {
    match op
    case Add => Checked(a + b)
    case Sub => Checked(a - b)
    case Mul => Checked(a * b)
    case Div => if b == 0 then Err(Message("division by zero")) else Checked(TruncDiv(a, b))
    case Rem =>
      if b == 0 then Err(Message("modulo by zero"))
      else if b == -1 && a == MIN then Err(Overflow)
      else Ok(TruncRem(a, b))
  }

  lemma QuotientHalves(n: nat, b: int)
    requires Abs(b) >= 2
    ensures 2 * Abs(n / b) <= n
  {
    EuclidLaw(n, b);
    OppositeSigns(n, b);
    AbsProduct(n / b, b);
    MulMonotone(2, Abs(b), Abs(n / b));
  }

  lemma AbsProduct(q: int, b: int)
    ensures Abs(q * b) == Abs(q) * Abs(b)
  {
  }

  lemma OppositeSigns(n: nat, b: int)
    requires b != 0
    ensures n / b * b >= 0
  {
    assert n / b * b == n - n % b;
  }

  /** On 64-bit operands division overflows only when the least integer is divided by -1. */
  lemma DivisionOverflows(a: int, b: int)
    requires MIN <= a <= MAX && MIN <= b <= MAX
    ensures Apply(Div, a, b) == Err(Overflow) <==> a == MIN && b == -1
    ensures Apply(Rem, a, b) == Err(Overflow) <==> a == MIN && b == -1
  {
    if Abs(b) >= 2 {
      QuotientHalves(Abs(a), b);
    } else if b == 1 || b == -1 {
      var n: int := Abs(a);
      assert n / 1 == n && n / -1 == -n;
    }
  }

  /** What literals, parentheses and operators make. The parser is the same for every algebra. */
  datatype Algebra<!V> = Algebra(lit: int -> V, group: V -> V, apply: (Op, V, V) -> Result<V, Fault>)

  /** The calculator computes with 64-bit integers. */
  function Integers(): Algebra<int> {
    Algebra((n: int) => n, (v: int) => v, Apply)
  }

  // ----- The grammar and the value of a sentence -----

  datatype Tree = Lit(n: int) | Group(body: Tree) | Bin(op: Op, left: Tree, right: Tree)

  /** The tree derives from a factor (level 0), a term (1) or an expression (2). */
  predicate Fits(t: Tree, level: nat) {
    match t
    case Lit(_) => true
    case Group(body) => Fits(body, 2)
    case Bin(op, l, r) => op.Level() <= level && Fits(l, op.Level()) && Fits(r, op.Level() - 1)
  }

  function Yield(t: Tree): (r: seq<Token>)
    ensures r != []
  {
    match t
    case Lit(n) => [Num(n)]
    case Group(body) => [LParen] + Yield(body) + [RParen]
    case Bin(op, l, r) => Yield(l) + [op.Spelled()] + Yield(r)
  }

  /** The value, or the first fault from left to right. */
  function Value<V>(f: Algebra<V>, t: Tree): Result<V, Fault> {
    match t
    case Lit(n) => Ok(f.lit(n))
    case Group(body) =>
      var v := Value(f, body);
      if v.Err? then v else Ok(f.group(v.value))
    case Bin(op, l, r) => Combine(f, op, Value(f, l), Value(f, r))
  }

  function Combine<V>(f: Algebra<V>, op: Op, a: Result<V, Fault>, b: Result<V, Fault>): Result<V, Fault> {
    if a.Err? then a else if b.Err? then b else f.apply(op, a.value, b.value)
  }

  /** The tokens are exactly one sentence of the grammar, with this outcome. */
  ghost predicate Sentence<V>(f: Algebra<V>, ts: seq<Token>, v: Result<V, Fault>) {
    exists t: Tree :: Fits(t, 2) && Yield(t) == ts && Value(f, t) == v
  }

  // ----- The parser on token sequences -----

  datatype Parse<V> = Got(v: V, rest: seq<Token>) | Stop(why: Fault)

  function OpOf(t: Token): (r: Option<Op>)
    ensures r.Some? ==> r.value.Spelled() == t
  {
    match t
    case Plus => Some(Add)
    case Minus => Some(Sub)
    case Star => Some(Mul)
    case Slash => Some(Div)
    case Percent => Some(Rem)
    case _ => None
  }

  /** The tokens begin with an operator of the given level. */
  predicate Continues(ts: seq<Token>, level: nat) {
    ts != [] && OpOf(ts[0]).Some? && OpOf(ts[0]).value.Level() == level
  }

  function Factor<V>(f: Algebra<V>, ts: seq<Token>): (p: Parse<V>)
    ensures p.Got? ==> |p.rest| < |ts|
    decreases |ts|, 0
  {
    if ts == [] then Stop(Message("unexpected end of expression"))
    else if ts[0].Num? then Got(f.lit(ts[0].n), ts[1..])
    else if ts[0].LParen? then
      var p := Expression(f, ts[1..]);
      if p.Stop? then p
      else if p.rest == [] || p.rest[0] != RParen then Stop(Message("missing closing parenthesis"))
      else Got(f.group(p.v), p.rest[1..])
    else Stop(Message("expected number or '('"))
  }

  function Term<V>(f: Algebra<V>, ts: seq<Token>): (p: Parse<V>)
    ensures p.Got? ==> |p.rest| < |ts|
    decreases |ts|, 2
  {
    var p := Factor(f, ts);
    if p.Stop? then p else TermLoop(f, p.v, p.rest)
  }

  function TermLoop<V>(f: Algebra<V>, left: V, ts: seq<Token>): (p: Parse<V>)
    ensures p.Got? ==> |p.rest| <= |ts|
    decreases |ts|, 1
  {
    if !Continues(ts, 1) then Got(left, ts)
    else
      var p := Factor(f, ts[1..]);
      if p.Stop? then p
      else
        var v := f.apply(OpOf(ts[0]).value, left, p.v);
        if v.Err? then Stop(v.error) else TermLoop(f, v.value, p.rest)
  }

  function Expression<V>(f: Algebra<V>, ts: seq<Token>): (p: Parse<V>)
    ensures p.Got? ==> |p.rest| < |ts|
    decreases |ts|, 4
  {
    var p := Term(f, ts);
    if p.Stop? then p else ExpressionLoop(f, p.v, p.rest)
  }

  function ExpressionLoop<V>(f: Algebra<V>, left: V, ts: seq<Token>): (p: Parse<V>)
    ensures p.Got? ==> |p.rest| <= |ts|
    decreases |ts|, 3
  {
    if !Continues(ts, 2) then Got(left, ts)
    else
      var p := Term(f, ts[1..]);
      if p.Stop? then p
      else
        var v := f.apply(OpOf(ts[0]).value, left, p.v);
        if v.Err? then Stop(v.error) else ExpressionLoop(f, v.value, p.rest)
  }

  function EvalTokens<V>(f: Algebra<V>, ts: seq<Token>): Result<V, Fault> {
    var p := Expression(f, ts);
    if p.Stop? then Err(p.why)
    else if p.rest != [] then Err(Message("unexpected token after expression"))
    else Ok(p.v)
  }

  // ----- Every sentence is evaluated to its value -----

  lemma RegroupBin(a: seq<Token>, x: Token, b: seq<Token>, rest: seq<Token>)
    ensures (a + [x] + b) + rest == a + ([x] + (b + rest))
  {
  }

  lemma RegroupGroup(x: Token, a: seq<Token>, y: Token, rest: seq<Token>)
    ensures ([x] + a + [y]) + rest == [x] + (a + ([y] + rest))
  {
  }

  lemma RegroupSplit(l: Tree, op: Op, r: Tree, ts: seq<Token>, rest: seq<Token>)
    requires ts != [] && ts[0] == op.Spelled() && ts[1..] == Yield(r) + rest
    ensures Yield(l) + ts == Yield(Bin(op, l, r)) + rest
  {
    RegroupBin(Yield(l), op.Spelled(), Yield(r), rest);
    assert ts == [ts[0]] + ts[1..];
  }

  function FactorThen<V>(v: Result<V, Fault>, rest: seq<Token>): Parse<V> {
    if v.Err? then Stop(v.error) else Got(v.value, rest)
  }

  function TermThen<V>(f: Algebra<V>, v: Result<V, Fault>, rest: seq<Token>): Parse<V> {
    if v.Err? then Stop(v.error) else TermLoop(f, v.value, rest)
  }

  function ExpressionThen<V>(f: Algebra<V>, v: Result<V, Fault>, rest: seq<Token>): Parse<V> {
    if v.Err? then Stop(v.error) else ExpressionLoop(f, v.value, rest)
  }

  lemma {:induction false} FactorOfSentence<V>(f: Algebra<V>, t: Tree, rest: seq<Token>)
    requires Fits(t, 0)
    ensures Factor(f, Yield(t) + rest) == FactorThen(Value(f, t), rest)
    decreases t, 0
  {
    var ts := Yield(t) + rest;
    if t.Lit? {
      assert ts[1..] == rest;
    } else {
      var inner := [RParen] + rest;
      assert ts[1..] == Yield(t.body) + inner;
      ExpressionOfSentence(f, t.body, inner);
      assert inner[1..] == rest;
    }
  }

  lemma {:induction false} TermOfSentence<V>(f: Algebra<V>, t: Tree, rest: seq<Token>)
    requires Fits(t, 1)
    ensures Term(f, Yield(t) + rest) == TermThen(f, Value(f, t), rest)
    decreases t, 1
  {
    if t.Bin? {
      var after := [t.op.Spelled()] + (Yield(t.right) + rest);
      RegroupBin(Yield(t.left), t.op.Spelled(), Yield(t.right), rest);
      TermOfSentence(f, t.left, after);
      FactorOfSentence(f, t.right, rest);
      if Value(f, t.left).Ok? {
        TermLoopOn(f, Value(f, t.left).value, t.op, Yield(t.right) + rest);
      }
    } else {
      FactorOfSentence(f, t, rest);
    }
  }

  lemma TermLoopOn<V>(f: Algebra<V>, left: V, op: Op, ts: seq<Token>)
    requires op.Level() == 1
    ensures var p := Factor(f, ts);
            TermLoop(f, left, [op.Spelled()] + ts) ==
            if p.Stop? then p else TermThen(f, f.apply(op, left, p.v), p.rest)
  {
    assert ([op.Spelled()] + ts)[1..] == ts;
  }

  lemma {:induction false} ExpressionOfSentence<V>(f: Algebra<V>, t: Tree, rest: seq<Token>)
    requires Fits(t, 2) && !Continues(rest, 1)
    ensures Expression(f, Yield(t) + rest) == ExpressionThen(f, Value(f, t), rest)
    decreases t, 2
  {
    if t.Bin? && t.op.Level() == 2 {
      var after := [t.op.Spelled()] + (Yield(t.right) + rest);
      RegroupBin(Yield(t.left), t.op.Spelled(), Yield(t.right), rest);
      ExpressionOfSentence(f, t.left, after);
      assert after[1..] == Yield(t.right) + rest;
      TermOfSentence(f, t.right, rest);
    } else {
      TermOfSentence(f, t, rest);
    }
  }

  /** A sentence evaluates to the value of its tree, or to the first fault of its tree. */
  lemma SentenceEvaluates<V>(f: Algebra<V>, t: Tree)
    requires Fits(t, 2)
    ensures EvalTokens(f, Yield(t)) == Value(f, t)
  {
    assert Yield(t) + [] == Yield(t);
    ExpressionOfSentence(f, t, []);
  }

  // ----- Only sentences are evaluated to a value -----

  lemma {:induction false} FactorHasTree<V>(f: Algebra<V>, ts: seq<Token>) returns (t: Tree)
    requires Factor(f, ts).Got?
    ensures Fits(t, 0) && Value(f, t) == Ok(Factor(f, ts).v) && ts == Yield(t) + Factor(f, ts).rest
    decreases |ts|, 0
  {
    if ts[0].Num? {
      t := Lit(ts[0].n);
    } else {
      var body := ExpressionHasTree(f, ts[1..]);
      t := Group(body);
      var p := Expression(f, ts[1..]);
      assert ts == [LParen] + (Yield(body) + ([RParen] + p.rest[1..]));
    }
  }

  lemma {:induction false} TermHasTree<V>(f: Algebra<V>, ts: seq<Token>) returns (t: Tree)
    requires Term(f, ts).Got?
    ensures Fits(t, 1) && Value(f, t) == Ok(Term(f, ts).v) && ts == Yield(t) + Term(f, ts).rest
    decreases |ts|, 2
  {
    var l := FactorHasTree(f, ts);
    t := TermLoopHasTree(f, l, Factor(f, ts).v, Factor(f, ts).rest);
  }

  lemma {:induction false} TermLoopHasTree<V>(f: Algebra<V>, l: Tree, left: V, ts: seq<Token>) returns (t: Tree)
    requires Fits(l, 1) && Value(f, l) == Ok(left) && TermLoop(f, left, ts).Got?
    ensures Fits(t, 1) && Value(f, t) == Ok(TermLoop(f, left, ts).v)
    ensures Yield(l) + ts == Yield(t) + TermLoop(f, left, ts).rest
    decreases |ts|, 1
  {
    if Continues(ts, 1) {
      var op, p := OpOf(ts[0]).value, Factor(f, ts[1..]);
      var r := FactorHasTree(f, ts[1..]);
      var b := Bin(op, l, r);
      RegroupSplit(l, op, r, ts, p.rest);
      t := TermLoopHasTree(f, b, f.apply(op, left, p.v).value, p.rest);
    } else {
      t := l;
    }
  }

  lemma {:induction false} ExpressionHasTree<V>(f: Algebra<V>, ts: seq<Token>) returns (t: Tree)
    requires Expression(f, ts).Got?
    ensures Fits(t, 2) && Value(f, t) == Ok(Expression(f, ts).v) && ts == Yield(t) + Expression(f, ts).rest
    decreases |ts|, 4
  {
    var l := TermHasTree(f, ts);
    FitsHigher(l, 1);
    t := ExpressionLoopHasTree(f, l, Term(f, ts).v, Term(f, ts).rest);
  }

  lemma FitsHigher(t: Tree, level: nat)
    requires Fits(t, level)
    ensures Fits(t, level + 1)
  {
  }

  lemma {:induction false} ExpressionLoopHasTree<V>(f: Algebra<V>, l: Tree, left: V, ts: seq<Token>) returns (t: Tree)
    requires Fits(l, 2) && Value(f, l) == Ok(left) && ExpressionLoop(f, left, ts).Got?
    ensures Fits(t, 2) && Value(f, t) == Ok(ExpressionLoop(f, left, ts).v)
    ensures Yield(l) + ts == Yield(t) + ExpressionLoop(f, left, ts).rest
    decreases |ts|, 3
  {
    if Continues(ts, 2) {
      var op, p := OpOf(ts[0]).value, Term(f, ts[1..]);
      var r := TermHasTree(f, ts[1..]);
      var b := Bin(op, l, r);
      RegroupSplit(l, op, r, ts, p.rest);
      t := ExpressionLoopHasTree(f, b, f.apply(op, left, p.v).value, p.rest);
    } else {
      t := l;
    }
  }

  /** Evaluation yields v exactly when the tokens are one sentence whose value is v. */
  lemma EvaluatesExactlySentences<V(!new)>(f: Algebra<V>, ts: seq<Token>, v: V)
    ensures EvalTokens(f, ts) == Ok(v) <==> Sentence(f, ts, Ok(v))
  {
    if EvalTokens(f, ts) == Ok(v) {
      var t := ExpressionHasTree(f, ts);
      assert Yield(t) + [] == Yield(t);
    }
    if Sentence(f, ts, Ok(v)) {
      var t: Tree :| Fits(t, 2) && Yield(t) == ts && Value(f, t) == Ok(v);
      SentenceEvaluates(f, t);
    }
  }

  // ----- The grammar is unambiguous -----

  /** The algebra whose values are the derivations themselves. */
  function Derivations(): Algebra<Tree> {
    Algebra((n: int) => Lit(n), (t: Tree) => Group(t), (op: Op, l: Tree, r: Tree) => Ok(Bin(op, l, r)))
  }

  lemma {:induction false} DerivesItself(t: Tree)
    ensures Value(Derivations(), t) == Ok(t)
  {
    match t
    case Lit(_) =>
    case Group(body) => DerivesItself(body);
    case Bin(_, l, r) =>
      DerivesItself(l);
      DerivesItself(r);
  }

  /** A token sequence has at most one derivation: the parser, run on derivations, returns it. */
  lemma Unambiguous(t: Tree, u: Tree)
    requires Fits(t, 2) && Fits(u, 2) && Yield(t) == Yield(u)
    ensures t == u
  {
    SentenceEvaluates(Derivations(), t);
    SentenceEvaluates(Derivations(), u);
    DerivesItself(t);
    DerivesItself(u);
  }

  // ----- The parser with a position -----

  /** The result and the position agree with a parse of the tokens from `pos`. */
  ghost predicate Agrees<V>(p: Parse<V>, ts: seq<Token>, pos: nat, r: Result<V, Fault>, end: nat) {
    match p
    case Got(v, rest) => r == Ok(v) && pos <= end <= |ts| && rest == ts[end..]
    case Stop(why) => r == Err(why)
  }

  method ParseFactor<V>(f: Algebra<V>, ts: seq<Token>, pos: nat) returns (r: Result<V, Fault>, end: nat)
    requires pos <= |ts|
    ensures Agrees(Factor(f, ts[pos..]), ts, pos, r, end)
    decreases |ts| - pos, 0
  {
    end := pos;
    if pos >= |ts| {
      return Err(Message("unexpected end of expression")), end;
    }
    match ts[pos]
    case Num(n) =>
      r, end := Ok(f.lit(n)), pos + 1;
    case LParen =>
      r, end := ParseExpr(f, ts, pos + 1);
      if r.Ok? {
        if end >= |ts| || ts[end] != RParen {
          return Err(Message("missing closing parenthesis")), end;
        }
        r, end := Ok(f.group(r.value)), end + 1;
      }
    case _ =>
      r := Err(Message("expected number or '('"));
  }

  /** In the loop of a term: what is left, after the value so far, is what the whole term parses as. */
  ghost predicate InTerm<V>(f: Algebra<V>, ts: seq<Token>, pos: nat, left: V, end: nat) {
    pos < end <= |ts| && TermLoop(f, left, ts[end..]) == Term(f, ts[pos..])
  }

  lemma TermStart<V>(f: Algebra<V>, ts: seq<Token>, pos: nat, r: Result<V, Fault>, end: nat)
    requires pos <= |ts| && Agrees(Factor(f, ts[pos..]), ts, pos, r, end)
    ensures if r.Ok? then InTerm(f, ts, pos, r.value, end) else Agrees(Term(f, ts[pos..]), ts, pos, r, end)
  {
  }

  lemma TermNext<V>(f: Algebra<V>, ts: seq<Token>, pos: nat, left: V, end: nat, op: Op, right: V, next: nat)
    requires InTerm(f, ts, pos, left, end) && end < |ts| && OpOf(ts[end]) == Some(op) && op.Level() == 1
    requires Agrees(Factor(f, ts[end + 1..]), ts, end + 1, Ok(right), next)
    ensures var v := f.apply(op, left, right);
            if v.Ok? then InTerm(f, ts, pos, v.value, next) else Agrees(Term(f, ts[pos..]), ts, pos, v, next)
  {
    assert ts[end..][1..] == ts[end + 1..];
  }

  lemma TermFails<V>(f: Algebra<V>, ts: seq<Token>, pos: nat, left: V, end: nat, op: Op, why: Fault, next: nat)
    requires InTerm(f, ts, pos, left, end) && end < |ts| && OpOf(ts[end]) == Some(op) && op.Level() == 1
    requires Agrees(Factor(f, ts[end + 1..]), ts, end + 1, Err(why), next)
    ensures Agrees(Term(f, ts[pos..]), ts, pos, Err(why), next)
  {
    assert ts[end..][1..] == ts[end + 1..];
  }

  lemma TermStop<V>(f: Algebra<V>, ts: seq<Token>, pos: nat, left: V, end: nat)
    requires InTerm(f, ts, pos, left, end) && !Continues(ts[end..], 1)
    ensures Agrees(Term(f, ts[pos..]), ts, pos, Ok(left), end)
  {
  }

  method ParseTerm<V>(f: Algebra<V>, ts: seq<Token>, pos: nat) returns (r: Result<V, Fault>, end: nat)
    requires pos <= |ts|
    ensures Agrees(Term(f, ts[pos..]), ts, pos, r, end)
    decreases |ts| - pos, 1
  {
    r, end := ParseFactor(f, ts, pos);
    TermStart(f, ts, pos, r, end);
    if r.Err? {
      return;
    }
    while end < |ts|
      invariant r.Ok? && InTerm(f, ts, pos, r.value, end)
      decreases |ts| - end
    {
      var op := OpOf(ts[end]);
      if op.None? || op.value.Level() != 1 {
        break;
      }
      var right, next := ParseFactor(f, ts, end + 1);
      if right.Err? {
        TermFails(f, ts, pos, r.value, end, op.value, right.error, next);
        return right, next;
      }
      TermNext(f, ts, pos, r.value, end, op.value, right.value, next);
      r, end := f.apply(op.value, r.value, right.value), next;
      if r.Err? {
        return;
      }
    }
    TermStop(f, ts, pos, r.value, end);
  }

  /** In the loop of a expression: what is left, after the value so far, is what the whole expression parses as. */
  ghost predicate InExpr<V>(f: Algebra<V>, ts: seq<Token>, pos: nat, left: V, end: nat) {
    pos < end <= |ts| && ExpressionLoop(f, left, ts[end..]) == Expression(f, ts[pos..])
  }

  lemma ExprStart<V>(f: Algebra<V>, ts: seq<Token>, pos: nat, r: Result<V, Fault>, end: nat)
    requires pos <= |ts| && Agrees(Term(f, ts[pos..]), ts, pos, r, end)
    ensures if r.Ok? then InExpr(f, ts, pos, r.value, end) else Agrees(Expression(f, ts[pos..]), ts, pos, r, end)
  {
  }

  lemma ExprNext<V>(f: Algebra<V>, ts: seq<Token>, pos: nat, left: V, end: nat, op: Op, right: V, next: nat)
    requires InExpr(f, ts, pos, left, end) && end < |ts| && OpOf(ts[end]) == Some(op) && op.Level() == 2
    requires Agrees(Term(f, ts[end + 1..]), ts, end + 1, Ok(right), next)
    ensures var v := f.apply(op, left, right);
            if v.Ok? then InExpr(f, ts, pos, v.value, next) else Agrees(Expression(f, ts[pos..]), ts, pos, v, next)
  {
    assert ts[end..][1..] == ts[end + 1..];
  }

  lemma ExprFails<V>(f: Algebra<V>, ts: seq<Token>, pos: nat, left: V, end: nat, op: Op, why: Fault, next: nat)
    requires InExpr(f, ts, pos, left, end) && end < |ts| && OpOf(ts[end]) == Some(op) && op.Level() == 2
    requires Agrees(Term(f, ts[end + 1..]), ts, end + 1, Err(why), next)
    ensures Agrees(Expression(f, ts[pos..]), ts, pos, Err(why), next)
  {
    assert ts[end..][1..] == ts[end + 1..];
  }

  lemma ExprStop<V>(f: Algebra<V>, ts: seq<Token>, pos: nat, left: V, end: nat)
    requires InExpr(f, ts, pos, left, end) && !Continues(ts[end..], 2)
    ensures Agrees(Expression(f, ts[pos..]), ts, pos, Ok(left), end)
  {
  }

  method ParseExpr<V>(f: Algebra<V>, ts: seq<Token>, pos: nat) returns (r: Result<V, Fault>, end: nat)
    requires pos <= |ts|
    ensures Agrees(Expression(f, ts[pos..]), ts, pos, r, end)
    decreases |ts| - pos, 2
  {
    r, end := ParseTerm(f, ts, pos);
    ExprStart(f, ts, pos, r, end);
    if r.Err? {
      return;
    }
    while end < |ts|
      invariant r.Ok? && InExpr(f, ts, pos, r.value, end)
      decreases |ts| - end
    {
      var op := OpOf(ts[end]);
      if op.None? || op.value.Level() != 2 {
        break;
      }
      var right, next := ParseTerm(f, ts, end + 1);
      if right.Err? {
        ExprFails(f, ts, pos, r.value, end, op.value, right.error, next);
        return right, next;
      }
      ExprNext(f, ts, pos, r.value, end, op.value, right.value, next);
      r, end := f.apply(op.value, r.value, right.value), next;
      if r.Err? {
        return;
      }
    }
    ExprStop(f, ts, pos, r.value, end);
  }

  // ----- The tokeniser -----

  type Tokens = Result<seq<Token>, string>

  /** The value of the leading digits after `acc`, and what follows them. */
  function LeadingDigits(acc: nat, s: string): (r: (nat, string))
    ensures |r.1| <= |s|
    decreases |s|
  {
    if s == "" || !IsDigit(s[0]) then (acc, s)
    else LeadingDigits(10 * acc + (s[0] as int - '0' as int), s[1..])
  }

  function Simple(c: char): Option<Token> {
    match c
    case '+' => Some(Plus)
    case '-' => Some(Minus)
    case '*' => Some(Star)
    case '/' => Some(Slash)
    case '%' => Some(Percent)
    case '(' => Some(LParen)
    case ')' => Some(RParen)
    case _ => None
  }

  /** An operand may follow, so that a minus sign before a digit is a sign. */
  predicate Wants(t: Token) {
    !t.Num? && !t.RParen?
  }

  predicate WantsAfter(ts: seq<Token>) {
    ts == [] || Wants(ts[|ts| - 1])
  }

  function Prepend(ts: seq<Token>, r: Tokens): Tokens {
    if r.Err? then r else Ok(ts + r.value)
  }

  /** A literal that begins with a digit, with the sign that was read before it. */
  function Literal(sign: int, s: string): Tokens
    requires s != "" && IsDigit(s[0])
    decreases |s|, 0
  {
    var (n, rest) := LeadingDigits(s[0] as int - '0' as int, s[1..]);
    if n > MAX then Err("bad number") else Prepend([Num(sign * n)], Lex(false, rest))
  }

  /** The tokens of a string; `wants` says whether an operand may come first. */
  function Lex(wants: bool, s: string): Tokens
    decreases |s|, 1
  {
    if s == "" then Ok([])
    else if s[0] == ' ' || s[0] == '\t' then Lex(wants, s[1..])
    else if s[0] == '-' && wants && |s| > 1 && IsDigit(s[1]) then Literal(-1, s[1..])
    else if IsDigit(s[0]) then Literal(1, s)
    else
      var t := Simple(s[0]);
      if t.None? then Err("unexpected character") else Prepend([t.value], Lex(Wants(t.value), s[1..]))
  }

  lemma PrependTwice(a: seq<Token>, b: seq<Token>, r: Tokens)
    ensures Prepend(a, Prepend(b, r)) == Prepend(a + b, r)
  {
    if r.Ok? {
      assert a + (b + r.value) == a + b + r.value;
    }
  }

  lemma DigitsSnoc(s: string, start: nat, i: nat)
    requires start <= i < |s| && AllDigits(s[start..i]) && IsDigit(s[i])
    ensures AllDigits(s[start..i + 1])
    ensures DigitsValue(s[start..i + 1]) == 10 * DigitsValue(s[start..i]) + (s[i] as int - '0' as int)
  {
    var d := s[start..i + 1];
    assert d == s[start..i] + [s[i]];
    assert d[..|d| - 1] == s[start..i];
  }

  method ScanDigits(s: string, start: nat) returns (i: nat)
    requires start < |s| && IsDigit(s[start])
    ensures start < i <= |s| && AllDigits(s[start..i])
    ensures LeadingDigits(s[start] as int - '0' as int, s[start + 1..]) == (DigitsValue(s[start..i]), s[i..])
  {
    i := start + 1;
    DigitsSnoc(s, start, start);
    while i < |s| && IsDigit(s[i])
      invariant start < i <= |s| && AllDigits(s[start..i])
      invariant LeadingDigits(DigitsValue(s[start..i]), s[i..])
             == LeadingDigits(s[start] as int - '0' as int, s[start + 1..])
    {
      DigitsSnoc(s, start, i);
      assert s[i..][1..] == s[i + 1..];
      i := i + 1;
    }
  }

  /** One literal: its end and its value, None when it exceeds 64 bits. */
  method ScanNumber(s: string, start: nat, ghost sign: int) returns (i: nat, n: Option<nat>)
    requires start < |s| && IsDigit(s[start])
    ensures start < i <= |s|
    ensures n.Some? ==> Literal(sign, s[start..]) == Prepend([Num(sign * n.value)], Lex(false, s[i..]))
    ensures n.None? ==> Literal(sign, s[start..]) == Err("bad number")
  {
    i := ScanDigits(s, start);
    assert s[start..][1..] == s[start + 1..];
    var v := DigitsValue(s[start..i]);
    n := if v > MAX then None else Some(v);
  }

  /** What remains to be read, after the tokens read so far, is what the whole text reads as. */
  ghost predicate Reading(s: string, i: nat, ts: seq<Token>) {
    i <= |s| && Prepend(ts, Lex(WantsAfter(ts), s[i..])) == Lex(true, s)
  }

  lemma ReadingOne(s: string, i: nat, ts: seq<Token>, t: Token, j: nat)
    requires Reading(s, i, ts) && j <= |s|
    requires Lex(WantsAfter(ts), s[i..]) == Prepend([t], Lex(Wants(t), s[j..]))
    ensures Reading(s, j, ts + [t])
  {
    PrependTwice(ts, [t], Lex(Wants(t), s[j..]));
  }

  method Tokenise(s: string) returns (r: Tokens)
    ensures r == Lex(true, s)
  {
    var ts: seq<Token> := [];
    var i := 0;
    ReadingStart(s);
    while i < |s|
      invariant Reading(s, i, ts)
    {
      var c := s[i];
      assert s[i..][1..] == s[i + 1..];
      if c == ' ' || c == '\t' {
        i := i + 1;
      } else if IsDigit(c) || (c == '-' && WantsAfter(ts) && i + 1 < |s| && IsDigit(s[i + 1])) {
        var sign: int, start := if c == '-' then -1 else 1, if c == '-' then i + 1 else i;
        var end, n := ScanNumber(s, start, sign);
        assert Lex(WantsAfter(ts), s[i..]) == Literal(sign, s[start..]);
        if n.None? {
          return Err("bad number");
        }
        ReadingOne(s, i, ts, Num(sign * n.value), end);
        ts, i := ts + [Num(sign * n.value)], end;
      } else {
        var t := Simple(c);
        if t.None? {
          return Err("unexpected character");
        }
        ReadingOne(s, i, ts, t.value, i + 1);
        ts, i := ts + [t.value], i + 1;
      }
    }
    assert ts + [] == ts;
    r := Ok(ts);
  }

  lemma ReadingStart(s: string)
    ensures Reading(s, 0, [])
  {
    assert s[0..] == s;
    if Lex(true, s).Ok? {
      assert [] + Lex(true, s).value == Lex(true, s).value;
    }
  }

  function EvalText<V>(f: Algebra<V>, s: string): Result<V, Fault> {
    var ts := Lex(true, s);
    if ts.Err? then Err(Message(ts.error)) else EvalTokens(f, ts.value)
  }

  method Eval(s: string) returns (r: Outcome)
    ensures r == EvalText(Integers(), s)
  {
    var ts := Tokenise(s);
    if ts.Err? {
      return Err(Message(ts.error));
    }
    var end: nat;
    assert ts.value[0..] == ts.value;
    r, end := ParseExpr(Integers(), ts.value, 0);
    if r.Ok? && end < |ts.value| {
      r := Err(Message("unexpected token after expression"));
    }
  }

  // ----- Printing -----

  predicate Blank(s: string) {
    forall i | 0 <= i < |s| :: s[i] == ' ' || s[i] == '\t'
  }

  function Spell(t: Token): (r: string)
    ensures r != ""
  {
    match t
    case Num(n) => if n < 0 then ['-'] + DecimalText(-n) else DecimalText(n)
    case Plus => "+"
    case Minus => "-"
    case Star => "*"
    case Slash => "/"
    case Percent => "%"
    case LParen => "("
    case RParen => ")"
  }

  function DecimalText(n: nat): (r: string)
    ensures r != "" && AllDigits(r) && DigitsValue(r) == n
  {
    DecimalValue(n);
    Decimal(n)
  }

  /** The tokens with any blanks before, between and after them. */
  function Render(ts: seq<Token>, gaps: seq<string>): string
    requires |gaps| == |ts| + 1
  {
    if ts == [] then gaps[0] else gaps[0] + Spell(ts[0]) + Render(ts[1..], gaps[1..])
  }

  /** Operands and operators alternate, so that no two literals touch and every sign follows an operator. */
  predicate Alternates(wants: bool, ts: seq<Token>)
    decreases |ts|
  {
    ts == []
    || ((ts[0].Num? ==> wants && -MAX <= ts[0].n <= MAX) && (ts[0].Minus? ==> !wants)
        && Alternates(Wants(ts[0]), ts[1..]))
  }

  lemma {:induction false} LexBlank(wants: bool, gap: string, s: string)
    requires Blank(gap)
    ensures Lex(wants, gap + s) == Lex(wants, s)
    decreases |gap|
  {
    if gap == "" {
      assert gap + s == s;
    } else {
      assert (gap + s)[1..] == gap[1..] + s;
      LexBlank(wants, gap[1..], s);
    }
  }

  lemma {:induction false} LeadingDigitsOf(d: string, e: string, s: string)
    requires AllDigits(d) && AllDigits(e) && (s != "" ==> !IsDigit(s[0]))
    ensures AllDigits(d + e) && LeadingDigits(DigitsValue(d), e + s) == (DigitsValue(d + e), s)
    decreases |e|
  {
    if e == "" {
      assert e + s == s && d + e == d;
    } else {
      var d1 := d + [e[0]];
      assert d1[..|d1| - 1] == d && d1[|d1| - 1] == e[0];
      assert (e + s)[1..] == e[1..] + s;
      assert d1 + e[1..] == d + e;
      LeadingDigitsOf(d1, e[1..], s);
    }
  }

  /** The value of the digits, read after the first of them. */
  lemma LeadingDigitsAll(d: string, s: string)
    requires d != "" && AllDigits(d) && (s != "" ==> !IsDigit(s[0]))
    ensures LeadingDigits(d[0] as int - '0' as int, d[1..] + s) == (DigitsValue(d), s)
  {
    LeadingDigitsOf([d[0]], d[1..], s);
    assert [d[0]] + d[1..] == d && [d[0]][..0] == "";
  }

  lemma LiteralOf(sign: int, d: string, s: string)
    requires d != "" && AllDigits(d) && DigitsValue(d) <= MAX && (s != "" ==> !IsDigit(s[0]))
    ensures IsDigit((d + s)[0])
    ensures Literal(sign, d + s) == Prepend([Num(sign * DigitsValue(d))], Lex(false, s))
  {
    LeadingDigitsAll(d, s);
    assert (d + s)[0] == d[0] && (d + s)[1..] == d[1..] + s;
  }

  lemma LexDigits(wants: bool, d: string, s: string)
    requires d != "" && AllDigits(d) && DigitsValue(d) <= MAX && (s != "" ==> !IsDigit(s[0]))
    ensures Lex(wants, d + s) == Prepend([Num(DigitsValue(d))], Lex(false, s))
  {
    LiteralOf(1, d, s);
  }

  lemma LexSign(text: string)
    requires |text| > 1 && text[0] == '-' && IsDigit(text[1])
    ensures Lex(true, text) == Literal(-1, text[1..])
  {
  }

  lemma LexSigned(text: string, d: string, s: string)
    requires d != "" && AllDigits(d) && DigitsValue(d) <= MAX && (s != "" ==> !IsDigit(s[0]))
    requires text != "" && text[0] == '-' && text[1..] == d + s
    ensures var n: int := DigitsValue(d);
            Lex(true, text) == Prepend([Num(-n)], Lex(false, s))
  {
    LiteralOf(-1, d, s);
    assert text[1] == (d + s)[0];
    LexSign(text);
  }

  lemma SpellNegative(n: int, s: string)
    requires n < 0
    ensures var text := Spell(Num(n)) + s; text != "" && text[0] == '-' && text[1..] == DecimalText(-n) + s
  {
    FrontOf('-', DecimalText(-n), s);
  }

  lemma FrontOf(c: char, d: string, s: string)
    ensures var text := [c] + d + s; text != "" && text[0] == c && text[1..] == d + s
  {
  }

  lemma LexNegative(n: int, s: string)
    requires -MAX <= n < 0 && (s != "" ==> !IsDigit(s[0]))
    ensures Lex(true, Spell(Num(n)) + s) == Prepend([Num(n)], Lex(false, s))
  {
    SpellNegative(n, s);
    LexSigned(Spell(Num(n)) + s, DecimalText(-n), s);
  }

  lemma LexPositive(n: nat, s: string)
    requires n <= MAX && (s != "" ==> !IsDigit(s[0]))
    ensures Lex(true, Spell(Num(n)) + s) == Prepend([Num(n)], Lex(false, s))
  {
    LexDigits(true, DecimalText(n), s);
  }

  lemma LexSymbol(wants: bool, t: Token, s: string)
    requires !t.Num? && (t.Minus? ==> !wants)
    ensures Lex(wants, Spell(t) + s) == Prepend([t], Lex(Wants(t), s))
  {
    var text := Spell(t) + s;
    assert text[1..] == s;
    assert Simple(text[0]) == Some(t) && !IsDigit(text[0]);
  }

  lemma LexToken(wants: bool, t: Token, s: string)
    requires t.Num? ==> wants && -MAX <= t.n <= MAX && (s != "" ==> !IsDigit(s[0]))
    requires t.Minus? ==> !wants
    ensures Lex(wants, Spell(t) + s) == Prepend([t], Lex(Wants(t), s))
  {
    if !t.Num? {
      LexSymbol(wants, t, s);
    } else if t.n < 0 {
      LexNegative(t.n, s);
    } else {
      LexPositive(t.n, s);
    }
  }

  /** After a literal the rest of a rendering does not begin with a digit. */
  lemma AfterLiteral(ts: seq<Token>, gaps: seq<string>)
    requires |gaps| == |ts| + 1 && Blank(gaps[0]) && Alternates(false, ts)
    ensures var s := Render(ts, gaps); s != "" ==> !IsDigit(s[0])
  {
    if gaps[0] != "" {
      assert Render(ts, gaps)[0] == gaps[0][0];
    } else if ts != [] {
      assert !IsDigit(Spell(ts[0])[0]);
    }
  }

  lemma {:induction false} LexRendered(wants: bool, ts: seq<Token>, gaps: seq<string>)
    requires |gaps| == |ts| + 1 && (forall g | g in gaps :: Blank(g)) && Alternates(wants, ts)
    ensures Lex(wants, Render(ts, gaps)) == Ok(ts)
    decreases |ts|
  {
    if ts == [] {
      assert gaps[0] + "" == gaps[0];
      LexBlank(wants, gaps[0], "");
    } else {
      var rest := Render(ts[1..], gaps[1..]);
      LexRendered(Wants(ts[0]), ts[1..], gaps[1..]);
      if ts[0].Num? {
        AfterLiteral(ts[1..], gaps[1..]);
      }
      LexToken(wants, ts[0], rest);
      assert gaps[0] + Spell(ts[0]) + rest == gaps[0] + (Spell(ts[0]) + rest);
      LexBlank(wants, gaps[0], Spell(ts[0]) + rest);
      assert [ts[0]] + ts[1..] == ts;
    }
  }

  predicate LiteralsFit(t: Tree) {
    match t
    case Lit(n) => -MAX <= n <= MAX
    case Group(body) => LiteralsFit(body)
    case Bin(_, l, r) => LiteralsFit(l) && LiteralsFit(r)
  }

  lemma AlternatesCons(wants: bool, t: Token, ts: seq<Token>)
    requires Alternates(Wants(t), ts)
    requires (t.Num? ==> wants && -MAX <= t.n <= MAX) && (t.Minus? ==> !wants)
    ensures Alternates(wants, [t] + ts)
  {
    assert ([t] + ts)[1..] == ts;
  }

  lemma {:induction false} YieldAlternates(t: Tree, rest: seq<Token>)
    requires LiteralsFit(t) && Alternates(false, rest)
    ensures Alternates(true, Yield(t) + rest)
    decreases t, 1
  {
    match t
    case Lit(n) => AlternatesCons(true, Num(n), rest);
    case Group(body) => GroupAlternates(body, rest);
    case Bin(op, l, r) => BinAlternates(op, l, r, rest);
  }

  lemma {:induction false} GroupAlternates(body: Tree, rest: seq<Token>)
    requires LiteralsFit(body) && Alternates(false, rest)
    ensures Alternates(true, Yield(Group(body)) + rest)
    decreases Group(body), 0
  {
    var after := [RParen] + rest;
    AlternatesCons(false, RParen, rest);
    YieldAlternates(body, after);
    AlternatesCons(true, LParen, Yield(body) + after);
    RegroupGroup(LParen, Yield(body), RParen, rest);
  }

  lemma {:induction false} BinAlternates(op: Op, l: Tree, r: Tree, rest: seq<Token>)
    requires LiteralsFit(l) && LiteralsFit(r) && Alternates(false, rest)
    ensures Alternates(true, Yield(Bin(op, l, r)) + rest)
    decreases Bin(op, l, r), 0
  {
    var after := [op.Spelled()] + (Yield(r) + rest);
    YieldAlternates(r, rest);
    AlternatesCons(false, op.Spelled(), Yield(r) + rest);
    YieldAlternates(l, after);
    RegroupBin(Yield(l), op.Spelled(), Yield(r), rest);
  }

  /** Any rendering of a sentence, with any blanks, evaluates to the outcome of its tree. */
  lemma RenderedSentenceEvaluates<V>(f: Algebra<V>, t: Tree, gaps: seq<string>)
    requires Fits(t, 2) && LiteralsFit(t)
    requires |gaps| == |Yield(t)| + 1 && forall g | g in gaps :: Blank(g)
    ensures EvalText(f, Render(Yield(t), gaps)) == Value(f, t)
  {
    assert Yield(t) + [] == Yield(t);
    YieldAlternates(t, []);
    LexRendered(true, Yield(t), gaps);
    SentenceEvaluates(f, t);
  }

  /** An expression without parentheses of its own: the tree says what is applied to what. */
  datatype Expr = Const(n: int) | Operate(op: Op, left: Expr, right: Expr) {
    function Value<V>(f: Algebra<V>): Result<V, Fault> {
      match this
      case Const(n) => Ok(f.lit(n))
      case Operate(op, l, r) => Combine(f, op, l.Value(f), r.Value(f))
    }

    predicate LiteralsFit() {
      match this
      case Const(n) => -MAX <= n <= MAX
      case Operate(_, l, r) => l.LiteralsFit() && r.LiteralsFit()
    }

    /** The tree with parentheses exactly where the level does not allow the operator. */
    function Parenthesised(level: nat): Tree {
      match this
      case Const(n) => Lit(n)
      case Operate(op, l, r) =>
        var t := Bin(op, l.Parenthesised(op.Level()), r.Parenthesised(op.Level() - 1));
        if op.Level() <= level then t else Group(t)
    }
  }

  lemma {:induction false} ParenthesisedFits<V(!new)>(f: Algebra<V>, e: Expr, level: nat)
    requires forall v: V :: f.group(v) == v
    ensures Fits(e.Parenthesised(level), level) && Value(f, e.Parenthesised(level)) == e.Value(f)
    ensures e.LiteralsFit() ==> LiteralsFit(e.Parenthesised(level))
    decreases e
  {
    if e.Operate? {
      ParenthesisedFits(f, e.left, e.op.Level());
      ParenthesisedFits(f, e.right, e.op.Level() - 1);
    }
  }

  /** Every pair of parentheses in the printing is needed: without it the tree is not derivable. */
  predicate Needed(t: Tree, level: nat) {
    match t
    case Lit(_) => true
    case Group(body) => !Fits(body, level) && Needed(body, 2)
    case Bin(op, l, r) => Needed(l, op.Level()) && Needed(r, op.Level() - 1)
  }

  lemma {:induction false} ParenthesisedNeeded(e: Expr, level: nat)
    ensures Needed(e.Parenthesised(level), level)
    decreases e
  {
    if e.Operate? {
      ParenthesisedNeeded(e.left, e.op.Level());
      ParenthesisedNeeded(e.right, e.op.Level() - 1);
    }
  }

  /** Printing an expression with the fewest parentheses and evaluating the text gives its value. */
  lemma PrintedExpressionEvaluates(e: Expr, gaps: seq<string>)
    requires e.LiteralsFit()
    requires |gaps| == |Yield(e.Parenthesised(2))| + 1 && forall g | g in gaps :: Blank(g)
    ensures EvalText(Integers(), Render(Yield(e.Parenthesised(2)), gaps)) == e.Value(Integers())
  {
    ParenthesisedFits(Integers(), e, 2);
    RenderedSentenceEvaluates(Integers(), e.Parenthesised(2), gaps);
  }

  // ----- Grouped output -----

  function WithoutCommas(s: string): string {
    if s == "" then "" else if s[0] == ',' then WithoutCommas(s[1..]) else [s[0]] + WithoutCommas(s[1..])
  }

  /** A comma stands at every fourth place from the right and nowhere else. */
  predicate GroupedInThrees(s: string) {
    s != "" && s[0] != ',' && forall k: nat | k < |s| :: s[|s| - 1 - k] == ',' <==> k % 4 == 3
  }

  /** Places written for a number of digits, low digit first. */
  function Places(count: nat): nat {
    if count > 0 && count % 3 == 0 then 4 * (count / 3) - 1 else 4 * (count / 3) + count % 3
  }

  function Digits(val: nat): string {
    if val == 0 then "" else Decimal(val)
  }

  /** Where the commas are among the digits so far, low digit first. */
  ghost predicate Shape(digits: string, count: nat) {
    && |digits| == Places(count) && (digits != "" ==> digits[|digits| - 1] != ',')
    && forall k: nat | k < |digits| :: digits[k] == ',' <==> k % 4 == 3
  }

  /** The digits so far complete the digits of what is left. */
  ghost predicate Content(digits: string, val: nat, n: nat) {
    Digits(val) + WithoutCommas(Reverse(digits)) == Digits(n)
  }

  lemma ReverseSnoc(s: string, c: char)
    ensures Reverse(s + [c]) == [c] + Reverse(s)
  {
    ReverseConcat(s, [c]);
  }

  lemma StripFront(c: char, s: string)
    ensures WithoutCommas([c] + s) == if c == ',' then WithoutCommas(s) else [c] + WithoutCommas(s)
  {
    assert ([c] + s)[1..] == s;
  }

  lemma DigitsSplit(val: nat)
    requires val > 0
    ensures Digits(val) == Digits(val / 10) + [Digit(val % 10)] && Digit(val % 10) != ','
  {
  }

  lemma PlacesPlain(count: nat)
    requires count == 0 || count % 3 != 0
    ensures Places(count) % 4 != 3 && Places(count + 1) == Places(count) + 1
  {
    var q := count / 3;
    assert count == 3 * q + count % 3;
    if count % 3 == 2 {
      assert count + 1 == 3 * (q + 1);
    }
  }

  lemma PlacesComma(count: nat)
    requires count > 0 && count % 3 == 0
    ensures Places(count) % 4 == 3 && Places(count + 1) == Places(count) + 2
  {
    var q := count / 3;
    assert (count + 1) / 3 == q && (count + 1) % 3 == 1;
  }

  /** What the loop body appends. */
  function Appended(digits: string, count: nat, c: char): string {
    (if count > 0 && count % 3 == 0 then digits + [','] else digits) + [c]
  }

  lemma ShapeSnoc(digits: string, c: char)
    requires forall k: nat | k < |digits| :: digits[k] == ',' <==> k % 4 == 3
    requires c == ',' <==> |digits| % 4 == 3
    ensures forall k: nat | k < |digits| + 1 :: (digits + [c])[k] == ',' <==> k % 4 == 3
  {
  }

  lemma ShapeNext(digits: string, count: nat, c: char)
    requires Shape(digits, count) && c != ','
    ensures Shape(Appended(digits, count, c), count + 1)
  {
    if count > 0 && count % 3 == 0 {
      PlacesComma(count);
      ShapeSnoc(digits, ',');
      AfterThree(|digits|);
      ShapeSnoc(digits + [','], c);
    } else {
      PlacesPlain(count);
      ShapeSnoc(digits, c);
    }
  }

  lemma AfterThree(k: nat)
    requires k % 4 == 3
    ensures (k + 1) % 4 == 0
  {
  }

  lemma ContentNext(digits: string, count: nat, val: nat, n: nat)
    requires val > 0 && Content(digits, val, n)
    ensures Content(Appended(digits, count, Digit(val % 10)), val / 10, n)
  {
    var c := Digit(val % 10);
    var more := if count > 0 && count % 3 == 0 then digits + [','] else digits;
    StripSnoc(digits, ',');
    StripSnoc(more, c);
    DigitsSplit(val);
    Rejoin(Digits(val / 10), c, WithoutCommas(Reverse(digits)));
  }

  lemma StripSnoc(digits: string, c: char)
    ensures var s := WithoutCommas(Reverse(digits));
            WithoutCommas(Reverse(digits + [c])) == if c == ',' then s else [c] + s
  {
    ReverseSnoc(digits, c);
    StripFront(c, Reverse(digits));
  }

  lemma Rejoin(a: string, c: char, b: string)
    ensures a + ([c] + b) == (a + [c]) + b
  {
  }

  lemma ContentDone(digits: string, n: nat)
    requires n > 0 && Content(digits, 0, n)
    ensures WithoutCommas(Reverse(digits)) == Decimal(n)
  {
    assert "" + WithoutCommas(Reverse(digits)) == WithoutCommas(Reverse(digits));
  }

  lemma ShapeDone(digits: string, count: nat)
    requires digits != "" && Shape(digits, count)
    ensures GroupedInThrees(Reverse(digits))
  {
    var s := Reverse(digits);
    ReverseAt(digits, |digits| - 1);
    forall k: nat | k < |s| ensures s[|s| - 1 - k] == ',' <==> k % 4 == 3 {
      ReverseAt(digits, k);
    }
  }

  /** What a number looks like: its decimal with a comma after every third digit from the right. */
  ghost predicate Formats(s: string, n: int) {
    if n == 0 then s == "0"
    else if n > 0 then GroupedInThrees(s) && WithoutCommas(s) == DecimalText(n)
    else s != "" && s[0] == '-' && GroupedInThrees(s[1..]) && WithoutCommas(s[1..]) == DecimalText(-n)
  }

  /** `format_number`. Negating the least integer panics in a build that checks for overflow; otherwise it wraps to
      itself and the cast to an unsigned integer gives its magnitude. */
  method FormatNumber(n: int, checked: bool) returns (r: Option<string>)
    requires MIN <= n <= MAX
    ensures r.None? <==> checked && n == MIN
    ensures r.Some? ==> Formats(r.value, n)
  {
    if n == 0 {
      return Some("0");
    }
    if checked && n == MIN {
      return None;
    }
    var val := Abs(n);
    var digits, count := "", 0;
    assert Digits(val) + "" == Digits(val);
    while val > 0
      invariant Shape(digits, count) && Content(digits, val, Abs(n)) && (count == 0 ==> val > 0)
    {
      DigitsSplit(val);
      ShapeNext(digits, count, Digit(val % 10));
      ContentNext(digits, count, val, Abs(n));
      if count > 0 && count % 3 == 0 {
        digits := digits + [','];
      }
      digits := digits + [Digit(val % 10)];
      val := val / 10;
      count := count + 1;
    }
    ShapeDone(digits, count);
    ContentDone(digits, Abs(n));
    if n < 0 {
      ReverseSnoc(digits, '-');
      digits := digits + ['-'];
    }
    r := Some(Reverse(digits));
  }
}
