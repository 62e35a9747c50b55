/** expr: the recursive-descent evaluator eval, eval1 to eval4 and eval7, and
    the tree whose meaning it computes. */
module Expr {
  import opened Arith

  // ---------- values ----------

  datatype Value = Int(i: int) | Str(s: string)

  // Reasons to stop; Unmodelled stands for the keywords and ':'.
  datatype Error = SyntaxError | NonNumeric | DivisionByZero | Unmodelled

  datatype Outcome<T> = Ok(value: T) | Fail(error: Error)

  const MIN_ARITH: int := -0x8000_0000_0000_0000
  const MAX_ARITH: int := 0x7fff_ffff_ffff_ffff

  // Arithmetic wraps around at 64 bits.
  function Wrap(x: int): (r: int)
    ensures MIN_ARITH <= r <= MAX_ARITH
  {
    (x - MIN_ARITH) % 0x1_0000_0000_0000_0000 + MIN_ARITH
  }

  // Division towards zero, as in C.
  function Quotient(a: int, b: int): int
    requires b != 0
  {
    if a >= 0 then a / b else -((-a) / b)
  }

  function Remainder(a: int, b: int): int
    requires b != 0
  {
    a - b * Quotient(a, b)
  }

  predicate IsSpace(c: char)
  {
    c == ' ' || '\t' <= c <= '\r'
  }

  predicate IsDigit(c: char)
  {
    '0' <= c <= '9'
  }

  function DropSpaces(s: string): string
  {
    if s != "" && IsSpace(s[0]) then DropSpaces(s[1..]) else s
  }

  function DigitsValue(s: string): int
    requires forall i :: 0 <= i < |s| ==> IsDigit(s[i])
  {
    if s == "" then 0 else 10 * DigitsValue(s[..|s| - 1]) + (s[|s| - 1] as int - '0' as int)
  }

  function Clamp(x: int): int
  {
    if x < MIN_ARITH then MIN_ARITH else if x > MAX_ARITH then MAX_ARITH else x
  }

  // strtol on the whole string: blanks, a sign, at least one digit.
  function ParseInt(s: string): Outcome<int>
  {
    var t := DropSpaces(s);
    var signed := t != "" && (t[0] == '-' || t[0] == '+');
    var d := if signed then t[1..] else t;
    if d != "" && forall i :: 0 <= i < |d| ==> IsDigit(d[i]) then
      Ok(Clamp(if signed && t[0] == '-' then -DigitsValue(d) else DigitsValue(d)))
    else Fail(NonNumeric)
  }

  function PrintNat(n: nat): string
  {
    (if n < 10 then "" else PrintNat(n / 10)) + [(n % 10 + '0' as int) as char]
  }

  function PrintInt(i: int): string
  {
    if i < 0 then "-" + PrintNat(-i) else PrintNat(i)
  }

  // null, toarith and tostring
  predicate IsNull(v: Value)
  {
    match v
    case Int(i) => i == 0
    case Str(s) => s == "" || s == "0"
  }

  // The value as an integer where that is possible.
  function ToArith(v: Value): Value
  {
    match v
    case Int(_) => v
    case Str(s) =>
      match ParseInt(s)
      case Ok(i) => Int(i)
      case Fail(_) => v
  }

  function ToString(v: Value): string
  {
    match v
    case Int(i) => PrintInt(i)
    case Str(s) => s
  }

  // strcmp
  function CompareStrings(a: string, b: string): int
  {
    if a == "" && b == "" then 0
    else if a == "" then -1
    else if b == "" then 1
    else if a[0] < b[0] then -1
    else if a[0] > b[0] then 1
    else CompareStrings(a[1..], b[1..])
  }

  // ---------- operators ----------

  datatype Op = Or | And | Lt | Le | Eq | EqEq | Ne | Ge | Gt | Plus | Minus | Times | Div | Mod

  // The evaluator function that handles the operator: 0 is eval, 4 is eval4.
  function LevelOf(op: Op): (r: nat)
    ensures r <= 4
  {
    match op
    case Or => 0
    case And => 1
    case Lt | Le | Eq | EqEq | Ne | Ge | Gt => 2
    case Plus | Minus => 3
    case Times | Div | Mod => 4
  }

  function Text(op: Op): string
  {
    match op
    case Or => "|"
    case And => "&"
    case Lt => "<"
    case Le => "<="
    case Eq => "="
    case EqEq => "=="
    case Ne => "!="
    case Ge => ">="
    case Gt => ">"
    case Plus => "+"
    case Minus => "-"
    case Times => "*"
    case Div => "/"
    case Mod => "%"
  }

  datatype MaybeOp = NoOp | SomeOp(op: Op)

  // The operator of that level that the token spells, if any.
  function OpAt(level: nat, token: string): (r: MaybeOp)
    ensures r.SomeOp? ==> LevelOf(r.op) == level && Text(r.op) == token
  {
    if level == 0 then if token == "|" then SomeOp(Or) else NoOp
    else if level == 1 then if token == "&" then SomeOp(And) else NoOp
    else if level == 2 then
      if token == "<" then SomeOp(Lt)
      else if token == "<=" then SomeOp(Le)
      else if token == "=" then SomeOp(Eq)
      else if token == "==" then SomeOp(EqEq)
      else if token == "!=" then SomeOp(Ne)
      else if token == ">=" then SomeOp(Ge)
      else if token == ">" then SomeOp(Gt)
      else NoOp
    else if level == 3 then
      if token == "+" then SomeOp(Plus) else if token == "-" then SomeOp(Minus) else NoOp
    else if level == 4 then
      if token == "*" then SomeOp(Times) else if token == "/" then SomeOp(Div) else if token == "%" then SomeOp(Mod) else NoOp
    else NoOp
  }

  lemma OpText(op: Op)
    ensures OpAt(LevelOf(op), Text(op)) == SomeOp(op)
    ensures forall k :: k != LevelOf(op) ==> OpAt(k, Text(op)) == NoOp
    ensures Text(op) != ":" && Text(op) != "(" && Text(op) != ")"
  {
  }

  function CompareResult(op: Op, ll: int, rr: int): bool
    requires LevelOf(op) == 2
  {
    match op
    case Lt => ll < rr
    case Le => ll <= rr
    case Eq | EqEq => ll == rr
    case Ne => ll != rr
    case Gt => ll > rr
    case Ge => ll >= rr
  }

  // What an operator makes of its two values.
  function Apply(op: Op, l: Value, r: Value): Outcome<Value>
  {
    if op == Or then Ok(if IsNull(l) then r else l)
    else if op == And then Ok(if IsNull(l) || IsNull(r) then Int(0) else l)
    else if LevelOf(op) == 2 then
      var a, b := ToArith(l), ToArith(r);
      var holds :=
        if a.Int? && b.Int? then CompareResult(op, a.i, b.i)
        else CompareResult(op, CompareStrings(ToString(a), ToString(b)), 0);
      Ok(Int(if holds then 1 else 0))
    else
      var a, b := ToArith(l), ToArith(r);
      if a.Str? || b.Str? then Fail(NonNumeric)
      else if op == Plus then Ok(Int(Wrap(a.i + b.i)))
      else if op == Minus then Ok(Int(Wrap(a.i - b.i)))
      else if op == Times then Ok(Int(Wrap(a.i * b.i)))
      else if b.i == 0 then Fail(DivisionByZero)
      else if op == Div then Ok(Int(Wrap(Quotient(a.i, b.i))))
      else Ok(Int(Remainder(a.i, b.i)))
  }

  // ---------- trees and their text ----------

  datatype Tree = Leaf(s: string) | Node(op: Op, left: Tree, right: Tree)

  // Strict, left to right.
  function Meaning(e: Tree): Outcome<Value>
  {
    match e
    case Leaf(s) => Ok(Str(s))
    case Node(op, l, r) =>
      match Meaning(l)
      case Fail(x) => Fail(x)
      case Ok(lv) =>
        match Meaning(r)
        case Fail(x) => Fail(x)
        case Ok(rv) => Apply(op, lv, rv)
  }

  const KEYWORDS: seq<string> := ["quote", "length", "match", "index", "substr"]

  // Operands can be any words but these.
  predicate Plain(s: string)
  {
    s != "(" && s != ")" && s !in KEYWORDS
  }

  predicate PlainTree(e: Tree)
  {
    match e
    case Leaf(s) => Plain(s)
    case Node(_, l, r) => PlainTree(l) && PlainTree(r)
  }

  // The tokens of a tree where the evaluator of that level reads it, with
  // parentheses only where they are needed.
  function Print(e: Tree, level: nat): (r: seq<string>)
    ensures |r| >= 1
    decreases e, 1
  {
    if e.Node? && LevelOf(e.op) < level then ["("] + Bare(e) + [")"] else Bare(e)
  }

  function Bare(e: Tree): (r: seq<string>)
    ensures |r| >= 1
    decreases e, 0
  {
    match e
    case Leaf(s) => [s]
    case Node(op, l, r) => Print(l, LevelOf(op)) + [Text(op)] + Print(r, LevelOf(op) + 1)
  }

  // ---------- precedence ----------

  predicate Multiplies(op: Op)
  {
    op == Times || op == Div || op == Mod
  }

  predicate Adds(op: Op)
  {
    op == Plus || op == Minus
  }

  predicate Compares(op: Op)
  {
    op == Lt || op == Le || op == Eq || op == EqEq || op == Ne || op == Ge || op == Gt
  }

  // `p` binds tighter than `q`: * / % before + -, these before comparisons, these
  // before &, and & before |.
  predicate Tighter(p: Op, q: Op)
  {
    || (Multiplies(p) && (Adds(q) || Compares(q) || q == And || q == Or))
    || (Adds(p) && (Compares(q) || q == And || q == Or))
    || (Compares(p) && (q == And || q == Or))
    || (p == And && q == Or)
  }

  function InParens(ts: seq<string>): seq<string>
  {
    ["("] + ts + [")"]
  }

  // How a tree is written with as few parentheses as possible: on the left of an
  // operator only looser ones need them, on the right all that are not tighter.
  function Shown(e: Tree): (r: seq<string>)
    ensures |r| >= 1
  {
    match e
    case Leaf(s) => [s]
    case Node(op, l, r) =>
      (if l.Node? && Tighter(op, l.op) then InParens(Shown(l)) else Shown(l))
      + [Text(op)] +
      (if r.Node? && !Tighter(r.op, op) then InParens(Shown(r)) else Shown(r))
  }

  // The levels of the evaluator are that precedence.
  lemma LevelsAre(p: Op, q: Op)
    ensures Tighter(p, q) <==> LevelOf(p) > LevelOf(q)
  {
  }

  lemma {:induction false} ShownIs(e: Tree)
    ensures Bare(e) == Shown(e)
  {
    hide LevelOf, Text, Tighter;
    match e
    case Leaf(_) =>
    case Node(op, l, r) =>
      ShownIs(l);
      ShownIs(r);
      if l.Node? {
        LevelsAre(op, l.op);
      }
      if r.Node? {
        LevelsAre(r.op, op);
      }
  }

  // ---------- the evaluator ----------

  // A value and the position behind it.
  datatype Step = Step(v: Value, pos: nat)

  // `Level(k, ts, p)` for the levels 0 to 4; level 5 stands for eval5, eval6
  // and eval7.
  function Level(k: nat, ts: seq<string>, p: nat): (r: Outcome<Step>)
    requires k <= 5 && p <= |ts|
    ensures r.Ok? ==> p < r.value.pos <= |ts|
    decreases |ts| - p, 8 - k
  {
    if k == 5 then Operand(ts, p)
    else
      match Level(k + 1, ts, p)
      case Fail(x) => Fail(x)
      case Ok(s) => Loop(k, s.v, ts, s.pos)
  }

  function Loop(k: nat, l: Value, ts: seq<string>, p: nat): (r: Outcome<Step>)
    requires k <= 4 && p <= |ts|
    ensures r.Ok? ==> p <= r.value.pos <= |ts|
    decreases |ts| - p, 9
  {
    if p == |ts| || OpAt(k, ts[p]).NoOp? then Ok(Step(l, p))
    else
      match Level(k + 1, ts, p + 1)
      case Fail(x) => Fail(x)
      case Ok(s) =>
        match Apply(OpAt(k, ts[p]).op, l, s.v)
        case Fail(x) => Fail(x)
        case Ok(v) => Loop(k, v, ts, s.pos)
  }

  function Operand(ts: seq<string>, p: nat): (r: Outcome<Step>)
    requires p <= |ts|
    ensures r.Ok? ==> p < r.value.pos <= |ts|
    decreases |ts| - p, 2
  {
    match Primary(ts, p)
    case Fail(x) => Fail(x)
    case Ok(s) => if s.pos < |ts| && ts[s.pos] == ":" then Fail(Unmodelled) else Ok(s)
  }

  function Primary(ts: seq<string>, p: nat): (r: Outcome<Step>)
    requires p <= |ts|
    ensures r.Ok? ==> p < r.value.pos <= |ts|
    decreases |ts| - p, 1
  {
    if p == |ts| then Fail(SyntaxError)
    else if ts[p] in KEYWORDS then Fail(Unmodelled)
    else if ts[p] == "(" then
      match Level(0, ts, p + 1)
      case Fail(x) => Fail(x)
      case Ok(s) => if s.pos == |ts| || ts[s.pos] != ")" then Fail(SyntaxError) else Ok(Step(s.v, s.pos + 1))
    else if ts[p] == ")" then Fail(SyntaxError)
    else Ok(Step(Str(ts[p]), p + 1))
  }

  // ---------- the evaluator reads back what is printed ----------

  // The tokens `x` stand at position `p`.
  predicate TokensAt(ts: seq<string>, p: nat, x: seq<string>)
  {
    p + |x| <= |ts| && ts[p..p + |x|] == x
  }

  lemma TokensSplit(ts: seq<string>, p: nat, x: seq<string>, y: seq<string>)
    requires TokensAt(ts, p, x + y)
    ensures TokensAt(ts, p, x) && TokensAt(ts, p + |x|, y)
  {
    assert ts[p..p + |x|] == ts[p..p + |x + y|][..|x|];
    assert ts[p + |x|..p + |x| + |y|] == ts[p..p + |x + y|][|x|..];
  }

  lemma OneToken(ts: seq<string>, p: nat, t: string)
    requires TokensAt(ts, p, [t])
    ensures p < |ts| && ts[p] == t
  {
    assert ts[p..p + 1][0] == ts[p];
  }

  // No operator of level `k` or tighter comes next.
  predicate Quiet(k: nat, ts: seq<string>, q: nat)
  {
    q < |ts| ==> ts[q] != ":" && forall m :: k <= m <= 4 ==> OpAt(m, ts[q]).NoOp?
  }

  // The outcome of level `k` when the first operand means `m` and ends at `q`.
  function After(k: nat, m: Outcome<Value>, ts: seq<string>, q: nat): Outcome<Step>
    requires k <= 5 && q <= |ts|
  {
    match m
    case Fail(x) => Fail(x)
    case Ok(v) => if k == 5 then Ok(Step(v, q)) else Loop(k, v, ts, q)
  }

  lemma QuietAfter(k: nat, m: Outcome<Value>, ts: seq<string>, q: nat)
    requires k <= 5 && q <= |ts| && Quiet(k, ts, q)
    ensures After(k, m, ts, q) == match m case Fail(x) => Fail(x) case Ok(v) => Ok(Step(v, q))
  {
  }

  lemma PrintedAt(op: Op, l: Tree, r: Tree, ts: seq<string>, p: nat)
    requires TokensAt(ts, p, Bare(Node(op, l, r)))
    ensures var k := LevelOf(op);
            var q := p + |Print(l, k)|;
            && TokensAt(ts, p, Print(l, k)) && q < |ts| && ts[q] == Text(op) && TokensAt(ts, q + 1, Print(r, k + 1))
            && |Bare(Node(op, l, r))| == |Print(l, k)| + 1 + |Print(r, k + 1)|
  {
    hide Print, TokensAt;
    var k := LevelOf(op);
    TokensSplit(ts, p, Print(l, k) + [Text(op)], Print(r, k + 1));
    TokensSplit(ts, p, Print(l, k), [Text(op)]);
    OneToken(ts, p + |Print(l, k)|, Text(op));
  }

  lemma ParenthesesAt(e: Tree, ts: seq<string>, p: nat)
    requires TokensAt(ts, p, ["("] + Bare(e) + [")"])
    ensures p < |ts| && ts[p] == "(" && TokensAt(ts, p + 1, Bare(e))
    ensures p + 1 + |Bare(e)| < |ts| && ts[p + 1 + |Bare(e)|] == ")"
  {
    hide Bare, TokensAt;
    TokensSplit(ts, p, ["("] + Bare(e), [")"]);
    TokensSplit(ts, p, ["("], Bare(e));
    OneToken(ts, p, "(");
    OneToken(ts, p + 1 + |Bare(e)|, ")");
  }

  lemma {:induction false} Reads(e: Tree, k: nat, ts: seq<string>, p: nat)
    requires PlainTree(e) && k <= 5 && TokensAt(ts, p, Print(e, k)) && Quiet(k + 1, ts, p + |Print(e, k)|)
    ensures Level(k, ts, p) == After(k, Meaning(e), ts, p + |Print(e, k)|)
    decreases |Print(e, k)|, 6 - k
  {
    hide TokensAt, Quiet, After, Loop, Apply, OpAt, LevelOf, Text;
    var q := p + |Print(e, k)|;
    InRange(ts, p, Print(e, k));
    if k == 5 {
      ReadsOperand(e, ts, p);
    } else if e.Node? && LevelOf(e.op) == k {
      PrintedAt(e.op, e.left, e.right, ts, p);
      var q1 := p + |Print(e.left, k)|;
      OpIsQuiet(e.op, ts, q1);
      Reads(e.left, k, ts, p);
      QuietMore(k + 1, k + 2, ts, q);
      Reads(e.right, k + 1, ts, q1 + 1);
      QuietAfter(k + 1, Meaning(e.right), ts, q);
      Combine(e, k, ts, q1, q);
    } else {
      QuietMore(k + 1, k + 2, ts, q);
      assert Print(e, k) == Print(e, k + 1);
      Reads(e, k + 1, ts, p);
      QuietAfter(k + 1, Meaning(e), ts, q);
      Upward(k, Meaning(e), ts, p, q);
    }
  }

  lemma InRange(ts: seq<string>, p: nat, x: seq<string>)
    requires TokensAt(ts, p, x)
    ensures p + |x| <= |ts|
  {
  }

  lemma QuietMore(k: nat, m: nat, ts: seq<string>, q: nat)
    requires k <= m && Quiet(k, ts, q)
    ensures Quiet(m, ts, q)
  {
  }

  lemma OpIsQuiet(op: Op, ts: seq<string>, q: nat)
    requires q < |ts| && ts[q] == Text(op)
    ensures Quiet(LevelOf(op) + 1, ts, q)
  {
    hide OpAt, Text;
    OpText(op);
  }

  // One turn of the loop: the operator at `q1` combines both sides.
  lemma Combine(e: Tree, k: nat, ts: seq<string>, q1: nat, q: nat)
    requires e.Node? && LevelOf(e.op) == k && q1 < q <= |ts| && ts[q1] == Text(e.op)
    requires Level(k + 1, ts, q1 + 1) == match Meaning(e.right) case Fail(x) => Fail(x) case Ok(v) => Ok(Step(v, q))
    ensures After(k, Meaning(e.left), ts, q1) == After(k, Meaning(e), ts, q)
  {
    hide Level, Apply, OpAt, Text;
    OpText(e.op);
  }

  lemma Upward(k: nat, m: Outcome<Value>, ts: seq<string>, p: nat, q: nat)
    requires k <= 4 && p <= |ts| && q <= |ts|
    requires Level(k + 1, ts, p) == match m case Fail(x) => Fail(x) case Ok(v) => Ok(Step(v, q))
    ensures Level(k, ts, p) == After(k, m, ts, q)
  {
    hide Loop;
  }

  // Operands and parentheses.
  lemma ReadsOperand(e: Tree, ts: seq<string>, p: nat)
    requires PlainTree(e) && TokensAt(ts, p, Print(e, 5)) && Quiet(6, ts, p + |Print(e, 5)|)
    ensures p + |Print(e, 5)| <= |ts| && Level(5, ts, p) == After(5, Meaning(e), ts, p + |Print(e, 5)|)
    decreases |Print(e, 5)|, 0
  {
    hide OpAt, Loop, Apply, LevelOf, Text;
    if e.Leaf? {
      OneToken(ts, p, e.s);
      PlainOperand(ts, p);
    } else {
      assert LevelOf(e.op) < 5 by { TightestLevel(e.op); }
      ParenthesesAt(e, ts, p);
      var q := p + 1 + |Bare(e)|;
      assert Print(e, 0) == Bare(e);
      CloseIsQuiet(ts, q);
      Reads(e, 0, ts, p + 1);
      QuietAfter(0, Meaning(e), ts, q);
      InParentheses(ts, p, q, Meaning(e));
    }
  }

  lemma PlainOperand(ts: seq<string>, p: nat)
    requires p < |ts| && Plain(ts[p]) && (p + 1 < |ts| ==> ts[p + 1] != ":")
    ensures Level(5, ts, p) == Ok(Step(Str(ts[p]), p + 1))
  {
    hide Loop;
    assert Primary(ts, p) == Ok(Step(Str(ts[p]), p + 1));
  }

  lemma InParentheses(ts: seq<string>, p: nat, q: nat, m: Outcome<Value>)
    requires p < q < |ts| && ts[p] == "(" && ts[q] == ")" && (q + 1 < |ts| ==> ts[q + 1] != ":")
    requires Level(0, ts, p + 1) == match m case Fail(x) => Fail(x) case Ok(v) => Ok(Step(v, q))
    ensures Level(5, ts, p) == match m case Fail(x) => Fail(x) case Ok(v) => Ok(Step(v, q + 1))
  {
    hide Loop;
    assert Primary(ts, p) == match m case Fail(x) => Fail(x) case Ok(v) => Ok(Step(v, q + 1));
  }

  lemma TightestLevel(op: Op)
    ensures LevelOf(op) < 5
  {
  }

  lemma CloseIsQuiet(ts: seq<string>, q: nat)
    requires q < |ts| && ts[q] == ")"
    ensures Quiet(0, ts, q) && Quiet(1, ts, q)
  {
  }

  // For every tree: evaluating its tokens uses all of them and gives its
  // meaning, or fails as its meaning does.
  lemma EvaluatesTree(e: Tree)
    requires PlainTree(e)
    ensures Level(0, Shown(e), 0) == match Meaning(e) case Fail(x) => Fail(x) case Ok(v) => Ok(Step(v, |Shown(e)|))
  {
    hide Level, Bare, Shown;
    var ts := Print(e, 0);
    ShownIs(e);
    assert ts[0..|ts|] == ts;
    Reads(e, 0, ts, 0);
    QuietAfter(0, Meaning(e), ts, |ts|);
  }

  // ---------- the evaluator as it runs ----------

  // What a function of the evaluator returns when it starts at `p0`, and where
  // it leaves the cursor.
  ghost predicate Returns(k: nat, ts: seq<string>, p0: nat, r: Outcome<Value>, pos: nat)
    requires k <= 5 && p0 <= |ts|
  {
    match Level(k, ts, p0)
    case Fail(x) => r == Fail(x)
    case Ok(s) => r == Ok(s.v) && pos == s.pos
  }

  // In the middle of the loop of level `k`.
  ghost predicate Looping(k: nat, ts: seq<string>, p0: nat, l: Value, pos: nat)
    requires k <= 4 && p0 <= |ts|
  {
    p0 < pos <= |ts| && Level(k, ts, p0) == Loop(k, l, ts, pos)
  }

  lemma LoopStart(k: nat, ts: seq<string>, p0: nat, r: Outcome<Value>, pos: nat)
    requires k <= 4 && p0 <= |ts| && Returns(k + 1, ts, p0, r, pos)
    ensures r.Fail? ==> Returns(k, ts, p0, r, pos)
    ensures r.Ok? ==> Looping(k, ts, p0, r.value, pos) && p0 < pos <= |ts|
  {
    hide Loop;
  }

  lemma LoopEnd(k: nat, ts: seq<string>, p0: nat, l: Value, pos: nat)
    requires k <= 4 && p0 <= |ts| && Looping(k, ts, p0, l, pos) && (pos == |ts| || OpAt(k, ts[pos]).NoOp?)
    ensures Returns(k, ts, p0, Ok(l), pos)
  {
    hide Level, OpAt;
  }

  lemma LoopTurn(k: nat, ts: seq<string>, p0: nat, l: Value, pos: nat, r: Outcome<Value>, pos': nat)
    requires k <= 4 && p0 <= |ts| && Looping(k, ts, p0, l, pos) && pos < |ts| && OpAt(k, ts[pos]).SomeOp?
    requires Returns(k + 1, ts, pos + 1, r, pos')
    ensures r.Fail? ==> Returns(k, ts, p0, r, pos')
    ensures r.Ok? ==>
              match Apply(OpAt(k, ts[pos]).op, l, r.value)
              case Fail(x) => Returns(k, ts, p0, Fail(x), pos')
              case Ok(v) => Looping(k, ts, p0, v, pos') && pos < pos'
  {
    hide Level, OpAt, Apply;
  }

  lemma OperandIs(ts: seq<string>, p: nat)
    requires p <= |ts|
    ensures Level(5, ts, p) ==
            match Primary(ts, p)
            case Fail(x) => Fail(x)
            case Ok(s) => if s.pos < |ts| && ts[s.pos] == ":" then Fail(Unmodelled) else Ok(s)
  {
    hide Primary, Loop;
  }

  class Evaluator {
    const args: seq<string>
    var pos: nat

    constructor (a: seq<string>)
      ensures args == a && pos == 0
    {
      args, pos := a, 0;
    }

    // Bare operands and ( expr ) syntax.
    method Eval7() returns (r: Outcome<Value>)
      requires pos <= |args|
      modifies this
      ensures old(pos) <= pos <= |args|
      ensures match Primary(args, old(pos))
              case Fail(x) => r == Fail(x)
              case Ok(s) => r == Ok(s.v) && pos == s.pos
      decreases |args| - pos, 1
    {
      if pos == |args| {
        return Fail(SyntaxError);
      }
      if args[pos] in KEYWORDS {
        return Fail(Unmodelled);
      }
      if args[pos] == "(" {
        pos := pos + 1;
        r := Eval();
        if r.Fail? {
          return;
        }
        if pos == |args| || args[pos] != ")" {
          return Fail(SyntaxError);
        }
        pos := pos + 1;
        return;
      }
      if args[pos] == ")" {
        return Fail(SyntaxError);
      }
      r := Ok(Str(args[pos]));
      pos := pos + 1;
    }

    // The ':' operator is where this model ends.
    method Eval5() returns (r: Outcome<Value>)
      requires pos <= |args|
      modifies this
      ensures old(pos) <= pos <= |args| && Returns(5, args, old(pos), r, pos)
      decreases |args| - pos, 2
    {
      hide Level, Primary, Loop;
      OperandIs(args, pos);
      r := Eval7();
      if r.Ok? && pos < |args| && args[pos] == ":" {
        return Fail(Unmodelled);
      }
    }

    // *, / and %
    method Eval4() returns (r: Outcome<Value>)
      requires pos <= |args|
      modifies this
      ensures old(pos) <= pos <= |args| && Returns(4, args, old(pos), r, pos)
      decreases |args| - pos, 4
    {
      hide Looping, Returns, OpAt, Apply;
      ghost var p0 := pos;
      r := Eval5();
      LoopStart(4, args, p0, r, pos);
      if r.Fail? {
        return;
      }
      var l := r.value;
      while true
        invariant p0 < pos <= |args| && Looping(4, args, p0, l, pos)
        decreases |args| - pos
      {
        var op := if pos < |args| then OpAt(4, args[pos]) else NoOp;
        if op.NoOp? {
          LoopEnd(4, args, p0, l, pos);
          return Ok(l);
        }
        ghost var at := pos;
        pos := pos + 1;
        r := Eval5();
        LoopTurn(4, args, p0, l, at, r, pos);
        if r.Fail? {
          return;
        }
        var v := ArithmeticCommon(l, r.value, op.op);
        ArithmeticIs(op.op, l, r.value, v);
        r := v;
        if r.Fail? {
          return;
        }
        l := r.value;
      }
    }

    // + and -
    method Eval3() returns (r: Outcome<Value>)
      requires pos <= |args|
      modifies this
      ensures old(pos) <= pos <= |args| && Returns(3, args, old(pos), r, pos)
      decreases |args| - pos, 5
    {
      hide Looping, Returns, OpAt, Apply;
      ghost var p0 := pos;
      r := Eval4();
      LoopStart(3, args, p0, r, pos);
      if r.Fail? {
        return;
      }
      var l := r.value;
      while true
        invariant p0 < pos <= |args| && Looping(3, args, p0, l, pos)
        decreases |args| - pos
      {
        var op := if pos < |args| then OpAt(3, args[pos]) else NoOp;
        if op.NoOp? {
          LoopEnd(3, args, p0, l, pos);
          return Ok(l);
        }
        ghost var at := pos;
        pos := pos + 1;
        r := Eval4();
        LoopTurn(3, args, p0, l, at, r, pos);
        if r.Fail? {
          return;
        }
        var v := ArithmeticCommon(l, r.value, op.op);
        ArithmeticIs(op.op, l, r.value, v);
        r := v;
        if r.Fail? {
          return;
        }
        l := r.value;
      }
    }

    // Comparisons.
    method Eval2() returns (r: Outcome<Value>)
      requires pos <= |args|
      modifies this
      ensures old(pos) <= pos <= |args| && Returns(2, args, old(pos), r, pos)
      decreases |args| - pos, 6
    {
      hide Looping, Returns, OpAt, Apply;
      ghost var p0 := pos;
      r := Eval3();
      LoopStart(2, args, p0, r, pos);
      if r.Fail? {
        return;
      }
      var l := r.value;
      while true
        invariant p0 < pos <= |args| && Looping(2, args, p0, l, pos)
        decreases |args| - pos
      {
        var op := if pos < |args| then OpAt(2, args[pos]) else NoOp;
        if op.NoOp? {
          LoopEnd(2, args, p0, l, pos);
          return Ok(l);
        }
        ghost var at := pos;
        pos := pos + 1;
        r := Eval3();
        LoopTurn(2, args, p0, l, at, r, pos);
        if r.Fail? {
          return;
        }
        var holds := CmpCommon(l, r.value, op.op);
        l := Int(if holds then 1 else 0);
      }
    }

    // &
    method Eval1() returns (r: Outcome<Value>)
      requires pos <= |args|
      modifies this
      ensures old(pos) <= pos <= |args| && Returns(1, args, old(pos), r, pos)
      decreases |args| - pos, 7
    {
      hide Looping, Returns, OpAt, Apply;
      ghost var p0 := pos;
      r := Eval2();
      LoopStart(1, args, p0, r, pos);
      if r.Fail? {
        return;
      }
      var l := r.value;
      while true
        invariant p0 < pos <= |args| && Looping(1, args, p0, l, pos)
        decreases |args| - pos
      {
        var op := if pos < |args| then OpAt(1, args[pos]) else NoOp;
        if op.NoOp? {
          LoopEnd(1, args, p0, l, pos);
          return Ok(l);
        }
        ghost var at := pos;
        pos := pos + 1;
        r := Eval2();
        LoopTurn(1, args, p0, l, at, r, pos);
        if r.Fail? {
          return;
        }
        NullAnd(l, r.value);
        if IsNull(l) || IsNull(r.value) {
          l := Int(0);
        }
      }
    }

    // |
    method Eval() returns (r: Outcome<Value>)
      requires pos <= |args|
      modifies this
      ensures old(pos) <= pos <= |args| && Returns(0, args, old(pos), r, pos)
      decreases |args| - pos, 8
    {
      hide Looping, Returns, OpAt, Apply;
      ghost var p0 := pos;
      r := Eval1();
      LoopStart(0, args, p0, r, pos);
      if r.Fail? {
        return;
      }
      var l := r.value;
      while true
        invariant p0 < pos <= |args| && Looping(0, args, p0, l, pos)
        decreases |args| - pos
      {
        var op := if pos < |args| then OpAt(0, args[pos]) else NoOp;
        if op.NoOp? {
          LoopEnd(0, args, p0, l, pos);
          return Ok(l);
        }
        ghost var at := pos;
        pos := pos + 1;
        r := Eval1();
        LoopTurn(0, args, p0, l, at, r, pos);
        if r.Fail? {
          return;
        }
        NullOr(l, r.value);
        if IsNull(l) {
          l := r.value;
        }
      }
    }

    // expr_main: the whole command line must be one expression.
    method EvalAll() returns (r: Outcome<Value>)
      requires pos == 0
      modifies this
      ensures r == if args == [] then Fail(SyntaxError) else Whole(args)
    {
      hide Level;
      if args == [] {
        return Fail(SyntaxError);
      }
      r := Eval();
      if r.Ok? && pos < |args| {
        return Fail(SyntaxError);
      }
    }
  }

  // The value of a whole command line.
  function Whole(ts: seq<string>): Outcome<Value>
  {
    match Level(0, ts, 0)
    case Fail(x) => Fail(x)
    case Ok(s) => if s.pos < |ts| then Fail(SyntaxError) else Ok(s.v)
  }

  // A printed tree is a whole expression.
  lemma WholeTree(e: Tree)
    requires PlainTree(e)
    ensures Whole(Shown(e)) == Meaning(e)
  {
    hide Level, Shown;
    EvaluatesTree(e);
  }

  lemma NullAnd(l: Value, r: Value)
    ensures Apply(And, l, r) == Ok(if IsNull(l) || IsNull(r) then Int(0) else l)
  {
  }

  lemma NullOr(l: Value, r: Value)
    ensures Apply(Or, l, r) == Ok(if IsNull(l) then r else l)
  {
  }

  // The first place where the strings differ decides, and a string precedes its
  // continuations.
  ghost predicate Precedes(a: string, b: string)
  {
    exists k: nat :: DiffersAt(a, b, k)
  }

  predicate DiffersAt(a: string, b: string, k: nat)
  {
    k <= |a| && k < |b| && a[..k] == b[..k] && (k == |a| || a[k] < b[k])
  }

  lemma DiffersNext(a: string, b: string, k: nat)
    requires a != "" && b != "" && a[0] == b[0]
    ensures DiffersAt(a[1..], b[1..], k) <==> DiffersAt(a, b, k + 1)
  {
    if k < |a| && k + 1 < |b| {
      assert a[..k + 1] == [a[0]] + a[1..][..k] && b[..k + 1] == [b[0]] + b[1..][..k];
    }
  }

  // strcmp finds that place.
  lemma {:induction false} CompareIs(a: string, b: string)
    ensures CompareStrings(a, b) < 0 <==> Precedes(a, b)
    ensures CompareStrings(a, b) > 0 <==> Precedes(b, a)
    ensures CompareStrings(a, b) == 0 <==> a == b
    decreases |a|
  {
    if a != "" && b != "" && a[0] == b[0] {
      CompareIs(a[1..], b[1..]);
      PrecedesNext(a, b);
      PrecedesNext(b, a);
      assert a == [a[0]] + a[1..] && b == [b[0]] + b[1..];
    } else {
      AtOnce(a, b);
      AtOnce(b, a);
    }
  }

  lemma PrecedesNext(a: string, b: string)
    requires a != "" && b != "" && a[0] == b[0]
    ensures Precedes(a[1..], b[1..]) <==> Precedes(a, b)
  {
    hide DiffersAt;
    if Precedes(a[1..], b[1..]) {
      var k: nat :| DiffersAt(a[1..], b[1..], k);
      DiffersNext(a, b, k);
    }
    if Precedes(a, b) {
      var k: nat :| DiffersAt(a, b, k);
      NotAtZero(a, b, k);
      DiffersNext(a, b, k - 1);
    }
  }

  lemma NotAtZero(a: string, b: string, k: nat)
    requires a != "" && b != "" && a[0] == b[0] && DiffersAt(a, b, k)
    ensures k > 0
  {
  }

  lemma SameBefore(a: string, b: string, k: nat)
    requires DiffersAt(a, b, k)
    ensures k > 0 ==> a != "" && b != "" && a[0] == b[0]
  {
    if k > 0 {
      assert a[..k][0] == b[..k][0];
    }
  }

  lemma AtOnce(a: string, b: string)
    requires a == "" || b == "" || a[0] != b[0]
    ensures Precedes(a, b) <==> b != "" && (a == "" || a[0] < b[0])
  {
    if Precedes(a, b) {
      var k: nat :| DiffersAt(a, b, k);
      SameBefore(a, b, k);
    }
    if b != "" && (a == "" || a[0] < b[0]) {
      assert DiffersAt(a, b, 0);
    }
  }

  // What a comparison means: of numbers when both sides read as numbers, of
  // strings otherwise.
  ghost predicate Compared(op: Op, l: Value, r: Value, holds: bool)
  {
    var a, b := ToArith(l), ToArith(r);
    var less, same :=
      if a.Int? && b.Int? then a.i < b.i else Precedes(ToString(a), ToString(b)),
      if a.Int? && b.Int? then a.i == b.i else ToString(a) == ToString(b);
    match op
    case Lt => holds == less
    case Le => holds == (less || same)
    case Eq | EqEq => holds == same
    case Ne => holds == !same
    case Ge => holds == !less
    case Gt => holds == (!less && !same)
    case _ => false
  }

  method CmpCommon(l: Value, r: Value, op: Op) returns (holds: bool)
    requires LevelOf(op) == 2
    ensures Compared(op, l, r, holds)
    ensures Apply(op, l, r) == Ok(Int(if holds then 1 else 0))
  {
    hide ParseInt, PrintInt, CompareStrings, Precedes;
    CompareIs(ToString(ToArith(l)), ToString(ToArith(r)));
    var a, b := ToArith(l), ToArith(r);
    var ll, rr;
    if a.Str? || b.Str? {
      ll, rr := CompareStrings(ToString(a), ToString(b)), 0;
    } else {
      ll, rr := a.i, b.i;
    }
    if op == Lt {
      return ll < rr;
    }
    if op == Le {
      return ll <= rr;
    }
    if op == Eq || op == EqEq {
      return ll == rr;
    }
    if op == Ne {
      return ll != rr;
    }
    if op == Gt {
      return ll > rr;
    }
    return ll >= rr;
  }

  // ---------- arithmetic, without saying how ----------

  const MODULUS: int := 0x1_0000_0000_0000_0000

  function Abs(x: int): nat
  {
    if x < 0 then -x else x
  }

  // `q` and `r` are quotient and remainder of a division towards zero.
  predicate Divides(a: int, b: int, q: int, r: int)
  {
    a == b * q + r && Abs(r) < Abs(b) && (r == 0 || (r > 0 <==> a > 0))
  }

  // `i` is what 64 bits hold of `x`.
  predicate Holds(i: int, x: int)
  {
    MIN_ARITH <= i <= MAX_ARITH && (x - i) % MODULUS == 0
  }

  // What arithmetic_common promises for two numbers.
  ghost predicate Computes(op: Op, a: int, b: int, v: Outcome<Value>)
  {
    if (op == Div || op == Mod) && b == 0 then v == Fail(DivisionByZero)
    else
      && v.Ok? && v.value.Int?
      && match op
         case Plus => Holds(v.value.i, a + b)
         case Minus => Holds(v.value.i, a - b)
         case Times => Holds(v.value.i, a * b)
         case Div => exists q, r :: Divides(a, b, q, r) && Holds(v.value.i, q)
         case _ => exists q :: Divides(a, b, q, v.value.i)
  }

  // For any two values: what does not read as a number is refused.
  ghost predicate Arithmetic(op: Op, l: Value, r: Value, v: Outcome<Value>)
  {
    if ToArith(l).Str? || ToArith(r).Str? then v == Fail(NonNumeric)
    else Computes(op, ToArith(l).i, ToArith(r).i, v)
  }

  lemma WrapHolds(x: int)
    ensures Holds(Wrap(x), x)
  {
    var y := x - MIN_ARITH;
    assert x - Wrap(x) == (y / MODULUS) * MODULUS + 0;
    ModUnique(x - Wrap(x), MODULUS, y / MODULUS, 0);
  }

  lemma HoldsUnique(i: int, j: int, x: int)
    requires Holds(i, x) && Holds(j, x)
    ensures i == j
  {
    var d := (x - j) / MODULUS - (x - i) / MODULUS;
    assert i - j == d * MODULUS;
    MulSmall(d, MODULUS, i - j);
  }

  lemma DivisionIs(a: int, b: int)
    requires b != 0
    ensures Divides(a, b, Quotient(a, b), Remainder(a, b))
  {
    hide Quotient, Remainder, Divides;
    if a >= 0 {
      PlainDivision(a, b);
      var k, m := a / b, a % b;
      DivFacts(a, b);
      Unmirrored(a, b, k, m);
    } else {
      MirroredDivision(a, b);
      var k, m := (-a) / b, (-a) % b;
      DivFacts(-a, b);
      Mirrored(a, b, k, m);
    }
  }

  lemma PlainDivision(a: int, b: int)
    requires b != 0 && a >= 0
    ensures Quotient(a, b) == a / b && Remainder(a, b) == a % b
  {
    DivFacts(a, b);
  }

  lemma MirroredDivision(a: int, b: int)
    requires b != 0 && a < 0
    ensures Quotient(a, b) == -((-a) / b) && Remainder(a, b) == -((-a) % b)
  {
    DivFacts(-a, b);
    Negated(b, (-a) / b);
  }

  lemma Unmirrored(a: int, b: int, k: int, m: int)
    requires a >= 0 && a == b * k + m && 0 <= m < Abs(b)
    ensures Divides(a, b, k, m)
  {
  }

  lemma Mirrored(a: int, b: int, k: int, m: int)
    requires a < 0 && -a == b * k + m && 0 <= m < Abs(b)
    ensures Divides(a, b, -k, -m)
  {
    Negated(b, k);
  }

  lemma DivFacts(a: int, b: int)
    requires b != 0
    ensures a == b * (a / b) + a % b && 0 <= a % b < Abs(b)
  {
  }

  lemma Negated(b: int, q: int)
    ensures b * (-q) == -(b * q)
  {
  }

  lemma DivisionUnique(a: int, b: int, q: int, r: int, q': int, r': int)
    requires Divides(a, b, q, r) && Divides(a, b, q', r')
    ensures q == q' && r == r'
  {
    var d := q - q';
    Difference(b, q, q', r, r', a);
    if b > 0 {
      MulSmall(d, b, r' - r);
    } else {
      Negated(d, b);
      MulSmall(d, -b, r - r');
    }
  }

  lemma Difference(b: int, q: int, q': int, r: int, r': int, a: int)
    requires a == b * q + r && a == b * q' + r'
    ensures (q - q') * b == r' - r
  {
  }

  lemma ApplyComputes(op: Op, l: Value, r: Value)
    requires LevelOf(op) >= 3
    ensures Arithmetic(op, l, r, Apply(op, l, r))
  {
    hide ParseInt, Wrap, Quotient, Remainder, Holds, Divides;
    var a, b := ToArith(l), ToArith(r);
    if a.Int? && b.Int? {
      WrapHolds(a.i + b.i);
      WrapHolds(a.i - b.i);
      WrapHolds(a.i * b.i);
      if b.i != 0 {
        DivisionIs(a.i, b.i);
        WrapHolds(Quotient(a.i, b.i));
      }
    }
  }

  // The promise leaves only one result.
  lemma ComputesUnique(op: Op, a: int, b: int, v: Outcome<Value>, w: Outcome<Value>)
    requires LevelOf(op) >= 3 && Computes(op, a, b, v) && Computes(op, a, b, w)
    ensures v == w
  {
    hide Holds, Divides;
    if (op == Div || op == Mod) && b == 0 {
      return;
    }
    match op
    case Plus => HoldsUnique(v.value.i, w.value.i, a + b);
    case Minus => HoldsUnique(v.value.i, w.value.i, a - b);
    case Times => HoldsUnique(v.value.i, w.value.i, a * b);
    case Div =>
      var q, r :| Divides(a, b, q, r) && Holds(v.value.i, q);
      var q', r' :| Divides(a, b, q', r') && Holds(w.value.i, q');
      DivisionUnique(a, b, q, r, q', r');
      HoldsUnique(v.value.i, w.value.i, q);
    case Mod =>
      var q :| Divides(a, b, q, v.value.i);
      var q' :| Divides(a, b, q', w.value.i);
      DivisionUnique(a, b, q, v.value.i, q', w.value.i);
  }

  lemma ArithmeticIs(op: Op, l: Value, r: Value, v: Outcome<Value>)
    requires LevelOf(op) >= 3 && Arithmetic(op, l, r, v)
    ensures v == Apply(op, l, r)
  {
    hide Computes, Apply, ParseInt;
    ApplyComputes(op, l, r);
    if ToArith(l).Int? && ToArith(r).Int? {
      ComputesUnique(op, ToArith(l).i, ToArith(r).i, v, Apply(op, l, r));
    }
  }

  method ArithmeticCommon(l: Value, r: Value, op: Op) returns (v: Outcome<Value>)
    requires LevelOf(op) >= 3
    ensures Arithmetic(op, l, r, v)
  {
    hide ParseInt, Wrap, Quotient, Remainder, Holds, Divides;
    var a, b := ToArith(l), ToArith(r);
    if a.Str? || b.Str? {
      return Fail(NonNumeric);
    }
    var li, ri := a.i, b.i;
    if op == Plus {
      WrapHolds(li + ri);
      return Ok(Int(Wrap(li + ri)));
    }
    if op == Minus {
      WrapHolds(li - ri);
      return Ok(Int(Wrap(li - ri)));
    }
    if op == Times {
      WrapHolds(li * ri);
      return Ok(Int(Wrap(li * ri)));
    }
    if ri == 0 {
      return Fail(DivisionByZero);
    }
    DivisionIs(li, ri);
    if op == Div {
      WrapHolds(Quotient(li, ri));
      return Ok(Int(Wrap(Quotient(li, ri))));
    }
    return Ok(Int(Remainder(li, ri)));
  }
}
