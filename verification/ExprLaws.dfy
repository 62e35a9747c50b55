/** What users of expr rely on: precedence, association, the spelling of the
    operators, and numbers that are read as they are printed. */
module ExprLaws {
  import opened Expr

  // ---------- precedence ----------

  lemma ShownPair(p: Op, a: string, b: string)
    ensures Shown(Node(p, Leaf(a), Leaf(b))) == [a, Text(p), b]
  {
  }

  lemma ShownRight(q: Op, p: Op, a: string, b: string, c: string)
    ensures Shown(Node(q, Leaf(a), Node(p, Leaf(b), Leaf(c)))) ==
            if Tighter(p, q) then [a, Text(q), b, Text(p), c] else [a, Text(q), "(", b, Text(p), c, ")"]
  {
    hide Tighter, Text;
    ShownPair(p, b, c);
    var r := Node(p, Leaf(b), Leaf(c));
    assert Shown(Node(q, Leaf(a), r)) == [a] + [Text(q)] + (if Tighter(p, q) then Shown(r) else InParens(Shown(r)));
  }

  lemma ShownLeft(q: Op, p: Op, a: string, b: string, c: string)
    ensures Shown(Node(q, Node(p, Leaf(a), Leaf(b)), Leaf(c))) ==
            if Tighter(q, p) then ["(", a, Text(p), b, ")", Text(q), c] else [a, Text(p), b, Text(q), c]
  {
    hide Tighter, Text;
    ShownPair(p, a, b);
    var l := Node(p, Leaf(a), Leaf(b));
    assert Shown(Node(q, l, Leaf(c))) == (if Tighter(q, p) then InParens(Shown(l)) else Shown(l)) + [Text(q)] + [c];
  }

  lemma OneWay(p: Op, q: Op)
    ensures Tighter(p, q) ==> !Tighter(q, p)
  {
  }

  lemma PlainNodes(p: Op, q: Op, a: string, b: string, c: string)
    requires Plain(a) && Plain(b) && Plain(c)
    ensures PlainTree(Node(q, Leaf(a), Node(p, Leaf(b), Leaf(c)))) && PlainTree(Node(q, Node(p, Leaf(a), Leaf(b)), Leaf(c)))
  {
    hide Plain;
    assert PlainTree(Node(p, Leaf(b), Leaf(c))) && PlainTree(Node(p, Leaf(a), Leaf(b)));
  }

  // The tighter operator of two takes its operands first, on either side.
  lemma Precedence(p: Op, q: Op, a: string, b: string, c: string)
    requires Tighter(p, q) && Plain(a) && Plain(b) && Plain(c)
    ensures Whole([a, Text(q), b, Text(p), c]) == Meaning(Node(q, Leaf(a), Node(p, Leaf(b), Leaf(c))))
    ensures Whole([a, Text(p), b, Text(q), c]) == Meaning(Node(q, Node(p, Leaf(a), Leaf(b)), Leaf(c)))
  {
    hide Whole, Meaning, Text, Plain, PlainTree, Tighter, Shown;
    OneWay(p, q);
    PlainNodes(p, q, a, b, c);
    ShownRight(q, p, a, b, c);
    ShownLeft(q, p, a, b, c);
    WholeTree(Node(q, Leaf(a), Node(p, Leaf(b), Leaf(c))));
    WholeTree(Node(q, Node(p, Leaf(a), Leaf(b)), Leaf(c)));
  }

  // Operators of one kind associate to the left.
  lemma Association(p: Op, q: Op, a: string, b: string, c: string)
    requires !Tighter(p, q) && !Tighter(q, p) && Plain(a) && Plain(b) && Plain(c)
    ensures Whole([a, Text(p), b, Text(q), c]) == Meaning(Node(q, Node(p, Leaf(a), Leaf(b)), Leaf(c)))
  {
    hide Whole, Meaning, Text, Plain, PlainTree, Tighter, Shown;
    PlainNodes(p, q, a, b, c);
    ShownLeft(q, p, a, b, c);
    WholeTree(Node(q, Node(p, Leaf(a), Leaf(b)), Leaf(c)));
  }

  // Parentheses override both.
  lemma Parentheses(p: Op, q: Op, a: string, b: string, c: string)
    requires Plain(a) && Plain(b) && Plain(c)
    ensures !Tighter(q, p) ==>
              Whole([a, Text(p), "(", b, Text(q), c, ")"]) == Meaning(Node(p, Leaf(a), Node(q, Leaf(b), Leaf(c))))
    ensures Tighter(q, p) ==>
              Whole(["(", a, Text(p), b, ")", Text(q), c]) == Meaning(Node(q, Node(p, Leaf(a), Leaf(b)), Leaf(c)))
  {
    hide Whole, Meaning, Text, Plain, PlainTree, Tighter, Shown;
    PlainNodes(q, p, a, b, c);
    PlainNodes(p, q, a, b, c);
    ShownRight(p, q, a, b, c);
    ShownLeft(q, p, a, b, c);
    WholeTree(Node(p, Leaf(a), Node(q, Leaf(b), Leaf(c))));
    WholeTree(Node(q, Node(p, Leaf(a), Leaf(b)), Leaf(c)));
  }

  // ---------- spelling ----------

  lemma OneOperator(op: Op, a: string, b: string)
    requires Plain(a) && Plain(b)
    ensures Whole([a, Text(op), b]) == Apply(op, Str(a), Str(b))
  {
    hide Whole, Apply, Plain, Text, Shown;
    ShownPair(op, a, b);
    WholeTree(Node(op, Leaf(a), Leaf(b)));
  }

  // The operators by their spelling.
  lemma Spelled(a: string, b: string)
    requires Plain(a) && Plain(b)
    ensures Whole([a, "|", b]) == Apply(Or, Str(a), Str(b)) && Whole([a, "&", b]) == Apply(And, Str(a), Str(b))
    ensures Whole([a, "<", b]) == Apply(Lt, Str(a), Str(b)) && Whole([a, "<=", b]) == Apply(Le, Str(a), Str(b))
    ensures Whole([a, "=", b]) == Apply(Eq, Str(a), Str(b)) && Whole([a, "==", b]) == Apply(EqEq, Str(a), Str(b))
    ensures Whole([a, "!=", b]) == Apply(Ne, Str(a), Str(b)) && Whole([a, ">=", b]) == Apply(Ge, Str(a), Str(b))
    ensures Whole([a, ">", b]) == Apply(Gt, Str(a), Str(b)) && Whole([a, "+", b]) == Apply(Plus, Str(a), Str(b))
    ensures Whole([a, "-", b]) == Apply(Minus, Str(a), Str(b)) && Whole([a, "*", b]) == Apply(Times, Str(a), Str(b))
    ensures Whole([a, "/", b]) == Apply(Div, Str(a), Str(b)) && Whole([a, "%", b]) == Apply(Mod, Str(a), Str(b))
  {
    hide Whole, Apply, Plain;
    OneOperator(Or, a, b);
    OneOperator(And, a, b);
    OneOperator(Lt, a, b);
    OneOperator(Le, a, b);
    OneOperator(Eq, a, b);
    OneOperator(EqEq, a, b);
    OneOperator(Ne, a, b);
    OneOperator(Ge, a, b);
    OneOperator(Gt, a, b);
    OneOperator(Plus, a, b);
    OneOperator(Minus, a, b);
    OneOperator(Times, a, b);
    OneOperator(Div, a, b);
    OneOperator(Mod, a, b);
  }

  // The empty string and 0 count as false.
  lemma Truth(a: string, b: string)
    requires Plain(a) && Plain(b)
    ensures Whole([a, "|", b]) == Ok(Str(if a == "" || a == "0" then b else a))
    ensures Whole([a, "&", b]) == Ok(if a == "" || a == "0" || b == "" || b == "0" then Int(0) else Str(a))
  {
    hide Whole, Plain;
    Spelled(a, b);
  }

  // A comparison yields 1 or 0, as it holds or not.
  lemma ApplyCompares(op: Op, l: Value, r: Value)
    requires Compares(op)
    ensures exists holds :: Compared(op, l, r, holds) && Apply(op, l, r) == Ok(Int(if holds then 1 else 0))
  {
    hide ParseInt, PrintInt, CompareStrings, Precedes;
    CompareIs(ToString(ToArith(l)), ToString(ToArith(r)));
    var holds := Apply(op, l, r) == Ok(Int(1));
    assert Compared(op, l, r, holds);
  }

  // ---------- numbers ----------

  function DigitChar(d: nat): (c: char)
    requires d < 10
    ensures IsDigit(c) && c as int == d + '0' as int
  {
    (d + '0' as int) as char
  }

  lemma DigitsNext(t: string, d: nat)
    requires d < 10 && forall i :: 0 <= i < |t| ==> IsDigit(t[i])
    ensures forall i :: 0 <= i < |t| + 1 ==> IsDigit((t + [DigitChar(d)])[i])
    ensures DigitsValue(t + [DigitChar(d)]) == 10 * DigitsValue(t) + d
  {
    hide DigitChar;
    var u := t + [DigitChar(d)];
    assert u[..|u| - 1] == t && u[|u| - 1] == DigitChar(d);
  }

  lemma PrintNatIs(n: nat)
    ensures PrintNat(n) == (if n < 10 then "" else PrintNat(n / 10)) + [DigitChar(n % 10)]
  {
  }

  lemma {:induction false} PrintNatRead(n: nat)
    ensures PrintNat(n) != "" && (forall i :: 0 <= i < |PrintNat(n)| ==> IsDigit(PrintNat(n)[i]))
    ensures DigitsValue(PrintNat(n)) == n
    decreases n
  {
    hide PrintNat, DigitsValue, IsDigit;
    PrintNatIs(n);
    if n < 10 {
      NoDigits();
      DigitsNext("", n);
    } else {
      PrintNatRead(n / 10);
      DigitsNext(PrintNat(n / 10), n % 10);
    }
  }

  lemma NoDigits()
    ensures DigitsValue("") == 0
  {
  }

  lemma Decimal()
    ensures DigitsValue("10") == 10 && DigitsValue("9") == 9
  {
    assert "10"[..1] == "1" && "1"[..0] == "" && "9"[..0] == "";
    assert DigitsValue("1") == 1;
  }

  // Every number that 64 bits hold is read as it is printed.
  lemma ReadsPrinted(i: int)
    requires MIN_ARITH <= i <= MAX_ARITH
    ensures ParseInt(PrintInt(i)) == Ok(i)
  {
    hide PrintNat, DigitsValue;
    var t := PrintInt(i);
    var d := PrintNat(if i < 0 then -i else i);
    PrintNatRead(if i < 0 then -i else i);
    assert IsDigit(d[0]);
    if i < 0 {
      assert t[0] == '-' && t[1..] == d;
    } else {
      assert t == d;
    }
    assert DropSpaces(t) == t;
  }
}
