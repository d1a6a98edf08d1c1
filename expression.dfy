/** The expression tree over `Int128`: constants, variables, the four binary
    operators and negation, evaluated in an environment of variable values and
    printed fully parenthesised. The C++ class hierarchy with its `shared_ptr`
    children becomes one immutable datatype; `eval` and `str` become recursive
    functions over it. */
module Expression {
  import opened Int128Core
  import opened Int128Mul
  import opened Int128Div
  import opened Int128Text

  datatype Option<T> = None | Some(value: T)

  datatype Expr =
    | Const(value: Int128)
    | Variable(name: string)
    | Add(left: Expr, right: Expr)
    | Subtract(left: Expr, right: Expr)
    | Multiply(left: Expr, right: Expr)
    | Divide(left: Expr, right: Expr)
    | Negate(operand: Expr)

  /** The `std::map<std::string, Int128>` handed to `eval`. */
  type Env = map<string, Int128>

  /** The variable names an expression mentions. */
  function Vars(e: Expr): set<string>
  {
    match e
    case Const(_) => {}
    case Variable(name) => {name}
    case Add(l, r) => Vars(l) + Vars(r)
    case Subtract(l, r) => Vars(l) + Vars(r)
    case Multiply(l, r) => Vars(l) + Vars(r)
    case Divide(l, r) => Vars(l) + Vars(r)
    case Negate(x) => Vars(x)
  }

  // ---------------------------------------------------------------------
  // eval

  /** A binary node evaluates both children and applies its operator; an
      exception from either child propagates. */
  function Apply(a: Option<Int128>, b: Option<Int128>, op: (Int128, Int128) -> Int128): (r: Option<Int128>)
    ensures r.Some? <==> a.Some? && b.Some?
  {
    if a.Some? && b.Some? then Some(op(a.value, b.value)) else None
  }

  /** `eval(values)`. `values.at(name)` throws `std::out_of_range` for an
      unbound name, modelled as `None`; so evaluation succeeds exactly when
      every variable is bound. */
  function Eval(e: Expr, env: Env): (v: Option<Int128>)
    ensures v.Some? <==> Vars(e) <= env.Keys
  {
    match e
    case Const(c) => Some(c)
    case Variable(name) => if name in env then Some(env[name]) else None
    case Add(l, r) => Apply(Eval(l, env), Eval(r, env), Plus)
    case Subtract(l, r) => Apply(Eval(l, env), Eval(r, env), Minus)
    case Multiply(l, r) => Apply(Eval(l, env), Eval(r, env), Times)
    case Divide(l, r) => Apply(Eval(l, env), Eval(r, env), Div)
    case Negate(x) => if Eval(x, env).Some? then Some(Neg(Eval(x, env).value)) else None
  }

  /** The value of an expression depends only on the bindings of its own
      variables. */
  lemma {:induction false} EvalLocal(e: Expr, env1: Env, env2: Env)
    requires forall x :: x in Vars(e) ==> (x in env1 <==> x in env2)
    requires forall x :: x in Vars(e) && x in env1 && x in env2 ==> env1[x] == env2[x]
    ensures Eval(e, env1) == Eval(e, env2)
  {
    match e
    case Const(_) =>
    case Variable(_) =>
    case Add(l, r) => EvalLocal(l, env1, env2); EvalLocal(r, env1, env2);
    case Subtract(l, r) => EvalLocal(l, env1, env2); EvalLocal(r, env1, env2);
    case Multiply(l, r) => EvalLocal(l, env1, env2); EvalLocal(r, env1, env2);
    case Divide(l, r) => EvalLocal(l, env1, env2); EvalLocal(r, env1, env2);
    case Negate(x) => EvalLocal(x, env1, env2);
  }

  /** `Const::eval` ignores the environment; `Variable::eval` reads its binding. */
  lemma LeafEval(c: Int128, name: string, env: Env)
    ensures Eval(Const(c), env) == Eval(Const(c), map[]) == Some(c)
    ensures name in env ==> Eval(Variable(name), env) == Some(env[name])
    ensures name !in env ==> Eval(Variable(name), env) == None
  {
  }

  /** The expressions whose operators are `+`, binary `-` and unary `-`. */
  predicate Additive(e: Expr)
  {
    match e
    case Const(_) => true
    case Variable(_) => true
    case Add(l, r) => Additive(l) && Additive(r)
    case Subtract(l, r) => Additive(l) && Additive(r)
    case Multiply(_, _) => false
    case Divide(_, _) => false
    case Negate(x) => Additive(x)
  }

  /** The value of an additive expression over the integers, without wrapping. */
  function Exact(e: Expr, env: Env): int
    requires Additive(e) && Vars(e) <= env.Keys
  {
    match e
    case Const(c) => Signed(c)
    case Variable(name) => Signed(env[name])
    case Add(l, r) => Exact(l, env) + Exact(r, env)
    case Subtract(l, r) => Exact(l, env) - Exact(r, env)
    case Negate(x) => -Exact(x, env)
  }

  /** Evaluating `+`, `-` and negation is integer arithmetic modulo 2^128:
      the value read as signed is the exact integer result wrapped into
      [-2^127, 2^127), however often the intermediate results overflow. */
  lemma {:induction false} AdditiveEval(e: Expr, env: Env)
    requires Additive(e) && Vars(e) <= env.Keys
    ensures Eval(e, env).Some? && Signed(Eval(e, env).value) == Wrap(Exact(e, env))
  {
    match e
    case Const(c) =>
    case Variable(name) =>
    case Add(l, r) =>
      AdditiveEval(l, env);
      AdditiveEval(r, env);
      AddCase(l, r, env);
    case Subtract(l, r) =>
      AdditiveEval(l, env);
      AdditiveEval(r, env);
      SubtractCase(l, r, env);
    case Negate(x) =>
      AdditiveEval(x, env);
      NegateCase(x, env);
  }

  lemma AddCase(l: Expr, r: Expr, env: Env)
    requires Additive(l) && Additive(r) && Vars(l) <= env.Keys && Vars(r) <= env.Keys
    requires Signed(Eval(l, env).value) == Wrap(Exact(l, env))
    requires Signed(Eval(r, env).value) == Wrap(Exact(r, env))
    ensures Signed(Eval(Add(l, r), env).value) == Wrap(Exact(Add(l, r), env))
  {
    var a, b := Eval(l, env).value, Eval(r, env).value;
    var i, j := Exact(l, env), Exact(r, env);
    assert Eval(Add(l, r), env) == Some(Plus(a, b));
    assert Exact(Add(l, r), env) == i + j;
    PlusWraps(a, b, i, j);
  }

  lemma SubtractCase(l: Expr, r: Expr, env: Env)
    requires Additive(l) && Additive(r) && Vars(l) <= env.Keys && Vars(r) <= env.Keys
    requires Signed(Eval(l, env).value) == Wrap(Exact(l, env))
    requires Signed(Eval(r, env).value) == Wrap(Exact(r, env))
    ensures Signed(Eval(Subtract(l, r), env).value) == Wrap(Exact(Subtract(l, r), env))
  {
    var a, b := Eval(l, env).value, Eval(r, env).value;
    var i, j := Exact(l, env), Exact(r, env);
    assert Eval(Subtract(l, r), env) == Some(Minus(a, b));
    assert Exact(Subtract(l, r), env) == i - j;
    MinusWraps(a, b, i, j);
  }

  lemma NegateCase(x: Expr, env: Env)
    requires Additive(x) && Vars(x) <= env.Keys
    requires Signed(Eval(x, env).value) == Wrap(Exact(x, env))
    ensures Signed(Eval(Negate(x), env).value) == Wrap(Exact(Negate(x), env))
  {
    var a, i := Eval(x, env).value, Exact(x, env);
    assert Eval(Negate(x), env) == Some(Neg(a));
    assert Exact(Negate(x), env) == -i;
    NegWraps(a, i);
  }

  lemma PlusWraps(a: Int128, b: Int128, i: int, j: int)
    requires Signed(a) == Wrap(i) && Signed(b) == Wrap(j)
    ensures Signed(Plus(a, b)) == Wrap(i + j)
  {
    PlusSigned(a, b);
    WrapAdd(i, j);
  }

  lemma MinusWraps(a: Int128, b: Int128, i: int, j: int)
    requires Signed(a) == Wrap(i) && Signed(b) == Wrap(j)
    ensures Signed(Minus(a, b)) == Wrap(i - j)
  {
    MinusSigned(a, b);
    WrapNegate(j);
    WrapAdd(i, -j);
    WrapAdd(Wrap(i), -Wrap(j));
    assert Wrap(Wrap(i)) == Wrap(i) && Wrap(-Wrap(j)) == Wrap(-j);
  }

  lemma NegWraps(a: Int128, i: int)
    requires Signed(a) == Wrap(i)
    ensures Signed(Neg(a)) == Wrap(-i)
  {
    NegSigned(a);
    WrapNegate(i);
  }

  /** Wrap(i) differs from i by a multiple of 2^128. */
  lemma WrapOffset(i: int)
    ensures Wrap(i) == i - ((i + HALF) / MODULUS) * MODULUS
  {
    var q := (i + HALF) / MODULUS;
    assert i + HALF == q * MODULUS + (i + HALF) % MODULUS;
  }

  lemma WrapAdd(i: int, j: int)
    ensures Wrap(Wrap(i) + Wrap(j)) == Wrap(i + j)
  {
    WrapOffset(i);
    WrapOffset(j);
    var k := (i + HALF) / MODULUS + (j + HALF) / MODULUS;
    assert Wrap(i) + Wrap(j) == i + j + (-k) * MODULUS;
    WrapShift(i + j, -k);
  }

  lemma WrapNegate(i: int)
    ensures Wrap(-Wrap(i)) == Wrap(-i)
  {
    WrapOffset(i);
    var k := (i + HALF) / MODULUS;
    assert -Wrap(i) == -i + k * MODULUS;
    WrapShift(-i, k);
  }

  // ---------------------------------------------------------------------
  // str

  /** `BinaryExpression::str`: "(" left " " op " " right ")". */
  function Binary(l: string, op: string, r: string): string
  {
    "(" + l + " " + op + " " + r + ")"
  }

  /** `str()`. A constant prints as its `Int128::str()`, a variable as its name. */
  function Str(e: Expr): string
  {
    match e
    case Const(c) => Decimal(Signed(c))
    case Variable(name) => name
    case Add(l, r) => Binary(Str(l), "+", Str(r))
    case Subtract(l, r) => Binary(Str(l), "-", Str(r))
    case Multiply(l, r) => Binary(Str(l), "*", Str(r))
    case Divide(l, r) => Binary(Str(l), "/", Str(r))
    case Negate(x) => "(-" + Str(x) + ")"
  }

  /** A constant prints as text the `Int128` string constructor reads back to
      the same value. */
  lemma ConstStr(c: Int128)
    ensures Parse(Str(Const(c))) == c
  {
    RoundTrip(c);
  }

  /** Opening minus closing parentheses. */
  function Depth(s: string): int
  {
    if |s| == 0 then 0
    else Depth(s[..|s| - 1]) + (if s[|s| - 1] == '(' then 1 else if s[|s| - 1] == ')' then -1 else 0)
  }

  predicate Plain(s: string)
  {
    forall i :: 0 <= i < |s| ==> s[i] != '(' && s[i] != ')'
  }

  /** Every parenthesis is closed, and none closes before it was opened. */
  predicate Balanced(s: string)
  {
    Depth(s) == 0 && forall i :: 0 <= i <= |s| ==> Depth(s[..i]) >= 0
  }

  /** Balanced, wrapped in one pair of parentheses that encloses everything:
      the first `(` is closed by the last `)` and by no earlier one. */
  predicate Enclosed(s: string)
  {
    |s| >= 2 && s[0] == '(' && s[|s| - 1] == ')'
    && Balanced(s) && forall i :: 0 < i < |s| ==> Depth(s[..i]) >= 1
  }

  /** With variable names free of parentheses, every rendering is balanced,
      and every rendering of an operator node is enclosed in its own
      parentheses. */
  lemma {:induction false} StrBalanced(e: Expr)
    requires forall x :: x in Vars(e) ==> Plain(x)
    ensures Balanced(Str(e))
    ensures !e.Const? && !e.Variable? ==> Enclosed(Str(e))
  {
    match e
    case Const(c) =>
      DecimalPlain(Signed(c));
      PlainBalanced(Str(e));
    case Variable(name) =>
      PlainBalanced(name);
    case Add(l, r) => StrBalanced(l); StrBalanced(r); BinaryEnclosed(Str(l), "+", Str(r));
    case Subtract(l, r) => StrBalanced(l); StrBalanced(r); BinaryEnclosed(Str(l), "-", Str(r));
    case Multiply(l, r) => StrBalanced(l); StrBalanced(r); BinaryEnclosed(Str(l), "*", Str(r));
    case Divide(l, r) => StrBalanced(l); StrBalanced(r); BinaryEnclosed(Str(l), "/", Str(r));
    case Negate(x) =>
      StrBalanced(x);
      PlainBalanced("-");
      BalancedConcat("-", Str(x));
      assert "(-" + Str(x) + ")" == "(" + ("-" + Str(x)) + ")";
      Enclose("-" + Str(x));
  }

  lemma BinaryEnclosed(l: string, op: string, r: string)
    requires Balanced(l) && Balanced(r) && Plain(op)
    ensures Enclosed(Binary(l, op, r))
  {
    var mid := " " + op + " ";
    assert Plain(mid);
    PlainBalanced(mid);
    BalancedConcat(l, mid);
    BalancedConcat(l + mid, r);
    assert Binary(l, op, r) == "(" + (l + mid + r) + ")";
    Enclose(l + mid + r);
  }

  lemma DecimalPlain(v: int)
    ensures Plain(Decimal(v))
  {
    var n := if v < 0 then -v else v;
    var d := Digits(n);
    assert forall i :: 0 <= i < |d| ==> IsDigit(d[i]);
  }

  lemma {:induction false} DepthConcat(a: string, b: string)
    ensures Depth(a + b) == Depth(a) + Depth(b)
    decreases |b|
  {
    if |b| == 0 {
      assert a + b == a;
    } else {
      var c := a + b;
      assert c[..|c| - 1] == a + b[..|b| - 1];
      DepthConcat(a, b[..|b| - 1]);
    }
  }

  lemma {:induction false} PlainDepth(s: string)
    requires Plain(s)
    ensures Depth(s) == 0
    decreases |s|
  {
    if |s| > 0 {
      assert Plain(s[..|s| - 1]) by {
        assert forall i :: 0 <= i < |s| - 1 ==> s[..|s| - 1][i] == s[i];
      }
      PlainDepth(s[..|s| - 1]);
    }
  }

  lemma PlainBalanced(s: string)
    requires Plain(s)
    ensures Balanced(s)
  {
    PlainDepth(s);
    forall i | 0 <= i <= |s|
      ensures Depth(s[..i]) >= 0
    {
      assert Plain(s[..i]) by {
        assert forall k :: 0 <= k < i ==> s[..i][k] == s[k];
      }
      PlainDepth(s[..i]);
    }
  }

  lemma BalancedConcat(a: string, b: string)
    requires Balanced(a) && Balanced(b)
    ensures Balanced(a + b)
  {
    var c := a + b;
    DepthConcat(a, b);
    forall i | 0 <= i <= |c|
      ensures Depth(c[..i]) >= 0
    {
      if i <= |a| {
        assert c[..i] == a[..i];
      } else {
        assert c[..i] == a + b[..i - |a|];
        DepthConcat(a, b[..i - |a|]);
      }
    }
  }

  lemma Enclose(s: string)
    requires Balanced(s)
    ensures Enclosed("(" + s + ")")
  {
    var t := "(" + s + ")";
    DepthConcat("(", s);
    DepthConcat("(" + s, ")");
    assert Depth("(") == 1 by { assert "("[..0] == ""; }
    assert Depth(")") == -1 by { assert ")"[..0] == ""; }
    forall i | 0 < i < |t|
      ensures Depth(t[..i]) >= 1
    {
      assert t[..i] == "(" + s[..i - 1];
      DepthConcat("(", s[..i - 1]);
    }
    assert t[..0] == "";
    assert t[..|t|] == t;
  }

  // ---------------------------------------------------------------------
  // Building expressions

  /** `a + b`: an `Add` node over the two operands; nothing is evaluated until
      the node is, in whatever environment it is given then. */
  function OpAdd(a: Expr, b: Expr): (r: Expr)
    ensures Vars(r) == Vars(a) + Vars(b)
    ensures forall env :: Eval(r, env) == Apply(Eval(a, env), Eval(b, env), Plus)
    ensures Str(r) == "(" + Str(a) + " + " + Str(b) + ")"
  {
    Add(a, b)
  }

  /** `a - b`. */
  function OpSubtract(a: Expr, b: Expr): (r: Expr)
    ensures Vars(r) == Vars(a) + Vars(b)
    ensures forall env :: Eval(r, env) == Apply(Eval(a, env), Eval(b, env), Minus)
    ensures Str(r) == "(" + Str(a) + " - " + Str(b) + ")"
  {
    Subtract(a, b)
  }

  /** `-a`. */
  function OpNegate(a: Expr): (r: Expr)
    ensures Vars(r) == Vars(a)
    ensures forall env :: Eval(r, env) == if Eval(a, env).Some? then Some(Neg(Eval(a, env).value)) else None
    ensures Str(r) == "(-" + Str(a) + ")"
  {
    Negate(a)
  }

  /** `a * b`. */
  function OpMultiply(a: Expr, b: Expr): (r: Expr)
    ensures Vars(r) == Vars(a) + Vars(b)
    ensures forall env :: Eval(r, env) == Apply(Eval(a, env), Eval(b, env), Times)
    ensures Str(r) == "(" + Str(a) + " * " + Str(b) + ")"
  {
    Multiply(a, b)
  }

  /** `a / b`. Building a division by zero is harmless: only evaluation runs
      the unguarded long division. */
  function OpDivide(a: Expr, b: Expr): (r: Expr)
    ensures Vars(r) == Vars(a) + Vars(b)
    ensures forall env :: Eval(r, env) == Apply(Eval(a, env), Eval(b, env), Div)
    ensures Str(r) == "(" + Str(a) + " / " + Str(b) + ")"
  {
    Divide(a, b)
  }
}
