/** What `leave_Call` puts in place of a matched call: the shape of the expansion
    and the binding of the call's positional arguments to the definition's parameters. */
module Expansion {
  import opened Syntax
  import opened Substitution

  /** The argument expressions `leave_Call` copies in through NameToConstantTransformer. */
  predicate IsConstant(e: Expr) {
    e.Literal? && e.kind in {StringLiteral, IntegerLiteral, FloatLiteral}
  }

  /** The transformer built for argument `arg` of parameter `param`. */
  function BindingFor(param: string, arg: Arg): (b: Binding)
    ensures b.name == param && b.Inserted() == arg.value
    ensures b.ToConstant? <==> IsConstant(arg.value)
  {
    if IsConstant(arg.value) then ToConstant(param, arg.value) else ToName(param, arg.value)
  }

  predicate AllSimple(stmts: seq<Stmt>) {
    forall i :: 0 <= i < |stmts| ==> stmts[i].SimpleLine?
  }

  /** The small statements of simple statement lines, line after line. */
  function Concat(stmts: seq<Stmt>): (r: seq<Small>)
    requires AllSimple(stmts)
  {
    if stmts == [] then [] else stmts[0].body + Concat(stmts[1..])
  }

  /** The comprehension `[fragment for statement in body.body for fragment in statement.body]`:
      it fails on a one-line body (its small statements have no `body`) and on a compound
      statement (its suite cannot be iterated). */
  function Flatten(body: Body): (r: Result<seq<Small>>)
    ensures r.Ok? <==> body.IndentedBlock? && AllSimple(body.stmts)
    ensures r.Err? ==> r.error == UnsupportedBody
  {
    match body
    case IndentedBlock(stmts) => if AllSimple(stmts) then Ok(Concat(stmts)) else Err(UnsupportedBody)
    case OneLine(_) => Err(UnsupportedBody)
  }

  /** The suite after the first n arguments are bound, one pass per argument, each pass
      rewriting the previous pass's result. Binding keeps the number of small statements
      and the kind of each. */
  function Bound(smalls: seq<Small>, params: seq<string>, args: seq<Arg>, n: nat): (r: seq<Small>)
    requires n <= |args| && n <= |params|
    ensures |r| == |smalls|
    ensures forall i :: 0 <= i < |smalls| ==> SameKind(r[i], smalls[i])
    decreases n
  {
    if n == 0 then smalls
    else SubstSmalls(BindingFor(params[n - 1], args[n - 1]), Bound(smalls, params, args, n - 1))
  }

  /** The one-statement shortcut: a zero-argument call to a function whose indented body
      has exactly one statement. */
  predicate IsShortcut(d: FuncDef, args: seq<Arg>) {
    d.body.IndentedBlock? && |d.body.stmts| == 1 && args == []
  }

  /** The expansion of a call with arguments `args` to the definition `d`. */
  function Expand(d: FuncDef, args: seq<Arg>): (r: Result<Expansion>)
    ensures r.Ok? ==> (r.value.SingleStatement? <==> IsShortcut(d, args))
    ensures r.Ok? && r.value.SmallSuite? ==> |args| <= |d.params|
    ensures r.Err? ==> r.error == UnsupportedBody || r.error == TooManyArguments
  {
    if IsShortcut(d, args) then Ok(SingleStatement(d.body.stmts[0]))
    else
      match Flatten(d.body)
      case Err(f) => Err(f)
      case Ok(flat) =>
        if |d.params| < |args| then Err(TooManyArguments)
        else Ok(SmallSuite(Bound(flat, d.params, args, |args|)))
  }

  // ---------------------------------------------------------------------------
  // Flattening

  /** Flattening is the in-order concatenation: it distributes over `+` ... */
  lemma {:induction false} ConcatAppend(a: seq<Stmt>, b: seq<Stmt>)
    requires AllSimple(a) && AllSimple(b)
    ensures AllSimple(a + b) && Concat(a + b) == Concat(a) + Concat(b)
    decreases |a|
  {
    if a == [] {
      assert a + b == b;
    } else {
      assert (a + b)[1..] == a[1..] + b;
      ConcatAppend(a[1..], b);
    }
  }

  /** ... and a single line contributes exactly its small statements. */
  lemma ConcatLine(s: seq<Small>)
    ensures Concat([SimpleLine(s)]) == s
  {
    assert [SimpleLine(s)][1..] == [];
  }

  // ---------------------------------------------------------------------------
  // Shape and failure of an expansion

  /** An expansion fails exactly when the shortcut does not apply and either the body
      cannot be flattened or there are more arguments than positional parameters. */
  lemma ExpandFailure(d: FuncDef, args: seq<Arg>)
    ensures Expand(d, args).Err? <==>
              !IsShortcut(d, args) && (!(d.body.IndentedBlock? && AllSimple(d.body.stmts)) || |d.params| < |args|)
    ensures (Expand(d, args).Err? && |d.params| < |args| && d.body.IndentedBlock? && AllSimple(d.body.stmts))
              ==> Expand(d, args).error == TooManyArguments
  {
  }

  /** The shortcut returns the body statement itself, even a compound one. */
  lemma ExpandShortcut(d: FuncDef, s: Stmt)
    requires d.body == IndentedBlock([s])
    ensures Expand(d, []) == Ok(SingleStatement(s))
  {
  }

  /** Without arguments no substitution is applied: the suite is the flattened body. */
  lemma ExpandWithoutArguments(d: FuncDef)
    requires !IsShortcut(d, []) && d.body.IndentedBlock? && AllSimple(d.body.stmts)
    ensures Expand(d, []) == Ok(SmallSuite(Concat(d.body.stmts)))
  {
  }

  // ---------------------------------------------------------------------------
  // Binding

  predicate DistinctNames(params: seq<string>) {
    forall i, j :: 0 <= i < j < |params| ==> params[i] != params[j]
  }

  /** No bound argument expression mentions one of the first n parameter names. */
  predicate NoCapture(params: seq<string>, args: seq<Arg>, n: nat)
    requires n <= |args| && n <= |params|
  {
    forall i, j :: 0 <= i < n && 0 <= j < n ==> !Mentions(args[i].value, params[j])
  }

  /** When no argument mentions a parameter, binding is a simultaneous substitution:
      a name that is not a bound parameter occurs afterwards iff it occurred in the body
      or some parameter that occurred in the body was bound to an argument holding it. */
  lemma {:induction false} BoundMentions(smalls: seq<Small>, params: seq<string>, args: seq<Arg>, n: nat, y: string)
    requires n <= |args| && n <= |params|
    requires DistinctNames(params) && NoCapture(params, args, n)
    requires y !in params[..n]
    ensures MentionsSmalls(Bound(smalls, params, args, n), y) <==>
              MentionsSmalls(smalls, y) ||
              exists i :: 0 <= i < n && MentionsSmalls(smalls, params[i]) && Mentions(args[i].value, y)
    decreases n
  {
    if n > 0 {
      var p := params[n - 1];
      var prev := Bound(smalls, params, args, n - 1);
      assert params[..n] == params[..n - 1] + [p];
      assert NoCapture(params, args, n - 1);
      BoundMentions(smalls, params, args, n - 1, y);
      assert p !in params[..n - 1] by {
        forall k | 0 <= k < n - 1 ensures params[k] != p { }
      }
      BoundMentions(smalls, params, args, n - 1, p);
      SubstSmallsMentions(BindingFor(p, args[n - 1]), prev, y);
      if MentionsSmalls(prev, p) && Mentions(args[n - 1].value, y) {
        assert MentionsSmalls(smalls, p);
      }
      if MentionsSmalls(smalls, p) && Mentions(args[n - 1].value, y) {
        assert MentionsSmalls(prev, p);
      }
    }
  }

  /** When no argument mentions a parameter, every bound parameter is gone afterwards. */
  lemma {:induction false} BoundEliminates(smalls: seq<Small>, params: seq<string>, args: seq<Arg>, n: nat, j: nat)
    requires n <= |args| && n <= |params| && j < n
    requires NoCapture(params, args, n)
    ensures !MentionsSmalls(Bound(smalls, params, args, n), params[j])
    decreases n
  {
    var b := BindingFor(params[n - 1], args[n - 1]);
    SubstSmallsMentions(b, Bound(smalls, params, args, n - 1), params[j]);
    if j < n - 1 {
      assert NoCapture(params, args, n - 1);
      BoundEliminates(smalls, params, args, n - 1, j);
    }
  }

  /** A parameter not among the first n keeps its occurrences through their binding, provided
      none of those n arguments mentions it; with n the number of arguments, a parameter
      without an argument is left as it is in the body. */
  lemma {:induction false} UnboundParameterKept(smalls: seq<Small>, params: seq<string>, args: seq<Arg>, n: nat, j: nat)
    requires n <= |args| && n <= j < |params|
    requires DistinctNames(params)
    requires forall i :: 0 <= i < n ==> !Mentions(args[i].value, params[j])
    ensures MentionsSmalls(Bound(smalls, params, args, n), params[j]) <==> MentionsSmalls(smalls, params[j])
    decreases n
  {
    if n > 0 {
      UnboundParameterKept(smalls, params, args, n - 1, j);
      assert params[n - 1] != params[j];
      SubstSmallsMentions(BindingFor(params[n - 1], args[n - 1]), Bound(smalls, params, args, n - 1), params[j]);
    }
  }

  /** A body that mentions none of the bound parameters is bound to itself. */
  lemma {:induction false} BoundUntouched(smalls: seq<Small>, params: seq<string>, args: seq<Arg>, n: nat)
    requires n <= |args| && n <= |params|
    requires forall j :: 0 <= j < n ==> !MentionsSmalls(smalls, params[j])
    ensures Bound(smalls, params, args, n) == smalls
    decreases n
  {
    if n > 0 {
      BoundUntouched(smalls, params, args, n - 1);
      SubstSmallsUnchanged(BindingFor(params[n - 1], args[n - 1]), smalls);
    }
  }

  // ---------------------------------------------------------------------------
  // Scenarios

  /** `def f(x): return x + 1` called as `f(3)` expands to `return 3 + 1`. */
  lemma LiteralArgument()
    ensures
      var body := IndentedBlock([SimpleLine([Return(Some(Compound([Name("x"), Literal(IntegerLiteral, "1")])))])]);
      var three := Literal(IntegerLiteral, "3");
      Expand(FuncDef(0, "f", [Name("inline")], ["x"], body), [Positional(three)])
        == Ok(SmallSuite([Return(Some(Compound([three, Literal(IntegerLiteral, "1")])))]))
  {
    var line := [Return(Some(Compound([Name("x"), Literal(IntegerLiteral, "1")])))];
    var three := Literal(IntegerLiteral, "3");
    ConcatLine(line);
    var b := BindingFor("x", Positional(three));
    assert SubstExprs(b, [Name("x"), Literal(IntegerLiteral, "1")]) == [three, Literal(IntegerLiteral, "1")];
    assert SubstSmalls(b, line) == [Return(Some(Compound([three, Literal(IntegerLiteral, "1")])))];
  }

  /** Passes run one after another, so a later pass rewrites a name an earlier argument
      brought in: `def f(a, b): g(a, b)` called as `f(b, 1)` expands to `g(1, 1)`. */
  lemma LaterPassRewritesEarlierArgument()
    ensures
      var one := Literal(IntegerLiteral, "1");
      var body := IndentedBlock([SimpleLine([ExprStmt(Call(Name("g"), [Positional(Name("a")), Positional(Name("b"))]))])]);
      Expand(FuncDef(0, "f", [Name("inline")], ["a", "b"], body), [Positional(Name("b")), Positional(one)])
        == Ok(SmallSuite([ExprStmt(Call(Name("g"), [Positional(one), Positional(one)]))]))
  {
    var one := Literal(IntegerLiteral, "1");
    var params := ["a", "b"];
    var args := [Positional(Name("b")), Positional(one)];
    var line := [ExprStmt(Call(Name("g"), [Positional(Name("a")), Positional(Name("b"))]))];
    var middle := [ExprStmt(Call(Name("g"), [Positional(Name("b")), Positional(Name("b"))]))];
    ConcatLine(line);
    var first := BindingFor("a", Positional(Name("b")));
    assert SubstArgs(first, [Positional(Name("a")), Positional(Name("b"))]) == [Positional(Name("b")), Positional(Name("b"))];
    assert Bound(line, params, args, 1) == SubstSmalls(first, line) == middle;
    var second := BindingFor("b", Positional(one));
    assert SubstArgs(second, [Positional(Name("b")), Positional(Name("b"))]) == [Positional(one), Positional(one)];
    assert Bound(line, params, args, 2) == SubstSmalls(second, middle);
    assert SubstSmall(second, middle[0]) == ExprStmt(Call(Name("g"), [Positional(one), Positional(one)]));
    assert SubstSmalls(second, middle) == [ExprStmt(Call(Name("g"), [Positional(one), Positional(one)]))];
    assert Flatten(IndentedBlock([SimpleLine(line)])) == Ok(line);
  }
}
