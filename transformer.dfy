/** The InlineTransformer: one depth-first walk over a module that registers inline
    definitions as it meets them, replaces calls to registered functions by their
    expansions, and deletes the inline definitions and the marker import. */
module Transformer {
  import opened Syntax
  import opened Substitution
  import opened Expansion
  import opened Markers

  /** The registered definitions whose name is `name`, the full name of a call, in
      registration order (the list comprehension of `visit_Call` and `leave_Call`). */
  function Matches(registry: seq<FuncDef>, name: Option<string>): (r: seq<FuncDef>)
    ensures forall d :: d in r ==> d in registry && Some(d.name) == name
    ensures name == None ==> r == []
  {
    if registry == [] then []
    else (if Some(registry[0].name) == name then [registry[0]] else []) + Matches(registry[1..], name)
  }

  /** A call matches nothing exactly when no registered definition has its full name, and
      otherwise the definition used is the first registered one with that name. */
  lemma {:induction false} FirstMatch(registry: seq<FuncDef>, name: Option<string>)
    ensures Matches(registry, name) == [] <==> forall k :: 0 <= k < |registry| ==> Some(registry[k].name) != name
    ensures Matches(registry, name) != [] ==>
              exists k :: 0 <= k < |registry| && registry[k] == Matches(registry, name)[0]
                          && forall j :: 0 <= j < k ==> Some(registry[j].name) != name
    decreases |registry|
  {
    if registry != [] {
      FirstMatch(registry[1..], name);
      var tail := Matches(registry[1..], name);
      if Some(registry[0].name) != name && tail != [] {
        var k :| 0 <= k < |registry[1..]| && registry[1..][k] == tail[0]
                 && forall j :: 0 <= j < k ==> Some(registry[1..][j].name) != name;
        assert registry[k + 1] == Matches(registry, name)[0];
        assert forall j :: 0 <= j < k + 1 ==> Some(registry[j].name) != name by {
          forall j | 0 <= j < k + 1 ensures Some(registry[j].name) != name {
            if j > 0 { assert registry[j] == registry[1..][j - 1]; }
          }
        }
      }
      if Matches(registry, name) == [] {
        forall k | 0 <= k < |registry| ensures Some(registry[k].name) != name {
          if k > 0 { assert registry[k] == registry[1..][k - 1]; }
        }
      }
    }
  }

  // ---------------------------------------------------------------------------
  // The rewrite the walk performs, as functions. The registry is the one in force when
  // the walk reaches the node; a statement list threads it from statement to statement.

  /** What `leave_Call` returns for a matched call: the expansion of the first registered
      definition with the call's full name, built from the call's original arguments. */
  function Replacement(registry: seq<FuncDef>, call: Expr): (r: Result<Expr>)
    requires call.Call? && Matches(registry, FullName(call)) != []
    ensures r.Ok? ==> r.value.Inlined?
    ensures r.Err? <==> Expand(Matches(registry, FullName(call))[0], call.args).Err?
  {
    var x :- Expand(Matches(registry, FullName(call))[0], call.args);
    Ok(Inlined(x))
  }

  /** An expression after the walk: a matched call is replaced without its children being
      walked; anything else is rebuilt from its walked children, left to right; the first
      failure ends the walk. */
  function RewriteExpr(registry: seq<FuncDef>, e: Expr): (r: Result<Expr>)
    ensures r.Ok? && r.value.Inlined? ==> e.Call? || e.Inlined?
    decreases e
  {
    match e
    case Name(_) => Ok(e)
    case Literal(_, _) => Ok(e)
    case Attribute(value, attr) =>
      var v :- RewriteExpr(registry, value);
      var a :- RewriteExpr(registry, attr);
      Ok(Attribute(v, a))
    case Subscript(value, slice) =>
      var v :- RewriteExpr(registry, value);
      var s :- RewriteExpr(registry, slice);
      Ok(Subscript(v, s))
    case Call(func, args) =>
      if Matches(registry, FullName(e)) != [] then Replacement(registry, e)
      else
        var f :- RewriteExpr(registry, func);
        var a :- RewriteArgs(registry, args);
        Ok(Call(f, a))
    case Compound(parts) =>
      var ps :- RewriteExprs(registry, parts);
      Ok(Compound(ps))
    case Inlined(_) => Ok(e)
  }

  function RewriteExprs(registry: seq<FuncDef>, es: seq<Expr>): (r: Result<seq<Expr>>)
    ensures r.Ok? ==> |r.value| == |es|
    decreases es
  {
    if es == [] then Ok([])
    else
      var x :- RewriteExpr(registry, es[0]);
      PrependTo([x], RewriteExprs(registry, es[1..]))
  }

  function RewriteArg(registry: seq<FuncDef>, a: Arg): (r: Result<Arg>)
    ensures r.Ok? ==> r.value.Keyword? == a.Keyword?
    decreases a
  {
    match a
    case Positional(value) =>
      var v :- RewriteExpr(registry, value);
      Ok(Positional(v))
    case Keyword(keyword, value) =>
      var k :- RewriteExpr(registry, keyword);
      var v :- RewriteExpr(registry, value);
      Ok(Keyword(k, v))
  }

  function RewriteArgs(registry: seq<FuncDef>, args: seq<Arg>): (r: Result<seq<Arg>>)
    ensures r.Ok? ==> |r.value| == |args|
    decreases args
  {
    if args == [] then Ok([])
    else
      var x :- RewriteArg(registry, args[0]);
      PrependTo([x], RewriteArgs(registry, args[1..]))
  }

  /** A small statement after the walk, or None when `leave_ImportFrom` removed it. */
  function RewriteSmall(registry: seq<FuncDef>, s: Small): (r: Result<Option<Small>>)
    ensures r.Ok? ==> (r.value.None? <==> IsMarkerImport(s))
  {
    match s
    case ExprStmt(value) =>
      var v :- RewriteExpr(registry, value);
      Ok(Some(ExprStmt(v)))
    case Assign(targets, value) =>
      var ts :- RewriteExprs(registry, targets);
      var v :- RewriteExpr(registry, value);
      Ok(Some(Assign(ts, v)))
    case Return(None) => Ok(Some(s))
    case Return(Some(value)) =>
      var v :- RewriteExpr(registry, value);
      Ok(Some(Return(Some(v))))
    case ImportFrom(_, _) =>
      var remove :- LeaveImportFrom(s);
      Ok(if remove then None else Some(s))
    case OtherSmall(parts) =>
      var ps :- RewriteExprs(registry, parts);
      Ok(Some(OtherSmall(ps)))
  }

  function RewriteSmalls(registry: seq<FuncDef>, ss: seq<Small>): (r: Result<seq<Small>>)
    ensures r.Ok? ==> |r.value| <= |ss|
    decreases ss
  {
    if ss == [] then Ok([])
    else
      var x :- RewriteSmall(registry, ss[0]);
      PrependTo(Listed(x), RewriteSmalls(registry, ss[1..]))
  }

  /** A statement after the walk, or None when it was removed: a definition registered by
      the time it is left, or a statement line all of whose small statements were removed
      (libcst drops a line that the walk emptied). */
  function RewriteStmt(registry: seq<FuncDef>, s: Stmt): (r: Result<Option<Stmt>>)
    ensures r.Ok? && r.value.None? ==> s.Def? || (s.SimpleLine? && s.body != [])
    ensures r.Ok? && r.value.Some? ==>
              (s.SimpleLine? <==> r.value.value.SimpleLine?) && (s.Def? <==> r.value.value.Def?)
              && (s.Def? ==> r.value.value.def.id == s.def.id)
    decreases s
  {
    match s
    case SimpleLine(body) =>
      var b :- RewriteSmalls(registry, body);
      Ok(if body != [] && b == [] then None else Some(SimpleLine(b)))
    case Def(d) =>
      var w :- RewriteDef(registry, d);
      Ok(if w.Some? then Some(Def(w.value)) else None)
    case Block(header, inner) =>
      var h :- RewriteExprs(registry, header);
      var b :- RewriteStmts(registry, inner);
      Ok(Some(Block(h, b)))
  }

  /** A definition: registered on entry when inline, its decorators and body walked with
      that registry, and removed when registered (by identity) on leaving. */
  function RewriteDef(registry: seq<FuncDef>, d: FuncDef): (r: Result<Option<FuncDef>>)
    ensures r.Ok? && IsInline(d) ==> r.value.None?
    ensures r.Ok? && r.value.Some? ==>
              r.value.value.id == d.id && r.value.value.name == d.name && r.value.value.params == d.params
    decreases d
  {
    var entered := registry + (if IsInline(d) then [d] else []);
    var decorators :- RewriteExprs(entered, d.decorators);
    var body :- RewriteBody(entered, d.body);
    var leaving := entered + InlineOnly(BodyDefs(d.body));
    assert IsInline(d) ==> leaving[|registry|] == d;
    if IsRegistered(leaving, d) then Ok(None)
    else Ok(Some(FuncDef(d.id, d.name, decorators, d.params, body)))
  }

  function RewriteBody(registry: seq<FuncDef>, b: Body): (r: Result<Body>)
    ensures r.Ok? ==> r.value.IndentedBlock? == b.IndentedBlock?
    decreases b
  {
    match b
    case IndentedBlock(stmts) =>
      var ss :- RewriteStmts(registry, stmts);
      Ok(IndentedBlock(ss))
    case OneLine(smalls) =>
      var ss :- RewriteSmalls(registry, smalls);
      Ok(OneLine(ss))
  }

  /** A statement list: each statement is walked with the registry left by the ones before. */
  function RewriteStmts(registry: seq<FuncDef>, stmts: seq<Stmt>): (r: Result<seq<Stmt>>)
    ensures r.Ok? ==> |r.value| <= |stmts|
    decreases stmts
  {
    if stmts == [] then Ok([])
    else
      var x :- RewriteStmt(registry, stmts[0]);
      PrependTo(Listed(x), RewriteStmts(registry + InlineOnly(StmtDefs(stmts[0])), stmts[1..]))
  }

  // ---------------------------------------------------------------------------
  // What the rewrite leaves behind

  /** Every call left in an expression (outside inlined fragments) matches no registered
      definition. */
  ghost predicate Resolved(registry: seq<FuncDef>, e: Expr)
    decreases e
  {
    match e
    case Name(_) => true
    case Literal(_, _) => true
    case Attribute(value, attr) => Resolved(registry, value) && Resolved(registry, attr)
    case Subscript(value, slice) => Resolved(registry, value) && Resolved(registry, slice)
    case Call(func, args) => Matches(registry, FullName(e)) == [] && Resolved(registry, func) && ResolvedArgs(registry, args)
    case Compound(parts) => ResolvedAll(registry, parts)
    case Inlined(_) => true
  }

  ghost predicate ResolvedAll(registry: seq<FuncDef>, es: seq<Expr>)
    decreases es
  {
    forall i :: 0 <= i < |es| ==> Resolved(registry, es[i])
  }

  ghost predicate ResolvedArgs(registry: seq<FuncDef>, args: seq<Arg>)
    decreases args
  {
    forall i :: 0 <= i < |args| ==> ResolvedArg(registry, args[i])
  }

  ghost predicate ResolvedArg(registry: seq<FuncDef>, a: Arg)
    decreases a
  {
    Resolved(registry, a.value) && (a.Keyword? ==> Resolved(registry, a.keyword))
  }

  /** A walked expression keeps its full name or loses it (a call inside it was replaced),
      and only a name walks to a name. */
  ghost predicate KeepsName(e: Expr, r: Expr) {
    && (FullName(r) == FullName(e) || FullName(r) == None)
    && (e.Name? <==> r.Name?)
    && (e.Name? ==> r == e)
  }

  /** No definition in the statements (outside inlined fragments) is an inline function and
      no import among them is the marker import. */
  ghost predicate Clean(stmts: seq<Stmt>)
    decreases stmts
  {
    forall i :: 0 <= i < |stmts| ==> CleanStmt(stmts[i])
  }

  ghost predicate CleanStmt(s: Stmt)
    decreases s
  {
    match s
    case SimpleLine(body) => CleanSmalls(body)
    case Def(d) => !IsInline(d) && CleanBody(d.body)
    case Block(_, inner) => Clean(inner)
  }

  ghost predicate CleanBody(b: Body)
    decreases b
  {
    match b
    case IndentedBlock(stmts) => Clean(stmts)
    case OneLine(smalls) => CleanSmalls(smalls)
  }

  ghost predicate CleanSmalls(ss: seq<Small>) {
    forall i :: 0 <= i < |ss| ==> !IsMarkerImport(ss[i])
  }

  /** A walked expression holds no call that matches the registry outside expansions, and
      it keeps or loses its full name. */
  lemma {:induction false} RewriteExprResolved(registry: seq<FuncDef>, e: Expr)
    ensures RewriteExpr(registry, e).Ok? ==>
              Resolved(registry, RewriteExpr(registry, e).value) && KeepsName(e, RewriteExpr(registry, e).value)
    decreases e
  {
    match e
    case Name(_) =>
    case Literal(_, _) =>
    case Attribute(value, attr) =>
      RewriteExprResolved(registry, value);
      RewriteExprResolved(registry, attr);
    case Subscript(value, slice) =>
      RewriteExprResolved(registry, value);
      RewriteExprResolved(registry, slice);
    case Call(func, args) =>
      if Matches(registry, FullName(e)) == [] && RewriteExpr(registry, e).Ok? {
        RewriteExprResolved(registry, func);
        RewriteArgsResolved(registry, args);
        var f := RewriteExpr(registry, func).value;
        assert FullName(Call(f, RewriteArgs(registry, args).value)) == FullName(f);
      }
    case Compound(parts) =>
      RewriteExprsResolved(registry, parts);
    case Inlined(_) =>
  }

  lemma {:induction false} RewriteExprsResolved(registry: seq<FuncDef>, es: seq<Expr>)
    ensures RewriteExprs(registry, es).Ok? ==>
              ResolvedAll(registry, RewriteExprs(registry, es).value)
              && forall i :: 0 <= i < |es| ==> KeepsName(es[i], RewriteExprs(registry, es).value[i])
    decreases es
  {
    if es != [] && RewriteExprs(registry, es).Ok? {
      RewriteExprResolved(registry, es[0]);
      RewriteExprsResolved(registry, es[1..]);
      var out := RewriteExprs(registry, es).value;
      var rest := RewriteExprs(registry, es[1..]).value;
      assert out == [RewriteExpr(registry, es[0]).value] + rest;
      forall i | 0 <= i < |es|
        ensures Resolved(registry, out[i]) && KeepsName(es[i], out[i])
      {
        if i > 0 {
          assert out[i] == rest[i - 1] && es[i] == es[1..][i - 1];
        }
      }
    }
  }

  lemma {:induction false} RewriteArgResolved(registry: seq<FuncDef>, a: Arg)
    ensures RewriteArg(registry, a).Ok? ==> ResolvedArg(registry, RewriteArg(registry, a).value)
    decreases a
  {
    match a
    case Positional(value) =>
      RewriteExprResolved(registry, value);
    case Keyword(keyword, value) =>
      RewriteExprResolved(registry, keyword);
      RewriteExprResolved(registry, value);
  }

  lemma {:induction false} RewriteArgsResolved(registry: seq<FuncDef>, args: seq<Arg>)
    ensures RewriteArgs(registry, args).Ok? ==> ResolvedArgs(registry, RewriteArgs(registry, args).value)
    decreases args
  {
    if args != [] && RewriteArgs(registry, args).Ok? {
      RewriteArgResolved(registry, args[0]);
      RewriteArgsResolved(registry, args[1..]);
      var out := RewriteArgs(registry, args).value;
      var rest := RewriteArgs(registry, args[1..]).value;
      assert out == [RewriteArg(registry, args[0]).value] + rest;
      forall i | 0 <= i < |out| ensures ResolvedArg(registry, out[i]) {
        if i > 0 {
          assert out[i] == rest[i - 1];
        }
      }
    }
  }

  /** No marker import survives the walk of a list of small statements. */
  lemma {:induction false} RewriteSmallsClean(registry: seq<FuncDef>, ss: seq<Small>)
    ensures RewriteSmalls(registry, ss).Ok? ==> CleanSmalls(RewriteSmalls(registry, ss).value)
    decreases ss
  {
    if ss != [] && RewriteSmalls(registry, ss).Ok? {
      RewriteSmallsClean(registry, ss[1..]);
      var x := RewriteSmall(registry, ss[0]).value;
      var rest := RewriteSmalls(registry, ss[1..]).value;
      var out := RewriteSmalls(registry, ss).value;
      assert out == Listed(x) + rest;
      if x.Some? {
        assert !IsMarkerImport(x.value) by {
          match ss[0] {
            case ImportFrom(_, _) =>
            case _ =>
          }
        }
      }
    }
  }

  /** A line is emptied only when every small statement on it is a marker import. */
  lemma {:induction false} EmptiedLine(registry: seq<FuncDef>, ss: seq<Small>)
    ensures RewriteSmalls(registry, ss) == Ok([]) ==> forall i :: 0 <= i < |ss| ==> IsMarkerImport(ss[i])
    decreases ss
  {
    if ss != [] && RewriteSmalls(registry, ss) == Ok([]) {
      EmptiedLine(registry, ss[1..]);
      assert forall i :: 1 <= i < |ss| ==> ss[i] == ss[1..][i - 1];
    }
  }

  /** The walked statements (outside expansions) hold no inline definition and no marker
      import. */
  lemma {:induction false} RewriteStmtsClean(registry: seq<FuncDef>, stmts: seq<Stmt>)
    ensures RewriteStmts(registry, stmts).Ok? ==> Clean(RewriteStmts(registry, stmts).value)
    decreases stmts
  {
    if stmts != [] && RewriteStmts(registry, stmts).Ok? {
      RewriteStmtClean(registry, stmts[0]);
      RewriteStmtsClean(registry + InlineOnly(StmtDefs(stmts[0])), stmts[1..]);
      var x := RewriteStmt(registry, stmts[0]).value;
      var rest := RewriteStmts(registry + InlineOnly(StmtDefs(stmts[0])), stmts[1..]).value;
      var out := RewriteStmts(registry, stmts).value;
      assert out == Listed(x) + rest;
      forall i | 0 <= i < |out| ensures CleanStmt(out[i]) {
        if x.Some? && i > 0 {
          assert out[i] == rest[i - 1];
        } else if x.None? {
          assert out[i] == rest[i];
        }
      }
    }
  }

  lemma {:induction false} RewriteStmtClean(registry: seq<FuncDef>, s: Stmt)
    ensures RewriteStmt(registry, s).Ok? && RewriteStmt(registry, s).value.Some? ==>
              CleanStmt(RewriteStmt(registry, s).value.value)
    decreases s
  {
    match s
    case SimpleLine(body) =>
      RewriteSmallsClean(registry, body);
    case Def(d) =>
      RewriteDefClean(registry, d);
    case Block(_, inner) =>
      RewriteStmtsClean(registry, inner);
  }

  lemma {:induction false} RewriteDefClean(registry: seq<FuncDef>, d: FuncDef)
    ensures RewriteDef(registry, d).Ok? && RewriteDef(registry, d).value.Some? ==>
              !IsInline(RewriteDef(registry, d).value.value) && CleanBody(RewriteDef(registry, d).value.value.body)
    decreases d
  {
    var entered := registry + (if IsInline(d) then [d] else []);
    RewriteBodyClean(entered, d.body);
    RewriteExprsResolved(entered, d.decorators);
    var r := RewriteDef(registry, d);
    if r.Ok? && r.value.Some? {
      var decorators := RewriteExprs(entered, d.decorators).value;
      KeptNotInline(d, decorators, RewriteBody(entered, d.body).value);
    }
  }

  lemma {:induction false} RewriteBodyClean(registry: seq<FuncDef>, b: Body)
    ensures RewriteBody(registry, b).Ok? ==> CleanBody(RewriteBody(registry, b).value)
    decreases b
  {
    match b
    case IndentedBlock(stmts) =>
      RewriteStmtsClean(registry, stmts);
    case OneLine(smalls) =>
      RewriteSmallsClean(registry, smalls);
  }

  /** A definition is removed exactly when, on leaving it, the registry holds a definition
      with its identity: itself when it is inline, or an earlier or nested one. */
  lemma RemovedAtLeave(registry: seq<FuncDef>, d: FuncDef)
    ensures RewriteDef(registry, d).Ok? ==>
              (RewriteDef(registry, d).value.None? <==>
                 IsInline(d) || IsRegistered(registry, d) || IsRegistered(InlineOnly(BodyDefs(d.body)), d))
  {
    var own := if IsInline(d) then [d] else [];
    IsRegisteredAppend(registry + own, InlineOnly(BodyDefs(d.body)), d);
    IsRegisteredAppend(registry, own, d);
    if IsInline(d) {
      assert own[0] == d;
    }
  }

  // ---------------------------------------------------------------------------
  // What the rewrite leaves alone

  /** Nothing for the walk to change in a small statement: no call in it matches the
      registry, and it is not an import the walk removes or fails on. */
  ghost predicate UntouchedSmall(registry: seq<FuncDef>, s: Small) {
    match s
    case ExprStmt(value) => Resolved(registry, value)
    case Assign(targets, value) => ResolvedAll(registry, targets) && Resolved(registry, value)
    case Return(result) => result.Some? ==> Resolved(registry, result.value)
    case ImportFrom(_, _) => LeaveImportFrom(s) == Ok(false)
    case OtherSmall(parts) => ResolvedAll(registry, parts)
  }

  ghost predicate UntouchedSmalls(registry: seq<FuncDef>, ss: seq<Small>) {
    forall i :: 0 <= i < |ss| ==> UntouchedSmall(registry, ss[i])
  }

  /** Nothing for the walk to change in statements: in addition, no definition is inline
      or shares its identity with a registered one. */
  ghost predicate Untouched(registry: seq<FuncDef>, stmts: seq<Stmt>)
    decreases stmts
  {
    forall i :: 0 <= i < |stmts| ==> UntouchedStmt(registry, stmts[i])
  }

  ghost predicate UntouchedStmt(registry: seq<FuncDef>, s: Stmt)
    decreases s
  {
    match s
    case SimpleLine(body) => UntouchedSmalls(registry, body)
    case Def(d) =>
      !IsInline(d) && !IsRegistered(registry, d) && ResolvedAll(registry, d.decorators)
      && UntouchedBody(registry, d.body)
    case Block(header, inner) => ResolvedAll(registry, header) && Untouched(registry, inner)
  }

  ghost predicate UntouchedBody(registry: seq<FuncDef>, b: Body)
    decreases b
  {
    match b
    case IndentedBlock(stmts) => Untouched(registry, stmts)
    case OneLine(smalls) => UntouchedSmalls(registry, smalls)
  }

  /** An expression holding no call that matches the registry comes back unchanged. */
  lemma {:induction false} RewriteExprIdentity(registry: seq<FuncDef>, e: Expr)
    requires Resolved(registry, e)
    ensures RewriteExpr(registry, e) == Ok(e)
    decreases e
  {
    match e
    case Name(_) =>
    case Literal(_, _) =>
    case Attribute(value, attr) =>
      RewriteExprIdentity(registry, value);
      RewriteExprIdentity(registry, attr);
    case Subscript(value, slice) =>
      RewriteExprIdentity(registry, value);
      RewriteExprIdentity(registry, slice);
    case Call(func, args) =>
      RewriteExprIdentity(registry, func);
      RewriteArgsIdentity(registry, args);
    case Compound(parts) =>
      RewriteExprsIdentity(registry, parts);
    case Inlined(_) =>
  }

  lemma {:induction false} RewriteExprsIdentity(registry: seq<FuncDef>, es: seq<Expr>)
    requires ResolvedAll(registry, es)
    ensures RewriteExprs(registry, es) == Ok(es)
    decreases es
  {
    if es != [] {
      RewriteExprIdentity(registry, es[0]);
      assert ResolvedAll(registry, es[1..]) by {
        forall i | 0 <= i < |es[1..]| ensures Resolved(registry, es[1..][i]) {
          assert es[1..][i] == es[i + 1];
        }
      }
      RewriteExprsIdentity(registry, es[1..]);
      assert [es[0]] + es[1..] == es;
    }
  }

  lemma {:induction false} RewriteArgIdentity(registry: seq<FuncDef>, a: Arg)
    requires ResolvedArg(registry, a)
    ensures RewriteArg(registry, a) == Ok(a)
    decreases a
  {
    match a
    case Positional(value) =>
      RewriteExprIdentity(registry, value);
    case Keyword(keyword, value) =>
      RewriteExprIdentity(registry, keyword);
      RewriteExprIdentity(registry, value);
  }

  lemma {:induction false} RewriteArgsIdentity(registry: seq<FuncDef>, args: seq<Arg>)
    requires ResolvedArgs(registry, args)
    ensures RewriteArgs(registry, args) == Ok(args)
    decreases args
  {
    if args != [] {
      RewriteArgIdentity(registry, args[0]);
      assert ResolvedArgs(registry, args[1..]) by {
        forall i | 0 <= i < |args[1..]| ensures ResolvedArg(registry, args[1..][i]) {
          assert args[1..][i] == args[i + 1];
        }
      }
      RewriteArgsIdentity(registry, args[1..]);
      assert [args[0]] + args[1..] == args;
    }
  }

  lemma {:induction false} RewriteSmallsIdentity(registry: seq<FuncDef>, ss: seq<Small>)
    requires UntouchedSmalls(registry, ss)
    ensures RewriteSmalls(registry, ss) == Ok(ss)
    decreases ss
  {
    if ss != [] {
      match ss[0] {
        case ExprStmt(value) =>
          RewriteExprIdentity(registry, value);
        case Assign(targets, value) =>
          RewriteExprsIdentity(registry, targets);
          RewriteExprIdentity(registry, value);
        case Return(result) =>
          if result.Some? {
            RewriteExprIdentity(registry, result.value);
          }
        case ImportFrom(_, _) =>
        case OtherSmall(parts) =>
          RewriteExprsIdentity(registry, parts);
      }
      assert UntouchedSmalls(registry, ss[1..]) by {
        forall i | 0 <= i < |ss[1..]| ensures UntouchedSmall(registry, ss[1..][i]) {
          assert ss[1..][i] == ss[i + 1];
        }
      }
      RewriteSmallsIdentity(registry, ss[1..]);
      assert [ss[0]] + ss[1..] == ss;
    }
  }

  /** Statements with nothing to change come back unchanged and register nothing. */
  lemma {:induction false} RewriteStmtsIdentity(registry: seq<FuncDef>, stmts: seq<Stmt>)
    requires Untouched(registry, stmts)
    ensures RewriteStmts(registry, stmts) == Ok(stmts)
    ensures InlineOnly(Defs(stmts)) == []
    decreases stmts
  {
    if stmts != [] {
      RewriteStmtIdentity(registry, stmts[0]);
      assert registry + InlineOnly(StmtDefs(stmts[0])) == registry;
      assert Untouched(registry, stmts[1..]) by {
        forall i | 0 <= i < |stmts[1..]| ensures UntouchedStmt(registry, stmts[1..][i]) {
          assert stmts[1..][i] == stmts[i + 1];
        }
      }
      RewriteStmtsIdentity(registry, stmts[1..]);
      assert [stmts[0]] + stmts[1..] == stmts;
      InlineOnlyAppend(StmtDefs(stmts[0]), Defs(stmts[1..]));
    }
  }

  lemma {:induction false} RewriteStmtIdentity(registry: seq<FuncDef>, s: Stmt)
    requires UntouchedStmt(registry, s)
    ensures RewriteStmt(registry, s) == Ok(Some(s))
    ensures InlineOnly(StmtDefs(s)) == []
    decreases s
  {
    match s
    case SimpleLine(body) =>
      RewriteSmallsIdentity(registry, body);
    case Def(d) =>
      assert registry + [] == registry;
      RewriteExprsIdentity(registry, d.decorators);
      RewriteBodyIdentity(registry, d.body);
      assert (registry + []) + InlineOnly(BodyDefs(d.body)) == registry;
      InlineOnlyAppend([d], BodyDefs(d.body));
    case Block(header, inner) =>
      RewriteExprsIdentity(registry, header);
      RewriteStmtsIdentity(registry, inner);
  }

  lemma {:induction false} RewriteBodyIdentity(registry: seq<FuncDef>, b: Body)
    requires UntouchedBody(registry, b)
    ensures RewriteBody(registry, b) == Ok(b)
    ensures InlineOnly(BodyDefs(b)) == []
    decreases b
  {
    match b
    case IndentedBlock(stmts) =>
      RewriteStmtsIdentity(registry, stmts);
    case OneLine(smalls) =>
      RewriteSmallsIdentity(registry, smalls);
  }

  // ---------------------------------------------------------------------------
  // Registry bookkeeping

  /** One step of a statement list after the statements before i produced `out`: a failure
      of the statement at i is the failure of the list; otherwise what it leaves joins `out`
      and the rest is walked with its registrations. */
  lemma StmtsStep(registry: seq<FuncDef>, stmts: seq<Stmt>, i: nat, out: seq<Stmt>, s: Result<Option<Stmt>>)
    requires i < |stmts| && s == RewriteStmt(registry, stmts[i])
    ensures s.Err? ==> PrependTo(out, RewriteStmts(registry, stmts[i..])) == Err(s.error)
    ensures s.Ok? ==>
              PrependTo(out, RewriteStmts(registry, stmts[i..])) ==
                PrependTo(out + Listed(s.value), RewriteStmts(registry + InlineOnly(StmtDefs(stmts[i])), stmts[i + 1..]))
  {
    assert stmts[i..][0] == stmts[i] && stmts[i..][1..] == stmts[i + 1..];
    if s.Ok? {
      PrependToAppend(out, Listed(s.value), RewriteStmts(registry + InlineOnly(StmtDefs(stmts[i])), stmts[i + 1..]));
    }
  }

  /** What the registry gains from one more statement of a list. */
  lemma RegistryStep(registry: seq<FuncDef>, stmts: seq<Stmt>, i: nat)
    requires i < |stmts|
    ensures registry + InlineOnly(Defs(stmts[..i + 1])) ==
              (registry + InlineOnly(Defs(stmts[..i]))) + InlineOnly(StmtDefs(stmts[i]))
  {
    assert stmts[..i + 1] == stmts[..i] + [stmts[i]];
    DefsAppend(stmts[..i], [stmts[i]]);
    assert Defs([stmts[i]]) == StmtDefs(stmts[i]) by {
      assert [stmts[i]][1..] == [];
    }
    InlineOnlyAppend(Defs(stmts[..i]), StmtDefs(stmts[i]));
    assert registry + (InlineOnly(Defs(stmts[..i])) + InlineOnly(StmtDefs(stmts[i]))) ==
             (registry + InlineOnly(Defs(stmts[..i]))) + InlineOnly(StmtDefs(stmts[i]));
  }

  /** What the registry gains from a definition: the definition itself when it is an inline
      function, then the inline definitions nested in its body. */
  lemma RegistryDef(registry: seq<FuncDef>, d: FuncDef)
    ensures registry + InlineOnly([d] + BodyDefs(d.body)) ==
              (registry + (if IsInline(d) then [d] else [])) + InlineOnly(BodyDefs(d.body))
  {
    InlineOnlyAppend([d], BodyDefs(d.body));
    assert [d][1..] == [];
    var own := if IsInline(d) then [d] else [];
    assert registry + (own + InlineOnly(BodyDefs(d.body))) == (registry + own) + InlineOnly(BodyDefs(d.body));
  }

  /** Walking the decorators cannot make a definition an inline one. */
  lemma KeptNotInline(d: FuncDef, decorators: seq<Expr>, body: Body)
    requires !IsInline(d) && |decorators| == |d.decorators|
    requires forall i :: 0 <= i < |d.decorators| ==> KeepsName(d.decorators[i], decorators[i])
    ensures !IsInline(FuncDef(d.id, d.name, decorators, d.params, body))
  {
    forall i | 0 <= i < |decorators| ensures FullName(decorators[i]) != Some(DecoratorName) {
      assert KeepsName(d.decorators[i], decorators[i]);
    }
  }

  /** The names of the registered definitions. */
  function Names(registry: seq<FuncDef>): (r: set<string>) {
    set d | d in registry :: d.name
  }

  // ---------------------------------------------------------------------------
  // The transformer object

  class InlineTransformer {
    var inlineFunctions: seq<FuncDef>
    var stack: seq<string>

    /** The source appends to the stack and never reads it; this invariant only documents
        what the stack holds: names of registered definitions whose calls were replaced.
        For the same reason the walk methods promise only that the stack grows; which name
        is pushed is stated where it is pushed, by `VisitCall`. */
    ghost predicate Valid()
      reads this
    {
      forall n :: n in stack ==> n in Names(inlineFunctions)
    }

    constructor ()
      ensures Valid()
      ensures inlineFunctions == [] && stack == []
    {
      inlineFunctions := [];
      stack := [];
    }

    method VisitFunctionDef(node: FuncDef)
      requires Valid()
      modifies this`inlineFunctions
      ensures Valid()
      ensures inlineFunctions == old(inlineFunctions) + (if IsInline(node) then [node] else [])
    {
      if |node.decorators| > 0 {
        var isInline := exists i :: 0 <= i < |node.decorators| && FullName(node.decorators[i]) == Some(DecoratorName);
        if isInline {
          inlineFunctions := inlineFunctions + [node];
        }
      }
    }

    /** `leave_FunctionDef`: whether the definition is removed, by identity. */
    predicate LeaveFunctionDef(original: FuncDef)
      reads this
      ensures original in inlineFunctions ==> LeaveFunctionDef(original)
    {
      IsRegistered(inlineFunctions, original)
    }

    method VisitCall(node: Expr) returns (descend: bool)
      requires node.Call? && Valid()
      modifies this`stack
      ensures Valid()
      ensures descend <==> Matches(inlineFunctions, FullName(node)) == []
      ensures stack == old(stack) + (if descend then [] else [Matches(inlineFunctions, FullName(node))[0].name])
    {
      var found := Matches(inlineFunctions, FullName(node));
      if found != [] {
        stack := stack + [found[0].name];
        return false;
      }
      return true;
    }

    /** `leave_Call`: an unmatched call comes back as `updated`; a matched one is replaced by
      the expansion of the first matching definition, binding the arguments one by one. */
    method LeaveCall(original: Expr, updated: Expr) returns (r: Result<Expr>)
      requires original.Call?
      ensures Matches(inlineFunctions, FullName(original)) == [] ==> r == Ok(updated)
      ensures Matches(inlineFunctions, FullName(original)) != [] ==> r == Replacement(inlineFunctions, original)
    {
      var found := Matches(inlineFunctions, FullName(original));
      if found == [] {
        return Ok(updated);
      }
      var d := found[0];
      if d.body.IndentedBlock? && |d.body.stmts| == 1 && original.args == [] {
        return Ok(Inlined(SingleStatement(d.body.stmts[0])));
      }
      var flat := Flatten(d.body);
      if flat.Err? {
        return Err(flat.error);
      }
      var suite := flat.value;
      if original.args != [] {
        var i := 0;
        while i < |original.args|
          invariant i <= |original.args| && i <= |d.params|
          invariant suite == Bound(flat.value, d.params, original.args, i)
        {
          if i >= |d.params| {
            return Err(TooManyArguments);
          }
          var arg := original.args[i];
          if IsConstant(arg.value) {
            suite := SubstSmalls(ToConstant(d.params[i], arg.value), suite);
          } else {
            suite := SubstSmalls(ToName(d.params[i], arg.value), suite);
          }
          i := i + 1;
        }
      }
      return Ok(Inlined(SmallSuite(suite)));
    }

    // -------------------------------------------------------------------------
    // The walk. Expressions never contain definitions, so the registry is fixed while
    // an expression is walked; statements may register definitions. Each method is
    // proved to compute the rewrite function of the same name.

    method WalkExpr(e: Expr) returns (r: Result<Expr>)
      requires Valid()
      modifies this`stack
      ensures Valid() && old(stack) <= stack
      ensures r == RewriteExpr(inlineFunctions, e)
      decreases e
    {
      match e {
        case Name(_) =>
          r := Ok(e);
        case Literal(_, _) =>
          r := Ok(e);
        case Attribute(value, attr) =>
          var v :- WalkExpr(value);
          var a :- WalkExpr(attr);
          r := Ok(Attribute(v, a));
        case Subscript(value, slice) =>
          var v :- WalkExpr(value);
          var s :- WalkExpr(slice);
          r := Ok(Subscript(v, s));
        case Call(func, args) =>
          var descend := VisitCall(e);
          if descend {
            var f :- WalkExpr(func);
            var a :- WalkArgs(args);
            r := LeaveCall(e, Call(f, a));
          } else {
            r := LeaveCall(e, e);
          }
        case Compound(parts) =>
          var ps :- WalkExprs(parts);
          r := Ok(Compound(ps));
        case Inlined(_) =>
          r := Ok(e);
      }
    }

    method WalkExprs(es: seq<Expr>) returns (r: Result<seq<Expr>>)
      requires Valid()
      modifies this`stack
      ensures Valid() && old(stack) <= stack
      ensures r == RewriteExprs(inlineFunctions, es)
      decreases es
    {
      var out: seq<Expr> := [];
      var i := 0;
      assert es[0..] == es;
      PrependToNothing(RewriteExprs(inlineFunctions, es));
      while i < |es|
        invariant i <= |es|
        invariant Valid() && old(stack) <= stack
        invariant RewriteExprs(inlineFunctions, es) == PrependTo(out, RewriteExprs(inlineFunctions, es[i..]))
      {
        assert es[i..][0] == es[i] && es[i..][1..] == es[i + 1..];
        var x :- WalkExpr(es[i]);
        PrependToAppend(out, [x], RewriteExprs(inlineFunctions, es[i + 1..]));
        out := out + [x];
        i := i + 1;
      }
      assert out + [] == out;
      return Ok(out);
    }

    method WalkArgs(args: seq<Arg>) returns (r: Result<seq<Arg>>)
      requires Valid()
      modifies this`stack
      ensures Valid() && old(stack) <= stack
      ensures r == RewriteArgs(inlineFunctions, args)
      decreases args
    {
      var out: seq<Arg> := [];
      var i := 0;
      assert args[0..] == args;
      PrependToNothing(RewriteArgs(inlineFunctions, args));
      while i < |args|
        invariant i <= |args|
        invariant Valid() && old(stack) <= stack
        invariant RewriteArgs(inlineFunctions, args) == PrependTo(out, RewriteArgs(inlineFunctions, args[i..]))
      {
        assert args[i..][0] == args[i] && args[i..][1..] == args[i + 1..];
        var a :- WalkArg(args[i]);
        PrependToAppend(out, [a], RewriteArgs(inlineFunctions, args[i + 1..]));
        out := out + [a];
        i := i + 1;
      }
      assert out + [] == out;
      return Ok(out);
    }

    method WalkArg(a: Arg) returns (r: Result<Arg>)
      requires Valid()
      modifies this`stack
      ensures Valid() && old(stack) <= stack
      ensures r == RewriteArg(inlineFunctions, a)
      decreases a
    {
      match a {
        case Positional(value) =>
          var v :- WalkExpr(value);
          r := Ok(Positional(v));
        case Keyword(keyword, value) =>
          var k :- WalkExpr(keyword);
          var v :- WalkExpr(value);
          r := Ok(Keyword(k, v));
      }
    }

    /** A small statement: its expressions are walked; an import is kept or removed by
      `leave_ImportFrom` (its module path and imported names hold no calls). */
    method WalkSmall(s: Small) returns (r: Result<Option<Small>>)
      requires Valid()
      modifies this`stack
      ensures Valid() && old(stack) <= stack
      ensures r == RewriteSmall(inlineFunctions, s)
    {
      match s {
        case ExprStmt(value) =>
          var v :- WalkExpr(value);
          r := Ok(Some(ExprStmt(v)));
        case Assign(targets, value) =>
          var ts :- WalkExprs(targets);
          var v :- WalkExpr(value);
          r := Ok(Some(Assign(ts, v)));
        case Return(result) =>
          if result.Some? {
            var v :- WalkExpr(result.value);
            r := Ok(Some(Return(Some(v))));
          } else {
            r := Ok(Some(s));
          }
        case ImportFrom(_, _) =>
          var remove :- LeaveImportFrom(s);
          r := Ok(if remove then None else Some(s));
        case OtherSmall(parts) =>
          var ps :- WalkExprs(parts);
          r := Ok(Some(OtherSmall(ps)));
      }
    }

    method WalkSmalls(ss: seq<Small>) returns (r: Result<seq<Small>>)
      requires Valid()
      modifies this`stack
      ensures Valid() && old(stack) <= stack
      ensures r == RewriteSmalls(inlineFunctions, ss)
    {
      var out: seq<Small> := [];
      var i := 0;
      assert ss[0..] == ss;
      PrependToNothing(RewriteSmalls(inlineFunctions, ss));
      while i < |ss|
        invariant i <= |ss|
        invariant Valid() && old(stack) <= stack
        invariant RewriteSmalls(inlineFunctions, ss) == PrependTo(out, RewriteSmalls(inlineFunctions, ss[i..]))
      {
        assert ss[i..][0] == ss[i] && ss[i..][1..] == ss[i + 1..];
        var s :- WalkSmall(ss[i]);
        var kept := Listed(s);
        PrependToAppend(out, kept, RewriteSmalls(inlineFunctions, ss[i + 1..]));
        out := out + kept;
        i := i + 1;
      }
      assert out + [] == out;
      return Ok(out);
    }

    /** A statement; a statement line the walk emptied is dropped, as libcst drops it. */
    method WalkStmt(s: Stmt) returns (r: Result<Option<Stmt>>)
      requires Valid()
      modifies this
      ensures Valid() && old(stack) <= stack && old(inlineFunctions) <= inlineFunctions
      ensures r == RewriteStmt(old(inlineFunctions), s)
      ensures r.Ok? ==> inlineFunctions == old(inlineFunctions) + InlineOnly(StmtDefs(s))
      decreases s, 1
    {
      match s {
        case SimpleLine(body) =>
          var b :- WalkSmalls(body);
          assert inlineFunctions + [] == inlineFunctions;
          r := Ok(if body != [] && b == [] then None else Some(SimpleLine(b)));
        case Def(d) =>
          var w :- WalkFunctionDef(d);
          r := Ok(if w.Some? then Some(Def(w.value)) else None);
        case Block(header, inner) =>
          var h :- WalkExprs(header);
          var b :- WalkStmts(inner);
          r := Ok(Some(Block(h, b)));
      }
    }

    method WalkStmts(stmts: seq<Stmt>) returns (r: Result<seq<Stmt>>)
      requires Valid()
      modifies this
      ensures Valid() && old(stack) <= stack && old(inlineFunctions) <= inlineFunctions
      ensures r == RewriteStmts(old(inlineFunctions), stmts)
      ensures r.Ok? ==> inlineFunctions == old(inlineFunctions) + InlineOnly(Defs(stmts))
      decreases stmts
    {
      var out: seq<Stmt> := [];
      var i := 0;
      ghost var whole := RewriteStmts(inlineFunctions, stmts);
      assert stmts[0..] == stmts && stmts[..0] == [];
      PrependToNothing(whole);
      while i < |stmts|
        invariant i <= |stmts|
        invariant Valid() && old(stack) <= stack
        invariant inlineFunctions == old(inlineFunctions) + InlineOnly(Defs(stmts[..i]))
        invariant whole == PrependTo(out, RewriteStmts(inlineFunctions, stmts[i..]))
      {
        ghost var before := inlineFunctions;
        var s := WalkStmt(stmts[i]);
        StmtsStep(before, stmts, i, out, s);
        if s.Err? {
          return Err(s.error);
        }
        out := out + Listed(s.value);
        RegistryStep(old(inlineFunctions), stmts, i);
        i := i + 1;
      }
      assert stmts[..i] == stmts;
      assert out + [] == out;
      return Ok(out);
    }

    method WalkBody(b: Body) returns (r: Result<Body>)
      requires Valid()
      modifies this
      ensures Valid() && old(stack) <= stack && old(inlineFunctions) <= inlineFunctions
      ensures r == RewriteBody(old(inlineFunctions), b)
      ensures r.Ok? ==> inlineFunctions == old(inlineFunctions) + InlineOnly(BodyDefs(b))
      decreases b
    {
      match b {
        case IndentedBlock(stmts) =>
          var ss :- WalkStmts(stmts);
          r := Ok(IndentedBlock(ss));
        case OneLine(smalls) =>
          var ss :- WalkSmalls(smalls);
          assert inlineFunctions + [] == inlineFunctions;
          r := Ok(OneLine(ss));
      }
    }

    /** A definition: `visit_FunctionDef`, its decorators and body, then `leave_FunctionDef`. */
    method WalkFunctionDef(d: FuncDef) returns (r: Result<Option<FuncDef>>)
      requires Valid()
      modifies this
      ensures Valid() && old(stack) <= stack && old(inlineFunctions) <= inlineFunctions
      ensures r == RewriteDef(old(inlineFunctions), d)
      ensures r.Ok? ==> inlineFunctions == old(inlineFunctions) + InlineOnly([d] + BodyDefs(d.body))
      decreases d
    {
      VisitFunctionDef(d);
      var decorators :- WalkExprs(d.decorators);
      var body :- WalkBody(d.body);
      RegistryDef(old(inlineFunctions), d);
      if LeaveFunctionDef(d) {
        r := Ok(None);
      } else {
        r := Ok(Some(FuncDef(d.id, d.name, decorators, d.params, body)));
      }
    }

    /** `module.visit(transformer)`: the rewritten module, or the failure that ends the run. */
    method Transform(tree: seq<Stmt>) returns (r: Result<seq<Stmt>>)
      requires Valid()
      modifies this
      ensures Valid() && old(stack) <= stack && old(inlineFunctions) <= inlineFunctions
      ensures r == RewriteStmts(old(inlineFunctions), tree)
      ensures r.Ok? ==> inlineFunctions == old(inlineFunctions) + InlineOnly(Defs(tree))
    {
      r := WalkStmts(tree);
    }
  }
}
