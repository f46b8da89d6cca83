/** The discovery-only prototype of the pass: a visitor that walks a module without
    changing it and records the definitions decorated with a bare `inline`. It compares
    each decorator's `value` attribute with the string `inline`. */
module Prototype {
  import opened Syntax
  import opened Markers

  /** `decorator.value == "inline"`. The `value` of a name or a literal is its text; the
      `value` of an attribute or a subscript is a node, which never equals a string; a call
      and the other expressions have no `value` at all, and reading it raises. */
  function DecoratorValueIsInline(e: Expr): (r: Result<bool>)
    ensures r == Ok(true) ==> e == Name(DecoratorName) || (e.Literal? && e.text == DecoratorName)
    ensures r.Err? <==> e.Call? || e.Compound? || e.Inlined?
  {
    match e
    case Name(id) => Ok(id == DecoratorName)
    case Literal(_, text) => Ok(text == DecoratorName)
    case Attribute(_, _) => Ok(false)
    case Subscript(_, _) => Ok(false)
    case Call(_, _) => Err(NoDecoratorValue)
    case Compound(_) => Err(NoDecoratorValue)
    case Inlined(_) => Err(NoDecoratorValue)
  }

  /** `any(...)` over the decorators: it stops at the first decorator whose value is
      `inline`, and fails at the first decorator without a value met before that. */
  function AnyValueInline(decorators: seq<Expr>): (r: Result<bool>)
    ensures r.Err? ==> r.error == NoDecoratorValue
    decreases decorators
  {
    if decorators == [] then Ok(false)
    else
      match DecoratorValueIsInline(decorators[0])
      case Err(f) => Err(f)
      case Ok(true) => Ok(true)
      case Ok(false) => AnyValueInline(decorators[1..])
  }

  /** `any(...)` is false exactly when every decorator's value is read and none is `inline`. */
  lemma {:induction false} AnyValueInlineFalse(decorators: seq<Expr>)
    ensures AnyValueInline(decorators) == Ok(false) <==>
              forall i :: 0 <= i < |decorators| ==> DecoratorValueIsInline(decorators[i]) == Ok(false)
    decreases decorators
  {
    if decorators != [] {
      AnyValueInlineFalse(decorators[1..]);
      assert forall i :: 1 <= i < |decorators| ==> decorators[i] == decorators[1..][i - 1];
    }
  }

  /** The test of `visit_FunctionDef`: a definition without decorators is never recorded. */
  function ValueCheck(d: FuncDef): (r: Result<bool>)
    ensures r == Ok(true) ==> |d.decorators| > 0
    ensures r.Err? ==> r.error == NoDecoratorValue
  {
    if |d.decorators| == 0 then Ok(false) else AnyValueInline(d.decorators)
  }

  /** The definitions the visitor records from the definitions `defs`, met in this order,
      or the failure that ends the walk. */
  function Discovery(defs: seq<FuncDef>): (r: Result<seq<FuncDef>>)
    ensures r.Ok? ==> |r.value| <= |defs|
  {
    if defs == [] then Ok([])
    else
      match ValueCheck(defs[0])
      case Err(f) => Err(f)
      case Ok(recorded) =>
        match Discovery(defs[1..])
        case Err(f) => Err(f)
        case Ok(rest) => Ok((if recorded then [defs[0]] else []) + rest)
  }

  // ---------------------------------------------------------------------------
  // The visitor

  class InlineVisitor {
    var inlineFunctions: seq<FuncDef>

    constructor ()
      ensures inlineFunctions == []
    {
      inlineFunctions := [];
    }

    /** Records `node` when one of its decorators has the value `inline`; a failure leaves
        the list as it was. */
    method VisitFunctionDef(node: FuncDef) returns (r: Result<bool>)
      modifies this`inlineFunctions
      ensures r == ValueCheck(node)
      ensures inlineFunctions == old(inlineFunctions) + (if r == Ok(true) then [node] else [])
    {
      if |node.decorators| == 0 {
        return Ok(false);
      }
      var i := 0;
      var isInline := false;
      while i < |node.decorators| && !isInline
        invariant 0 <= i <= |node.decorators|
        invariant AnyValueInline(node.decorators) ==
                    if isInline then Ok(true) else AnyValueInline(node.decorators[i..])
      {
        assert node.decorators[i..][1..] == node.decorators[i + 1..];
        var v := DecoratorValueIsInline(node.decorators[i]);
        if v.Err? {
          return Err(v.error);
        }
        isInline := v.value;
        i := i + 1;
      }
      if isInline {
        inlineFunctions := inlineFunctions + [node];
      }
      return Ok(isInline);
    }

    method WalkStmts(stmts: seq<Stmt>) returns (r: Result<seq<Stmt>>)
      modifies this
      ensures r.Ok? <==> Discovery(Defs(stmts)).Ok?
      ensures r.Ok? ==> r.value == stmts
                        && inlineFunctions == old(inlineFunctions) + Discovery(Defs(stmts)).value
      ensures r.Err? ==> r.error == Discovery(Defs(stmts)).error
      decreases stmts
    {
      var i := 0;
      while i < |stmts|
        invariant i <= |stmts| && Discovery(Defs(stmts[..i])).Ok?
        invariant inlineFunctions == old(inlineFunctions) + Discovery(Defs(stmts[..i])).value
      {
        var s := WalkStmt(stmts[i]);
        if s.Err? {
          DefsStep(stmts, i);
          DiscoveryStopsAt(stmts, i + 1);
          return Err(s.error);
        }
        DiscoveryStep(old(inlineFunctions), stmts, i);
        i := i + 1;
      }
      assert stmts[..i] == stmts;
      return Ok(stmts);
    }

    method WalkStmt(s: Stmt) returns (r: Result<Stmt>)
      modifies this
      ensures r.Ok? <==> Discovery(StmtDefs(s)).Ok?
      ensures r.Ok? ==> r.value == s
                        && inlineFunctions == old(inlineFunctions) + Discovery(StmtDefs(s)).value
      ensures r.Err? ==> r.error == Discovery(StmtDefs(s)).error
      decreases s
    {
      match s {
        case SimpleLine(_) =>
          r := Ok(s);
        case Def(d) =>
          var recorded := VisitFunctionDef(d);
          DiscoveryCons(d, BodyDefs(d.body));
          if recorded.Err? {
            return Err(recorded.error);
          }
          if d.body.IndentedBlock? {
            var b := WalkStmts(d.body.stmts);
            if b.Err? {
              return Err(b.error);
            }
          }
          r := Ok(s);
        case Block(_, inner) =>
          var b := WalkStmts(inner);
          if b.Err? {
            return Err(b.error);
          }
          r := Ok(s);
      }
    }

    /** `module.visit(visitor)`: the module, unchanged, once every definition is visited. */
    method Visit(tree: seq<Stmt>) returns (r: Result<seq<Stmt>>)
      modifies this
      ensures r.Ok? <==> Discovery(Defs(tree)).Ok?
      ensures r.Ok? ==> r.value == tree
                        && inlineFunctions == old(inlineFunctions) + Discovery(Defs(tree)).value
      ensures r.Err? ==> r.error == Discovery(Defs(tree)).error
    {
      r := WalkStmts(tree);
    }
  }

  // ---------------------------------------------------------------------------
  // Properties of the discovery

  /** Discovery of a definition followed by others. */
  lemma DiscoveryCons(d: FuncDef, rest: seq<FuncDef>)
    ensures Discovery([d] + rest) ==
              match ValueCheck(d)
              case Err(f) => Err(f)
              case Ok(recorded) =>
                match Discovery(rest)
                case Err(f) => Err(f)
                case Ok(found) => Ok((if recorded then [d] else []) + found)
  {
    assert ([d] + rest)[1..] == rest;
  }

  /** Discovery over two lists of definitions met one after the other: the first failure
      wins, and otherwise the recorded definitions are concatenated. */
  lemma {:induction false} DiscoveryAppend(a: seq<FuncDef>, b: seq<FuncDef>)
    ensures Discovery(a + b) ==
              match Discovery(a)
              case Err(f) => Err(f)
              case Ok(x) =>
                match Discovery(b)
                case Err(f) => Err(f)
                case Ok(y) => Ok(x + y)
    decreases |a|
  {
    if a == [] {
      assert a + b == b;
      if Discovery(b).Ok? {
        assert [] + Discovery(b).value == Discovery(b).value;
      }
    } else {
      assert (a + b)[0] == a[0];
      assert (a + b)[1..] == a[1..] + b;
      DiscoveryAppend(a[1..], b);
      if ValueCheck(a[0]).Ok? && Discovery(a[1..]).Ok? && Discovery(b).Ok? {
        var own: seq<FuncDef> := if ValueCheck(a[0]).value then [a[0]] else [];
        var x, y := Discovery(a[1..]).value, Discovery(b).value;
        assert own + (x + y) == (own + x) + y;
      }
    }
  }

  lemma DefsStep(stmts: seq<Stmt>, i: nat)
    requires i < |stmts|
    ensures Discovery(Defs(stmts[..i + 1])) ==
              match Discovery(Defs(stmts[..i]))
              case Err(f) => Err(f)
              case Ok(x) =>
                match Discovery(StmtDefs(stmts[i]))
                case Err(f) => Err(f)
                case Ok(y) => Ok(x + y)
  {
    assert stmts[..i + 1] == stmts[..i] + [stmts[i]];
    DefsAppend(stmts[..i], [stmts[i]]);
    assert Defs([stmts[i]]) == StmtDefs(stmts[i]) by {
      assert [stmts[i]][1..] == [];
    }
    DiscoveryAppend(Defs(stmts[..i]), StmtDefs(stmts[i]));
  }

  /** Discovery over one more statement of a list whose first i statements succeeded: its
      records are appended to those of the statements before it. */
  lemma DiscoveryStep(registry: seq<FuncDef>, stmts: seq<Stmt>, i: nat)
    requires i < |stmts| && Discovery(Defs(stmts[..i])).Ok? && Discovery(StmtDefs(stmts[i])).Ok?
    ensures Discovery(Defs(stmts[..i + 1])).Ok?
    ensures registry + Discovery(Defs(stmts[..i + 1])).value
              == (registry + Discovery(Defs(stmts[..i])).value) + Discovery(StmtDefs(stmts[i])).value
  {
    var x := Discovery(Defs(stmts[..i])).value;
    var y := Discovery(StmtDefs(stmts[i])).value;
    DefsStep(stmts, i);
    assert registry + (x + y) == (registry + x) + y;
  }

  /** A failure among the first j statements is the failure of the whole list. */
  lemma DiscoveryStopsAt(stmts: seq<Stmt>, j: nat)
    requires j <= |stmts| && Discovery(Defs(stmts[..j])).Err?
    ensures Discovery(Defs(stmts)) == Discovery(Defs(stmts[..j]))
  {
    assert stmts == stmts[..j] + stmts[j..];
    DefsAppend(stmts[..j], stmts[j..]);
    DiscoveryAppend(Defs(stmts[..j]), Defs(stmts[j..]));
  }

  /** What the visitor records comes from the definitions it met, in their order, each
      with a decorator whose value is `inline`. */
  lemma {:induction false} DiscoveryRecordsFromInput(defs: seq<FuncDef>)
    requires Discovery(defs).Ok?
    ensures forall d :: d in Discovery(defs).value <==> d in defs && ValueCheck(d) == Ok(true)
    decreases |defs|
  {
    if defs != [] {
      DiscoveryRecordsFromInput(defs[1..]);
      assert forall d :: d in defs <==> d == defs[0] || d in defs[1..] by {
        assert defs == [defs[0]] + defs[1..];
      }
    }
  }

  /** The discovery fails exactly when some definition's decorator check fails. */
  lemma {:induction false} DiscoveryFailure(defs: seq<FuncDef>)
    ensures Discovery(defs).Err? <==> exists k :: 0 <= k < |defs| && ValueCheck(defs[k]).Err?
    decreases |defs|
  {
    if defs != [] {
      DiscoveryFailure(defs[1..]);
      if ValueCheck(defs[0]).Ok? && Discovery(defs).Err? {
        var k :| 0 <= k < |defs[1..]| && ValueCheck(defs[1..][k]).Err?;
        assert defs[k + 1] == defs[1..][k];
      }
      if exists k :: 0 <= k < |defs| && ValueCheck(defs[k]).Err? {
        var k :| 0 <= k < |defs| && ValueCheck(defs[k]).Err?;
        if k > 0 {
          assert defs[1..][k - 1] == defs[k];
        }
      }
    }
  }

  // ---------------------------------------------------------------------------
  // The prototype against the transformer's full-name test

  /** Every decorator is a name or a dotted name: the decorators both tests read alike. */
  predicate PlainDecorators(d: FuncDef) {
    forall i :: 0 <= i < |d.decorators| ==> PlainDecorator(d.decorators[i])
  }

  predicate PlainDecorator(e: Expr) {
    e.Name? || (e.Attribute? && e.attr.Name?)
  }

  /** A dotted name holds a dot, which `inline` does not. */
  lemma DottedIsNotMarker(prefix: string, attr: string)
    ensures prefix + "." + attr != DecoratorName
  {
    assert (prefix + "." + attr)[|prefix|] == '.';
    assert forall k :: 0 <= k < |DecoratorName| ==> DecoratorName[k] != '.';
  }

  lemma PlainDecoratorAgrees(e: Expr)
    requires PlainDecorator(e)
    ensures DecoratorValueIsInline(e) == Ok(FullName(e) == Some(DecoratorName))
  {
    if e.Attribute? && FullName(e.value).Some? {
      DottedIsNotMarker(FullName(e.value).value, e.attr.id);
    }
  }

  lemma {:induction false} AnyValueInlinePlain(decorators: seq<Expr>)
    requires forall i :: 0 <= i < |decorators| ==> PlainDecorator(decorators[i])
    ensures AnyValueInline(decorators) ==
              Ok(exists i :: 0 <= i < |decorators| && FullName(decorators[i]) == Some(DecoratorName))
    decreases |decorators|
  {
    if decorators != [] {
      PlainDecoratorAgrees(decorators[0]);
      AnyValueInlinePlain(decorators[1..]);
      if exists i :: 0 <= i < |decorators[1..]| && FullName(decorators[1..][i]) == Some(DecoratorName) {
        var i :| 0 <= i < |decorators[1..]| && FullName(decorators[1..][i]) == Some(DecoratorName);
        assert decorators[i + 1] == decorators[1..][i];
      }
      if exists i :: 0 <= i < |decorators| && FullName(decorators[i]) == Some(DecoratorName) {
        var i :| 0 <= i < |decorators| && FullName(decorators[i]) == Some(DecoratorName);
        if i > 0 {
          assert decorators[1..][i - 1] == decorators[i];
        }
      }
    }
  }

  /** With names and dotted names as decorators, the prototype's test and the transformer's
      test agree: a bare `inline` is recorded, `pyinline.inline` by neither. */
  lemma PlainDecoratorsAgree(d: FuncDef)
    requires PlainDecorators(d)
    ensures ValueCheck(d) == Ok(IsInline(d))
  {
    AnyValueInlinePlain(d.decorators);
  }

  /** A definition the prototype records, unless it is decorated with a literal spelled
      `inline` (which no parsed literal is), is one the transformer registers. */
  lemma {:induction false} RecordedIsInline(d: FuncDef)
    requires forall i :: 0 <= i < |d.decorators| ==> !d.decorators[i].Literal?
    requires ValueCheck(d) == Ok(true)
    ensures IsInline(d)
  {
    var i := FirstValueInline(d.decorators);
    assert FullName(d.decorators[i]) == Some(DecoratorName);
  }

  /** The position of the decorator at which `any` stopped with true. */
  lemma {:induction false} FirstValueInline(decorators: seq<Expr>) returns (i: nat)
    requires AnyValueInline(decorators) == Ok(true)
    ensures i < |decorators| && DecoratorValueIsInline(decorators[i]) == Ok(true)
    decreases |decorators|
  {
    if DecoratorValueIsInline(decorators[0]) == Ok(true) {
      i := 0;
    } else {
      var j := FirstValueInline(decorators[1..]);
      i := j + 1;
    }
  }

  /** Over definitions with plain decorators the prototype records exactly the definitions
      the transformer registers. */
  lemma {:induction false} DiscoveryAgrees(defs: seq<FuncDef>)
    requires forall k :: 0 <= k < |defs| ==> PlainDecorators(defs[k])
    ensures Discovery(defs) == Ok(InlineOnly(defs))
    decreases |defs|
  {
    if defs != [] {
      PlainDecoratorsAgree(defs[0]);
      DiscoveryAgrees(defs[1..]);
    }
  }

  /** Where the two differ: `@inline()` and `@inline[...]` mark an inline function for the
      transformer, while the prototype fails on the first and skips the second. */
  lemma CalledAndSubscriptedMarker(body: Body)
    ensures
      var called := FuncDef(0, "f", [Call(Name(DecoratorName), [])], [], body);
      IsInline(called) && ValueCheck(called) == Err(NoDecoratorValue)
    ensures
      var indexed := FuncDef(1, "g", [Subscript(Name(DecoratorName), Name("x"))], [], body);
      IsInline(indexed) && ValueCheck(indexed) == Ok(false)
  {
    var called := FuncDef(0, "f", [Call(Name(DecoratorName), [])], [], body);
    assert FullName(called.decorators[0]) == Some(DecoratorName);
    var indexed := FuncDef(1, "g", [Subscript(Name(DecoratorName), Name("x"))], [], body);
    assert FullName(indexed.decorators[0]) == Some(DecoratorName);
    assert DecoratorValueIsInline(indexed.decorators[0]) == Ok(false);
    assert indexed.decorators[1..] == [];
    assert AnyValueInline(indexed.decorators) == AnyValueInline([]);
  }
}
