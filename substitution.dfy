/** Name substitution: the `leave_Name` of NameToConstantTransformer and of
    NameToNameTransformer, applied to every node of a tree by a bottom-up walk. */
module Substitution {
  import opened Syntax

  /** One argument binding (the transformer object): occurrences of the parameter `name`
      become `constant` (a string, integer or float literal) or `replacement` (any other
      argument expression). */
  datatype Binding = ToConstant(name: string, constant: Expr) | ToName(name: string, replacement: Expr)
  {
    function Inserted(): (r: Expr) {
      match this
      case ToConstant(_, c) => c
      case ToName(_, r) => r
    }
  }

  /** `leave_Name`: a Name node deep-equal to the parameter's Name becomes the bound node,
      every other Name node is returned as it was. */
  function LeaveName(b: Binding, node: Expr): (r: Expr)
    requires node.Name?
    ensures node.id == b.name ==> r == b.Inserted()
    ensures node.id != b.name ==> r == node
  {
    match b
    case ToConstant(name, constant) => if node == Name(name) then constant else node
    case ToName(name, replacement) => if node == Name(name) then replacement else node
  }

  /** The walk that visits every node and replaces each Name by `LeaveName`.
      An inlined fragment never occurs in the body a binding is applied to, and is left alone.
      Only Name nodes are replaced: every other node keeps its kind and its number of children. */
  function SubstExpr(b: Binding, e: Expr): (r: Expr)
    ensures e.Name? ==> r == e || r == b.Inserted()
    ensures e.Literal? || e.Inlined? ==> r == e
    ensures e.Attribute? ==> r.Attribute?
    ensures e.Subscript? ==> r.Subscript?
    ensures e.Call? ==> r.Call? && |r.args| == |e.args|
    ensures e.Compound? ==> r.Compound? && |r.parts| == |e.parts|
    decreases e
  {
    match e
    case Name(_) => LeaveName(b, e)
    case Literal(_, _) => e
    case Attribute(value, attr) => Attribute(SubstExpr(b, value), SubstExpr(b, attr))
    case Subscript(value, slice) => Subscript(SubstExpr(b, value), SubstExpr(b, slice))
    case Call(func, args) => Call(SubstExpr(b, func), SubstArgs(b, args))
    case Compound(parts) => Compound(SubstExprs(b, parts))
    case Inlined(_) => e
  }

  function SubstExprs(b: Binding, es: seq<Expr>): (r: seq<Expr>)
    decreases es
  {
    seq(|es|, i requires 0 <= i < |es| => SubstExpr(b, es[i]))
  }

  function SubstArg(b: Binding, a: Arg): (r: Arg)
    decreases a
  {
    match a
    case Positional(value) => Positional(SubstExpr(b, value))
    case Keyword(keyword, value) => Keyword(SubstExpr(b, keyword), SubstExpr(b, value))
  }

  function SubstArgs(b: Binding, args: seq<Arg>): (r: seq<Arg>)
    decreases args
  {
    seq(|args|, i requires 0 <= i < |args| => SubstArg(b, args[i]))
  }

  /** Two small statements of the same kind. */
  predicate SameKind(s: Small, t: Small) {
    s.ExprStmt? == t.ExprStmt? && s.Assign? == t.Assign? && s.Return? == t.Return?
    && s.ImportFrom? == t.ImportFrom? && s.OtherSmall? == t.OtherSmall?
  }

  /** A small statement keeps its kind, its number of assignment targets, whether it
      returns a value, and whether it imports a module and which number of names. */
  function SubstSmall(b: Binding, s: Small): (r: Small)
    ensures SameKind(r, s)
    ensures s.Assign? ==> |r.targets| == |s.targets|
    ensures s.Return? ==> r.result.None? == s.result.None?
    ensures s.ImportFrom? ==> r.source.None? == s.source.None? && r.names.ImportStar? == s.names.ImportStar?
    ensures s.ImportFrom? && s.names.Aliases? ==> |r.names.names| == |s.names.names|
  {
    match s
    case ExprStmt(value) => ExprStmt(SubstExpr(b, value))
    case Assign(targets, value) => Assign(SubstExprs(b, targets), SubstExpr(b, value))
    case Return(None) => s
    case Return(Some(value)) => Return(Some(SubstExpr(b, value)))
    case ImportFrom(source, names) =>
      ImportFrom(if source.Some? then Some(SubstExpr(b, source.value)) else None,
                 if names.Aliases? then Aliases(SubstExprs(b, names.names)) else ImportStar)
    case OtherSmall(parts) => OtherSmall(SubstExprs(b, parts))
  }

  /** `suite.visit(transformer)` on a suite of small statements: the suite keeps its length
      and each small statement its kind. */
  function SubstSmalls(b: Binding, ss: seq<Small>): (r: seq<Small>)
    ensures |r| == |ss|
    ensures forall i :: 0 <= i < |ss| ==> SameKind(r[i], ss[i])
  {
    seq(|ss|, i requires 0 <= i < |ss| => SubstSmall(b, ss[i]))
  }

  // ---------------------------------------------------------------------------
  // Where a name occurs (outside inlined fragments)

  predicate Mentions(e: Expr, x: string)
    decreases e
  {
    match e
    case Name(id) => id == x
    case Literal(_, _) => false
    case Attribute(value, attr) => Mentions(value, x) || Mentions(attr, x)
    case Subscript(value, slice) => Mentions(value, x) || Mentions(slice, x)
    case Call(func, args) => Mentions(func, x) || MentionsArgs(args, x)
    case Compound(parts) => MentionsAny(parts, x)
    case Inlined(_) => false
  }

  predicate MentionsAny(es: seq<Expr>, x: string)
    decreases es
  {
    exists i :: 0 <= i < |es| && Mentions(es[i], x)
  }

  predicate MentionsArg(a: Arg, x: string)
    decreases a
  {
    match a
    case Positional(value) => Mentions(value, x)
    case Keyword(keyword, value) => Mentions(keyword, x) || Mentions(value, x)
  }

  predicate MentionsArgs(args: seq<Arg>, x: string)
    decreases args
  {
    exists i :: 0 <= i < |args| && MentionsArg(args[i], x)
  }

  predicate MentionsSmall(s: Small, x: string)
  {
    match s
    case ExprStmt(value) => Mentions(value, x)
    case Assign(targets, value) => MentionsAny(targets, x) || Mentions(value, x)
    case Return(result) => result.Some? && Mentions(result.value, x)
    case ImportFrom(source, names) =>
      (source.Some? && Mentions(source.value, x)) || (names.Aliases? && MentionsAny(names.names, x))
    case OtherSmall(parts) => MentionsAny(parts, x)
  }

  predicate MentionsSmalls(ss: seq<Small>, x: string)
  {
    exists i :: 0 <= i < |ss| && MentionsSmall(ss[i], x)
  }

  /** The names a substitution leaves behind, for the substituted name x and every other y:
      y occurs afterwards iff it occurred before and is not x, or x occurred and the
      inserted node holds y. So exactly the Name nodes equal to x are replaced. */
  ghost predicate SubstitutedMentions(before: bool, hadName: bool, after: bool, b: Binding, y: string)
  {
    after <==> (y != b.name && before) || (hadName && Mentions(b.Inserted(), y))
  }

  lemma {:induction false} SubstExprMentions(b: Binding, e: Expr, y: string)
    ensures SubstitutedMentions(Mentions(e, y), Mentions(e, b.name), Mentions(SubstExpr(b, e), y), b, y)
    decreases e
  {
    match e
    case Name(_) =>
    case Literal(_, _) =>
    case Attribute(value, attr) =>
      SubstExprMentions(b, value, y);
      SubstExprMentions(b, attr, y);
    case Subscript(value, slice) =>
      SubstExprMentions(b, value, y);
      SubstExprMentions(b, slice, y);
    case Call(func, args) =>
      SubstExprMentions(b, func, y);
      SubstArgsMentions(b, args, y);
    case Compound(parts) =>
      SubstExprsMentions(b, parts, y);
    case Inlined(_) =>
  }

  lemma {:induction false} SubstExprsMentions(b: Binding, es: seq<Expr>, y: string)
    ensures SubstitutedMentions(MentionsAny(es, y), MentionsAny(es, b.name), MentionsAny(SubstExprs(b, es), y), b, y)
    decreases es
  {
    forall i | 0 <= i < |es|
      ensures SubstitutedMentions(Mentions(es[i], y), Mentions(es[i], b.name), Mentions(SubstExprs(b, es)[i], y), b, y)
    {
      SubstExprMentions(b, es[i], y);
    }
  }

  lemma {:induction false} SubstArgsMentions(b: Binding, args: seq<Arg>, y: string)
    ensures SubstitutedMentions(MentionsArgs(args, y), MentionsArgs(args, b.name), MentionsArgs(SubstArgs(b, args), y), b, y)
    decreases args
  {
    forall i | 0 <= i < |args|
      ensures SubstitutedMentions(MentionsArg(args[i], y), MentionsArg(args[i], b.name), MentionsArg(SubstArgs(b, args)[i], y), b, y)
    {
      SubstArgMentions(b, args[i], y);
    }
  }

  lemma {:induction false} SubstArgMentions(b: Binding, a: Arg, y: string)
    ensures SubstitutedMentions(MentionsArg(a, y), MentionsArg(a, b.name), MentionsArg(SubstArg(b, a), y), b, y)
    decreases a
  {
    match a
    case Positional(value) =>
      SubstExprMentions(b, value, y);
    case Keyword(keyword, value) =>
      SubstExprMentions(b, keyword, y);
      SubstExprMentions(b, value, y);
  }

  lemma {:induction false} SubstSmallMentions(b: Binding, s: Small, y: string)
    ensures SubstitutedMentions(MentionsSmall(s, y), MentionsSmall(s, b.name), MentionsSmall(SubstSmall(b, s), y), b, y)
  {
    match s
    case ExprStmt(value) =>
      SubstExprMentions(b, value, y);
    case Assign(targets, value) =>
      SubstExprsMentions(b, targets, y);
      SubstExprMentions(b, value, y);
    case Return(result) =>
      if result.Some? { SubstExprMentions(b, result.value, y); }
    case ImportFrom(source, names) =>
      if source.Some? { SubstExprMentions(b, source.value, y); }
      if names.Aliases? { SubstExprsMentions(b, names.names, y); }
    case OtherSmall(parts) =>
      SubstExprsMentions(b, parts, y);
  }

  /** Substituting in a suite replaces exactly the Name nodes equal to the bound name. */
  lemma {:induction false} SubstSmallsMentions(b: Binding, ss: seq<Small>, y: string)
    ensures SubstitutedMentions(MentionsSmalls(ss, y), MentionsSmalls(ss, b.name), MentionsSmalls(SubstSmalls(b, ss), y), b, y)
  {
    forall i | 0 <= i < |ss|
      ensures SubstitutedMentions(MentionsSmall(ss[i], y), MentionsSmall(ss[i], b.name), MentionsSmall(SubstSmalls(b, ss)[i], y), b, y)
    {
      SubstSmallMentions(b, ss[i], y);
    }
  }

  /** A tree that does not mention the bound name comes back unchanged. */
  lemma {:induction false} SubstExprUnchanged(b: Binding, e: Expr)
    requires !Mentions(e, b.name)
    ensures SubstExpr(b, e) == e
    decreases e
  {
    match e
    case Name(_) =>
    case Literal(_, _) =>
    case Attribute(value, attr) =>
      SubstExprUnchanged(b, value);
      SubstExprUnchanged(b, attr);
    case Subscript(value, slice) =>
      SubstExprUnchanged(b, value);
      SubstExprUnchanged(b, slice);
    case Call(func, args) =>
      SubstExprUnchanged(b, func);
      SubstArgsUnchanged(b, args);
    case Compound(parts) =>
      SubstExprsUnchanged(b, parts);
    case Inlined(_) =>
  }

  lemma {:induction false} SubstExprsUnchanged(b: Binding, es: seq<Expr>)
    requires !MentionsAny(es, b.name)
    ensures SubstExprs(b, es) == es
    decreases es
  {
    forall i | 0 <= i < |es| ensures SubstExprs(b, es)[i] == es[i] {
      SubstExprUnchanged(b, es[i]);
    }
  }

  lemma {:induction false} SubstArgsUnchanged(b: Binding, args: seq<Arg>)
    requires !MentionsArgs(args, b.name)
    ensures SubstArgs(b, args) == args
    decreases args
  {
    forall i | 0 <= i < |args| ensures SubstArgs(b, args)[i] == args[i] {
      SubstArgUnchanged(b, args[i]);
    }
  }

  lemma {:induction false} SubstArgUnchanged(b: Binding, a: Arg)
    requires !MentionsArg(a, b.name)
    ensures SubstArg(b, a) == a
    decreases a
  {
    match a
    case Positional(value) =>
      SubstExprUnchanged(b, value);
    case Keyword(keyword, value) =>
      SubstExprUnchanged(b, keyword);
      SubstExprUnchanged(b, value);
  }

  lemma {:induction false} SubstSmallUnchanged(b: Binding, s: Small)
    requires !MentionsSmall(s, b.name)
    ensures SubstSmall(b, s) == s
  {
    match s
    case ExprStmt(value) =>
      SubstExprUnchanged(b, value);
    case Assign(targets, value) =>
      SubstExprsUnchanged(b, targets);
      SubstExprUnchanged(b, value);
    case Return(result) =>
      if result.Some? { SubstExprUnchanged(b, result.value); }
    case ImportFrom(source, names) =>
      if source.Some? { SubstExprUnchanged(b, source.value); }
      if names.Aliases? { SubstExprsUnchanged(b, names.names); }
    case OtherSmall(parts) =>
      SubstExprsUnchanged(b, parts);
  }

  /** A suite that does not mention the bound name is returned as it was. */
  lemma {:induction false} SubstSmallsUnchanged(b: Binding, ss: seq<Small>)
    requires !MentionsSmalls(ss, b.name)
    ensures SubstSmalls(b, ss) == ss
  {
    forall i | 0 <= i < |ss| ensures SubstSmalls(b, ss)[i] == ss[i] {
      SubstSmallUnchanged(b, ss[i]);
    }
  }
}
