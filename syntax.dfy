/** The part of the concrete syntax tree of a Python module that the inliner reads
    and rewrites. Node identity of function definitions is modelled by a stable id. */
module Syntax {

  datatype Option<+T> = None | Some(value: T)

  datatype Result<+T> = Ok(value: T) | Err(error: Failure) {
    predicate IsFailure() { Err? }
    function PropagateFailure<U>(): Result<U> requires Err? { Err(error) }
    function Extract(): T requires Ok? { value }
  }

  /** The value of an option as a list of at most one element. */
  function Listed<T>(x: Option<T>): (r: seq<T>)
    ensures |r| <= 1
  {
    if x.Some? then [x.value] else []
  }

  /** `prefix` in front of the list that a later step produced, or that step's failure. */
  function PrependTo<T>(prefix: seq<T>, r: Result<seq<T>>): (out: Result<seq<T>>)
  {
    if r.Ok? then Ok(prefix + r.value) else r
  }

  lemma PrependToNothing<T>(r: Result<seq<T>>)
    ensures PrependTo([], r) == r
  {
    if r.Ok? {
      assert [] + r.value == r.value;
    }
  }

  lemma PrependToAppend<T>(a: seq<T>, b: seq<T>, r: Result<seq<T>>)
    ensures PrependTo(a, PrependTo(b, r)) == PrependTo(a + b, r)
  {
    if r.Ok? {
      assert a + (b + r.value) == (a + b) + r.value;
    }
  }

  /** The ways a run of the transformer ends in an exception. */
  datatype Failure =
    | UnsupportedBody       // a body line without small statements reached the flattening comprehension
    | TooManyArguments      // `params.params[i]` indexed past the last positional parameter
    | NoImportedName        // `names[0]` on `from pyinline import *` (or on an empty name list)
    | NoImportModule        // `module.value` on `from . import x`, whose module is None
    | NoDecoratorValue      // the prototype read `.value` of a decorator expression that has none

  /** SimpleString, Integer and Float are the literals the binder treats as constants;
      Imaginary is a literal it does not. `text` is the token as written (quotes included). */
  datatype LiteralKind = StringLiteral | IntegerLiteral | FloatLiteral | ImaginaryLiteral

  datatype Expr =
    | Name(id: string)
    | Literal(kind: LiteralKind, text: string)
    | Attribute(value: Expr, attr: Expr)      // `value.attr`; in a parsed tree `attr` is a Name
    | Subscript(value: Expr, slice: Expr)     // `value[slice]`
    | Call(func: Expr, args: seq<Arg>)
    | Compound(parts: seq<Expr>)              // any other expression, by its sub-expressions
    | Inlined(expansion: Expansion)           // an expansion placed where a call was (output only)

  /** A call argument; the keyword of `k=v` is itself a Name node. */
  datatype Arg = Positional(value: Expr) | Keyword(keyword: Expr, value: Expr)

  /** What replaces a matched call: one statement of the body, or a suite of small statements. */
  datatype Expansion = SingleStatement(stmt: Stmt) | SmallSuite(smalls: seq<Small>)

  datatype ImportNames = ImportStar | Aliases(names: seq<Expr>)

  /** Small statements: the pieces of one logical line. */
  datatype Small =
    | ExprStmt(value: Expr)
    | Assign(targets: seq<Expr>, value: Expr)
    | Return(result: Option<Expr>)
    | ImportFrom(source: Option<Expr>, names: ImportNames)
    | OtherSmall(parts: seq<Expr>)            // pass, del, assert, raise, global, ... by their expressions

  datatype Stmt =
    | SimpleLine(body: seq<Small>)
    | Def(def: FuncDef)
    | Block(header: seq<Expr>, inner: seq<Stmt>)   // if, for, while, with, try, class, ...

  /** A function definition's suite: an indented block, or small statements after the colon. */
  datatype Body = IndentedBlock(stmts: seq<Stmt>) | OneLine(smalls: seq<Small>)

  /** `params` are the names of the positional parameters (`params.params`). */
  datatype FuncDef = FuncDef(id: nat, name: string, decorators: seq<Expr>, params: seq<string>, body: Body)

  /** The dotted name of an expression as libcst's `get_full_name_for_node` computes it:
      a name, a dotted attribute chain, and the callee or subscripted value of a call or subscript. */
  function FullName(e: Expr): (r: Option<string>)
    ensures e.Name? ==> r == Some(e.id)
    ensures e.Literal? || e.Compound? || e.Inlined? ==> r == None
  {
    match e
    case Name(id) => Some(id)
    case Attribute(value, attr) =>
      (match FullName(value)
       case Some(prefix) => if attr.Name? then Some(prefix + "." + attr.id) else None
       case None => None)
    case Call(func, _) => FullName(func)
    case Subscript(value, _) => FullName(value)
    case _ => None
  }

  /** The definitions of a statement list in the order a depth-first walk meets them. */
  function Defs(stmts: seq<Stmt>): (r: seq<FuncDef>)
    decreases stmts
  {
    if stmts == [] then [] else StmtDefs(stmts[0]) + Defs(stmts[1..])
  }

  function StmtDefs(s: Stmt): (r: seq<FuncDef>)
    decreases s
  {
    match s
    case SimpleLine(_) => []
    case Def(d) => [d] + BodyDefs(d.body)
    case Block(_, inner) => Defs(inner)
  }

  function BodyDefs(b: Body): (r: seq<FuncDef>)
    decreases b
  {
    match b
    case IndentedBlock(stmts) => Defs(stmts)
    case OneLine(_) => []
  }

  lemma {:induction false} DefsAppend(a: seq<Stmt>, b: seq<Stmt>)
    ensures Defs(a + b) == Defs(a) + Defs(b)
    decreases a
  {
    if a == [] {
      assert a + b == b;
    } else {
      assert (a + b)[1..] == a[1..] + b;
      DefsAppend(a[1..], b);
    }
  }
}
