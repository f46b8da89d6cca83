/** Recognising the marker: which definitions are inline functions, which of them the
    transformer removes, and which `from ... import ...` statement it deletes. */
module Markers {
  import opened Syntax

  const ModuleName: string := "pyinline"
  const DecoratorName: string := "inline"

  /** `visit_FunctionDef`'s test: the definition has decorators and one of them has the
      full name `inline` (so `@inline`, `@inline()` and `@inline[...]`, not `@pyinline.inline`). */
  predicate IsInline(d: FuncDef)
    ensures Name(DecoratorName) in d.decorators ==> IsInline(d)
  {
    |d.decorators| > 0 && exists i :: 0 <= i < |d.decorators| && FullName(d.decorators[i]) == Some(DecoratorName)
  }

  /** The inline definitions of `defs`, in their order: what the registry gains from a walk
      that meets the definitions `defs`. It never holds more than were met, its first entry
      is inline, and an inline first definition is registered first. */
  function InlineOnly(defs: seq<FuncDef>): (r: seq<FuncDef>)
    ensures |r| <= |defs|
    ensures r != [] ==> IsInline(r[0])
    ensures defs != [] && IsInline(defs[0]) ==> r != [] && r[0] == defs[0]
  {
    if defs == [] then []
    else (if IsInline(defs[0]) then [defs[0]] else []) + InlineOnly(defs[1..])
  }

  /** The filter keeps exactly the inline definitions: everything it keeps comes from `defs`
      and is inline, and every inline definition of `defs` is kept. */
  lemma {:induction false} InlineOnlyMembers(defs: seq<FuncDef>)
    ensures |InlineOnly(defs)| <= |defs|
    ensures forall d :: d in InlineOnly(defs) <==> d in defs && IsInline(d)
    decreases |defs|
  {
    if defs != [] {
      InlineOnlyMembers(defs[1..]);
      assert defs == [defs[0]] + defs[1..];
    }
  }

  lemma {:induction false} InlineOnlyAppend(a: seq<FuncDef>, b: seq<FuncDef>)
    ensures InlineOnly(a + b) == InlineOnly(a) + InlineOnly(b)
    decreases |a|
  {
    if a == [] {
      assert a + b == b;
    } else {
      assert (a + b)[1..] == a[1..] + b;
      InlineOnlyAppend(a[1..], b);
    }
  }

  predicate DistinctIds(defs: seq<FuncDef>) {
    forall i, j :: 0 <= i < j < |defs| ==> defs[i].id != defs[j].id
  }

  /** `leave_FunctionDef`'s test `original_node in self.inline_functions`, with node identity
      modelled by the definition's id. */
  predicate IsRegistered(registry: seq<FuncDef>, d: FuncDef) {
    exists k :: 0 <= k < |registry| && registry[k].id == d.id
  }

  lemma IsRegisteredAppend(a: seq<FuncDef>, b: seq<FuncDef>, d: FuncDef)
    ensures IsRegistered(a + b, d) <==> IsRegistered(a, d) || IsRegistered(b, d)
  {
    if IsRegistered(a, d) {
      var k :| 0 <= k < |a| && a[k].id == d.id;
      assert (a + b)[k] == a[k];
    }
    if IsRegistered(b, d) {
      var k :| 0 <= k < |b| && b[k].id == d.id;
      assert (a + b)[|a| + k] == b[k];
    }
    if IsRegistered(a + b, d) {
      var k :| 0 <= k < |a + b| && (a + b)[k].id == d.id;
      if k >= |a| {
        assert b[k - |a|] == (a + b)[k];
      } else {
        assert a[k] == (a + b)[k];
      }
    }
  }

  /** Once the walk has met the definitions `defs` (definition identities being distinct),
      a definition among them is removed exactly when it is an inline function. */
  lemma RemovedIffInline(defs: seq<FuncDef>, d: FuncDef)
    requires d in defs && DistinctIds(defs)
    ensures IsRegistered(InlineOnly(defs), d) <==> IsInline(d)
  {
    var r := InlineOnly(defs);
    InlineOnlyMembers(defs);
    if IsInline(d) {
      var k :| 0 <= k < |r| && r[k] == d;
    }
    if IsRegistered(r, d) {
      var k :| 0 <= k < |r| && r[k].id == d.id;
      assert r[k] in r;
      var i :| 0 <= i < |defs| && defs[i] == r[k];
      var j :| 0 <= j < |defs| && defs[j] == d;
      assert i == j;
    }
  }

  // ---------------------------------------------------------------------------
  // The marker import

  /** `node.value == s` for a module or an imported name: only a Name node's `value` is a
      string; the `value` of an attribute chain is a node, which never equals a string. */
  predicate ValueIs(e: Expr, s: string) {
    e.Name? && e.id == s
  }

  /** `leave_ImportFrom` as written: whether the statement is removed. It reads
      `module.value`, which fails for `from . import x` (no module), and `names[0]`, which
      fails for `from pyinline import *`. */
  function LeaveImportFromAsWritten(imp: Small): (r: Result<bool>)
    requires imp.ImportFrom?
    ensures imp.source.None? <==> r == Err(NoImportModule)
    ensures r == Err(NoImportedName) ==> imp.source == Some(Name(ModuleName))
    ensures r == Ok(true) ==>
              imp.source == Some(Name(ModuleName)) && imp.names.Aliases? && |imp.names.names| > 0
              && imp.names.names[0] == Name(DecoratorName)
  {
    match imp.source
    case None => Err(NoImportModule)
    case Some(m) =>
      if !ValueIs(m, ModuleName) then Ok(false)
      else if imp.names.ImportStar? || |imp.names.names| == 0 then Err(NoImportedName)
      else Ok(ValueIs(imp.names.names[0], DecoratorName))
  }

  /** `leave_ImportFrom` with the module-less relative import kept instead of failing;
      this is the decision the transformer uses. */
  function LeaveImportFrom(imp: Small): (r: Result<bool>)
    requires imp.ImportFrom?
    ensures r.Err? ==> r.error == NoImportedName && imp.source == Some(Name(ModuleName))
    ensures imp.source.Some? ==> r == LeaveImportFromAsWritten(imp)
  {
    if imp.source.None? then Ok(false) else LeaveImportFromAsWritten(imp)
  }

  /** An import statement the transformer deletes. */
  predicate IsMarkerImport(s: Small) {
    s.ImportFrom? && LeaveImportFrom(s) == Ok(true)
  }

  /** The import goes exactly when its module is the name `pyinline` and its first imported
      name is `inline`; names after the first do not matter. */
  lemma MarkerImportIff(imp: Small)
    requires imp.ImportFrom?
    ensures IsMarkerImport(imp) <==>
              imp.source == Some(Name(ModuleName)) && imp.names.Aliases? && |imp.names.names| > 0
              && imp.names.names[0] == Name(DecoratorName)
  {
  }

  /** An `inline` that is not the first imported name leaves the import in place, and any
      names after a first `inline` go with it. */
  lemma MarkerImportFirstNameOnly(first: Expr, rest: seq<Expr>)
    ensures first != Name(DecoratorName) ==>
              LeaveImportFrom(ImportFrom(Some(Name(ModuleName)), Aliases([first] + rest))) == Ok(false)
    ensures LeaveImportFrom(ImportFrom(Some(Name(ModuleName)), Aliases([Name(DecoratorName)] + rest))) == Ok(true)
  {
  }

  /** A dotted module path is never the marker module, whatever it ends with. */
  lemma DottedModuleKept(path: Expr, names: ImportNames)
    ensures LeaveImportFrom(ImportFrom(Some(Attribute(path, Name(ModuleName))), names)) == Ok(false)
  {
  }

  /** The discrepancy: `from . import helpers` makes the written code fail. */
  lemma RelativeImportFailsAsWritten()
    ensures LeaveImportFromAsWritten(ImportFrom(None, Aliases([Name("helpers")]))).Err?
    ensures LeaveImportFrom(ImportFrom(None, Aliases([Name("helpers")]))) == Ok(false)
  {
  }
}
