/** The scope-aware pass that reports names a module uses but never defines. */
module UndefinedNames {
  import opened Common
  import opened PythonSyntax

  // ----- The binding pre-pass -------------------------------------------------------
  // The source collects lists that are only ever added to a set; sets are used here.

  function TargetNames(e: Expr): set<string>
  {
    match e
    case Name(id, _, _) => {id}
    case Display(elts) => TargetNamesAll(elts)
    case Starred(value) => TargetNames(value)
    case Place(value, _) => TargetNames(value)
    case _ => {}
  }

  function TargetNamesAll(es: seq<Expr>): set<string>
  {
    if es == [] then {} else TargetNames(es[0]) + TargetNamesAll(es[1..])
  }

  /** What the pre-pass takes a statement to bind. Unlike Python it also descends into the
      bodies of nested functions and classes. */
  function BoundNames(s: Stmt): set<string>
  {
    match s
    case FunctionDef(name, _, body, _, _) => {name} + BoundNamesAll(body)
    case ClassDef(name, _, _, body, _) => {name} + BoundNamesAll(body)
    case Assign(targets, _) => TargetNamesAll(targets)
    case AugAssign(target, _) => TargetNames(target)
    case AnnAssign(target, _, _) => TargetNames(target)
    case For(target, _, body, orelse) => TargetNames(target) + BoundNamesAll(body) + BoundNamesAll(orelse)
    case With(items, body) => ItemNames(items) + BoundNamesAll(body)
    case Try(body, handlers, orelse, finalbody) =>
      BoundNamesAll(body) + HandlerNames(handlers) + BoundNamesAll(orelse) + BoundNamesAll(finalbody)
    case Import(aliases) => AliasNames(aliases)
    case ImportFrom(_, aliases) => AliasNames(aliases)
    case Compound(_, body, orelse) => BoundNamesAll(body) + BoundNamesAll(orelse)
    case _ => {}
  }

  function BoundNamesAll(ss: seq<Stmt>): set<string>
  {
    if ss == [] then {} else BoundNames(ss[0]) + BoundNamesAll(ss[1..])
  }

  function ItemNames(items: seq<WithItem>): set<string>
  {
    if items == [] then {}
    else (if items[0].vars.Some? then TargetNames(items[0].vars.value) else {}) + ItemNames(items[1..])
  }

  function HandlerNames(hs: seq<Handler>): set<string>
  {
    if hs == [] then {} else OptionalName(hs[0].name) + BoundNamesAll(hs[0].body) + HandlerNames(hs[1..])
  }

  function ClauseNames(gs: seq<Generator>): set<string>
  {
    if gs == [] then {} else TargetNames(gs[0].target) + ClauseNames(gs[1..])
  }

  /** Declarations standing directly in a body; deeper ones are not looked at. */
  function TopGlobals(body: seq<Stmt>): set<string>
  {
    if body == [] then {}
    else (if body[0].Global? then SetOf(body[0].names) else {}) + TopGlobals(body[1..])
  }

  /** A scope's bindings after the declarations of its body, when the scope is the module:
      `global` adds, `nonlocal` removes, in order. */
  function ModuleDeclared(body: seq<Stmt>, bindings: set<string>): set<string>
  {
    if body == [] then bindings
    else match body[0]
      case Global(names) => ModuleDeclared(body[1..], bindings + SetOf(names))
      case Nonlocal(names) => ModuleDeclared(body[1..], bindings - SetOf(names))
      case _ => ModuleDeclared(body[1..], bindings)
  }

  /** The same for a nested scope, where both kinds of declaration remove. */
  function NestedDeclared(body: seq<Stmt>, bindings: set<string>): set<string>
  {
    if body == [] then bindings
    else match body[0]
      case Global(names) => NestedDeclared(body[1..], bindings - SetOf(names))
      case Nonlocal(names) => NestedDeclared(body[1..], bindings - SetOf(names))
      case _ => NestedDeclared(body[1..], bindings)
  }

  /** The bindings the pass gives to the scope it makes for a block inside the module. */
  function ScopeBindings(b: Block): set<string>
  {
    match b
    case FunctionBlock(args, body) => NestedDeclared(body, ArgNames(args)) + BoundNamesAll(body)
    case ComprehensionBlock(clauses) => ClauseNames(clauses)
    case _ => BoundNamesAll(b.body)
  }

  // ----- The names looked at, in the order of the walk -----------------------------------

  /** Where the walk stands: the enclosing blocks, the names declared global in the bodies
      entered so far, whether annotations are strings, and whether this is inside one. */
  datatype Where = Where(env: seq<Block>, declared: set<string>, lazy: bool, quoted: bool) {

    function Inside(b: Block): Where { this.(env := [b] + env) }

    function Enter(b: Block): Where
      requires !b.ComprehensionBlock?
    {
      this.(env := [b] + env, declared := declared + TopGlobals(b.body))
    }

    function InAnnotation(): Where { this.(quoted := quoted || lazy) }

    function After(ss: seq<Stmt>): Where { this.(declared := declared + EnteredAll(ss)) }
  }

  datatype Use = Use(name: string, line: nat, at: Where)

  /** Names declared global by the function and class bodies inside a statement. */
  function Entered(s: Stmt): set<string>
  {
    match s
    case FunctionDef(_, _, body, _, _) => TopGlobals(body) + EnteredAll(body)
    case ClassDef(_, _, _, body, _) => TopGlobals(body) + EnteredAll(body)
    case For(_, _, body, orelse) => EnteredAll(body) + EnteredAll(orelse)
    case With(_, body) => EnteredAll(body)
    case Try(body, handlers, orelse, finalbody) =>
      EnteredAll(body) + HandlersEntered(handlers) + EnteredAll(orelse) + EnteredAll(finalbody)
    case Compound(_, body, orelse) => EnteredAll(body) + EnteredAll(orelse)
    case _ => {}
  }

  function EnteredAll(ss: seq<Stmt>): set<string>
  {
    if ss == [] then {} else Entered(ss[0]) + EnteredAll(ss[1..])
  }

  function HandlersEntered(hs: seq<Handler>): set<string>
  {
    if hs == [] then {} else EnteredAll(hs[0].body) + HandlersEntered(hs[1..])
  }

  function ExprUses(e: Expr, w: Where, inAnnotation: bool): seq<Use>
  {
    match e
    case Name(id, ctx, line) => if ctx == Load && !inAnnotation then [Use(id, line, w)] else []
    case Display(elts) => ExprsUses(elts, w, inAnnotation)
    case Starred(value) => ExprUses(value, w, inAnnotation)
    case Place(value, index) => ExprUses(value, w, inAnnotation) + ExprsUses(index, w, inAnnotation)
    case Lambda(args, result) =>
      ArgumentUses(args, w) + ExprUses(result, w.Inside(FunctionBlock(args, [])), false)
    case Comprehension(elements, generators) =>
      ClauseUses(generators, [], w) + ExprsUses(elements, w.Inside(ComprehensionBlock(generators)), false)
    case Other(children) => ExprsUses(children, w, inAnnotation)
  }

  function ExprsUses(es: seq<Expr>, w: Where, inAnnotation: bool): seq<Use>
  {
    if es == [] then [] else ExprUses(es[0], w, inAnnotation) + ExprsUses(es[1..], w, inAnnotation)
  }

  /** The first iterable is evaluated outside the comprehension. */
  function ClauseUses(ahead: seq<Generator>, begun: seq<Generator>, w: Where): seq<Use>
    decreases ahead
  {
    if ahead == [] then []
    else
      var g := ahead[0];
      ExprUses(g.iter, if begun == [] then w else w.Inside(ComprehensionBlock(begun)), false)
      + ExprsUses(g.conds, w.Inside(ComprehensionBlock(begun + [g])), false)
      + ClauseUses(ahead[1..], begun + [g], w)
  }

  function OptionalUses(e: Option<Expr>, w: Where, inAnnotation: bool): seq<Use>
  {
    if e.Some? then ExprUses(e.value, w, inAnnotation) else []
  }

  function ParameterUses(ps: seq<Parameter>, w: Where): seq<Use>
  {
    if ps == [] then []
    else OptionalUses(ps[0].annotation, w.InAnnotation(), w.lazy) + ParameterUses(ps[1..], w)
  }

  function ArgumentUses(args: Arguments, w: Where): seq<Use>
  {
    ExprsUses(args.defaults, w, false) + ExprsUses(args.kwDefaults, w, false) + ParameterUses(args.params, w)
  }

  function StmtUses(s: Stmt, w: Where): seq<Use>
  {
    match s
    case FunctionDef(_, args, body, decorators, result) =>
      ExprsUses(decorators, w, false) + ArgumentUses(args, w)
      + OptionalUses(result, w.InAnnotation(), w.lazy)
      + StmtsUses(body, w.Enter(FunctionBlock(args, body)))
    case ClassDef(_, bases, keywords, body, decorators) =>
      ExprsUses(decorators, w, false) + ExprsUses(bases, w, false) + ExprsUses(keywords, w, false)
      + StmtsUses(body, w.Enter(ClassBlock(body)))
    case Assign(targets, value) => ExprsUses(targets, w, false) + ExprUses(value, w, false)
    case AugAssign(target, value) => ExprUses(target, w, false) + ExprUses(value, w, false)
    case AnnAssign(_, annotation, initial) =>
      OptionalUses(initial, w, false) + ExprUses(annotation, w.InAnnotation(), w.lazy)
    case For(target, iter, body, orelse) =>
      ExprUses(target, w, false) + ExprUses(iter, w, false)
      + StmtsUses(body, w) + StmtsUses(orelse, w.After(body))
    case With(items, body) => ItemUses(items, w) + StmtsUses(body, w)
    case Try(body, handlers, orelse, finalbody) =>
      var w1 := w.After(body);
      var w2 := w1.(declared := w1.declared + HandlersEntered(handlers));
      StmtsUses(body, w) + HandlerUses(handlers, w1) + StmtsUses(orelse, w2)
      + StmtsUses(finalbody, w2.After(orelse))
    case Compound(exprs, body, orelse) =>
      ExprsUses(exprs, w, false) + StmtsUses(body, w) + StmtsUses(orelse, w.After(body))
    case _ => []
  }

  function StmtsUses(ss: seq<Stmt>, w: Where): seq<Use>
  {
    if ss == [] then []
    else StmtUses(ss[0], w) + StmtsUses(ss[1..], w.(declared := w.declared + Entered(ss[0])))
  }

  function ItemUses(items: seq<WithItem>, w: Where): seq<Use>
  {
    if items == [] then []
    else ExprUses(items[0].context, w, false) + OptionalUses(items[0].vars, w, false) + ItemUses(items[1..], w)
  }

  function HandlerUses(hs: seq<Handler>, w: Where): seq<Use>
  {
    if hs == [] then []
    else OptionalUses(hs[0].kind, w, false) + StmtsUses(hs[0].body, w)
         + HandlerUses(hs[1..], w.After(hs[0].body))
  }

  /** `from __future__ import annotations` at the top level makes annotations strings. */
  predicate LazyAnnotations(tree: seq<Stmt>)
  {
    exists s :: s in tree && s.ImportFrom? && s.origin == "__future__" &&
                exists a :: a in s.aliases && a.name == "annotations"
  }

  function ModuleStart(tree: seq<Stmt>): Where
  {
    Where([ModuleBlock(tree)], ModuleDeclared(tree, {}), LazyAnnotations(tree), false)
  }

  function ModuleUses(tree: seq<Stmt>): seq<Use>
  {
    StmtsUses(tree, ModuleStart(tree))
  }

  // ----- What is reported ---------------------------------------------------------------

  /** Is the name bound in the innermost scope or one that encloses it? Class scopes are passed
      over unless the lookup starts in a class. */
  predicate Defines(env: seq<Block>, declared: set<string>, name: string, fromClass: bool)
    requires IsEnvironment(env)
  {
    if |env| == 1 then name in BoundNamesAll(env[0].body) || name in declared
    else if env[0].ClassBlock? && !fromClass then Defines(env[1..], declared, name, fromClass)
    else name in ScopeBindings(env[0]) || Defines(env[1..], declared, name, fromClass)
  }

  predicate Flagged(u: Use, builtins: set<string>)
  {
    && IsEnvironment(u.at.env)
    && u.name !in builtins
    && !Defines(u.at.env, u.at.declared, u.name, u.at.env[0].ClassBlock?)
  }

  type Problem = (string, nat)

  /** The problems list after looking at some more uses: each pair is listed once. */
  function Report(ps: seq<Problem>, uses: seq<Use>, builtins: set<string>): seq<Problem>
    decreases |uses|
  {
    if uses == [] then ps
    else
      var p := (uses[0].name, uses[0].line);
      Report(if Flagged(uses[0], builtins) && p !in ps then ps + [p] else ps, uses[1..], builtins)
  }

  lemma {:induction false} ReportConcat(ps: seq<Problem>, a: seq<Use>, b: seq<Use>, builtins: set<string>)
    ensures Report(ps, a + b, builtins) == Report(Report(ps, a, builtins), b, builtins)
    decreases |a|
  {
    if a == [] {
      assert a + b == b;
    } else {
      var p := (a[0].name, a[0].line);
      assert (a + b)[1..] == a[1..] + b;
      ReportConcat(if Flagged(a[0], builtins) && p !in ps then ps + [p] else ps, a[1..], b, builtins);
    }
  }
}
