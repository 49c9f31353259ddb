/** What the analyser's reports mean under Python's own rule for resolving names. */
module UndefinedNamesTheorems {
  import opened Common
  import opened PythonSyntax
  import opened NameResolution
  import opened UndefinedNames
  import opened UndefinedNamesBindings
  import opened UndefinedNamesReads

  // ----- Every use is looked at inside its module ---------------------------------------

  /** Names that the module's own declarations leave global, and those declared global by a statement
      standing directly in the body of a function or class anywhere in it. */
  function AllDeclared(tree: seq<Stmt>): set<string>
  {
    ModuleDeclared(tree, {}) + EnteredAll(tree)
  }

  /** The names declared so far are the module's own, some of those declared deeper, and among them
      those of every body around. */
  ghost predicate DeclaredWell(env: seq<Block>, declared: set<string>, tree: seq<Stmt>)
  {
    && ModuleDeclared(tree, {}) <= declared <= AllDeclared(tree)
    && forall i :: 0 <= i < |env| && (env[i].FunctionBlock? || env[i].ClassBlock?) ==>
         TopGlobals(env[i].body) <= declared
  }

  /** The blocks at `w` lie in the module `tree`: whatever their bodies bind, the module's
      pre-pass has found as well. */
  ghost predicate Placed(w: Where, tree: seq<Stmt>)
  {
    && IsEnvironment(w.env) && w.env[|w.env| - 1] == ModuleBlock(tree)
    && DeclaredWell(w.env, w.declared, tree)
    && forall i :: 0 <= i < |w.env| && !w.env[i].ComprehensionBlock? ==>
         BoundNamesAll(w.env[i].body) <= BoundNamesAll(tree)
  }

  ghost predicate AllPlaced(us: seq<Use>, tree: seq<Stmt>)
  {
    forall u :: u in us ==> Placed(u.at, tree)
  }

  lemma PlacedAround(w: Where, b: Block, more: set<string>, tree: seq<Stmt>)
    requires Placed(w, tree) && !b.ModuleBlock? && more <= EnteredAll(tree)
    requires b.ComprehensionBlock? || (BoundNamesAll(b.body) <= BoundNamesAll(tree) && TopGlobals(b.body) <= more)
    ensures Placed(w.(env := [b] + w.env, declared := w.declared + more), tree)
  {
    hide BoundNamesAll, TopGlobals, EnteredAll, ModuleDeclared;
    var env := [b] + w.env;
    assert forall i :: 0 < i < |env| ==> env[i] == w.env[i - 1];
  }

  lemma PlacedInside(w: Where, b: Block, tree: seq<Stmt>)
    requires Placed(w, tree) && (b.ComprehensionBlock? || (b.FunctionBlock? && b.body == []))
    ensures Placed(w.Inside(b), tree)
  {
    hide Placed;
    PlacedAround(w, b, {}, tree);
    assert w.declared + {} == w.declared;
  }

  lemma PlacedIn(w: Where, b: Block, tree: seq<Stmt>)
    requires Placed(w, tree) && (b.FunctionBlock? || b.ClassBlock?)
    requires BoundNamesAll(b.body) <= BoundNamesAll(tree) && TopGlobals(b.body) <= EnteredAll(tree)
    ensures Placed(w.Enter(b), tree)
  {
    hide Placed;
    PlacedAround(w, b, TopGlobals(b.body), tree);
  }

  lemma {:induction false} ExprPlaced(e: Expr, w: Where, ann: bool, tree: seq<Stmt>)
    requires Placed(w, tree)
    ensures AllPlaced(ExprUses(e, w, ann), tree)
    decreases e, 1
  {
    hide Placed;
    match e
    case Name(_, _, _) =>
    case Display(elts) => ExprsPlaced(elts, w, ann, tree);
    case Starred(value) => ExprPlaced(value, w, ann, tree);
    case Place(value, index) => ExprPlaced(value, w, ann, tree); ExprsPlaced(index, w, ann, tree);
    case Lambda(args, result) =>
      PlacedInside(w, FunctionBlock(args, []), tree);
      ArgumentsPlaced(args, w, tree);
      ExprPlaced(result, w.Inside(FunctionBlock(args, [])), false, tree);
    case Comprehension(elements, generators) =>
      PlacedInside(w, ComprehensionBlock(generators), tree);
      ClausesPlaced(generators, [], w, tree);
      ExprsPlaced(elements, w.Inside(ComprehensionBlock(generators)), false, tree);
    case Other(children) => ExprsPlaced(children, w, ann, tree);
  }

  lemma {:induction false} ExprsPlaced(es: seq<Expr>, w: Where, ann: bool, tree: seq<Stmt>)
    requires Placed(w, tree)
    ensures AllPlaced(ExprsUses(es, w, ann), tree)
    decreases es, 0
  {
    hide Placed, ExprUses;
    if es != [] {
      ExprPlaced(es[0], w, ann, tree);
      ExprsPlaced(es[1..], w, ann, tree);
    }
  }

  lemma {:induction false} ClausesPlaced(ahead: seq<Generator>, begun: seq<Generator>, w: Where, tree: seq<Stmt>)
    requires Placed(w, tree)
    ensures AllPlaced(ClauseUses(ahead, begun, w), tree)
    decreases ahead, 0
  {
    hide Placed, ExprUses, ExprsUses;
    if ahead != [] {
      var g := ahead[0];
      PlacedInside(w, ComprehensionBlock(begun), tree);
      PlacedInside(w, ComprehensionBlock(begun + [g]), tree);
      ExprPlaced(g.iter, if begun == [] then w else w.Inside(ComprehensionBlock(begun)), false, tree);
      ExprsPlaced(g.conds, w.Inside(ComprehensionBlock(begun + [g])), false, tree);
      ClausesPlaced(ahead[1..], begun + [g], w, tree);
    }
  }

  lemma {:induction false} OptionalPlaced(e: Option<Expr>, w: Where, ann: bool, tree: seq<Stmt>)
    requires Placed(w, tree)
    ensures AllPlaced(OptionalUses(e, w, ann), tree)
    decreases e, 0
  {
    hide Placed, ExprUses;
    if e.Some? {
      ExprPlaced(e.value, w, ann, tree);
    }
  }

  lemma {:induction false} ParametersPlaced(ps: seq<Parameter>, w: Where, tree: seq<Stmt>)
    requires Placed(w, tree)
    ensures AllPlaced(ParameterUses(ps, w), tree)
    decreases ps, 0
  {
    hide Placed, OptionalUses;
    if ps != [] {
      assert Placed(w.InAnnotation(), tree) by { SamePlace(w, w.InAnnotation(), {}, tree); }
      OptionalPlaced(ps[0].annotation, w.InAnnotation(), w.lazy, tree);
      ParametersPlaced(ps[1..], w, tree);
    }
  }

  lemma SamePlace(w: Where, v: Where, more: set<string>, tree: seq<Stmt>)
    requires Placed(w, tree) && v.env == w.env && more <= EnteredAll(tree) && v.declared == w.declared + more
    ensures Placed(v, tree)
  {
    hide BoundNamesAll, TopGlobals, EnteredAll, ModuleDeclared;
  }

  lemma {:induction false} ArgumentsPlaced(args: Arguments, w: Where, tree: seq<Stmt>)
    requires Placed(w, tree)
    ensures AllPlaced(ArgumentUses(args, w), tree)
    decreases args, 0
  {
    hide Placed, ExprsUses, ParameterUses;
    ExprsPlaced(args.defaults, w, false, tree);
    ExprsPlaced(args.kwDefaults, w, false, tree);
    ParametersPlaced(args.params, w, tree);
  }

  lemma {:induction false} StmtPlaced(s: Stmt, w: Where, tree: seq<Stmt>)
    requires Placed(w, tree) && BoundNames(s) <= BoundNamesAll(tree) && Entered(s) <= EnteredAll(tree)
    ensures AllPlaced(StmtUses(s, w), tree)
    decreases s, 1
  {
    hide Placed, ExprUses, ExprsUses, StmtsUses, ItemUses, HandlerUses, OptionalUses, ArgumentUses;
    SamePlace(w, w.InAnnotation(), {}, tree);
    match s
    case FunctionDef(_, args, body, decorators, result) =>
      var block := FunctionBlock(args, body);
      ExprsPlaced(decorators, w, false, tree);
      ArgumentsPlaced(args, w, tree);
      OptionalPlaced(result, w.InAnnotation(), w.lazy, tree);
      PlacedIn(w, block, tree);
      StmtsPlaced(body, w.Enter(block), tree);
    case ClassDef(_, bases, keywords, body, decorators) =>
      ExprsPlaced(decorators, w, false, tree);
      ExprsPlaced(bases, w, false, tree);
      ExprsPlaced(keywords, w, false, tree);
      PlacedIn(w, ClassBlock(body), tree);
      StmtsPlaced(body, w.Enter(ClassBlock(body)), tree);
    case Assign(targets, value) => ExprsPlaced(targets, w, false, tree); ExprPlaced(value, w, false, tree);
    case AugAssign(target, value) => ExprPlaced(target, w, false, tree); ExprPlaced(value, w, false, tree);
    case AnnAssign(_, annotation, initial) =>
      OptionalPlaced(initial, w, false, tree);
      ExprPlaced(annotation, w.InAnnotation(), w.lazy, tree);
    case For(target, iter, body, orelse) =>
      ExprPlaced(target, w, false, tree);
      ExprPlaced(iter, w, false, tree);
      TwoBlocksPlaced(s, w, tree);
    case With(items, body) => ItemsPlaced(items, w, tree); StmtsPlaced(body, w, tree);
    case Try(_, _, _, _) => TryPlaced(s, w, tree);
    case Compound(exprs, body, orelse) => ExprsPlaced(exprs, w, false, tree); TwoBlocksPlaced(s, w, tree);
    case _ =>
  }

  lemma {:induction false} TwoBlocksPlaced(s: Stmt, w: Where, tree: seq<Stmt>)
    requires s.For? || s.Compound?
    requires Placed(w, tree) && BoundNames(s) <= BoundNamesAll(tree) && Entered(s) <= EnteredAll(tree)
    ensures AllPlaced(StmtsUses(s.body, w) + StmtsUses(s.orelse, w.After(s.body)), tree)
    decreases s, 0
  {
    hide Placed, StmtsUses;
    SamePlace(w, w.After(s.body), EnteredAll(s.body), tree);
    StmtsPlaced(s.body, w, tree);
    StmtsPlaced(s.orelse, w.After(s.body), tree);
  }

  lemma {:induction false} TryPlaced(s: Stmt, w: Where, tree: seq<Stmt>)
    requires s.Try? && Placed(w, tree) && BoundNames(s) <= BoundNamesAll(tree) && Entered(s) <= EnteredAll(tree)
    ensures AllPlaced(StmtUses(s, w), tree)
    decreases s, 0
  {
    hide Placed, StmtsUses, HandlerUses;
    var w1 := w.After(s.body);
    var w2 := w1.(declared := w1.declared + HandlersEntered(s.handlers));
    SamePlace(w, w1, EnteredAll(s.body), tree);
    SamePlace(w1, w2, HandlersEntered(s.handlers), tree);
    SamePlace(w2, w2.After(s.orelse), EnteredAll(s.orelse), tree);
    StmtsPlaced(s.body, w, tree);
    HandlersPlaced(s.handlers, w1, tree);
    StmtsPlaced(s.orelse, w2, tree);
    StmtsPlaced(s.finalbody, w2.After(s.orelse), tree);
  }

  lemma {:induction false} StmtsPlaced(ss: seq<Stmt>, w: Where, tree: seq<Stmt>)
    requires Placed(w, tree) && BoundNamesAll(ss) <= BoundNamesAll(tree) && EnteredAll(ss) <= EnteredAll(tree)
    ensures AllPlaced(StmtsUses(ss, w), tree)
    decreases ss, 0
  {
    hide Placed, StmtUses;
    if ss != [] {
      var next := w.(declared := w.declared + Entered(ss[0]));
      SamePlace(w, next, Entered(ss[0]), tree);
      StmtPlaced(ss[0], w, tree);
      StmtsPlaced(ss[1..], next, tree);
    }
  }

  lemma {:induction false} ItemsPlaced(items: seq<WithItem>, w: Where, tree: seq<Stmt>)
    requires Placed(w, tree)
    ensures AllPlaced(ItemUses(items, w), tree)
    decreases items, 0
  {
    hide Placed, ExprUses, OptionalUses;
    if items != [] {
      ExprPlaced(items[0].context, w, false, tree);
      OptionalPlaced(items[0].vars, w, false, tree);
      ItemsPlaced(items[1..], w, tree);
    }
  }

  lemma {:induction false} HandlersPlaced(hs: seq<Handler>, w: Where, tree: seq<Stmt>)
    requires Placed(w, tree) && HandlerNames(hs) <= BoundNamesAll(tree) && HandlersEntered(hs) <= EnteredAll(tree)
    ensures AllPlaced(HandlerUses(hs, w), tree)
    decreases hs, 0
  {
    hide Placed, StmtsUses, OptionalUses;
    if hs != [] {
      SamePlace(w, w.After(hs[0].body), EnteredAll(hs[0].body), tree);
      OptionalPlaced(hs[0].kind, w, false, tree);
      StmtsPlaced(hs[0].body, w, tree);
      HandlersPlaced(hs[1..], w.After(hs[0].body), tree);
    }
  }

  lemma ModulePlaced(tree: seq<Stmt>)
    ensures AllPlaced(ModuleUses(tree), tree)
  {
    StmtsPlaced(tree, ModuleStart(tree), tree);
  }

  // ----- What is flagged, exactly -----------------------------------------------------------

  /** A parameter, or a comprehension target whose clause has begun, of an enclosing block. */
  ghost predicate VisibleLocal(env: seq<Block>, name: string)
  {
    exists i :: 0 <= i < |env| && BindsLocally(env[i], name)
  }

  predicate BindsLocally(b: Block, name: string)
  {
    || (b.FunctionBlock? && name in NestedDeclared(b.body, ArgNames(b.args)))
    || (b.ComprehensionBlock? && name in ClauseNames(b.clauses))
  }

  lemma VisibleStep(env: seq<Block>, name: string)
    requires env != []
    ensures VisibleLocal(env, name) <==> BindsLocally(env[0], name) || VisibleLocal(env[1..], name)
  {
    if VisibleLocal(env[1..], name) {
      var i :| 0 <= i < |env[1..]| && BindsLocally(env[1..][i], name);
      assert BindsLocally(env[i + 1], name);
    }
    if VisibleLocal(env, name) {
      var i :| 0 <= i < |env| && BindsLocally(env[i], name);
      if i > 0 {
        assert BindsLocally(env[1..][i - 1], name);
      }
    }
  }

  /** Because the pre-pass puts every statement's names into the module's scope, passing over a
      class scope or not makes no difference: only parameters and targets depend on the scope. */
  lemma {:induction false} DefinesExactly(w: Where, tree: seq<Stmt>, name: string, fromClass: bool)
    requires Placed(w, tree)
    ensures Defines(w.env, w.declared, name, fromClass)
       <==> name in BoundNamesAll(tree) || name in w.declared || VisibleLocal(w.env, name)
    decreases |w.env|
  {
    hide BoundNamesAll, NestedDeclared, ClauseNames, VisibleLocal;
    var env := w.env;
    VisibleStep(env, name);
    if |env| == 1 {
      NoneVisible(name);
      assert env[1..] == [];
    } else {
      var outer := w.(env := env[1..]);
      assert Placed(outer, tree) by {
        assert forall i :: 0 <= i < |env[1..]| ==> env[1..][i] == env[i + 1];
      }
      DefinesExactly(outer, tree, name, fromClass);
      assert !env[0].ComprehensionBlock? ==> BoundNamesAll(env[0].body) <= BoundNamesAll(tree);
    }
  }

  lemma NoneVisible(name: string)
    ensures !VisibleLocal([], name)
  {
  }

  // ----- Reports ------------------------------------------------------------------------------

  ghost predicate Reported(us: seq<Use>, builtins: set<string>, p: Problem)
  {
    exists u :: u in us && (u.name, u.line) == p && Flagged(u, builtins)
  }

  /** The problems are the flagged uses; no pair is listed twice. */
  lemma {:induction false} ReportMembers(ps: seq<Problem>, us: seq<Use>, builtins: set<string>, p: Problem)
    ensures p in Report(ps, us, builtins) <==> p in ps || Reported(us, builtins, p)
    decreases |us|
  {
    hide Flagged;
    if us != [] {
      var q := (us[0].name, us[0].line);
      var next := if Flagged(us[0], builtins) && q !in ps then ps + [q] else ps;
      ReportMembers(next, us[1..], builtins, p);
      assert us == [us[0]] + us[1..];
      assert Reported(us, builtins, p)
        <==> (Flagged(us[0], builtins) && q == p) || Reported(us[1..], builtins, p);
    }
  }

  ghost predicate Distinct(ps: seq<Problem>)
  {
    forall i, j :: 0 <= i < j < |ps| ==> ps[i] != ps[j]
  }

  lemma {:induction false} ReportDistinct(ps: seq<Problem>, us: seq<Use>, builtins: set<string>)
    requires Distinct(ps)
    ensures Distinct(Report(ps, us, builtins))
    decreases |us|
  {
    hide Flagged;
    if us != [] {
      var q := (us[0].name, us[0].line);
      ReportDistinct(if Flagged(us[0], builtins) && q !in ps then ps + [q] else ps, us[1..], builtins);
    }
  }

  ghost predicate UndefinedUse(tree: seq<Stmt>, builtins: set<string>, u: Use)
  {
    && u.name !in builtins
    && u.name !in BoundNamesAll(tree)
    && u.name !in u.at.declared
    && !VisibleLocal(u.at.env, u.name)
  }

  /** A pair is reported if and only if there is such a use that is no builtin, is bound by no
      statement anywhere in the module, is declared global in no body entered before it, and is
      no visible parameter or comprehension target. */
  lemma ReportedExactly(tree: seq<Stmt>, builtins: set<string>, p: Problem)
    ensures p in Report([], ModuleUses(tree), builtins)
       <==> exists u :: u in ModuleUses(tree) && (u.name, u.line) == p && UndefinedUse(tree, builtins, u)
  {
    hide Report, ModuleUses, UndefinedUse, Placed;
    ReportMembers([], ModuleUses(tree), builtins, p);
    ModulePlaced(tree);
    forall u | u in ModuleUses(tree)
      ensures Flagged(u, builtins) <==> UndefinedUse(tree, builtins, u)
    {
      FlaggedExactly(u, tree, builtins);
    }
  }

  lemma FlaggedExactly(u: Use, tree: seq<Stmt>, builtins: set<string>)
    requires Placed(u.at, tree)
    ensures Flagged(u, builtins) <==> UndefinedUse(tree, builtins, u)
  {
    DefinesExactly(u.at, tree, u.name, u.at.env[0].ClassBlock?);
  }

  // ----- No false alarm ------------------------------------------------------------------------

  /** Parameters survive in a scope unless declared global or nonlocal. */
  lemma {:induction false} ParametersKept(body: seq<Stmt>, names: set<string>)
    ensures names - DeclaresAll(body, true) - DeclaresAll(body, false) <= NestedDeclared(body, names)
    ensures NestedDeclared(body, names) <= names
  {
    if body != [] {
      match body[0]
      case Global(ns) => ParametersKept(body[1..], names - SetOf(ns));
      case Nonlocal(ns) => ParametersKept(body[1..], names - SetOf(ns));
      case _ => ParametersKept(body[1..], names);
    }
  }

  /** What a block binds by Python's rule is found in the module's scope or is a visible local. */
  lemma LocalsFound(b: Block, tree: seq<Stmt>, name: string)
    requires !b.ComprehensionBlock? ==> BoundNamesAll(b.body) <= BoundNamesAll(tree)
    requires name in LocalsOf(b)
    ensures name in BoundNamesAll(tree) || BindsLocally(b, name)
  {
    hide BindsAll, DeclaresAll, BoundNamesAll, NestedDeclared, ClausesBind, ClauseNames;
    match b
    case FunctionBlock(args, body) => BlockWithin(body); ParametersKept(body, ArgNames(args));
    case ComprehensionBlock(clauses) => ClausesWithin(clauses);
    case _ => BlockWithin(b.body);
  }

  lemma GlobalFound(w: Where, tree: seq<Stmt>, builtins: set<string>, name: string)
    requires Placed(w, tree) && GlobalOrBuiltin(w.env, builtins, name)
    ensures name in builtins || name in BoundNamesAll(tree)
  {
    BlockWithin(tree);
  }

  lemma PlacedOutside(w: Where, tree: seq<Stmt>)
    requires Placed(w, tree) && |w.env| > 1
    ensures Placed(w.(env := w.env[1..]), tree)
  {
    assert forall i :: 0 <= i < |w.env[1..]| ==> w.env[1..][i] == w.env[i + 1];
  }

  lemma {:induction false} OutsideFound(w: Where, tree: seq<Stmt>, builtins: set<string>, name: string)
    requires Placed(w, tree)
    requires ResolvesOutside(w.env, builtins, name) || ResolvesNonlocal(w.env, name)
    ensures name in builtins || name in BoundNamesAll(tree) || VisibleLocal(w.env, name)
    decreases |w.env|
  {
    hide GlobalOrBuiltin, LocalsOf, GlobalsOf, BoundNamesAll, BindsLocally, VisibleLocal;
    VisibleStep(w.env, name);
    if GlobalOrBuiltin(w.env, builtins, name) {
      GlobalFound(w, tree, builtins, name);
    } else if |w.env| > 1 {
      assert w.env[|w.env| - 1] == ModuleBlock(tree);
      PlacedOutside(w, tree);
      if name in LocalsOf(w.env[0]) {
        LocalsFound(w.env[0], tree, name);
      }
      if ResolvesOutside(w.env[1..], builtins, name) || ResolvesNonlocal(w.env[1..], name) {
        OutsideFound(w.(env := w.env[1..]), tree, builtins, name);
      }
    }
  }

  lemma ResolvedFound(w: Where, tree: seq<Stmt>, builtins: set<string>, name: string)
    requires Placed(w, tree) && Resolves(w.env, builtins, name)
    ensures name in builtins || name in BoundNamesAll(tree) || VisibleLocal(w.env, name)
  {
    hide GlobalOrBuiltin, LocalsOf, GlobalsOf, NonlocalsOf, BoundNamesAll, BindsLocally, VisibleLocal;
    hide ResolvesOutside, ResolvesNonlocal;
    VisibleStep(w.env, name);
    if GlobalOrBuiltin(w.env, builtins, name) {
      GlobalFound(w, tree, builtins, name);
    } else if |w.env| > 1 {
      PlacedOutside(w, tree);
      if name in LocalsOf(w.env[0]) {
        LocalsFound(w.env[0], tree, name);
      }
      if ResolvesOutside(w.env[1..], builtins, name) || ResolvesNonlocal(w.env[1..], name) {
        OutsideFound(w.(env := w.env[1..]), tree, builtins, name);
      }
    }
  }

  /** A reported pair names a use that, by Python's rule, resolves to no binding. */
  lemma ReportedUnresolved(tree: seq<Stmt>, builtins: set<string>, p: Problem) returns (u: Use)
    requires p in Report([], ModuleUses(tree), builtins)
    ensures u in ModuleUses(tree) && (u.name, u.line) == p && UndefinedUse(tree, builtins, u) && Placed(u.at, tree)
    ensures !Resolves(u.at.env, builtins, u.name)
  {
    hide Report, ModuleUses, Resolves, VisibleLocal, BoundNamesAll, Placed;
    ReportedExactly(tree, builtins, p);
    ModulePlaced(tree);
    u :| u in ModuleUses(tree) && (u.name, u.line) == p && UndefinedUse(tree, builtins, u);
    assert IsEnvironment(u.at.env) by { PlacedEnvironment(u.at, tree); }
    if Resolves(u.at.env, builtins, u.name) {
      ResolvedFound(u.at, tree, builtins, u.name);
    }
  }

  lemma PlacedEnvironment(w: Where, tree: seq<Stmt>)
    requires Placed(w, tree)
    ensures IsEnvironment(w.env) && DeclaredWell(w.env, w.declared, tree)
  {
  }

  /** No false alarm: every reported pair is a name that the module reads, in a block where the
      language's rule resolves it to no binding. */
  lemma NoFalseAlarm(tree: seq<Stmt>, builtins: set<string>, p: Problem)
    requires p in Report([], ModuleUses(tree), builtins)
    ensures exists r :: && IsLookedAt(r, tree) && (r.name, r.line) == p
                        && IsEnvironment(r.env) && !Resolves(r.env, builtins, r.name)
  {
    hide Report, ModuleUses, Resolves, Placed, IsLookedAt, UndefinedUse;
    var u := ReportedUnresolved(tree, builtins, p);
    PlacedEnvironment(u.at, tree);
    var r := ReadOfUse(tree, u);
  }

  /** A read of a name bound nowhere: no builtin, bound by no statement anywhere in the module, not
      declared global by the module's body, and no visible parameter or comprehension target. */
  ghost predicate UnboundRead(tree: seq<Stmt>, builtins: set<string>, r: Read)
  {
    && IsLookedAt(r, tree)
    && r.name !in builtins && r.name !in BoundNamesAll(tree) && r.name !in ModuleDeclared(tree, {})
    && !VisibleLocal(r.env, r.name)
  }

  /** Only such reads are reported, and none that a body around them declares global; and all such
      reads are, whose name no function or class anywhere declares global. */
  lemma ReportedReads(tree: seq<Stmt>, builtins: set<string>, p: Problem)
    ensures p in Report([], ModuleUses(tree), builtins) ==>
              exists r :: UnboundRead(tree, builtins, r) && (r.name, r.line) == p && !DeclaredAround(r.env, r.name)
    ensures p.0 !in EnteredAll(tree) && (exists r :: UnboundRead(tree, builtins, r) && (r.name, r.line) == p) ==>
              p in Report([], ModuleUses(tree), builtins)
  {
    hide Report, ModuleUses, VisibleLocal, BoundNamesAll, Placed, IsLookedAt, TopGlobals, EnteredAll, ModuleDeclared;
    if p in Report([], ModuleUses(tree), builtins) {
      var u := ReportedUnresolved(tree, builtins, p);
      PlacedEnvironment(u.at, tree);
      var r := ReadOfUse(tree, u);
      assert UnboundRead(tree, builtins, r);
    }
    if r :| UnboundRead(tree, builtins, r) && (r.name, r.line) == p && p.0 !in EnteredAll(tree) {
      var u := UseOfRead(tree, r);
      ModulePlaced(tree);
      PlacedEnvironment(u.at, tree);
      assert UndefinedUse(tree, builtins, u);
      ReportedExactly(tree, builtins, p);
    }
  }

  ghost predicate DeclaredAround(env: seq<Block>, name: string)
  {
    exists i :: 0 <= i < |env| && (env[i].FunctionBlock? || env[i].ClassBlock?) && name in TopGlobals(env[i].body)
  }
}
