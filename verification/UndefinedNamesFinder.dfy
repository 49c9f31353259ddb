/** The analyser's classes: scopes linked to their parents, and the finder that walks a module. */
module UndefinedNamesFinder {
  import opened Common
  import opened PythonSyntax
  import opened UndefinedNames

  datatype Kind = ModuleKind | FunctionKind | ClassKind | ComprehensionKind

  function KindOf(b: Block): Kind
  {
    match b
    case ModuleBlock(_) => ModuleKind
    case FunctionBlock(_, _) => FunctionKind
    case ClassBlock(_) => ClassKind
    case ComprehensionBlock(_) => ComprehensionKind
  }

  /** Scope `i` of a chain is the one the pass makes for block `i`. */
  ghost predicate Fits(chain: seq<Scope>, env: seq<Block>, declared: set<string>, i: nat)
    requires IsEnvironment(env) && |chain| == |env| && i < |env|
    reads chain
  {
    && chain[i].kind == KindOf(env[i])
    && (if i < |env| - 1 then chain[i].parent == chain[i + 1] else chain[i].parent == null)
    && (if i < |env| - 1 then chain[i].bindings == ScopeBindings(env[i])
        else chain[i].bindings == BoundNamesAll(env[i].body) + declared)
  }

  class Scope {
    const kind: Kind
    const parent: Scope?
    ghost const enclosing: seq<Scope>
    var bindings: set<string>

    constructor (kind: Kind, parent: Scope?)
      ensures this.kind == kind && this.parent == parent && bindings == {}
      ensures enclosing == if parent == null then [] else [parent] + parent.enclosing
    {
      this.kind := kind;
      this.parent := parent;
      this.bindings := {};
      this.enclosing := if parent == null then [] else [parent] + parent.enclosing;
    }

    ghost function Chain(): seq<Scope> { [this] + enclosing }

    /** The scope and its ancestors are the ones the pass makes for the blocks of `env`; the
        module's scope also holds the names declared global so far. */
    ghost predicate Mirrors(env: seq<Block>, declared: set<string>)
      reads this, enclosing
    {
      && IsEnvironment(env) && |Chain()| == |env|
      && forall i :: 0 <= i < |env| ==> Fits(Chain(), env, declared, i)
    }

    /** Follows the parent links outward until some scope that counts holds the name. */
    method DefinesName(name: string, ghost env: seq<Block>, ghost declared: set<string>) returns (found: bool)
      requires Mirrors(env, declared)
      ensures found == Defines(env, declared, name, env[0].ClassBlock?)
    {
      hide Defines, ScopeBindings, BoundNamesAll;
      ghost var fromClass := kind == ClassKind;
      ghost var at := 0;
      var scope: Scope? := this;
      assert env[0..] == env && Fits(Chain(), env, declared, 0);
      while scope != null
        invariant 0 <= at <= |env|
        invariant scope == if at < |env| then Chain()[at] else null
        invariant at < |env| ==> IsEnvironment(env[at..])
        invariant at < |env| ==> Defines(env, declared, name, fromClass) == Defines(env[at..], declared, name, fromClass)
        invariant at == |env| ==> !Defines(env, declared, name, fromClass)
        decreases |env| - at
      {
        DefinesStep(env[at..], declared, name, fromClass);
        assert Fits(Chain(), env, declared, at);
        assert env[at..][0] == env[at] && env[at..][1..] == env[at + 1..];
        if scope.kind == ClassKind && kind != ClassKind {
          scope := scope.parent;
          at := at + 1;
          continue;
        }
        if name in scope.bindings {
          return true;
        }
        scope := scope.parent;
        at := at + 1;
      }
      return false;
    }
  }

  lemma DefinesStep(env: seq<Block>, declared: set<string>, name: string, fromClass: bool)
    requires IsEnvironment(env)
    ensures if |env| == 1 then
              Defines(env, declared, name, fromClass) == (name in BoundNamesAll(env[0].body) + declared)
            else
              && IsEnvironment(env[1..])
              && Defines(env, declared, name, fromClass) ==
                   ((!(env[0].ClassBlock? && !fromClass) && name in ScopeBindings(env[0]))
                    || Defines(env[1..], declared, name, fromClass))
  {
    hide BoundNamesAll, ScopeBindings;
  }

  lemma EnvironmentPush(b: Block, env: seq<Block>)
    ensures IsEnvironment([b] + env) && env != [] <==> IsEnvironment(env) && !b.ModuleBlock?
  {
    var outer := [b] + env;
    assert outer[0] == b && (env != [] ==> outer[|outer| - 1] == env[|env| - 1]);
    assert forall i :: 0 <= i < |env| ==> env[i] == outer[i + 1];
    if IsEnvironment(env) && !b.ModuleBlock? {
      assert forall i :: 0 < i < |outer| ==> outer[i] == env[i - 1];
    }
  }

  /** A scope does not change its place in the chain when one is put in front of it. */
  lemma FitsBehind(inner: Scope, chain: seq<Scope>, b: Block, env: seq<Block>, declared: set<string>, i: nat)
    requires IsEnvironment(env) && IsEnvironment([b] + env) && |chain| == |env| && i < |env|
    ensures Fits([inner] + chain, [b] + env, declared, i + 1) <==> Fits(chain, env, declared, i)
  {
    hide KindOf, ScopeBindings, BoundNamesAll, IsEnvironment;
    var longer, outer := [inner] + chain, [b] + env;
    assert longer[i + 1] == chain[i] && outer[i + 1] == env[i];
    if i < |env| - 1 {
      assert longer[i + 2] == chain[i + 1];
    }
  }

  /** Entering a block: the scope made for it extends the chain. */
  lemma MirrorsPush(inner: Scope, scope: Scope, b: Block, env: seq<Block>, declared: set<string>)
    requires scope.Mirrors(env, declared) && !b.ModuleBlock?
    requires inner.parent == scope && inner.enclosing == scope.Chain()
    requires inner.kind == KindOf(b) && inner.bindings == ScopeBindings(b)
    ensures inner.Mirrors([b] + env, declared)
    ensures inner.Chain()[|env|] == scope.Chain()[|env| - 1]
  {
    hide ScopeBindings, BoundNamesAll, KindOf, IsEnvironment;
    EnvironmentPush(b, env);
    forall i | 0 <= i < |env| + 1
      ensures Fits(inner.Chain(), [b] + env, declared, i)
    {
      if i > 0 {
        FitsBehind(inner, scope.Chain(), b, env, declared, i - 1);
        assert Fits(scope.Chain(), env, declared, i - 1);
      }
    }
  }

  /** Leaving it again: the rest of the chain still mirrors the enclosing blocks. */
  lemma MirrorsPop(inner: Scope, scope: Scope, b: Block, env: seq<Block>, declared: set<string>)
    requires env != [] && inner.Mirrors([b] + env, declared)
    requires inner.parent == scope && inner.enclosing == scope.Chain()
    ensures scope.Mirrors(env, declared) && |scope.Chain()| == |env|
  {
    hide ScopeBindings, BoundNamesAll, KindOf, IsEnvironment, Fits;
    EnvironmentPush(b, env);
    forall i | 0 <= i < |env|
      ensures Fits(scope.Chain(), env, declared, i)
    {
      FitsBehind(inner, scope.Chain(), b, env, declared, i);
      assert Fits(inner.Chain(), [b] + env, declared, i + 1);
    }
  }

  class Finder {
    const top: Scope
    const builtins: set<string>
    var problems: seq<Problem>
    var seen: set<Problem>
    var lazyAnnotations: bool

    constructor (builtins: set<string>)
      ensures fresh(top) && top.kind == ModuleKind && top.parent == null
      ensures top.enclosing == [] && top.bindings == {}
      ensures problems == [] && seen == {} && this.builtins == builtins
    {
      top := new Scope(ModuleKind, null);
      problems := [];
      seen := {};
      lazyAnnotations := false;
      this.builtins := builtins;
    }

    /** The finder stands at `w`: `scope` is the chain of scopes for its blocks. */
    ghost predicate At(scope: Scope, w: Where)
      reads this, scope, scope.enclosing
    {
      && (forall p :: p in seen <==> p in problems)
      && lazyAnnotations == w.lazy
      && scope.Mirrors(w.env, w.declared)
      && scope.Chain()[|w.env| - 1] == top
    }

    method Check(name: string, line: nat, scope: Scope, ghost w: Where)
      requires At(scope, w)
      modifies `problems, `seen
      ensures At(scope, w)
      ensures problems == Report(old(problems), [Use(name, line, w)], builtins)
    {
      if name in builtins {
        return;
      }
      var found := scope.DefinesName(name, w.env, w.declared);
      if found {
        return;
      }
      var key := (name, line);
      if key in seen {
        return;
      }
      seen := seen + {key};
      problems := problems + [key];
    }

    method Expression(node: Expr, scope: Scope, inAnnotation: bool, ghost w: Where)
      requires At(scope, w)
      modifies `problems, `seen
      ensures At(scope, w)
      ensures problems == Report(old(problems), ExprUses(node, w, inAnnotation), builtins)
      decreases node, 1
    {
      hide Report;
      match node
      case Name(id, ctx, line) =>
        if ctx == Load && !inAnnotation {
          Check(id, line, scope, w);
        } else {
          ReportNone(problems, builtins);
        }
      case Display(elts) =>
        Expressions(elts, scope, inAnnotation, w);
      case Starred(value) =>
        Expression(value, scope, inAnnotation, w);
      case Place(value, index) =>
        Expression(value, scope, inAnnotation, w);
        Expressions(index, scope, inAnnotation, w);
        ReportConcat(old(problems), ExprUses(value, w, inAnnotation), ExprsUses(index, w, inAnnotation), builtins);
      case Lambda(args, result) =>
        LambdaExpression(node, scope, w);
      case Comprehension(elements, generators) =>
        Comprehend(node, scope, w);
      case Other(children) =>
        Expressions(children, scope, inAnnotation, w);
    }

    method LambdaExpression(node: Expr, scope: Scope, ghost w: Where)
      requires node.Lambda? && At(scope, w)
      modifies `problems, `seen
      ensures At(scope, w)
      ensures problems == Report(old(problems), ExprUses(node, w, false), builtins)
      decreases node, 0
    {
      hide Report, ArgumentUses;
      ghost var b := FunctionBlock(node.args, []);
      var inner := new Scope(FunctionKind, scope);
      inner.bindings := ArgNames(node.args);
      Defaults(node.args, scope, w);
      MirrorsPush(inner, scope, b, w.env, w.declared);
      Expression(node.result, inner, false, w.Inside(b));
      ReportConcat(old(problems), ArgumentUses(node.args, w), ExprUses(node.result, w.Inside(b), false), builtins);
    }

    method Expressions(nodes: seq<Expr>, scope: Scope, inAnnotation: bool, ghost w: Where)
      requires At(scope, w)
      modifies `problems, `seen
      ensures At(scope, w)
      ensures problems == Report(old(problems), ExprsUses(nodes, w, inAnnotation), builtins)
      decreases nodes, 0
    {
      hide Report, ExprUses;
      for i := 0 to |nodes|
        invariant At(scope, w)
        invariant Report(problems, ExprsUses(nodes[i..], w, inAnnotation), builtins)
               == Report(old(problems), ExprsUses(nodes, w, inAnnotation), builtins)
      {
        ghost var rest := nodes[i..];
        ReportConcat(problems, ExprUses(rest[0], w, inAnnotation), ExprsUses(rest[1..], w, inAnnotation), builtins);
        Expression(nodes[i], scope, inAnnotation, w);
        assert rest[1..] == nodes[i + 1..];
      }
      ReportNone(problems, builtins);
    }

    /** Defaults and annotations of parameters, evaluated outside the function. */
    method Defaults(args: Arguments, scope: Scope, ghost w: Where)
      requires At(scope, w)
      modifies `problems, `seen
      ensures At(scope, w)
      ensures problems == Report(old(problems), ArgumentUses(args, w), builtins)
      decreases args, 1
    {
      hide Report, ExprsUses, ParameterUses;
      ghost var a, b := ExprsUses(args.defaults, w, false), ExprsUses(args.kwDefaults, w, false);
      ghost var c := ParameterUses(args.params, w);
      Expressions(args.defaults, scope, false, w);
      Expressions(args.kwDefaults, scope, false, w);
      ReportConcat(old(problems), a, b, builtins);
      Annotations(args.params, scope, w);
      ReportConcat(old(problems), a + b, c, builtins);
    }

    method Annotations(ps: seq<Parameter>, scope: Scope, ghost w: Where)
      requires At(scope, w)
      modifies `problems, `seen
      ensures At(scope, w)
      ensures problems == Report(old(problems), ParameterUses(ps, w), builtins)
      decreases ps
    {
      hide Report, ExprUses;
      for i := 0 to |ps|
        invariant At(scope, w)
        invariant Report(problems, ParameterUses(ps[i..], w), builtins)
               == Report(old(problems), ParameterUses(ps, w), builtins)
      {
        ghost var rest := ps[i..];
        ReportConcat(problems, OptionalUses(rest[0].annotation, w.InAnnotation(), w.lazy),
                     ParameterUses(rest[1..], w), builtins);
        if ps[i].annotation.Some? {
          Expression(ps[i].annotation.value, scope, lazyAnnotations, w.InAnnotation());
        } else {
          ReportNone(problems, builtins);
        }
        assert rest[1..] == ps[i + 1..];
      }
      ReportNone(problems, builtins);
    }

    /** Makes a scope for the targets; only the first iterable is looked up without it. */
    method Comprehend(node: Expr, scope: Scope, ghost w: Where)
      requires node.Comprehension? && At(scope, w)
      modifies `problems, `seen
      ensures At(scope, w)
      ensures problems == Report(old(problems), ExprUses(node, w, false), builtins)
      decreases node, 0
    {
      hide Report, ExprUses, ExprsUses, ClauseUses, Scope.Mirrors;
      ComprehensionParts(node, w);
      var generators := node.generators;
      ghost var clauses := ClauseUses(generators, [], w);
      var inner := new Scope(ComprehensionKind, scope);
      assert generators[..0] == [] && generators[0..] == generators;
      for i := 0 to |generators|
        invariant fresh(inner)
        invariant At(scope, w) && inner.bindings == ClauseNames(generators[..i])
        invariant Report(problems, ClauseUses(generators[i..], generators[..i], w), builtins)
               == Report(old(problems), clauses, builtins)
      {
        ghost var begun, ahead := generators[..i], generators[i..];
        ClauseStep(ahead, begun, w, problems, builtins);
        Clause(generators[i], i == 0, scope, inner, begun, w);
        assert generators[..i + 1] == begun + [generators[i]] && generators[i + 1..] == ahead[1..];
      }
      assert generators[..|generators|] == generators && generators[|generators|..] == [];
      ClauseStep([], generators, w, problems, builtins);
      ReportNone(problems, builtins);
      ghost var body := w.Inside(ComprehensionBlock(generators));
      Within(node.elements, scope, inner, generators, w);
      ReportConcat(old(problems), clauses, ExprsUses(node.elements, body, false), builtins);
    }

    /** One `for` clause: its iterable, then its targets become visible, then its conditions. */
    method Clause(g: Generator, first: bool, scope: Scope, inner: Scope, ghost begun: seq<Generator>, ghost w: Where)
      requires At(scope, w) && first == (begun == [])
      requires inner.kind == ComprehensionKind && inner.parent == scope && inner.enclosing == scope.Chain()
      requires inner.bindings == ClauseNames(begun) && inner !in scope.Chain()
      modifies `problems, `seen, inner`bindings
      ensures At(scope, w) && inner.bindings == ClauseNames(begun + [g])
      ensures problems == Report(Report(old(problems),
                ExprUses(g.iter, if first then w else w.Inside(ComprehensionBlock(begun)), false), builtins),
                ExprsUses(g.conds, w.Inside(ComprehensionBlock(begun + [g])), false), builtins)
      decreases g, 1
    {
      hide Report, ExprUses, ExprsUses, ClauseNames, TargetNames, Scope.Mirrors;
      Iterable(g, first, scope, inner, begun, w);
      inner.bindings := inner.bindings + TargetNames(g.target);
      ClauseNamesAppend(begun, g);
      Within(g.conds, scope, inner, begun + [g], w);
    }

    method Iterable(g: Generator, first: bool, scope: Scope, inner: Scope, ghost begun: seq<Generator>, ghost w: Where)
      requires At(scope, w) && first == (begun == [])
      requires inner.kind == ComprehensionKind && inner.parent == scope && inner.enclosing == scope.Chain()
      requires inner.bindings == ClauseNames(begun)
      modifies `problems, `seen
      ensures At(scope, w)
      ensures problems == Report(old(problems),
                ExprUses(g.iter, if first then w else w.Inside(ComprehensionBlock(begun)), false), builtins)
      decreases g, 0
    {
      hide Report, ExprUses, ClauseNames;
      MirrorsPush(inner, scope, ComprehensionBlock(begun), w.env, w.declared);
      Expression(g.iter, if first then scope else inner, false,
                 if first then w else w.Inside(ComprehensionBlock(begun)));
    }

    /** Expressions evaluated inside a comprehension whose clauses `begun` have begun. */
    method Within(es: seq<Expr>, scope: Scope, inner: Scope, ghost begun: seq<Generator>, ghost w: Where)
      requires At(scope, w)
      requires inner.kind == ComprehensionKind && inner.parent == scope && inner.enclosing == scope.Chain()
      requires inner.bindings == ClauseNames(begun)
      modifies `problems, `seen
      ensures At(scope, w)
      ensures problems == Report(old(problems), ExprsUses(es, w.Inside(ComprehensionBlock(begun)), false), builtins)
      decreases es, 1
    {
      hide Report, ExprsUses, ClauseNames;
      MirrorsPush(inner, scope, ComprehensionBlock(begun), w.env, w.declared);
      Expressions(es, inner, false, w.Inside(ComprehensionBlock(begun)));
    }

    // ----- statements -----

    /** Every name a scope binds, collected before the walk of its body. */
    method Collect(body: seq<Stmt>, scope: Scope)
      modifies scope`bindings, top`bindings
      ensures scope == top ==> top.bindings == ModuleDeclared(body, old(top.bindings)) + BoundNamesAll(body)
      ensures scope != top ==>
                && scope.bindings == NestedDeclared(body, old(scope.bindings)) + BoundNamesAll(body)
                && top.bindings == old(top.bindings) + TopGlobals(body)
    {
      hide BoundNamesAll;
      for i := 0 to |body|
        invariant scope == top ==>
                    ModuleDeclared(body[i..], top.bindings) == ModuleDeclared(body, old(top.bindings))
        invariant scope != top ==>
                    && NestedDeclared(body[i..], scope.bindings) == NestedDeclared(body, old(scope.bindings))
                    && top.bindings + TopGlobals(body[i..]) == old(top.bindings) + TopGlobals(body)
      {
        var stmt := body[i];
        assert body[i..][0] == stmt && body[i..][1..] == body[i + 1..];
        if stmt.Global? {
          ghost var before := top.bindings;
          scope.bindings := scope.bindings - SetOf(stmt.names);
          top.bindings := top.bindings + SetOf(stmt.names);
          assert scope == top ==> top.bindings == before + SetOf(stmt.names);
        } else if stmt.Nonlocal? {
          scope.bindings := scope.bindings - SetOf(stmt.names);
        }
      }
      assert body[|body|..] == [];
      AddBound(body, scope);
    }

    method AddBound(body: seq<Stmt>, scope: Scope)
      modifies scope`bindings
      ensures scope.bindings == old(scope.bindings) + BoundNamesAll(body)
    {
      for i := 0 to |body|
        invariant scope.bindings + BoundNamesAll(body[i..]) == old(scope.bindings) + BoundNamesAll(body)
      {
        scope.bindings := scope.bindings + BoundNames(body[i]);
      }
    }

    method Statement(node: Stmt, scope: Scope, ghost w: Where)
      requires At(scope, w)
      modifies `problems, `seen, top`bindings
      ensures At(scope, w.(declared := w.declared + Entered(node)))
      ensures problems == Report(old(problems), StmtUses(node, w), builtins)
      decreases node, 1
    {
      hide Report, ExprUses, ExprsUses, StmtsUses, HandlerUses, ItemUses, OptionalUses, Scope.Mirrors;
      ghost var ps := problems;
      match node
      case FunctionDef(_, _, _, _, _) =>
        FunctionDefinition(node, scope, w);
      case ClassDef(_, _, _, _, _) =>
        ClassDefinition(node, scope, w);
      case Global(_) =>
        Nothing(ps, scope, w);
      case Nonlocal(_) =>
        Nothing(ps, scope, w);
      case Import(_) =>
        Nothing(ps, scope, w);
      case ImportFrom(_, _) =>
        Nothing(ps, scope, w);
      case Assign(targets, value) =>
        Expressions(targets, scope, false, w);
        Expression(value, scope, false, w);
        ReportConcat(ps, ExprsUses(targets, w, false), ExprUses(value, w, false), builtins);
        Nothing(ps, scope, w);
      case AugAssign(target, value) =>
        Expression(target, scope, false, w);
        Expression(value, scope, false, w);
        ReportConcat(ps, ExprUses(target, w, false), ExprUses(value, w, false), builtins);
        Nothing(ps, scope, w);
      case AnnAssign(_, annotation, initial) =>
        OptionalExpression(initial, scope, false, w);
        Expression(annotation, scope, lazyAnnotations, w.InAnnotation());
        ReportConcat(ps, OptionalUses(initial, w, false), ExprUses(annotation, w.InAnnotation(), w.lazy), builtins);
        Nothing(ps, scope, w);
      case For(target, iter, body, orelse) =>
        Expression(target, scope, false, w);
        Expression(iter, scope, false, w);
        ghost var a, b := ExprUses(target, w, false), ExprUses(iter, w, false);
        ReportConcat(ps, a, b, builtins);
        TwoBlocks(ps, a + b, node, scope, w);
      case With(items, body) =>
        Items(items, scope, w);
        Statements(body, scope, w);
        ReportConcat(ps, ItemUses(items, w), StmtsUses(body, w), builtins);
      case Try(_, _, _, _) =>
        TryStatement(node, scope, w);
      case Compound(exprs, body, orelse) =>
        Expressions(exprs, scope, false, w);
        TwoBlocks(ps, ExprsUses(exprs, w, false), node, scope, w);
    }

    /** A statement that holds no block leaves the declared names as they are. */
    lemma Nothing(ps: seq<Problem>, scope: Scope, w: Where)
      requires At(scope, w)
      ensures At(scope, w.(declared := w.declared + {})) && Report(ps, [], builtins) == ps
    {
      assert w.(declared := w.declared + {}) == w;
    }

    method TwoBlocks(ghost ps: seq<Problem>, ghost before: seq<Use>, node: Stmt, scope: Scope, ghost w: Where)
      requires node.For? || node.Compound?
      requires At(scope, w) && problems == Report(ps, before, builtins)
      modifies `problems, `seen, top`bindings
      ensures At(scope, w.(declared := w.declared + Entered(node)))
      ensures problems == Report(ps, before + StmtsUses(node.body, w) + StmtsUses(node.orelse, w.After(node.body)),
                                 builtins)
      decreases node, 0
    {
      hide Report, StmtsUses, Scope.Mirrors;
      ghost var a, b := StmtsUses(node.body, w), StmtsUses(node.orelse, w.After(node.body));
      Statements(node.body, scope, w);
      ReportConcat(ps, before, a, builtins);
      Statements(node.orelse, scope, w.After(node.body));
      ReportConcat(ps, before + a, b, builtins);
      assert w.After(node.body).After(node.orelse) == w.(declared := w.declared + Entered(node));
    }

    method TryStatement(node: Stmt, scope: Scope, ghost w: Where)
      requires node.Try? && At(scope, w)
      modifies `problems, `seen, top`bindings
      ensures At(scope, w.(declared := w.declared + Entered(node)))
      ensures problems == Report(old(problems), StmtUses(node, w), builtins)
      decreases node, 0
    {
      hide Report, StmtsUses, HandlerUses, Scope.Mirrors;
      ghost var ps := problems;
      ghost var w1 := w.After(node.body);
      ghost var w2 := w1.(declared := w1.declared + HandlersEntered(node.handlers));
      ghost var w3 := w2.After(node.orelse);
      ghost var a, b := StmtsUses(node.body, w), HandlerUses(node.handlers, w1);
      ghost var c, d := StmtsUses(node.orelse, w2), StmtsUses(node.finalbody, w3);
      Statements(node.body, scope, w);
      Handlers(node.handlers, scope, w1);
      ReportConcat(ps, a, b, builtins);
      Statements(node.orelse, scope, w2);
      ReportConcat(ps, a + b, c, builtins);
      Statements(node.finalbody, scope, w3);
      ReportConcat(ps, a + b + c, d, builtins);
      assert w3.After(node.finalbody) == w.(declared := w.declared + Entered(node));
    }

    method Statements(nodes: seq<Stmt>, scope: Scope, ghost w: Where)
      requires At(scope, w)
      modifies `problems, `seen, top`bindings
      ensures At(scope, w.After(nodes))
      ensures problems == Report(old(problems), StmtsUses(nodes, w), builtins)
      decreases nodes, 0
    {
      hide Report, StmtUses, Scope.Mirrors, Entered;
      ghost var here := w;
      assert nodes[0..] == nodes;
      for i := 0 to |nodes|
        invariant At(scope, here) && here.After(nodes[i..]) == w.After(nodes)
        invariant Report(problems, StmtsUses(nodes[i..], here), builtins)
               == Report(old(problems), StmtsUses(nodes, w), builtins)
      {
        ghost var rest := nodes[i..];
        ghost var next := here.(declared := here.declared + Entered(rest[0]));
        ReportConcat(problems, StmtUses(rest[0], here), StmtsUses(rest[1..], next), builtins);
        Statement(nodes[i], scope, here);
        assert rest[1..] == nodes[i + 1..];
        assert next.After(rest[1..]) == here.After(rest);
        here := next;
      }
      ReportNone(problems, builtins);
      assert here.After([]) == here;
    }

    method Handlers(hs: seq<Handler>, scope: Scope, ghost w: Where)
      requires At(scope, w)
      modifies `problems, `seen, top`bindings
      ensures At(scope, w.(declared := w.declared + HandlersEntered(hs)))
      ensures problems == Report(old(problems), HandlerUses(hs, w), builtins)
      decreases hs
    {
      hide Report, ExprUses, StmtsUses, EnteredAll, Scope.Mirrors;
      ghost var here := w;
      assert hs[0..] == hs;
      for i := 0 to |hs|
        invariant At(scope, here)
        invariant here.(declared := here.declared + HandlersEntered(hs[i..]))
               == w.(declared := w.declared + HandlersEntered(hs))
        invariant Report(problems, HandlerUses(hs[i..], here), builtins)
               == Report(old(problems), HandlerUses(hs, w), builtins)
      {
        ghost var rest := hs[i..];
        var h := hs[i];
        ghost var next := here.After(h.body);
        HandlerStep(rest, here, problems, builtins);
        OptionalExpression(h.kind, scope, false, here);
        Statements(h.body, scope, here);
        assert rest[1..] == hs[i + 1..];
        here := next;
      }
      ReportNone(problems, builtins);
      assert here.(declared := here.declared + {}) == here;
    }

    method Items(items: seq<WithItem>, scope: Scope, ghost w: Where)
      requires At(scope, w)
      modifies `problems, `seen
      ensures At(scope, w)
      ensures problems == Report(old(problems), ItemUses(items, w), builtins)
      decreases items
    {
      hide Report, ExprUses, Scope.Mirrors;
      assert items[0..] == items;
      for i := 0 to |items|
        invariant At(scope, w)
        invariant Report(problems, ItemUses(items[i..], w), builtins)
               == Report(old(problems), ItemUses(items, w), builtins)
      {
        ghost var rest := items[i..];
        ItemStep(rest, w, problems, builtins);
        Expression(items[i].context, scope, false, w);
        OptionalExpression(items[i].vars, scope, false, w);
        assert rest[1..] == items[i + 1..];
      }
      ReportNone(problems, builtins);
    }

    method OptionalExpression(e: Option<Expr>, scope: Scope, inAnnotation: bool, ghost w: Where)
      requires At(scope, w)
      modifies `problems, `seen
      ensures At(scope, w)
      ensures problems == Report(old(problems), OptionalUses(e, w, inAnnotation), builtins)
      decreases e
    {
      hide Report, ExprUses, Scope.Mirrors;
      if e.Some? {
        Expression(e.value, scope, inAnnotation, w);
      } else {
        ReportNone(problems, builtins);
      }
    }

    method FunctionDefinition(node: Stmt, scope: Scope, ghost w: Where)
      requires node.FunctionDef? && At(scope, w)
      modifies `problems, `seen, top`bindings
      ensures At(scope, w.(declared := w.declared + Entered(node)))
      ensures problems == Report(old(problems), StmtUses(node, w), builtins)
      decreases node, 0
    {
      hide Report, ExprsUses, ArgumentUses, OptionalUses, StmtsUses, Scope.Mirrors;
      ghost var ps := problems;
      ghost var block := FunctionBlock(node.args, node.body);
      ghost var a, b := ExprsUses(node.decorators, w, false), ArgumentUses(node.args, w);
      ghost var c, d := OptionalUses(node.result, w.InAnnotation(), w.lazy), StmtsUses(node.body, w.Enter(block));
      Expressions(node.decorators, scope, false, w);
      Defaults(node.args, scope, w);
      ReportConcat(ps, a, b, builtins);
      OptionalExpression(node.result, scope, lazyAnnotations, w.InAnnotation());
      ReportConcat(ps, a + b, c, builtins);
      var inner := new Scope(FunctionKind, scope);
      inner.bindings := ArgNames(node.args);
      EnterBody(node.body, inner, scope, block, w);
      ReportConcat(ps, a + b + c, d, builtins);
    }

    method ClassDefinition(node: Stmt, scope: Scope, ghost w: Where)
      requires node.ClassDef? && At(scope, w)
      modifies `problems, `seen, top`bindings
      ensures At(scope, w.(declared := w.declared + Entered(node)))
      ensures problems == Report(old(problems), StmtUses(node, w), builtins)
      decreases node, 0
    {
      hide Report, ExprsUses, StmtsUses, Scope.Mirrors;
      ghost var ps := problems;
      ghost var block := ClassBlock(node.body);
      ghost var a, b := ExprsUses(node.decorators, w, false), ExprsUses(node.bases, w, false);
      ghost var c, d := ExprsUses(node.keywords, w, false), StmtsUses(node.body, w.Enter(block));
      Expressions(node.decorators, scope, false, w);
      Expressions(node.bases, scope, false, w);
      ReportConcat(ps, a, b, builtins);
      Expressions(node.keywords, scope, false, w);
      ReportConcat(ps, a + b, c, builtins);
      var inner := new Scope(ClassKind, scope);
      EnterBody(node.body, inner, scope, block, w);
      ReportConcat(ps, a + b + c, d, builtins);
    }

    /** Collects the bindings of a new scope, then walks its body. */
    method EnterBody(body: seq<Stmt>, inner: Scope, scope: Scope, ghost block: Block, ghost w: Where)
      requires At(scope, w) && IsNew(inner, scope, block) && block.body == body
      modifies `problems, `seen, top`bindings, inner`bindings
      ensures At(scope, w.(declared := w.declared + (TopGlobals(body) + EnteredAll(body))))
      ensures problems == Report(old(problems), StmtsUses(body, w.Enter(block)), builtins)
      decreases body, 1
    {
      hide Report, StmtsUses, Scope.Mirrors;
      CollectInner(body, inner, scope, block, w);
      Statements(body, inner, w.Enter(block));
      ghost var after := w.Enter(block).After(body);
      MirrorsPop(inner, scope, block, w.env, after.declared);
      assert after.declared == w.declared + (TopGlobals(body) + EnteredAll(body));
      assert scope.Chain()[|w.env| - 1] == top;
    }

    ghost predicate IsNew(inner: Scope, scope: Scope, block: Block)
      reads inner
    {
      && (block.FunctionBlock? || block.ClassBlock?) && inner.kind == KindOf(block)
      && inner.parent == scope && inner.enclosing == scope.Chain() && inner !in scope.Chain()
      && inner.bindings == if block.FunctionBlock? then ArgNames(block.args) else {}
    }

    method CollectInner(body: seq<Stmt>, inner: Scope, scope: Scope, ghost block: Block, ghost w: Where)
      requires At(scope, w) && IsNew(inner, scope, block) && block.body == body
      modifies top`bindings, inner`bindings
      ensures At(inner, w.Enter(block)) && w.env != [] && scope.Chain()[|w.env| - 1] == top
    {
      hide BoundNamesAll, NestedDeclared, ScopeBindings;
      ghost var chain, last := scope.Chain(), |w.env| - 1;
      assert chain[last] == top && Fits(chain, w.env, w.declared, last);
      forall i | 0 <= i < last
        ensures chain[i] != top && chain[i] != inner
        ensures chain[i].kind == KindOf(w.env[i]) && chain[i].parent == chain[i + 1]
        ensures chain[i].bindings == ScopeBindings(w.env[i])
      {
        assert Fits(chain, w.env, w.declared, i);
        assert chain[i] in chain;
      }
      Collect(body, inner);
      forall i | 0 <= i <= last
        ensures Fits(chain, w.env, w.declared + TopGlobals(body), i)
      {
      }
      NewScope(body, block);
      MirrorsPush(inner, scope, block, w.env, w.declared + TopGlobals(body));
    }

    /** What the pre-pass leaves in a new scope is what its block stands for. */
    static lemma NewScope(body: seq<Stmt>, block: Block)
      requires (block.FunctionBlock? || block.ClassBlock?) && block.body == body
      ensures ScopeBindings(block)
           == NestedDeclared(body, if block.FunctionBlock? then ArgNames(block.args) else {}) + BoundNamesAll(body)
    {
      NothingDeclared(body);
    }

    /** The whole pass: the problems are the flagged uses, each once, in the order of the walk. */
    method Run(tree: seq<Stmt>)
      requires problems == [] && seen == {} && top.kind == ModuleKind && top.parent == null
      requires top.enclosing == [] && top.bindings == {}
      modifies this, top`bindings
      ensures problems == Report([], ModuleUses(tree), builtins)
    {
      hide Report, StmtsUses;
      lazyAnnotations := LazyAnnotations(tree);
      Collect(tree, top);
      Statements(tree, top, ModuleStart(tree));
    }
  }

  lemma HandlerStep(hs: seq<Handler>, w: Where, ps: seq<Problem>, builtins: set<string>)
    requires hs != []
    ensures Report(ps, HandlerUses(hs, w), builtins)
         == Report(Report(Report(ps, OptionalUses(hs[0].kind, w, false), builtins), StmtsUses(hs[0].body, w), builtins),
                   HandlerUses(hs[1..], w.After(hs[0].body)), builtins)
  {
    hide Report, StmtsUses, OptionalUses;
    var a, b, c := OptionalUses(hs[0].kind, w, false), StmtsUses(hs[0].body, w), HandlerUses(hs[1..], w.After(hs[0].body));
    ReportConcat(ps, a, b, builtins);
    ReportConcat(ps, a + b, c, builtins);
  }

  lemma ItemStep(items: seq<WithItem>, w: Where, ps: seq<Problem>, builtins: set<string>)
    requires items != []
    ensures Report(ps, ItemUses(items, w), builtins)
         == Report(Report(Report(ps, ExprUses(items[0].context, w, false), builtins),
                          OptionalUses(items[0].vars, w, false), builtins),
                   ItemUses(items[1..], w), builtins)
  {
    hide Report, ExprUses, OptionalUses;
    var a, b, c := ExprUses(items[0].context, w, false), OptionalUses(items[0].vars, w, false), ItemUses(items[1..], w);
    ReportConcat(ps, a, b, builtins);
    ReportConcat(ps, a + b, c, builtins);
  }

  lemma {:induction false} NothingDeclared(body: seq<Stmt>)
    ensures NestedDeclared(body, {}) == {}
  {
    if body != [] {
      assert forall names: seq<string> :: {} - SetOf(names) == {};
      NothingDeclared(body[1..]);
    }
  }

  lemma ComprehensionParts(e: Expr, w: Where)
    requires e.Comprehension?
    ensures ExprUses(e, w, false) == ClauseUses(e.generators, [], w)
              + ExprsUses(e.elements, w.Inside(ComprehensionBlock(e.generators)), false)
    ensures forall ann :: ExprUses(e, w, ann) == ExprUses(e, w, false)
  {
  }

  lemma ClauseStep(ahead: seq<Generator>, begun: seq<Generator>, w: Where, ps: seq<Problem>, builtins: set<string>)
    ensures ahead == [] ==> ClauseUses(ahead, begun, w) == []
    ensures ahead != [] ==>
              var g := ahead[0];
              var here := if begun == [] then w else w.Inside(ComprehensionBlock(begun));
              var next := w.Inside(ComprehensionBlock(begun + [g]));
              Report(ps, ClauseUses(ahead, begun, w), builtins)
              == Report(Report(Report(ps, ExprUses(g.iter, here, false), builtins), ExprsUses(g.conds, next, false), builtins),
                        ClauseUses(ahead[1..], begun + [g], w), builtins)
  {
    hide Report, ExprUses, ExprsUses;
    if ahead != [] {
      var g := ahead[0];
      var here := if begun == [] then w else w.Inside(ComprehensionBlock(begun));
      var a, b, c := ExprUses(g.iter, here, false),
                     ExprsUses(g.conds, w.Inside(ComprehensionBlock(begun + [g])), false),
                     ClauseUses(ahead[1..], begun + [g], w);
      ReportConcat(ps, a, b, builtins);
      ReportConcat(ps, a + b, c, builtins);
    }
  }

  lemma {:induction false} ClauseNamesAppend(gs: seq<Generator>, g: Generator)
    ensures ClauseNames(gs + [g]) == ClauseNames(gs) + TargetNames(g.target)
  {
    if gs == [] {
      assert [g][1..] == [];
    } else {
      assert (gs + [g])[1..] == gs[1..] + [g];
      ClauseNamesAppend(gs[1..], g);
    }
  }

  lemma ReportNone(ps: seq<Problem>, builtins: set<string>)
    ensures Report(ps, [], builtins) == ps
  {
  }
}
