/** Where the analyser and its own description part ways. */
module UndefinedNamesLimits {
  import opened Common
  import opened PythonSyntax
  import opened NameResolution
  import opened UndefinedNames
  import opened UndefinedNamesTheorems

  // ----- Annotations that are strings ---------------------------------------------------

  /** The outermost lambdas and comprehensions of an expression, from left to right. */
  function Thunks(e: Expr): seq<Expr>
  {
    match e
    case Name(_, _, _) => []
    case Display(elts) => ThunksAll(elts)
    case Starred(value) => Thunks(value)
    case Place(value, index) => Thunks(value) + ThunksAll(index)
    case Other(children) => ThunksAll(children)
    case _ => [e]
  }

  function ThunksAll(es: seq<Expr>): seq<Expr>
  {
    if es == [] then [] else Thunks(es[0]) + ThunksAll(es[1..])
  }

  lemma {:induction false} ExprsConcat(a: seq<Expr>, b: seq<Expr>, w: Where, ann: bool)
    ensures ExprsUses(a + b, w, ann) == ExprsUses(a, w, ann) + ExprsUses(b, w, ann)
  {
    hide ExprUses;
    if a == [] {
      assert a + b == b;
    } else {
      assert (a + b)[1..] == a[1..] + b;
      ExprsConcat(a[1..], b, w, ann);
    }
  }

  /** In an annotation that is never evaluated the pass looks at no name, except that it treats
      every lambda and comprehension in it as if it were evaluated. */
  lemma {:induction false} AnnotationUses(e: Expr, w: Where)
    ensures ExprUses(e, w, true) == ExprsUses(Thunks(e), w, false)
  {
    match e
    case Name(_, _, _) =>
    case Display(elts) => AnnotationUsesAll(elts, w);
    case Starred(value) => AnnotationUses(value, w);
    case Place(value, index) =>
      AnnotationUses(value, w);
      AnnotationUsesAll(index, w);
      ExprsConcat(Thunks(value), ThunksAll(index), w, false);
    case Other(children) => AnnotationUsesAll(children, w);
    case _ =>
      assert [e][1..] == [] && ExprsUses([], w, false) == [];
      assert ExprsUses([e], w, false) == ExprUses(e, w, false) + [];
  }

  lemma {:induction false} AnnotationUsesAll(es: seq<Expr>, w: Where)
    ensures ExprsUses(es, w, true) == ExprsUses(ThunksAll(es), w, false)
  {
    hide ExprUses, Thunks;
    if es != [] {
      AnnotationUses(es[0], w);
      AnnotationUsesAll(es[1..], w);
      ExprsConcat(Thunks(es[0]), ThunksAll(es[1..]), w, false);
    }
  }

  function FutureImport(): Stmt
  {
    ImportFrom("__future__", [Alias("annotations", "annotations")])
  }

  /** `[name for y in ()]` on a given line. */
  function NameInComprehension(name: string, line: nat): (e: Expr)
    ensures e.Comprehension?
  {
    Comprehension([Name(name, Load, line)], [Generator(Name("y", Store, line), Display([]), [])])
  }

  /** A module that imports the future annotations and declares `x: [name for y in ()]`. */
  function QuotedComprehension(name: string, line: nat): seq<Stmt>
  {
    [FutureImport(), AnnAssign(Name("x", Store, line), NameInComprehension(name, line), None)]
  }

  lemma OneStatement(s: Stmt)
    ensures BindsAll([s]) == Binds(s) && BoundNamesAll([s]) == BoundNames(s) && ExportsAll([s]) == Exports(s)
    ensures forall g :: DeclaresAll([s], g) == Declares(s, g)
    ensures forall w :: StmtsUses([s], w) == StmtUses(s, w)
  {
    assert [s][1..] == [];
    assert forall w :: StmtUses(s, w) + [] == StmtUses(s, w);
  }

  lemma TwoStatements(s: Stmt, t: Stmt)
    ensures BindsAll([s, t]) == Binds(s) + Binds(t) && BoundNamesAll([s, t]) == BoundNames(s) + BoundNames(t)
    ensures ExportsAll([s, t]) == Exports(s) + Exports(t)
    ensures forall g :: DeclaresAll([s, t], g) == Declares(s, g) + Declares(t, g)
    ensures forall w: Where :: StmtsUses([s, t], w)
                               == StmtUses(s, w) + StmtUses(t, w.(declared := w.declared + Entered(s)))
  {
    assert [s, t][1..] == [t];
    OneStatement(t);
  }

  lemma OneExpression(e: Expr, w: Where, ann: bool)
    ensures ExprsUses([e], w, ann) == ExprUses(e, w, ann)
    ensures TargetNamesAll([e]) == TargetNames(e) && TargetsBind([e]) == TargetBinds(e)
  {
    assert [e][1..] == [];
    assert ExprUses(e, w, ann) + [] == ExprUses(e, w, ann);
  }

  lemma ComprehensionUse(name: string, line: nat, w: Where)
    ensures ExprUses(NameInComprehension(name, line), w, true)
         == [Use(name, line, w.Inside(ComprehensionBlock(NameInComprehension(name, line).generators)))]
  {
    var e := NameInComprehension(name, line);
    var gs := e.generators;
    var g := gs[0];
    assert gs[1..] == [] && gs == [g] && [] + [g] == gs && g.conds == [];
    OneExpression(Name(name, Load, line), w.Inside(ComprehensionBlock(gs)), false);
    assert ClauseUses(gs[1..], gs, w) == [];
    assert ExprUses(g.iter, w, false) == [];
    assert ExprsUses(g.conds, w.Inside(ComprehensionBlock(gs)), false) == [];
    assert ClauseUses(gs, [], w) == [];
  }

  lemma QuotedStart(name: string, line: nat)
    ensures ModuleStart(QuotedComprehension(name, line))
         == Where([ModuleBlock(QuotedComprehension(name, line))], {}, true, false)
  {
    hide NameInComprehension;
    var tree := QuotedComprehension(name, line);
    assert tree[0] in tree && FutureImport().aliases[0].name == "annotations";
    assert FutureImport().aliases[0] in FutureImport().aliases;
    assert tree[1..] == [tree[1]] && tree[1..][1..] == [];
    assert ModuleDeclared(tree, {}) == ModuleDeclared(tree[1..], {}) == {};
  }

  lemma QuotedUses(name: string, line: nat)
    ensures var tree, gs := QuotedComprehension(name, line), NameInComprehension(name, line).generators;
            ModuleUses(tree) == [Use(name, line, Where([ComprehensionBlock(gs), ModuleBlock(tree)], {}, true, true))]
  {
    hide ExprUses, NameInComprehension, ModuleStart;
    var tree := QuotedComprehension(name, line);
    var w := ModuleStart(tree);
    QuotedStart(name, line);
    TwoStatements(tree[0], tree[1]);
    ComprehensionUse(name, line, w.InAnnotation());
    assert w.(declared := w.declared + {}) == w;
    assert StmtUses(tree[1], w) == [] + ExprUses(NameInComprehension(name, line), w.InAnnotation(), true);
    assert ModuleUses(tree) == [] + StmtUses(tree[1], w);
    var b := ComprehensionBlock(NameInComprehension(name, line).generators);
    assert [b] + w.env == [b, ModuleBlock(tree)];
  }

  /** So a name that is never evaluated is reported when it stands in a comprehension of such an
      annotation, which the pass means to avoid. */
  lemma QuotedNameReported(name: string, line: nat, builtins: set<string>)
    requires name !in builtins && name !in {"annotations", "x", "y"}
    ensures forall u :: u in ModuleUses(QuotedComprehension(name, line)) ==> u.at.quoted
    ensures (name, line) in Report([], ModuleUses(QuotedComprehension(name, line)), builtins)
  {
    hide ModuleUses, Report;
    var tree := QuotedComprehension(name, line);
    QuotedUses(name, line);
    var u := ModuleUses(tree)[0];
    ReportedExactly(tree, builtins, (name, line));
    assert name !in BoundNamesAll(tree) by {
      TwoStatements(tree[0], tree[1]);
      assert FutureImport().aliases[1..] == [];
    }
    assert !VisibleLocal(u.at.env, name) by {
      var gs := NameInComprehension(name, line).generators;
      assert gs[1..] == [] && ClauseNames(gs) == {"y"};
      VisibleStep(u.at.env, name);
      VisibleStep(u.at.env[1..], name);
    }
    assert UndefinedUse(tree, builtins, u);
  }

  // ----- Names that are bound somewhere ----------------------------------------------------

  function Getter(name: string, line: nat): seq<Stmt>
  {
    [Compound([Name(name, Load, line)], [], [])]
  }

  function NoArguments(): Arguments
  {
    Arguments([], None, None, [], [])
  }

  function Attribute(name: string, line: nat): Stmt
  {
    Assign([Name(name, Store, line)], Other([]))
  }

  function Method(name: string, line: nat): Stmt
  {
    FunctionDef("f", NoArguments(), Getter(name, line), [], None)
  }

  function ClassBody(name: string, line: nat): seq<Stmt>
  {
    [Attribute(name, line), Method(name, line)]
  }

  lemma GetterFacts(name: string, line: nat)
    ensures BindsAll(Getter(name, line)) == {} && ExportsAll(Getter(name, line)) == {}
    ensures forall g :: DeclaresAll(Getter(name, line), g) == {}
  {
    OneStatement(Getter(name, line)[0]);
  }

  lemma ClassFacts(name: string, line: nat)
    ensures BindsAll(ClassBody(name, line)) == {name, "f"} && ExportsAll(ClassBody(name, line)) == {}
    ensures name in BoundNamesAll(ClassBody(name, line))
    ensures forall g :: DeclaresAll(ClassBody(name, line), g) == {}
  {
    hide Attribute, Method, Binds, BoundNames, Exports, Declares;
    AttributeFacts(name, line);
    MethodFacts(name, line);
    TwoStatements(Attribute(name, line), Method(name, line));
  }

  lemma AttributeFacts(name: string, line: nat)
    ensures var s := Attribute(name, line);
            Binds(s) == BoundNames(s) == {name} && Exports(s) == {} && forall g :: Declares(s, g) == {}
  {
    OneExpression(Name(name, Store, line), ModuleStart([]), false);
  }

  lemma MethodFacts(name: string, line: nat)
    ensures var s := Method(name, line);
            Binds(s) == {"f"} && Exports(s) == {} && forall g :: Declares(s, g) == {}
  {
    hide Getter;
    GetterFacts(name, line);
  }

  /** `class A:` with `name = ...` and a method `f` whose body is the bare `name`. */
  function BareClassAttribute(name: string, line: nat): seq<Stmt>
  {
    [ClassDef("A", [], [], ClassBody(name, line), [])]
  }

  function MethodEnvironment(name: string, line: nat): seq<Block>
  {
    [FunctionBlock(NoArguments(), Getter(name, line)), ClassBlock(ClassBody(name, line)),
     ModuleBlock(BareClassAttribute(name, line))]
  }

  lemma MethodUse(name: string, line: nat)
    ensures exists u :: u in ModuleUses(BareClassAttribute(name, line)) && u.name == name
                        && u.at.env == MethodEnvironment(name, line)
  {
    hide TopGlobals, Entered;
    var tree, body, getter := BareClassAttribute(name, line), ClassBody(name, line), Getter(name, line);
    var w := ModuleStart(tree);
    var inClass := w.Enter(ClassBlock(body));
    var next := inClass.(declared := inClass.declared + Entered(body[0]));
    var inMethod := next.Enter(FunctionBlock(NoArguments(), getter));
    var u := Use(name, line, inMethod);
    assert u in StmtsUses(getter, inMethod) by {
      assert u in ExprsUses(getter[0].exprs, inMethod, false);
    }
    assert u in StmtsUses(body, inClass) by {
      hide Getter;
      assert body[1..][0] == body[1];
      assert StmtUses(body[1], next)[|StmtUses(body[1], next)| - |StmtsUses(getter, inMethod)|..] == StmtsUses(getter, inMethod);
      assert u in StmtUses(body[1], next);
      assert u in StmtsUses(body[1..], next);
    }
    assert u in StmtUses(tree[0], w) by {
      hide ClassBody;
      assert StmtUses(tree[0], w) == StmtsUses(body, inClass);
    }
    assert inMethod.env == MethodEnvironment(name, line);
  }

  lemma MethodUnresolved(name: string, line: nat, builtins: set<string>)
    requires name !in builtins && name != "A"
    ensures var env := MethodEnvironment(name, line);
            IsEnvironment(env) && !Resolves(env, builtins, name)
  {
    hide ClassBody, Getter;
    var env := MethodEnvironment(name, line);
    GetterFacts(name, line);
    ClassFacts(name, line);
    OneStatement(BareClassAttribute(name, line)[0]);
    assert env[1..][1..] == [env[2]];
    assert !ResolvesOutside([env[2]], builtins, name);
    assert !ResolvesOutside(env[1..], builtins, name);
  }

  /** A method cannot see its class's attributes, and the pass says it honours that; but since
      the pre-pass descends into class bodies, the use of one is never reported. */
  lemma BareClassAttributeMissed(name: string, line: nat, builtins: set<string>)
    requires name !in builtins && name != "A"
    ensures forall k: nat :: (name, k) !in Report([], ModuleUses(BareClassAttribute(name, line)), builtins)
    ensures exists u :: && u in ModuleUses(BareClassAttribute(name, line)) && u.name == name
                        && IsEnvironment(u.at.env) && !Resolves(u.at.env, builtins, u.name)
  {
    hide Report, ModuleUses, Resolves, MethodEnvironment, BareClassAttribute, BoundNamesAll;
    var tree := BareClassAttribute(name, line);
    AttributeFound(name, line);
    forall k: nat
      ensures (name, k) !in Report([], ModuleUses(tree), builtins)
    {
      ReportedExactly(tree, builtins, (name, k));
    }
    MethodUse(name, line);
    MethodUnresolved(name, line, builtins);
  }

  lemma AttributeFound(name: string, line: nat)
    ensures name in BoundNamesAll(BareClassAttribute(name, line))
  {
    hide ClassBody;
    ClassFacts(name, line);
    OneStatement(BareClassAttribute(name, line)[0]);
  }
}
