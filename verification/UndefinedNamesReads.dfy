/** The analyser looks at the names a module reads, in the blocks where Python reads them. */
module UndefinedNamesReads {
  import opened Common
  import opened PythonSyntax
  import opened NameResolution
  import opened UndefinedNames

  /** A name at a line, in a block, and whether it is taken to be in an unevaluated annotation. */
  datatype Site = Site(name: string, line: nat, env: seq<Block>, quoted: bool)

  function SiteOf(u: Use): Site
  {
    Site(u.name, u.line, u.at.env, u.at.quoted)
  }

  function Sites(us: seq<Use>): set<Site>
  {
    set u | u in us :: SiteOf(u)
  }

  /** The parts looked at: annotations are not, when they are strings, except for the lambdas and
      comprehensions in them. */
  predicate LookedAt(part: Part, lazy: bool)
  {
    part == Code || part == Deferred || (part == Annotated && !lazy)
  }

  function SitesRead(rs: set<Read>, lazy: bool): set<Site>
  {
    set r | r in rs && LookedAt(r.part, lazy) :: Site(r.name, r.line, r.env, lazy && r.part != Code)
  }

  // ----- Sets of sites -----------------------------------------------------------------------

  lemma SitesConcat(a: seq<Use>, b: seq<Use>)
    ensures Sites(a + b) == Sites(a) + Sites(b)
  {
    assert forall u :: u in a + b <==> u in a || u in b;
  }

  lemma SitesReadUnion(a: set<Read>, b: set<Read>, lazy: bool)
    ensures SitesRead(a + b, lazy) == SitesRead(a, lazy) + SitesRead(b, lazy)
  {
  }

  lemma NoSites(lazy: bool)
    ensures Sites([]) == {} && SitesRead({}, lazy) == {}
  {
  }

  lemma ApartUnseen(rs: set<Read>, lazy: bool)
    ensures SitesRead(SetApart(rs), lazy) == {}
  {
    assert forall r :: r in SetApart(rs) ==> r.part == Apart;
  }

  /** Both sides of a union agree when their parts do. */
  lemma Both(a: seq<Use>, b: seq<Use>, ra: set<Read>, rb: set<Read>, lazy: bool)
    requires Sites(a) == SitesRead(ra, lazy) && Sites(b) == SitesRead(rb, lazy)
    ensures Sites(a + b) == SitesRead(ra + rb, lazy)
  {
    SitesConcat(a, b);
    SitesReadUnion(ra, rb, lazy);
  }

  /** Reads that are set apart add nothing. */
  lemma WithApart(ra: set<Read>, rb: set<Read>, lazy: bool)
    requires SitesRead(rb, lazy) == {}
    ensures SitesRead(ra + rb, lazy) == SitesRead(ra, lazy) == SitesRead(rb + ra, lazy)
  {
    SitesReadUnion(ra, rb, lazy);
    SitesReadUnion(rb, ra, lazy);
  }

  // ----- Expressions ---------------------------------------------------------------------------

  /** The walk's flags say in what part of the module it stands. */
  predicate Stands(w: Where, ann: bool, part: Part)
  {
    && part != Apart && ann == (w.lazy && part == Annotated)
    && w.quoted == (w.lazy && part != Code)
  }

  lemma {:induction false} ExprLooked(e: Expr, w: Where, ann: bool, part: Part)
    requires Stands(w, ann, part)
    ensures Sites(ExprUses(e, w, ann)) == SitesRead(Reads(e, w.env, part), w.lazy)
    decreases e, 1
  {
    hide Sites, SitesRead;
    match e
    case Name(_, _, _) => NameLooked(e, w, ann, part);
    case Display(elts) => ExprsLooked(elts, w, ann, part);
    case Starred(value) => ExprLooked(value, w, ann, part);
    case Place(value, index) =>
      ExprLooked(value, w, ann, part);
      ExprsLooked(index, w, ann, part);
      Both(ExprUses(value, w, ann), ExprsUses(index, w, ann), Reads(value, w.env, part), ReadsAll(index, w.env, part), w.lazy);
    case Lambda(_, _) => LambdaLooked(e, w, ann, part);
    case Comprehension(_, _) => ComprehensionLooked(e, w, ann, part);
    case Other(children) => ExprsLooked(children, w, ann, part);
  }

  lemma NameLooked(e: Expr, w: Where, ann: bool, part: Part)
    requires e.Name? && Stands(w, ann, part)
    ensures Sites(ExprUses(e, w, ann)) == SitesRead(Reads(e, w.env, part), w.lazy)
  {
    NoSites(w.lazy);
    if e.ctx == Load {
      OneUse(Use(e.id, e.line, w));
      OneRead(Read(e.id, e.line, w.env, part), w.lazy);
    }
  }

  lemma OneUse(u: Use)
    ensures Sites([u]) == {SiteOf(u)}
  {
    assert forall v :: v in [u] <==> v == u;
  }

  lemma OneRead(r: Read, lazy: bool)
    ensures SitesRead({r}, lazy)
         == if LookedAt(r.part, lazy) then {Site(r.name, r.line, r.env, lazy && r.part != Code)} else {}
  {
    assert r in {r};
  }

  lemma {:induction false} LambdaLooked(e: Expr, w: Where, ann: bool, part: Part)
    requires e.Lambda? && Stands(w, ann, part)
    ensures Sites(ExprUses(e, w, ann)) == SitesRead(Reads(e, w.env, part), w.lazy)
    decreases e, 0
  {
    hide Sites, SitesRead, ArgumentUses, SignatureReads;
    var b := FunctionBlock(e.args, []);
    var inner := InnerPart(part);
    SignatureLooked(e.args, w, inner);
    ExprLooked(e.result, w.Inside(b), false, inner);
    Both(ArgumentUses(e.args, w), ExprUses(e.result, w.Inside(b), false),
         SignatureReads(e.args, w.env, inner), Reads(e.result, [b] + w.env, inner), w.lazy);
  }

  lemma {:induction false} ComprehensionLooked(e: Expr, w: Where, ann: bool, part: Part)
    requires e.Comprehension? && Stands(w, ann, part)
    ensures Sites(ExprUses(e, w, ann)) == SitesRead(Reads(e, w.env, part), w.lazy)
    decreases e, 0
  {
    hide Sites, SitesRead, ClauseUses, ClausesRead, ExprsUses, ReadsAll;
    var b := ComprehensionBlock(e.generators);
    var inner := InnerPart(part);
    assert e.generators[..0] == [] && e.generators[0..] == e.generators;
    ClausesLooked(e.generators, 0, w, inner);
    ExprsLooked(e.elements, w.Inside(b), false, inner);
    Both(ClauseUses(e.generators, [], w), ExprsUses(e.elements, w.Inside(b), false),
         ClausesRead(e.generators, 0, w.env, inner), ReadsAll(e.elements, [b] + w.env, inner), w.lazy);
  }

  lemma {:induction false} ExprsLooked(es: seq<Expr>, w: Where, ann: bool, part: Part)
    requires Stands(w, ann, part)
    ensures Sites(ExprsUses(es, w, ann)) == SitesRead(ReadsAll(es, w.env, part), w.lazy)
    decreases es, 0
  {
    hide Sites, SitesRead, ExprUses, Reads;
    if es == [] {
      NoSites(w.lazy);
    } else {
      ExprLooked(es[0], w, ann, part);
      ExprsLooked(es[1..], w, ann, part);
      Both(ExprUses(es[0], w, ann), ExprsUses(es[1..], w, ann),
           Reads(es[0], w.env, part), ReadsAll(es[1..], w.env, part), w.lazy);
    }
  }

  lemma {:induction false} ClausesLooked(gs: seq<Generator>, i: nat, w: Where, part: Part)
    requires i <= |gs| && Stands(w, false, part)
    ensures Sites(ClauseUses(gs[i..], gs[..i], w)) == SitesRead(ClausesRead(gs, i, w.env, part), w.lazy)
    decreases gs, |gs| - i
  {
    hide Sites, SitesRead, ExprUses, Reads, ExprsUses, ReadsAll;
    if i == |gs| {
      NoSites(w.lazy);
    } else {
      var g, begun, ahead := gs[i], gs[..i], gs[i..];
      assert ahead[0] == g && ahead[1..] == gs[i + 1..] && begun + [g] == gs[..i + 1];
      var here := if i == 0 then w else w.Inside(ComprehensionBlock(begun));
      var next := w.Inside(ComprehensionBlock(gs[..i + 1]));
      ExprLooked(g.iter, here, false, part);
      ExprsLooked(g.conds, next, false, part);
      ClausesLooked(gs, i + 1, w, part);
      var a, b, c := ExprUses(g.iter, here, false), ExprsUses(g.conds, next, false), ClauseUses(gs[i + 1..], gs[..i + 1], w);
      var ra, rb, rc := Reads(g.iter, here.env, part), ReadsAll(g.conds, next.env, part), ClausesRead(gs, i + 1, w.env, part);
      var target := SetApart(Reads(g.target, next.env, part));
      ApartUnseen(Reads(g.target, next.env, part), w.lazy);
      WithApart(ra, target, w.lazy);
      Both(a, b, ra + target, rb, w.lazy);
      Both(a + b, c, ra + target + rb, rc, w.lazy);
    }
  }

  lemma {:induction false} OptionalLooked(e: Option<Expr>, w: Where, ann: bool, part: Part)
    requires Stands(w, ann, part)
    ensures Sites(OptionalUses(e, w, ann)) == SitesRead(OptionalReads(e, w.env, part), w.lazy)
    decreases e, 0
  {
    hide Sites, SitesRead, ExprUses, Reads;
    if e.Some? {
      ExprLooked(e.value, w, ann, part);
    } else {
      NoSites(w.lazy);
    }
  }

  lemma {:induction false} ParametersLooked(ps: seq<Parameter>, w: Where, part: Part)
    requires Stands(w, false, part)
    ensures Sites(ParameterUses(ps, w)) == SitesRead(AnnotationReads(ps, w.env), w.lazy)
    decreases ps, 0
  {
    hide Sites, SitesRead, OptionalUses, OptionalReads;
    if ps == [] {
      NoSites(w.lazy);
    } else {
      OptionalLooked(ps[0].annotation, w.InAnnotation(), w.lazy, Annotated);
      ParametersLooked(ps[1..], w, part);
      Both(OptionalUses(ps[0].annotation, w.InAnnotation(), w.lazy), ParameterUses(ps[1..], w),
           OptionalReads(ps[0].annotation, w.env, Annotated), AnnotationReads(ps[1..], w.env), w.lazy);
    }
  }

  lemma RestUnseen(p: Option<Parameter>, env: seq<Block>, lazy: bool)
    ensures SitesRead(RestReads(p, env), lazy) == {}
  {
    hide SitesRead;
    NoSites(lazy);
    if p.Some? {
      ApartUnseen(OptionalReads(p.value.annotation, env, Annotated), lazy);
    }
  }

  lemma {:induction false} SignatureLooked(args: Arguments, w: Where, part: Part)
    requires Stands(w, false, part)
    ensures Sites(ArgumentUses(args, w)) == SitesRead(SignatureReads(args, w.env, part), w.lazy)
    decreases args, 0
  {
    hide Sites, SitesRead, ExprsUses, ReadsAll, ParameterUses, AnnotationReads, RestReads;
    var a, b, c := ExprsUses(args.defaults, w, false), ExprsUses(args.kwDefaults, w, false), ParameterUses(args.params, w);
    var ra, rb := ReadsAll(args.defaults, w.env, part), ReadsAll(args.kwDefaults, w.env, part);
    var rc := AnnotationReads(args.params, w.env);
    ExprsLooked(args.defaults, w, false, part);
    ExprsLooked(args.kwDefaults, w, false, part);
    ParametersLooked(args.params, w, part);
    Both(a, b, ra, rb, w.lazy);
    Both(a + b, c, ra + rb, rc, w.lazy);
    RestUnseen(args.vararg, w.env, w.lazy);
    RestUnseen(args.kwarg, w.env, w.lazy);
    WithApart(ra + rb + rc, RestReads(args.vararg, w.env), w.lazy);
    WithApart(ra + rb + rc + RestReads(args.vararg, w.env), RestReads(args.kwarg, w.env), w.lazy);
  }

  // ----- Statements ---------------------------------------------------------------------------

  /** Statements stand in no annotation. */
  lemma {:induction false} StatementLooked(s: Stmt, w: Where)
    requires !w.quoted
    ensures Sites(StmtUses(s, w)) == SitesRead(StatementReads(s, w.env), w.lazy)
    decreases s, 1
  {
    hide Sites, SitesRead, ExprUses, Reads, ExprsUses, ReadsAll, StmtsUses, BlockReads, ItemUses, ItemsRead;
    hide OptionalUses, OptionalReads;
    match s
    case FunctionDef(_, _, _, _, _) => FunctionLooked(s, w);
    case ClassDef(_, _, _, _, _) => ClassLooked(s, w);
    case Assign(targets, value) =>
      ExprsLooked(targets, w, false, Code);
      ExprLooked(value, w, false, Code);
      var ra, rb := ReadsAll(targets, w.env, Code), Reads(value, w.env, Code);
      Both(ExprsUses(targets, w, false), ExprUses(value, w, false), ra, rb, w.lazy);
      assert ra + rb == rb + ra;
    case AugAssign(target, value) => AugmentedLooked(s, w);
    case AnnAssign(_, _, _) => AnnotatedLooked(s, w);
    case For(target, iter, body, orelse) =>
      ExprLooked(target, w, false, Code);
      ExprLooked(iter, w, false, Code);
      var a, b := ExprUses(target, w, false), ExprUses(iter, w, false);
      var ra, rb := Reads(target, w.env, Code), Reads(iter, w.env, Code);
      Both(a, b, ra, rb, w.lazy);
      assert ra + rb == rb + ra;
      TwoBlocksLooked(s, w, a + b, rb + ra);
    case With(items, body) =>
      ItemsLooked(items, w);
      BlockLooked(body, w);
      Both(ItemUses(items, w), StmtsUses(body, w), ItemsRead(items, w.env), BlockReads(body, w.env), w.lazy);
    case Try(_, _, _, _) => TryLooked(s, w);
    case Compound(exprs, body, orelse) =>
      ExprsLooked(exprs, w, false, Code);
      TwoBlocksLooked(s, w, ExprsUses(exprs, w, false), ReadsAll(exprs, w.env, Code));
    case _ => NoSites(w.lazy);
  }

  lemma {:induction false} FunctionLooked(s: Stmt, w: Where)
    requires s.FunctionDef? && !w.quoted
    ensures Sites(StmtUses(s, w)) == SitesRead(StatementReads(s, w.env), w.lazy)
    decreases s, 0
  {
    hide Sites, SitesRead, ExprsUses, ReadsAll, ArgumentUses, SignatureReads, OptionalUses, OptionalReads, StmtsUses, BlockReads;
    var block := FunctionBlock(s.args, s.body);
    var a, b := ExprsUses(s.decorators, w, false), ArgumentUses(s.args, w);
    var c, d := OptionalUses(s.result, w.InAnnotation(), w.lazy), StmtsUses(s.body, w.Enter(block));
    var ra, rb := ReadsAll(s.decorators, w.env, Code), SignatureReads(s.args, w.env, Code);
    var rc, rd := OptionalReads(s.result, w.env, Annotated), BlockReads(s.body, [block] + w.env);
    ExprsLooked(s.decorators, w, false, Code);
    SignatureLooked(s.args, w, Code);
    OptionalLooked(s.result, w.InAnnotation(), w.lazy, Annotated);
    BlockLooked(s.body, w.Enter(block));
    Both(a, b, ra, rb, w.lazy);
    Both(a + b, c, ra + rb, rc, w.lazy);
    Both(a + b + c, d, ra + rb + rc, rd, w.lazy);
  }

  lemma {:induction false} ClassLooked(s: Stmt, w: Where)
    requires s.ClassDef? && !w.quoted
    ensures Sites(StmtUses(s, w)) == SitesRead(StatementReads(s, w.env), w.lazy)
    decreases s, 0
  {
    hide Sites, SitesRead, ExprsUses, ReadsAll, StmtsUses, BlockReads;
    var block := ClassBlock(s.body);
    var a, b := ExprsUses(s.decorators, w, false), ExprsUses(s.bases, w, false);
    var c, d := ExprsUses(s.keywords, w, false), StmtsUses(s.body, w.Enter(block));
    var ra, rb := ReadsAll(s.decorators, w.env, Code), ReadsAll(s.bases, w.env, Code);
    var rc, rd := ReadsAll(s.keywords, w.env, Code), BlockReads(s.body, [block] + w.env);
    ExprsLooked(s.decorators, w, false, Code);
    ExprsLooked(s.bases, w, false, Code);
    ExprsLooked(s.keywords, w, false, Code);
    BlockLooked(s.body, w.Enter(block));
    Both(a, b, ra, rb, w.lazy);
    Both(a + b, c, ra + rb, rc, w.lazy);
    Both(a + b + c, d, ra + rb + rc, rd, w.lazy);
  }

  lemma AugmentedLooked(s: Stmt, w: Where)
    requires s.AugAssign? && !w.quoted
    ensures Sites(StmtUses(s, w)) == SitesRead(StatementReads(s, w.env), w.lazy)
  {
    hide Sites, SitesRead, ExprUses, Reads;
    var a, b := ExprUses(s.target, w, false), ExprUses(s.value, w, false);
    var ra, rb := Reads(s.target, w.env, Code), Reads(s.value, w.env, Code);
    var own := if s.target.Name? then {Read(s.target.id, s.target.line, w.env, Apart)} else {};
    ExprLooked(s.target, w, false, Code);
    ExprLooked(s.value, w, false, Code);
    assert own == SetApart(own);
    ApartUnseen(own, w.lazy);
    WithApart(ra, own, w.lazy);
    Both(a, b, own + ra, rb, w.lazy);
  }

  lemma AnnotatedLooked(s: Stmt, w: Where)
    requires s.AnnAssign? && !w.quoted
    ensures Sites(StmtUses(s, w)) == SitesRead(StatementReads(s, w.env), w.lazy)
  {
    hide Sites, SitesRead, ExprUses, Reads, OptionalUses, OptionalReads, SetApart;
    var a, b := OptionalUses(s.initial, w, false), ExprUses(s.annotation, w.InAnnotation(), w.lazy);
    var ra, rb := OptionalReads(s.initial, w.env, Code), Reads(s.annotation, w.env, Annotated);
    var target := SetApart(Reads(s.target, w.env, Code));
    OptionalLooked(s.initial, w, false, Code);
    ExprLooked(s.annotation, w.InAnnotation(), w.lazy, Annotated);
    Both(a, b, ra, rb, w.lazy);
    ApartUnseen(Reads(s.target, w.env, Code), w.lazy);
    WithApart(ra + rb, target, w.lazy);
    assert target + rb + ra == target + (ra + rb);
  }

  lemma {:induction false} TwoBlocksLooked(s: Stmt, w: Where, before: seq<Use>, rs: set<Read>)
    requires (s.For? || s.Compound?) && !w.quoted
    requires Sites(before) == SitesRead(rs, w.lazy)
    ensures Sites(before + StmtsUses(s.body, w) + StmtsUses(s.orelse, w.After(s.body)))
         == SitesRead(rs + BlockReads(s.body, w.env) + BlockReads(s.orelse, w.env), w.lazy)
    decreases s, 0
  {
    hide Sites, SitesRead, StmtsUses, BlockReads;
    var a, b := StmtsUses(s.body, w), StmtsUses(s.orelse, w.After(s.body));
    var ra, rb := BlockReads(s.body, w.env), BlockReads(s.orelse, w.env);
    BlockLooked(s.body, w);
    BlockLooked(s.orelse, w.After(s.body));
    Both(before, a, rs, ra, w.lazy);
    Both(before + a, b, rs + ra, rb, w.lazy);
  }

  lemma {:induction false} TryLooked(s: Stmt, w: Where)
    requires s.Try? && !w.quoted
    ensures Sites(StmtUses(s, w)) == SitesRead(StatementReads(s, w.env), w.lazy)
    decreases s, 0
  {
    hide Sites, SitesRead, StmtsUses, BlockReads, HandlerUses, HandlersRead;
    var w1 := w.After(s.body);
    var w2 := w1.(declared := w1.declared + HandlersEntered(s.handlers));
    var w3 := w2.After(s.orelse);
    var a, b := StmtsUses(s.body, w), HandlerUses(s.handlers, w1);
    var c, d := StmtsUses(s.orelse, w2), StmtsUses(s.finalbody, w3);
    var ra, rb := BlockReads(s.body, w.env), HandlersRead(s.handlers, w.env);
    var rc, rd := BlockReads(s.orelse, w.env), BlockReads(s.finalbody, w.env);
    BlockLooked(s.body, w);
    HandlersLooked(s.handlers, w1);
    BlockLooked(s.orelse, w2);
    BlockLooked(s.finalbody, w3);
    Both(a, b, ra, rb, w.lazy);
    Both(a + b, c, ra + rb, rc, w.lazy);
    Both(a + b + c, d, ra + rb + rc, rd, w.lazy);
  }

  lemma {:induction false} BlockLooked(ss: seq<Stmt>, w: Where)
    requires !w.quoted
    ensures Sites(StmtsUses(ss, w)) == SitesRead(BlockReads(ss, w.env), w.lazy)
    decreases ss, 0
  {
    hide Sites, SitesRead, StmtUses, StatementReads, Entered;
    if ss == [] {
      NoSites(w.lazy);
    } else {
      var next := w.(declared := w.declared + Entered(ss[0]));
      StatementLooked(ss[0], w);
      BlockLooked(ss[1..], next);
      Both(StmtUses(ss[0], w), StmtsUses(ss[1..], next), StatementReads(ss[0], w.env), BlockReads(ss[1..], w.env), w.lazy);
    }
  }

  lemma {:induction false} ItemsLooked(items: seq<WithItem>, w: Where)
    requires !w.quoted
    ensures Sites(ItemUses(items, w)) == SitesRead(ItemsRead(items, w.env), w.lazy)
    decreases items, 0
  {
    hide Sites, SitesRead, ExprUses, Reads, OptionalUses, OptionalReads;
    if items == [] {
      NoSites(w.lazy);
    } else {
      var i := items[0];
      var a, b, c := ExprUses(i.context, w, false), OptionalUses(i.vars, w, false), ItemUses(items[1..], w);
      var ra, rb, rc := Reads(i.context, w.env, Code), OptionalReads(i.vars, w.env, Code), ItemsRead(items[1..], w.env);
      ExprLooked(i.context, w, false, Code);
      OptionalLooked(i.vars, w, false, Code);
      ItemsLooked(items[1..], w);
      Both(a, b, ra, rb, w.lazy);
      Both(a + b, c, ra + rb, rc, w.lazy);
    }
  }

  lemma {:induction false} HandlersLooked(hs: seq<Handler>, w: Where)
    requires !w.quoted
    ensures Sites(HandlerUses(hs, w)) == SitesRead(HandlersRead(hs, w.env), w.lazy)
    decreases hs, 0
  {
    hide Sites, SitesRead, OptionalUses, OptionalReads, StmtsUses, BlockReads;
    if hs == [] {
      NoSites(w.lazy);
    } else {
      var h := hs[0];
      var a, b, c := OptionalUses(h.kind, w, false), StmtsUses(h.body, w), HandlerUses(hs[1..], w.After(h.body));
      var ra, rb, rc := OptionalReads(h.kind, w.env, Code), BlockReads(h.body, w.env), HandlersRead(hs[1..], w.env);
      OptionalLooked(h.kind, w, false, Code);
      BlockLooked(h.body, w);
      HandlersLooked(hs[1..], w.After(h.body));
      Both(a, b, ra, rb, w.lazy);
      Both(a + b, c, ra + rb, rc, w.lazy);
    }
  }

  // ----- Modules ------------------------------------------------------------------------------

  lemma LazyExactly(tree: seq<Stmt>)
    ensures LazyAnnotations(tree) <==> AnnotationsAreStrings(tree)
  {
    if LazyAnnotations(tree) {
      var s :| s in tree && s.ImportFrom? && s.origin == "__future__" && exists a :: a in s.aliases && a.name == "annotations";
      var a :| a in s.aliases && a.name == "annotations";
      var i :| 0 <= i < |tree| && tree[i] == s;
      var j :| 0 <= j < |s.aliases| && s.aliases[j] == a;
      assert tree[i].aliases[j].name == "annotations";
    }
    if i, j :| 0 <= i < |tree| && tree[i].ImportFrom? && tree[i].origin == "__future__"
               && 0 <= j < |tree[i].aliases| && tree[i].aliases[j].name == "annotations" {
      assert tree[i] in tree && tree[i].aliases[j] in tree[i].aliases;
    }
  }

  /** A read that the analyser looks at. */
  ghost predicate IsLookedAt(r: Read, tree: seq<Stmt>)
  {
    r in ModuleReads(tree) && LookedAt(r.part, AnnotationsAreStrings(tree))
  }

  /** The walk looks at exactly the reads of the module that are not set apart and not directly in an
      unevaluated annotation: each in the block in which Python reads it. */
  lemma UsesExactly(tree: seq<Stmt>)
    ensures Sites(ModuleUses(tree)) == SitesRead(ModuleReads(tree), AnnotationsAreStrings(tree))
  {
    hide Sites, SitesRead, AnnotationsAreStrings, LazyAnnotations;
    LazyExactly(tree);
    BlockLooked(tree, ModuleStart(tree));
  }

  lemma ReadOfUse(tree: seq<Stmt>, u: Use) returns (r: Read)
    requires u in ModuleUses(tree)
    ensures IsLookedAt(r, tree) && r.name == u.name && r.line == u.line && r.env == u.at.env
  {
    hide ModuleUses, ModuleReads, AnnotationsAreStrings;
    UsesExactly(tree);
    assert SiteOf(u) in Sites(ModuleUses(tree));
    r :| IsLookedAt(r, tree) && Site(r.name, r.line, r.env, AnnotationsAreStrings(tree) && r.part != Code) == SiteOf(u);
  }

  lemma UseOfRead(tree: seq<Stmt>, r: Read) returns (u: Use)
    requires IsLookedAt(r, tree)
    ensures u in ModuleUses(tree) && r.name == u.name && r.line == u.line && r.env == u.at.env
  {
    hide ModuleUses, ModuleReads, AnnotationsAreStrings;
    UsesExactly(tree);
    var site := Site(r.name, r.line, r.env, AnnotationsAreStrings(tree) && r.part != Code);
    assert site in SitesRead(ModuleReads(tree), AnnotationsAreStrings(tree));
    u :| u in ModuleUses(tree) && SiteOf(u) == site;
  }
}
