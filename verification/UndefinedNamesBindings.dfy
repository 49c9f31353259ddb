/** What the binding pre-pass finds, by where the names stand. */
module UndefinedNamesBindings {
  import opened Common
  import opened PythonSyntax
  import opened NameResolution
  import opened UndefinedNames

  // ----- Python's bindings are among those of the pre-pass ---------------------------

  lemma {:induction false} TargetWithin(e: Expr)
    ensures TargetBinds(e) <= TargetNames(e)
  {
    match e
    case Display(elts) => TargetsWithin(elts);
    case Starred(value) => TargetWithin(value);
    case _ =>
  }

  lemma {:induction false} TargetsWithin(es: seq<Expr>)
    ensures TargetsBind(es) <= TargetNamesAll(es)
  {
    if es != [] {
      TargetWithin(es[0]);
      TargetsWithin(es[1..]);
    }
  }

  lemma {:induction false} ClausesWithin(gs: seq<Generator>)
    ensures ClausesBind(gs) <= ClauseNames(gs)
  {
    if gs != [] {
      TargetWithin(gs[0].target);
      ClausesWithin(gs[1..]);
    }
  }

  /** The pre-pass finds every name a statement binds in its own block, and every name that a
      nested function or class binds in the module's namespace through `global`. */
  lemma {:induction false} StatementWithin(s: Stmt)
    ensures Binds(s) <= BoundNames(s) && Exports(s) <= BoundNames(s)
  {
    match s
    case FunctionDef(_, _, body, _, _) => BlockWithin(body);
    case ClassDef(_, _, _, body, _) => BlockWithin(body);
    case Assign(targets, _) => TargetsWithin(targets);
    case AugAssign(target, _) => TargetWithin(target);
    case AnnAssign(target, _, _) => TargetWithin(target);
    case For(target, _, body, orelse) => TargetWithin(target); BlockWithin(body); BlockWithin(orelse);
    case With(items, body) => ItemsWithin(items); BlockWithin(body);
    case Try(body, handlers, orelse, finalbody) =>
      BlockWithin(body); HandlersWithin(handlers); BlockWithin(orelse); BlockWithin(finalbody);
    case Compound(_, body, orelse) => BlockWithin(body); BlockWithin(orelse);
    case _ =>
  }

  lemma {:induction false} BlockWithin(ss: seq<Stmt>)
    ensures BindsAll(ss) <= BoundNamesAll(ss) && ExportsAll(ss) <= BoundNamesAll(ss)
  {
    if ss != [] {
      StatementWithin(ss[0]);
      BlockWithin(ss[1..]);
    }
  }

  lemma {:induction false} ItemsWithin(items: seq<WithItem>)
    ensures ItemsBind(items) <= ItemNames(items)
  {
    if items != [] {
      if items[0].vars.Some? {
        TargetWithin(items[0].vars.value);
      }
      ItemsWithin(items[1..]);
    }
  }

  lemma {:induction false} HandlersWithin(hs: seq<Handler>)
    ensures HandlersBind(hs) <= HandlerNames(hs) && HandlersExport(hs) <= HandlerNames(hs)
  {
    if hs != [] {
      BlockWithin(hs[0].body);
      HandlersWithin(hs[1..]);
    }
  }

  // ----- Parameters and imports ------------------------------------------------------------

  lemma {:induction false} ParameterNamesExactly(ps: seq<Parameter>, x: string)
    ensures x in ParameterNames(ps) <==> exists p :: p in ps && p.name == x
  {
    if ps != [] {
      ParameterNamesExactly(ps[1..], x);
      assert ps == [ps[0]] + ps[1..];
    }
  }

  /** A function's parameters are the named ones, and those behind `*` and `**`. */
  lemma ArgNamesExactly(args: Arguments, x: string)
    ensures x in ArgNames(args)
       <==> || (exists p :: p in args.params && p.name == x)
            || (args.vararg.Some? && args.vararg.value.name == x)
            || (args.kwarg.Some? && args.kwarg.value.name == x)
  {
    ParameterNamesExactly(args.params, x);
  }

  /** The part before the first dot, or all of a name without one. */
  lemma {:induction false} FirstComponentExactly(name: string, f: string)
    ensures f == FirstComponent(name)
       <==> '.' !in f && f <= name && (f == name || name[|f|] == '.')
  {
    if name == "" || name[0] == '.' {
      assert f != "" && f <= name ==> f[0] == name[0];
    } else if f == "" {
      assert f != name;
    } else {
      FirstComponentExactly(name[1..], f[1..]);
      assert f == [f[0]] + f[1..] && name == [name[0]] + name[1..];
      assert f <= name <==> f[0] == name[0] && f[1..] <= name[1..];
    }
  }

  /** An import binds the alias of a name, or else what stands before its first dot. */
  lemma {:induction false} AliasNamesExactly(aliases: seq<Alias>, x: string)
    ensures x in AliasNames(aliases)
       <==> exists a :: a in aliases && x == if a.asname != "" then a.asname else FirstComponent(a.name)
  {
    hide FirstComponent;
    if aliases != [] {
      AliasNamesExactly(aliases[1..], x);
      assert aliases == [aliases[0]] + aliases[1..];
    }
  }

  // ----- Targets -----------------------------------------------------------------------------

  /** The names that attributes and subscripts in a target start from: they are not bound. */
  function PlaceBases(e: Expr): set<string>
  {
    match e
    case Display(elts) => PlaceBasesAll(elts)
    case Starred(value) => PlaceBases(value)
    case Place(value, _) => TargetBinds(value) + PlaceBases(value)
    case _ => {}
  }

  function PlaceBasesAll(es: seq<Expr>): set<string>
  {
    if es == [] then {} else PlaceBases(es[0]) + PlaceBasesAll(es[1..])
  }

  lemma {:induction false} TargetNamesExactly(e: Expr)
    ensures TargetNames(e) == TargetBinds(e) + PlaceBases(e)
  {
    match e
    case Display(elts) => TargetNamesAllExactly(elts);
    case Starred(value) => TargetNamesExactly(value);
    case Place(value, _) => TargetNamesExactly(value);
    case _ =>
  }

  lemma {:induction false} TargetNamesAllExactly(es: seq<Expr>)
    ensures TargetNamesAll(es) == TargetsBind(es) + PlaceBasesAll(es)
  {
    hide TargetNames, TargetBinds, PlaceBases;
    if es != [] {
      TargetNamesExactly(es[0]);
      TargetNamesAllExactly(es[1..]);
    }
  }

  function ItemBases(items: seq<WithItem>): set<string>
  {
    if items == [] then {}
    else (if items[0].vars.Some? then PlaceBases(items[0].vars.value) else {}) + ItemBases(items[1..])
  }

  lemma {:induction false} ItemNamesExactly(items: seq<WithItem>)
    ensures ItemNames(items) == ItemsBind(items) + ItemBases(items)
  {
    hide TargetNames, TargetBinds, PlaceBases;
    if items != [] {
      if items[0].vars.Some? {
        TargetNamesExactly(items[0].vars.value);
      }
      ItemNamesExactly(items[1..]);
    }
  }

  /** The bases of a statement's own targets. */
  function BasesOf(s: Stmt): set<string>
  {
    match s
    case Assign(targets, _) => PlaceBasesAll(targets)
    case AugAssign(target, _) => PlaceBases(target)
    case AnnAssign(target, _, _) => PlaceBases(target)
    case For(target, _, _, _) => PlaceBases(target)
    case With(items, _) => ItemBases(items)
    case _ => {}
  }

  // ----- Statements at any depth ---------------------------------------------------------------

  /** `s` stands somewhere in a block, inside nested functions and classes too. */
  ghost predicate Occurs(s: Stmt, ss: seq<Stmt>)
    decreases ss
  {
    ss != [] && (s == ss[0] || OccursIn(s, ss[0]) || Occurs(s, ss[1..]))
  }

  ghost predicate OccursIn(s: Stmt, t: Stmt)
    decreases t
  {
    match t
    case FunctionDef(_, _, body, _, _) => Occurs(s, body)
    case ClassDef(_, _, _, body, _) => Occurs(s, body)
    case For(_, _, body, orelse) => Occurs(s, body) || Occurs(s, orelse)
    case With(_, body) => Occurs(s, body)
    case Try(body, handlers, orelse, finalbody) =>
      Occurs(s, body) || OccursInHandlers(s, handlers) || Occurs(s, orelse) || Occurs(s, finalbody)
    case Compound(_, body, orelse) => Occurs(s, body) || Occurs(s, orelse)
    case _ => false
  }

  ghost predicate OccursInHandlers(s: Stmt, hs: seq<Handler>)
    decreases hs
  {
    hs != [] && (Occurs(s, hs[0].body) || OccursInHandlers(s, hs[1..]))
  }

  /** The statement binds the name in its own block, or a target of it starts from the name. */
  predicate Mentions(s: Stmt, x: string)
  {
    x in Binds(s) || x in BasesOf(s)
  }

  lemma {:induction false} MentionIn(t: Stmt, x: string) returns (s: Stmt)
    requires x in BoundNames(t)
    ensures (s == t || OccursIn(s, t)) && Mentions(s, x)
    decreases t, 1
  {
    hide TargetNames, TargetNamesAll, TargetBinds, TargetsBind, PlaceBases, PlaceBasesAll, ItemNames, ItemsBind, ItemBases;
    s := t;
    match t
    case FunctionDef(name, _, body, _, _) =>
      if x != name { s := MentionInBlock(body, x); }
    case ClassDef(name, _, _, body, _) =>
      if x != name { s := MentionInBlock(body, x); }
    case Assign(targets, _) => TargetNamesAllExactly(targets);
    case AugAssign(target, _) => TargetNamesExactly(target);
    case AnnAssign(target, _, _) => TargetNamesExactly(target);
    case For(target, _, body, orelse) =>
      TargetNamesExactly(target);
      if x in BoundNamesAll(body) {
        s := MentionInBlock(body, x);
      } else if x in BoundNamesAll(orelse) {
        s := MentionInBlock(orelse, x);
      }
    case With(items, body) =>
      ItemNamesExactly(items);
      if x in BoundNamesAll(body) {
        s := MentionInBlock(body, x);
      }
    case Try(_, _, _, _) => s := MentionInTry(t, x);
    case Compound(_, body, orelse) =>
      if x in BoundNamesAll(body) {
        s := MentionInBlock(body, x);
      } else {
        s := MentionInBlock(orelse, x);
      }
    case _ =>
  }

  lemma {:induction false} MentionInTry(t: Stmt, x: string) returns (s: Stmt)
    requires t.Try? && x in BoundNames(t)
    ensures (s == t || OccursIn(s, t)) && Mentions(s, x)
    decreases t, 0
  {
    if x in BoundNamesAll(t.body) {
      s := MentionInBlock(t.body, x);
    } else if x in BoundNamesAll(t.orelse) {
      s := MentionInBlock(t.orelse, x);
    } else if x in BoundNamesAll(t.finalbody) {
      s := MentionInBlock(t.finalbody, x);
    } else {
      var own, r := MentionInHandlers(t.handlers, x);
      s := if own then t else r;
    }
  }

  lemma {:induction false} MentionInHandlers(hs: seq<Handler>, x: string) returns (own: bool, s: Stmt)
    requires x in HandlerNames(hs)
    ensures if own then x in HandlersBind(hs) else OccursInHandlers(s, hs) && Mentions(s, x)
    decreases hs, 0
  {
    if x in OptionalName(hs[0].name) {
      own, s := true, Global([]);
    } else if x in BoundNamesAll(hs[0].body) {
      own := false;
      s := MentionInBlock(hs[0].body, x);
    } else {
      own, s := MentionInHandlers(hs[1..], x);
    }
  }

  lemma {:induction false} MentionInBlock(ss: seq<Stmt>, x: string) returns (s: Stmt)
    requires x in BoundNamesAll(ss)
    ensures Occurs(s, ss) && Mentions(s, x)
    decreases ss, 0
  {
    hide Mentions, BoundNames, OccursIn;
    if x in BoundNames(ss[0]) {
      s := MentionIn(ss[0], x);
    } else {
      s := MentionInBlock(ss[1..], x);
    }
  }

  lemma MentionFound(s: Stmt, x: string)
    requires Mentions(s, x)
    ensures x in BoundNames(s)
  {
    hide TargetNames, TargetNamesAll, TargetBinds, TargetsBind, PlaceBases, PlaceBasesAll, ItemNames, ItemsBind, ItemBases;
    StatementWithin(s);
    match s
    case Assign(targets, _) => TargetNamesAllExactly(targets);
    case AugAssign(target, _) => TargetNamesExactly(target);
    case AnnAssign(target, _, _) => TargetNamesExactly(target);
    case For(target, _, _, _) => TargetNamesExactly(target);
    case With(items, _) => ItemNamesExactly(items);
    case _ =>
  }

  lemma {:induction false} OccurrenceWithin(s: Stmt, t: Stmt)
    requires OccursIn(s, t)
    ensures BoundNames(s) <= BoundNames(t)
    decreases t, 1
  {
    match t
    case FunctionDef(_, _, body, _, _) => OccurrenceInBlock(s, body);
    case ClassDef(_, _, _, body, _) => OccurrenceInBlock(s, body);
    case For(_, _, body, orelse) =>
      if Occurs(s, body) { OccurrenceInBlock(s, body); } else { OccurrenceInBlock(s, orelse); }
    case With(_, body) => OccurrenceInBlock(s, body);
    case Try(body, handlers, orelse, finalbody) =>
      if Occurs(s, body) { OccurrenceInBlock(s, body); }
      else if Occurs(s, orelse) { OccurrenceInBlock(s, orelse); }
      else if Occurs(s, finalbody) { OccurrenceInBlock(s, finalbody); }
      else { OccurrenceInHandlers(s, handlers); }
    case Compound(_, body, orelse) =>
      if Occurs(s, body) { OccurrenceInBlock(s, body); } else { OccurrenceInBlock(s, orelse); }
  }

  lemma {:induction false} OccurrenceInBlock(s: Stmt, ss: seq<Stmt>)
    requires Occurs(s, ss)
    ensures BoundNames(s) <= BoundNamesAll(ss)
    decreases ss, 0
  {
    hide BoundNames, OccursIn;
    if OccursIn(s, ss[0]) {
      OccurrenceWithin(s, ss[0]);
    } else if s != ss[0] {
      OccurrenceInBlock(s, ss[1..]);
    }
  }

  lemma {:induction false} OccurrenceInHandlers(s: Stmt, hs: seq<Handler>)
    requires OccursInHandlers(s, hs)
    ensures BoundNames(s) <= HandlerNames(hs)
    decreases hs, 0
  {
    hide BoundNames;
    if Occurs(s, hs[0].body) {
      OccurrenceInBlock(s, hs[0].body);
    } else {
      OccurrenceInHandlers(s, hs[1..]);
    }
  }

  /** The pre-pass over a block takes a name to be bound if and only if some statement in it, at any
      depth and in nested functions and classes too, binds the name in its own block or assigns to
      an attribute or subscript that starts from it. */
  lemma BoundExactly(ss: seq<Stmt>, x: string)
    ensures x in BoundNamesAll(ss) <==> exists s :: Occurs(s, ss) && Mentions(s, x)
  {
    hide BoundNamesAll, Occurs, Mentions;
    if x in BoundNamesAll(ss) {
      var s := MentionInBlock(ss, x);
    }
    if s :| Occurs(s, ss) && Mentions(s, x) {
      MentionFound(s, x);
      OccurrenceInBlock(s, ss);
    }
  }

  // ----- Declarations --------------------------------------------------------------------------

  predicate Says(s: Stmt, x: string)
  {
    (s.Global? || s.Nonlocal?) && x in s.names
  }

  lemma {:induction false} TopGlobalsExactly(body: seq<Stmt>, x: string)
    ensures x in TopGlobals(body) <==> exists s :: s in body && s.Global? && x in s.names
  {
    if body != [] {
      TopGlobalsExactly(body[1..], x);
      assert body == [body[0]] + body[1..];
    }
  }

  ghost predicate NoneSays(body: seq<Stmt>, x: string)
  {
    forall s :: s in body ==> !Says(s, x)
  }

  lemma NoneSaysStep(body: seq<Stmt>, x: string)
    requires body != []
    ensures NoneSays(body, x) <==> !Says(body[0], x) && NoneSays(body[1..], x)
  {
    hide Says;
    assert body == [body[0]] + body[1..];
  }

  /** A nested scope keeps the names that no declaration in its body names. */
  lemma {:induction false} NestedDeclaredExactly(body: seq<Stmt>, names: set<string>, x: string)
    ensures x in NestedDeclared(body, names) <==> x in names && NoneSays(body, x)
  {
    hide NoneSays;
    if body == [] {
      NobodySays(x);
    } else {
      NoneSaysStep(body, x);
      match body[0]
      case Global(ns) => NestedDeclaredExactly(body[1..], names - SetOf(ns), x);
      case Nonlocal(ns) => NestedDeclaredExactly(body[1..], names - SetOf(ns), x);
      case _ => NestedDeclaredExactly(body[1..], names, x);
    }
  }

  lemma NobodySays(x: string)
    ensures NoneSays([], x)
  {
  }

  /** In the module's scope the last declaration in its body that names a name decides. */
  lemma {:induction false} ModuleDeclaredExactly(body: seq<Stmt>, names: set<string>, x: string)
    ensures x in ModuleDeclared(body, names)
       <==> || (x in names && forall s :: s in body ==> !Says(s, x))
            || (exists i :: 0 <= i < |body| && body[i].Global? && x in body[i].names && LastWord(body, i, x))
  {
    hide Says;
    if body != [] {
      var first, rest := body[0], body[1..];
      var next := if first.Global? then names + SetOf(first.names)
                  else if first.Nonlocal? then names - SetOf(first.names) else names;
      assert ModuleDeclared(body, names) == ModuleDeclared(rest, next);
      ModuleDeclaredExactly(rest, next, x);
      LastWordShift(body, x);
      assert body == [first] + rest;
      assert Says(first, x) <==> (first.Global? || first.Nonlocal?) && x in first.names by { SaysIs(first, x); }
    }
  }

  lemma SaysIs(s: Stmt, x: string)
    ensures Says(s, x) <==> (s.Global? || s.Nonlocal?) && x in s.names
  {
  }

  /** No declaration behind number `i` names `x`. */
  ghost predicate LastWord(body: seq<Stmt>, i: nat, x: string)
  {
    forall j :: i < j < |body| ==> !Says(body[j], x)
  }

  lemma LastWordShift(body: seq<Stmt>, x: string)
    requires body != []
    ensures LastWord(body, 0, x) <==> forall s :: s in body[1..] ==> !Says(s, x)
    ensures forall i :: 0 <= i < |body| - 1 ==> (LastWord(body, i + 1, x) <==> LastWord(body[1..], i, x))
  {
    hide Says;
    var rest := body[1..];
    assert forall j :: 0 <= j < |rest| ==> rest[j] == body[j + 1];
    forall i | 0 <= i < |body| - 1
      ensures LastWord(body, i + 1, x) <==> LastWord(rest, i, x)
    {
      if LastWord(rest, i, x) {
        assert forall j :: i + 1 < j < |body| ==> body[j] == rest[j - 1];
      }
    }
    if forall s :: s in rest ==> !Says(s, x) {
      assert forall j :: 0 < j < |body| ==> body[j] == rest[j - 1] && rest[j - 1] in rest;
    }
  }

  /** The body of a function or class declares `x` global. */
  predicate Globalizes(s: Stmt, x: string)
  {
    (s.FunctionDef? || s.ClassDef?) && exists g :: g in s.body && g.Global? && x in g.names
  }

  lemma {:induction false} EnteredIn(t: Stmt, x: string)
    ensures x in Entered(t) <==> exists s :: (s == t || OccursIn(s, t)) && Globalizes(s, x)
    decreases t, 1
  {
    hide TopGlobals, Occurs, OccursInHandlers;
    match t
    case FunctionDef(_, _, body, _, _) =>
      TopGlobalsExactly(body, x);
      assert Globalizes(t, x) <==> x in TopGlobals(body);
      EnteredExactly(body, x);
    case ClassDef(_, _, _, body, _) =>
      TopGlobalsExactly(body, x);
      assert Globalizes(t, x) <==> x in TopGlobals(body);
      EnteredExactly(body, x);
    case For(_, _, body, orelse) => EnteredExactly(body, x); EnteredExactly(orelse, x);
    case With(_, body) => EnteredExactly(body, x);
    case Try(body, handlers, orelse, finalbody) =>
      EnteredExactly(body, x); HandlersEnteredExactly(handlers, x);
      EnteredExactly(orelse, x); EnteredExactly(finalbody, x);
    case Compound(_, body, orelse) => EnteredExactly(body, x); EnteredExactly(orelse, x);
    case _ =>
  }

  /** The names counted as declared by nested bodies are those of `global` statements that stand
      directly in the body of some function or class. */
  lemma {:induction false} EnteredExactly(ss: seq<Stmt>, x: string)
    ensures x in EnteredAll(ss) <==> exists s :: Occurs(s, ss) && Globalizes(s, x)
    decreases ss, 0
  {
    hide Entered, Globalizes, OccursIn;
    if ss != [] {
      EnteredIn(ss[0], x);
      EnteredExactly(ss[1..], x);
    }
  }

  lemma {:induction false} HandlersEnteredExactly(hs: seq<Handler>, x: string)
    ensures x in HandlersEntered(hs) <==> exists s :: OccursInHandlers(s, hs) && Globalizes(s, x)
    decreases hs, 0
  {
    hide Globalizes, Occurs;
    if hs != [] {
      EnteredExactly(hs[0].body, x);
      HandlersEnteredExactly(hs[1..], x);
    }
  }
}
