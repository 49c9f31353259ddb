/** Which names resolve, by sections 4.2.1 and 4.2.2 of the Python Language Reference. This is
    a definition of the language, independent of the analyser. */
module NameResolution {
  import opened Common
  import opened PythonSyntax

  // ----- Binding of names (4.2.1) ---------------------------------------------------

  /** Names an assignment target binds; an attribute or a subscript binds none. */
  function TargetBinds(e: Expr): set<string>
  {
    match e
    case Name(id, _, _) => {id}
    case Display(elts) => TargetsBind(elts)
    case Starred(value) => TargetBinds(value)
    case _ => {}
  }

  function TargetsBind(es: seq<Expr>): set<string>
  {
    if es == [] then {} else TargetBinds(es[0]) + TargetsBind(es[1..])
  }

  /** Names a statement binds in the block it belongs to. Bodies of functions and classes are
      blocks of their own. */
  function Binds(s: Stmt): set<string>
  {
    match s
    case FunctionDef(name, _, _, _, _) => {name}
    case ClassDef(name, _, _, _, _) => {name}
    case Assign(targets, _) => TargetsBind(targets)
    case AugAssign(target, _) => TargetBinds(target)
    case AnnAssign(target, _, _) => TargetBinds(target)
    case For(target, _, body, orelse) => TargetBinds(target) + BindsAll(body) + BindsAll(orelse)
    case With(items, body) => ItemsBind(items) + BindsAll(body)
    case Try(body, handlers, orelse, finalbody) =>
      BindsAll(body) + HandlersBind(handlers) + BindsAll(orelse) + BindsAll(finalbody)
    case Import(aliases) => AliasNames(aliases)
    case ImportFrom(_, aliases) => AliasNames(aliases)
    case Compound(_, body, orelse) => BindsAll(body) + BindsAll(orelse)
    case _ => {}
  }

  function BindsAll(ss: seq<Stmt>): set<string>
  {
    if ss == [] then {} else Binds(ss[0]) + BindsAll(ss[1..])
  }

  function ItemsBind(items: seq<WithItem>): set<string>
  {
    if items == [] then {}
    else (if items[0].vars.Some? then TargetBinds(items[0].vars.value) else {}) + ItemsBind(items[1..])
  }

  function HandlersBind(hs: seq<Handler>): set<string>
  {
    if hs == [] then {} else OptionalName(hs[0].name) + BindsAll(hs[0].body) + HandlersBind(hs[1..])
  }

  /** Names a block declares global (or nonlocal), at any depth of its compound statements. */
  function Declares(s: Stmt, global: bool): set<string>
  {
    match s
    case Global(names) => if global then SetOf(names) else {}
    case Nonlocal(names) => if global then {} else SetOf(names)
    case For(_, _, body, orelse) => DeclaresAll(body, global) + DeclaresAll(orelse, global)
    case With(_, body) => DeclaresAll(body, global)
    case Try(body, handlers, orelse, finalbody) =>
      DeclaresAll(body, global) + HandlersDeclare(handlers, global)
      + DeclaresAll(orelse, global) + DeclaresAll(finalbody, global)
    case Compound(_, body, orelse) => DeclaresAll(body, global) + DeclaresAll(orelse, global)
    case _ => {}
  }

  function DeclaresAll(ss: seq<Stmt>, global: bool): set<string>
  {
    if ss == [] then {} else Declares(ss[0], global) + DeclaresAll(ss[1..], global)
  }

  function HandlersDeclare(hs: seq<Handler>, global: bool): set<string>
  {
    if hs == [] then {} else DeclaresAll(hs[0].body, global) + HandlersDeclare(hs[1..], global)
  }

  function ClausesBind(gs: seq<Generator>): set<string>
  {
    if gs == [] then {} else TargetBinds(gs[0].target) + ClausesBind(gs[1..])
  }

  function GlobalsOf(b: Block): set<string>
  {
    if b.ComprehensionBlock? then {} else DeclaresAll(b.body, true)
  }

  function NonlocalsOf(b: Block): set<string>
  {
    if b.ComprehensionBlock? then {} else DeclaresAll(b.body, false)
  }

  /** The local names of a block. */
  function LocalsOf(b: Block): set<string>
  {
    match b
    case ModuleBlock(body) => BindsAll(body)
    case FunctionBlock(args, body) => ArgNames(args) + BindsAll(body) - GlobalsOf(b) - NonlocalsOf(b)
    case ClassBlock(body) => BindsAll(body) - GlobalsOf(b) - NonlocalsOf(b)
    case ComprehensionBlock(clauses) => ClausesBind(clauses)
  }

  // ----- The global namespace -----------------------------------------------------------

  /** Names bound in the module's namespace from inside functions and classes, through `global`. */
  function Exports(s: Stmt): set<string>
  {
    match s
    case FunctionDef(_, _, body, _, _) => BindsAll(body) * DeclaresAll(body, true) + ExportsAll(body)
    case ClassDef(_, _, _, body, _) => BindsAll(body) * DeclaresAll(body, true) + ExportsAll(body)
    case For(_, _, body, orelse) => ExportsAll(body) + ExportsAll(orelse)
    case With(_, body) => ExportsAll(body)
    case Try(body, handlers, orelse, finalbody) =>
      ExportsAll(body) + HandlersExport(handlers) + ExportsAll(orelse) + ExportsAll(finalbody)
    case Compound(_, body, orelse) => ExportsAll(body) + ExportsAll(orelse)
    case _ => {}
  }

  function ExportsAll(ss: seq<Stmt>): set<string>
  {
    if ss == [] then {} else Exports(ss[0]) + ExportsAll(ss[1..])
  }

  function HandlersExport(hs: seq<Handler>): set<string>
  {
    if hs == [] then {} else ExportsAll(hs[0].body) + HandlersExport(hs[1..])
  }

  predicate GlobalOrBuiltin(env: seq<Block>, builtins: set<string>, name: string)
    requires IsEnvironment(env)
  {
    var body := env[|env| - 1].body;
    name in builtins || name in BindsAll(body) || name in ExportsAll(body)
  }

  // ----- Resolution of names (4.2.2) ------------------------------------------------------

  /** Looking outward from a block that does not bind the name: class blocks are not seen. */
  predicate ResolvesOutside(env: seq<Block>, builtins: set<string>, name: string)
    requires IsEnvironment(env)
  {
    if |env| == 1 then GlobalOrBuiltin(env, builtins, name)
    else if env[0].ClassBlock? then ResolvesOutside(env[1..], builtins, name)
    else if name in GlobalsOf(env[0]) then GlobalOrBuiltin(env, builtins, name)
    else name in LocalsOf(env[0]) || ResolvesOutside(env[1..], builtins, name)
  }

  /** `nonlocal` refers to an enclosing function, never to the module. */
  predicate ResolvesNonlocal(env: seq<Block>, name: string)
    requires IsEnvironment(env)
  {
    |env| > 1 &&
    ((env[0].FunctionBlock? && name in LocalsOf(env[0])) || ResolvesNonlocal(env[1..], name))
  }

  /** A use of `name` in the innermost block of `env` refers to some binding. */
  predicate Resolves(env: seq<Block>, builtins: set<string>, name: string)
    requires IsEnvironment(env)
  {
    if |env| == 1 || name in GlobalsOf(env[0]) then GlobalOrBuiltin(env, builtins, name)
    else if name in NonlocalsOf(env[0]) then ResolvesNonlocal(env[1..], name)
    else name in LocalsOf(env[0]) || ResolvesOutside(env[1..], builtins, name)
  }

  // ----- Which names a module reads, and in which block ------------------------------------

  /** Where a read stands: in code that is evaluated when control comes to it; in an annotation; in a
      lambda or comprehension of an annotation; or where the analyser has nothing to look at, which
      is in the target of a comprehension or of an annotated assignment, in the annotations of `*`
      and `**` parameters, and in the target of an augmented assignment, which is read by its name. */
  datatype Part = Code | Annotated | Deferred | Apart

  datatype Read = Read(name: string, line: nat, env: seq<Block>, part: Part)

  function InnerPart(part: Part): Part
  {
    if part == Annotated then Deferred else part
  }

  function SetApart(rs: set<Read>): set<Read>
  {
    set r | r in rs :: r.(part := Apart)
  }

  /** The reads of an expression that stands in the innermost block of `env`. */
  function Reads(e: Expr, env: seq<Block>, part: Part): set<Read>
    decreases e
  {
    match e
    case Name(id, ctx, line) => if ctx == Load then {Read(id, line, env, part)} else {}
    case Display(elts) => ReadsAll(elts, env, part)
    case Starred(value) => Reads(value, env, part)
    case Place(value, index) => Reads(value, env, part) + ReadsAll(index, env, part)
    case Lambda(args, result) =>
      SignatureReads(args, env, InnerPart(part)) + Reads(result, [FunctionBlock(args, [])] + env, InnerPart(part))
    case Comprehension(elements, generators) =>
      ClausesRead(generators, 0, env, InnerPart(part))
      + ReadsAll(elements, [ComprehensionBlock(generators)] + env, InnerPart(part))
    case Other(children) => ReadsAll(children, env, part)
  }

  function ReadsAll(es: seq<Expr>, env: seq<Block>, part: Part): set<Read>
    decreases es
  {
    if es == [] then {} else Reads(es[0], env, part) + ReadsAll(es[1..], env, part)
  }

  /** The clauses of a comprehension from number `i` on. The first iterable is evaluated in the block
      around the comprehension, every later one in the comprehension, where the targets of the
      clauses before it are bound; its own target is bound for its conditions. */
  function ClausesRead(gs: seq<Generator>, i: nat, env: seq<Block>, part: Part): set<Read>
    requires i <= |gs|
    decreases gs, |gs| - i
  {
    if i == |gs| then {}
    else
      var inside := [ComprehensionBlock(gs[..i + 1])] + env;
      Reads(gs[i].iter, if i == 0 then env else [ComprehensionBlock(gs[..i])] + env, part)
      + SetApart(Reads(gs[i].target, inside, part))
      + ReadsAll(gs[i].conds, inside, part)
      + ClausesRead(gs, i + 1, env, part)
  }

  function OptionalReads(e: Option<Expr>, env: seq<Block>, part: Part): set<Read>
    decreases e
  {
    if e.Some? then Reads(e.value, env, part) else {}
  }

  function AnnotationReads(ps: seq<Parameter>, env: seq<Block>): set<Read>
    decreases ps
  {
    if ps == [] then {} else OptionalReads(ps[0].annotation, env, Annotated) + AnnotationReads(ps[1..], env)
  }

  function RestReads(p: Option<Parameter>, env: seq<Block>): set<Read>
    decreases p
  {
    if p.Some? then SetApart(OptionalReads(p.value.annotation, env, Annotated)) else {}
  }

  /** Defaults and annotations belong to the block around the function. */
  function SignatureReads(args: Arguments, env: seq<Block>, part: Part): set<Read>
    decreases args
  {
    ReadsAll(args.defaults, env, part) + ReadsAll(args.kwDefaults, env, part)
    + AnnotationReads(args.params, env) + RestReads(args.vararg, env) + RestReads(args.kwarg, env)
  }

  /** The reads of a statement that stands in the innermost block of `env`. */
  function StatementReads(s: Stmt, env: seq<Block>): set<Read>
    decreases s
  {
    match s
    case FunctionDef(_, args, body, decorators, result) =>
      ReadsAll(decorators, env, Code) + SignatureReads(args, env, Code) + OptionalReads(result, env, Annotated)
      + BlockReads(body, [FunctionBlock(args, body)] + env)
    case ClassDef(_, bases, keywords, body, decorators) =>
      ReadsAll(decorators, env, Code) + ReadsAll(bases, env, Code) + ReadsAll(keywords, env, Code)
      + BlockReads(body, [ClassBlock(body)] + env)
    case Assign(targets, value) => Reads(value, env, Code) + ReadsAll(targets, env, Code)
    case AugAssign(target, value) =>
      (if target.Name? then {Read(target.id, target.line, env, Apart)} else {})
      + Reads(target, env, Code) + Reads(value, env, Code)
    case AnnAssign(target, annotation, initial) =>
      SetApart(Reads(target, env, Code)) + Reads(annotation, env, Annotated) + OptionalReads(initial, env, Code)
    case For(target, iter, body, orelse) =>
      Reads(iter, env, Code) + Reads(target, env, Code) + BlockReads(body, env) + BlockReads(orelse, env)
    case With(items, body) => ItemsRead(items, env) + BlockReads(body, env)
    case Try(body, handlers, orelse, finalbody) =>
      BlockReads(body, env) + HandlersRead(handlers, env) + BlockReads(orelse, env) + BlockReads(finalbody, env)
    case Compound(exprs, body, orelse) =>
      ReadsAll(exprs, env, Code) + BlockReads(body, env) + BlockReads(orelse, env)
    case _ => {}
  }

  function BlockReads(ss: seq<Stmt>, env: seq<Block>): set<Read>
    decreases ss
  {
    if ss == [] then {} else StatementReads(ss[0], env) + BlockReads(ss[1..], env)
  }

  function ItemsRead(items: seq<WithItem>, env: seq<Block>): set<Read>
    decreases items
  {
    if items == [] then {}
    else Reads(items[0].context, env, Code) + OptionalReads(items[0].vars, env, Code) + ItemsRead(items[1..], env)
  }

  function HandlersRead(hs: seq<Handler>, env: seq<Block>): set<Read>
    decreases hs
  {
    if hs == [] then {}
    else OptionalReads(hs[0].kind, env, Code) + BlockReads(hs[0].body, env) + HandlersRead(hs[1..], env)
  }

  /** A future import at the top of the module makes its annotations strings, never evaluated. */
  ghost predicate AnnotationsAreStrings(tree: seq<Stmt>)
  {
    exists i, j :: 0 <= i < |tree| && tree[i].ImportFrom? && tree[i].origin == "__future__"
                   && 0 <= j < |tree[i].aliases| && tree[i].aliases[j].name == "annotations"
  }

  function ModuleReads(tree: seq<Stmt>): set<Read>
  {
    BlockReads(tree, [ModuleBlock(tree)])
  }
}
