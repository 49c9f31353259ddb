/** The fragment of Python's abstract syntax the scope analyser is modelled on. It leaves out
    the walrus operator, `match`, `except*`, PEP 695 type parameters and star imports. */
module PythonSyntax {
  import opened Common

  datatype Context = Load | Store | Del

  /** Expressions. `Other` stands for every node whose parts are just evaluated: calls with
      their keyword values, operators, f-strings, dictionaries, conditionals and so on. */
  datatype Expr =
    | Name(id: string, ctx: Context, line: nat)
    | Display(elts: seq<Expr>)                     // tuple or list
    | Starred(value: Expr)
    | Place(value: Expr, index: seq<Expr>)         // attribute (no index) or subscript
    | Lambda(args: Arguments, result: Expr)
    | Comprehension(elements: seq<Expr>, generators: seq<Generator>)
    | Other(children: seq<Expr>)

  datatype Generator = Generator(target: Expr, iter: Expr, conds: seq<Expr>)

  datatype Parameter = Parameter(name: string, annotation: Option<Expr>)

  /** `params` are the positional-only, ordinary and keyword-only parameters in that order;
      keyword-only parameters without a default have no entry in `kwDefaults`. */
  datatype Arguments = Arguments(params: seq<Parameter>, vararg: Option<Parameter>, kwarg: Option<Parameter>,
                                 defaults: seq<Expr>, kwDefaults: seq<Expr>)

  datatype Alias = Alias(name: string, asname: string)   // `asname` is empty when absent

  datatype WithItem = WithItem(context: Expr, vars: Option<Expr>)

  datatype Handler = Handler(kind: Option<Expr>, name: string, body: seq<Stmt>)   // name "" when absent

  /** Statements. `Compound` stands for every statement that evaluates expressions and then
      holds blocks of the same scope: if, while, expression statements, return, assert, del... */
  datatype Stmt =
    | FunctionDef(name: string, args: Arguments, body: seq<Stmt>, decorators: seq<Expr>, result: Option<Expr>)
    | ClassDef(name: string, bases: seq<Expr>, keywords: seq<Expr>, body: seq<Stmt>, decorators: seq<Expr>)
    | Assign(targets: seq<Expr>, value: Expr)
    | AugAssign(target: Expr, value: Expr)
    | AnnAssign(target: Expr, annotation: Expr, initial: Option<Expr>)
    | For(target: Expr, iter: Expr, body: seq<Stmt>, orelse: seq<Stmt>)
    | With(items: seq<WithItem>, body: seq<Stmt>)
    | Try(body: seq<Stmt>, handlers: seq<Handler>, orelse: seq<Stmt>, finalbody: seq<Stmt>)
    | Import(aliases: seq<Alias>)
    | ImportFrom(origin: string, aliases: seq<Alias>)
    | Global(names: seq<string>)
    | Nonlocal(names: seq<string>)
    | Compound(exprs: seq<Expr>, body: seq<Stmt>, orelse: seq<Stmt>)

  function SetOf(s: seq<string>): (r: set<string>)
    ensures forall x :: x in r <==> x in s
  {
    set x | x in s
  }

  function OptionalName(name: string): set<string>
  {
    if name == "" then {} else {name}
  }

  /** The part of a dotted name before the first dot. */
  function FirstComponent(name: string): string
  {
    if name == "" || name[0] == '.' then "" else [name[0]] + FirstComponent(name[1..])
  }

  function AliasNames(aliases: seq<Alias>): set<string>
  {
    if aliases == [] then {}
    else
      var a := aliases[0];
      {if a.asname != "" then a.asname else FirstComponent(a.name)} + AliasNames(aliases[1..])
  }

  function ParameterNames(ps: seq<Parameter>): set<string>
  {
    if ps == [] then {} else {ps[0].name} + ParameterNames(ps[1..])
  }

  function ArgNames(args: Arguments): set<string>
  {
    ParameterNames(args.params)
    + (if args.vararg.Some? then {args.vararg.value.name} else {})
    + (if args.kwarg.Some? then {args.kwarg.value.name} else {})
  }

  /** A block in the sense of section 4.1 of the Python Language Reference. A comprehension's
      block is given by the `for` clauses begun so far: a target is visible from its own clause on. */
  datatype Block =
    | ModuleBlock(body: seq<Stmt>)
    | FunctionBlock(args: Arguments, body: seq<Stmt>)
    | ClassBlock(body: seq<Stmt>)
    | ComprehensionBlock(clauses: seq<Generator>)

  /** The blocks around a piece of code, innermost first; the last one is the module. */
  predicate IsEnvironment(env: seq<Block>)
  {
    && env != [] && env[|env| - 1].ModuleBlock?
    && forall i :: 0 <= i < |env| - 1 ==> !env[i].ModuleBlock?
  }
}
