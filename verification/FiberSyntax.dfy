/**
 Forms, values and run-time state of the fiber evaluator (core/rust/src/fiber.rs).

 A form is a raw S-expression: special forms are recognised by their head symbol
 exactly as the evaluator does, so malformed special forms are part of the model.
 Everything the evaluator reaches through the synchronous `eval`, the namespace
 registry or native code is a field of `Host`, an arbitrary record of functions.
 */
module FiberSyntax {
  import opened Optional
  import opened Results

  type Res<+T> = Result<T, string>

  type EnvId = nat
  type Env = map<string, Value>

  datatype Form =
    | Atom(text: string)                      // self-evaluating: nil, numbers, strings, ...
    | Sym(name: string)
    | Kw(name: string)
    | ListForm(items: seq<Form>)
    | VectorForm(items: seq<Form>)
    | MapForm(entries: seq<(Form, Form)>)
    | SetForm(items: seq<Form>)
    | MetaForm(meta: Form, form: Form)

  datatype Value =
    | Nil
    | Bool(b: bool)
    | Str(s: string)
    | List(items: seq<Value>)
    | Vector(items: seq<Value>)
    | Recur(args: seq<Value>)
    | Exception(payload: Value)
    | Func(fn: Function)
    | Var(id: nat)
    | Opaque(id: nat)                         // every other run-time value
  {
    predicate Truthy() { this != Nil && this != Bool(false) }
  }

  datatype Code = Hara | NativeCode | FiberCode(id: nat)

  datatype Function = Function(
    name: Option<string>,
    namespace: Option<string>,
    isMacro: bool,
    params: seq<string>,
    variadic: Option<string>,
    patterns: seq<Form>,
    variadicPattern: Option<Form>,
    body: seq<Form>,
    captured: EnvId,
    code: Code,
    clauses: seq<Function>)

  /** A promise handed back to the driver and the state it settles in. */
  type Promise = nat
  datatype PromiseState = Fulfilled(v: Value) | Rejected(e: string) | Pending

  /**
   Everything evaluation can change.  `envs` holds the shared environment cells;
   `answered` counts the promises settled so far (it only indexes the answers a
   run is given) and `host` stands for all state kept outside the evaluator.
   */
  datatype World = World(
    envs: map<EnvId, Env>,
    nextEnv: EnvId,
    ns: string,
    trace: seq<string>,
    tracing: bool,
    answered: nat,
    host: nat)
  {
    function EnvAt(id: EnvId): Env { if id in envs then envs[id] else map[] }
    function Put(id: EnvId, env: Env): World { this.(envs := envs[id := env]) }
    function Get(id: EnvId, name: string): Option<Value> {
      var env := EnvAt(id);
      if name in env then Some(env[name]) else None
    }
  }

  /** What a fiber-native function does next: finish, or wait for a promise. */
  datatype Native =
    | NativeReturn(result: Res<Value>, w: World)
    | NativeAwait(promise: Promise, token: nat, w: World)

  datatype Host = Host(
    interrupt: World -> (Option<string>, World),
    sync: (Form, EnvId, World) -> (Res<Value>, World),
    literal: Form -> Res<Value>,
    mapOf: seq<Value> -> Value,
    setOf: seq<Value> -> Value,
    vectorOf: seq<Value> -> Res<Value>,
    iterate: Value -> Res<seq<Value>>,
    thrown: (Value, World) -> (string, World),
    caught: (string, World) -> (Value, World),
    catches: (string, string, World) -> bool,
    isMacro: (string, World) -> bool,
    prepare: (string, EnvId, World) -> (Option<string>, World),
    lookup: (string, EnvId, World) -> Option<Value>,
    special: (Form, seq<Value>, EnvId, World) -> (Res<Value>, World),
    callValue: (Value, seq<Value>, World) -> (Res<Value>, World),
    callNative: (Function, seq<Value>, World) -> (Res<Value>, World),
    fiberNative: (nat, seq<Value>, World) -> Native,
    coroutine: (seq<Form>, EnvId, World) -> Native,
    settle: (nat, PromiseState, World) -> Native,
    metadataError: Form -> Option<string>,
    define: (string, string, Option<Form>, Value, EnvId, World) -> (Res<Value>, World),
    setField: (Value, string, Value, World) -> (Res<Value>, World),
    frameLabel: (Function, World) -> string)

  /** The state the n-th awaited promise settles in, for any run. */
  type Answers = (nat, Promise) -> PromiseState

  // ----- environments and bindings -----

  type Previous = seq<(string, Option<Value>)>

  function PutBack(env: Env, entry: (string, Option<Value>)): Env {
    match entry.1
    case Some(v) => env[entry.0 := v]
    case None => env - {entry.0}
  }

  /** Undoes bindings, most recent first. */
  function Restore(env: Env, saved: Previous): Env
    decreases |saved|
  {
    if saved == [] then env
    else Restore(PutBack(env, saved[|saved| - 1]), saved[..|saved| - 1])
  }

  function Saved(env: Env, name: string): (string, Option<Value>) {
    (name, if name in env then Some(env[name]) else None)
  }

  function Undo(w: World, env: EnvId, saved: Previous): World {
    w.Put(env, Restore(w.EnvAt(env), saved))
  }

  function SavedAll(env: Env, names: seq<string>): Previous {
    seq(|names|, j requires 0 <= j < |names| => Saved(env, names[j]))
  }

  datatype Bound = Bound(error: Option<string>, env: Env, names: seq<string>)

  /** `bind_pattern` on symbols and vectors (with `&` and `:as`). */
  function BindPattern(h: Host, pattern: Form, value: Value, env: Env, names: seq<string>): Bound
    decreases pattern, 1
  {
    match pattern
    case Sym(name) =>
      if name == "_" then Bound(None, env, names)
      else if '/' in name || name in names then
        Bound(Some("invalid or duplicate binding: " + name), env, names)
      else Bound(None, env[name := value], names + [name])
    case VectorForm(patterns) =>
      var values := if value == Nil then Ok([]) else h.iterate(value);
      (match values
       case Err(_) => Bound(Some("cannot destructure non-sequential value"), env, names)
       case Ok(vs) => BindVector(h, pattern, 0, vs, 0, value, env, names))
    case _ => Bound(Some("unsupported binding pattern"), env, names)
  }

  function BindVector(h: Host, pattern: Form, index: nat, values: seq<Value>, position: nat,
                      original: Value, env: Env, names: seq<string>): Bound
    requires pattern.VectorForm? && index <= |pattern.items|
    decreases pattern, 0, |pattern.items| - index
  {
    var patterns := pattern.items;
    if index == |patterns| then Bound(None, env, names)
    else if patterns[index] == Sym("&") then
      if index + 1 >= |patterns| then
        Bound(Some("& in a destructuring vector requires a binding"), env, names)
      else
        var rest := if position <= |values| then values[position..] else [];
        var b := BindPattern(h, patterns[index + 1], Vector(rest), env, names);
        if b.error.Some? then b
        else BindVector(h, pattern, index + 2, values, position, original, b.env, b.names)
    else if patterns[index] == Kw("as") then
      if index + 2 != |patterns| then
        Bound(Some(":as in a destructuring vector must precede its final binding"), env, names)
      else BindPattern(h, patterns[index + 1], original, env, names)
    else
      var v := if position < |values| then values[position] else Nil;
      var b := BindPattern(h, patterns[index], v, env, names);
      if b.error.Some? then b
      else BindVector(h, pattern, index + 1, values, position + 1, original, b.env, b.names)
  }

  /** Binds patterns to values pairwise (`zip`), each with its own fresh name list. */
  function Rebind(h: Host, patterns: seq<Form>, values: seq<Value>, env: Env): (Option<string>, Env)
    decreases |patterns|
  {
    if patterns == [] || values == [] then (None, env)
    else
      var b := BindPattern(h, patterns[0], values[0], env, []);
      if b.error.Some? then (b.error, b.env)
      else Rebind(h, patterns[1..], values[1..], b.env)
  }

  /** Binds a call's patterns, sharing one name list, as `call` does. */
  function BindArguments(h: Host, patterns: seq<Form>, values: seq<Value>, env: Env, names: seq<string>): Bound
    decreases |patterns|
  {
    if patterns == [] || values == [] then Bound(None, env, names)
    else
      var b := BindPattern(h, patterns[0], values[0], env, names);
      if b.error.Some? then b
      else BindArguments(h, patterns[1..], values[1..], b.env, b.names)
  }

  function BindParams(params: seq<string>, values: seq<Value>, env: Env): Env
    decreases |params|
  {
    if params == [] || values == [] then env
    else BindParams(params[1..], values[1..], env[params[0] := values[0]])
  }

  // ----- shapes of special forms -----

  function Pairs(v: seq<Form>): seq<(Form, Form)>
  {
    seq(|v| / 2, j requires 0 <= j < |v| / 2 => (v[2 * j], v[2 * j + 1]))
  }

  function Flat(entries: seq<(Form, Form)>): seq<Form> {
    if entries == [] then [] else [entries[0].0, entries[0].1] + Flat(entries[1..])
  }

  function Patterns(pairs: seq<(Form, Form)>): seq<Form> {
    seq(|pairs|, j requires 0 <= j < |pairs| => pairs[j].0)
  }

  /** The name/initialiser pairs of a `let` or `loop`, or its shape error. */
  function Bindings(v: seq<Form>, op: string): Res<seq<(Form, Form)>> {
    if |v| < 3 then Err("binding form expects bindings and body")
    else if !v[1].ListForm? && !v[1].VectorForm? then Err(op + " expects bindings")
    else if |v[1].items| % 2 != 0 then Err(op + " bindings require name/value pairs")
    else Ok(Pairs(v[1].items))
  }

  function ScopeBody(v: seq<Form>): Form
    requires |v| >= 3
  {
    if |v| == 3 then v[2] else ListForm([Sym("do")] + v[2..])
  }

  datatype TryParts = TryParts(body: seq<Form>, catches: seq<seq<Form>>, finals: seq<Form>)

  predicate HeadIs(f: Form, name: string) {
    f.ListForm? && f.items != [] && f.items[0] == Sym(name)
  }

  function SplitTry(v: seq<Form>, parts: TryParts, started: bool): Res<TryParts>
    decreases |v|
  {
    if v == [] then Ok(parts)
    else if HeadIs(v[0], "catch") then
      SplitTry(v[1..], parts.(catches := parts.catches + [v[0].items]), true)
    else if HeadIs(v[0], "finally") then
      SplitTry(v[1..], parts.(finals := parts.finals + v[0].items[1..]), true)
    else if !started then
      SplitTry(v[1..], parts.(body := parts.body + [v[0]]), false)
    else Err("try clauses must follow body")
  }

  datatype Clause = Clause(selector: Option<string>, binding: nat, body: nat)

  predicate QualifiedKeyword(f: Form) { f.Kw? && '/' in f.name }

  function JoinSelectors(codes: seq<Form>): string
    requires forall c :: c in codes ==> c.Kw?
  {
    if codes == [] then "" else if |codes| == 1 then ":" + codes[0].name
    else ":" + codes[0].name + "," + JoinSelectors(codes[1..])
  }

  function ParseCatch(p: seq<Form>): Res<Clause> {
    if |p| == 3 && p[1].Sym? && p[1].name != "Exception" && p[1].name != "Throwable" then
      Ok(Clause(None, 1, 2))
    else if |p| >= 3 && p[1].Sym? && p[1].name != "Exception" && p[1].name != "Throwable" && !p[2].Sym? then
      Ok(Clause(None, 1, 2))
    else if |p| >= 4 && p[1].Sym? && p[2].Sym? then
      Ok(Clause(Some(p[1].name), 2, 3))
    else if |p| >= 4 && QualifiedKeyword(p[1]) && p[2].Sym? then
      Ok(Clause(Some(":" + p[1].name), 2, 3))
    else if |p| >= 4 && p[1].VectorForm? && p[2].Sym? && p[1].items != []
            && (forall c :: c in p[1].items ==> QualifiedKeyword(c)) then
      Ok(Clause(Some("[" + JoinSelectors(p[1].items) + "]"), 2, 3))
    else Err("catch selector must be a namespaced keyword, a non-empty vector of namespaced keywords, or omitted")
  }

  datatype Selection =
    | Selected(name: string, body: seq<Form>)
    | Unmatched
    | Malformed(error: string)

  /** The scan over catch clauses, in source order. */
  function SelectCatch(h: Host, catches: seq<seq<Form>>, sawUnconditional: bool, error: string, w: World): Selection
    decreases |catches|
  {
    if catches == [] then Unmatched
    else if sawUnconditional then Malformed("unconditional catch must be the last catch clause")
    else
      match ParseCatch(catches[0])
      case Err(e) => Malformed(e)
      case Ok(c) =>
        if c.selector.None? || h.catches(error, c.selector.value, w) then
          var p := catches[0];
          if p[c.binding].Sym? then Selected(p[c.binding].name, p[c.body..])
          else Malformed("catch name must be symbol")
        else SelectCatch(h, catches[1..], c.selector.None?, error, w)
  }

  // ----- names handled by the synchronous evaluator -----

  predicate SyncSpecialForm(name: string) {
    name in {
      ".", "binding", "comment", "declare", "def", "defmutable", "defstruct", "defprotocol",
      "defmulti", "defmethod", "defmacro", "defn", "defn-", "do", "eval", "extend-type", "field",
      "fn", "if", "intern-var", "let", "letfn", "loop", "ns", "ns+", "ns-alias-state", "read-forms",
      "recur", "require", "resolve", "set!", "syntax-quote", "throw", "try", "var", "var/set" }
  }

  predicate ReadsCaller(name: string) {
    name in {
      "macroexpand", "macroexpand-1", "ns-current", "env-snapshot", "ns-vars", "ns-list",
      "ns-info", "env-module" }
  }

  function NatText(n: nat): string {
    if n < 10 then ["0123456789"[n]] else NatText(n / 10) + ["0123456789"[n % 10]]
  }

  function CallName(f: Function): string { if f.name.Some? then f.name.value else "<anonymous>" }

  // ----- calls -----

  function ExactClause(fs: seq<Function>, n: nat): Option<Function> {
    if fs == [] then None
    else if fs[0].variadic.None? && |fs[0].params| == n then Some(fs[0])
    else ExactClause(fs[1..], n)
  }

  /** `max_by_key` keeps the last of several equal maxima. */
  function WidestVariadic(fs: seq<Function>, n: nat, best: Option<Function>): Option<Function>
    decreases |fs|
  {
    if fs == [] then best
    else if fs[0].variadic.Some? && n >= |fs[0].params|
            && (best.None? || |fs[0].params| >= |best.value.params|) then
      WidestVariadic(fs[1..], n, Some(fs[0]))
    else WidestVariadic(fs[1..], n, best)
  }

  function SelectClause(fs: seq<Function>, n: nat): Option<Function> {
    match ExactClause(fs, n)
    case Some(f) => Some(f)
    case None => WidestVariadic(fs, n, None)
  }

  function ArityError(f: Function, n: nat): Option<string> {
    if f.variadic.None? && |f.params| != n then
      if f.namespace == Some("std.foundation") && f.name == Some("type") then
        Some("type expects one value")
      else Some("function expects " + NatText(|f.params|) + " arguments")
    else if n < |f.params| then
      Some("function expects at least " + NatText(|f.params|) + " arguments")
    else None
  }

  predicate CallerScoped(f: Function) {
    f.namespace == Some("std.foundation")
    && (f.isMacro || (f.name.Some? && ReadsCaller(f.name.value)))
  }

  /** The namespace to return to, when the call switches namespace. */
  function ScopeOf(f: Function, w: World): Option<string> {
    if CallerScoped(f) || f.namespace.None? then None else Some(w.ns)
  }

  function Enter(h: Host, f: Function, w: World): World {
    var w1 := if w.tracing then w.(trace := w.trace + [h.frameLabel(f, w)]) else w;
    if ScopeOf(f, w).Some? then w1.(ns := f.namespace.value) else w1
  }

  function LeaveNs(w: World, scope: Option<string>): World {
    if scope.Some? then w.(ns := scope.value) else w
  }

  function PopTrace(w: World, traced: bool): World {
    if traced && w.trace != [] then w.(trace := w.trace[..|w.trace| - 1]) else w
  }

  function Leave(w: World, scope: Option<string>, traced: bool): World {
    PopTrace(LeaveNs(w, scope), traced)
  }

  const STACK_MARK: string := "\n[hara stack]"

  predicate Contains(text: string, part: string) {
    part <= text || (text != [] && Contains(text[1..], part))
  }

  function FrameLines(trace: seq<string>): string {
    if trace == [] then ""
    else if |trace| == 1 then "  at " + trace[0]
    else "  at " + trace[|trace| - 1] + "\n" + FrameLines(trace[..|trace| - 1])
  }

  function AppendTrace(error: string, w: World): string {
    if !w.tracing || w.trace == [] || Contains(error, STACK_MARK) then error
    else error + STACK_MARK + "\n" + FrameLines(w.trace)
  }

  /** The environment a call runs its body in, or the destructuring error. */
  function CallEnv(h: Host, f: Function, args: seq<Value>, w: World): Res<Env> {
    var env := BindParams(f.params, args, w.EnvAt(f.captured));
    var b := BindArguments(h, f.patterns, args, env, []);
    if b.error.Some? then Err(b.error.value)
    else if f.variadic.None? then Ok(b.env)
    else
      var rest := List(if |f.params| <= |args| then args[|f.params|..] else []);
      var env1 := b.env[f.variadic.value := rest];
      if f.variadicPattern.None? then Ok(env1)
      else
        var b1 := BindPattern(h, f.variadicPattern.value, rest, env1, b.names);
        if b1.error.Some? then Err(b1.error.value) else Ok(b1.env)
  }

  function Alloc(w: World, env: Env): World {
    w.(envs := w.envs[w.nextEnv := env], nextEnv := w.nextEnv + 1)
  }

  // ----- binding forms -----

  datatype Target = Name(name: string, meta: Option<Form>) | BadTarget(error: string)

  function DefTarget(h: Host, op: string, f: Form): Target {
    match f
    case Sym(n) => Name(n, None)
    case MetaForm(meta, form) =>
      if form.Sym? then
        var e := h.metadataError(meta);
        if e.Some? then BadTarget(e.value) else Name(form.name, Some(meta))
      else BadTarget(op + " name must be a symbol")
    case _ => BadTarget(op + " name must be a symbol")
  }

  datatype Place = FieldPlace(receiver: Form, field: string) | BadPlace(error: string)

  function PlaceOf(f: Form): Place {
    if !f.ListForm? || f.items == [] || f.items[0] != Sym("field") then
      BadPlace("set! expects a name symbol or field place")
    else if |f.items| != 3 then BadPlace("set! field place expects a receiver and field")
    else if (f.items[2].Kw? || f.items[2].Sym?) && '/' !in f.items[2].name then
      FieldPlace(f.items[1], f.items[2].name)
    else BadPlace("set! field place expects an unqualified literal field")
  }
}
