/**
 The fiber evaluator as a step machine.

 Every `*_cps` function of core/rust/src/fiber.rs is a `Task`, every closure it passes as a
 continuation is a `Frame`, and a boxed continuation is a `Stack` of frames.  One machine
 step is one call of an evaluator function or of a continuation; `Step::Continue` only
 defers such a call to the driver, so it needs no state of its own.
 */
module FiberMachine {
  import opened Optional
  import opened Results
  import opened FiberSyntax

  datatype Outcome = Val(v: Value) | Vals(vs: seq<Value>) | Olds(saved: Previous) | Thrown(e: string)

  datatype Task =
    | One(form: Form, env: EnvId)
    | Forms(forms: seq<Form>, i: nat, last: Value, env: EnvId)
    | Values(forms: seq<Form>, i: nat, vals: seq<Value>, env: EnvId)
    | And(forms: seq<Form>, i: nat, last: Value, env: EnvId)
    | Or(forms: seq<Form>, i: nat, last: Value, env: EnvId)
    | Cond(clauses: seq<(Form, Form)>, i: nat, env: EnvId)
    | Bind(pairs: seq<(Form, Form)>, i: nat, saved: Previous, env: EnvId)
    | LoopBody(patterns: seq<Form>, body: Form, saved: Previous, env: EnvId)
    | Finally(result: Outcome, finals: seq<Form>, env: EnvId)
    | Call(f: Function, args: seq<Value>)
    | Perform(native: Native)

  datatype Frame =
    | IfK(v: seq<Form>, env: EnvId)
    | FormsK(forms: seq<Form>, i: nat, env: EnvId)
    | ValuesK(forms: seq<Form>, i: nat, vals: seq<Value>, env: EnvId)
    | AndK(forms: seq<Form>, i: nat, env: EnvId)
    | OrK(forms: seq<Form>, i: nat, env: EnvId)
    | CondK(clauses: seq<(Form, Form)>, i: nat, env: EnvId)
    | MapK
    | SetK
    | VectorK
    | RecurK
    | ThrowK
    | BindK(pairs: seq<(Form, Form)>, i: nat, saved: Previous, env: EnvId)
    | ScopeK(isLoop: bool, patterns: seq<Form>, body: Form, env: EnvId)
    | LetK(saved: Previous, env: EnvId)
    | LoopK(patterns: seq<Form>, body: Form, saved: Previous, env: EnvId)
    | TryK(catches: seq<seq<Form>>, finals: seq<Form>, env: EnvId)
    | CatchK(name: string, before: Option<Value>, finals: seq<Form>, env: EnvId)
    | FinallyK(result: Outcome)
    | HeadK(args: seq<Form>, env: EnvId)
    | ArgsK(callee: Value)
    | SpecialK(special: Form, env: EnvId)
    | DefineK(op: string, name: string, meta: Option<Form>, env: EnvId)
    | ReceiverK(field: string, replacement: Form, env: EnvId)
    | FieldK(receiver: Value, field: string)
    | CallK(scope: Option<string>, traced: bool)

  datatype Stack = Bottom | Push(top: Frame, rest: Stack)

  datatype Control =
    | Run(task: Task)
    | Ret(outcome: Outcome)                    // calling the continuation
    | Wait(promise: Promise, token: nat)

  datatype Config = Config(ctl: Control, k: Stack, w: World)

  // ----- one call of an evaluator function -----

  datatype Action =
    | Goto(task: Task, w: World)               // a call passing the continuation on
    | Eval(frame: Frame, task: Task, w: World) // a call with a new continuation
    | Return(outcome: Outcome, w: World)
    | Suspend(promise: Promise, token: nat, w: World)

  function AsOutcome(r: Res<Value>): Outcome {
    match r case Ok(v) => Val(v) case Err(e) => Thrown(e)
  }

  function Lift(p: (Res<Value>, World)): Action { Return(AsOutcome(p.0), p.1) }

  function NativeAction(n: Native): Action {
    match n
    case NativeReturn(r, w) => Return(AsOutcome(r), w)
    case NativeAwait(p, token, w) => Suspend(p, token, w)
  }

  function Step(h: Host, t: Task, w: World): Action {
    match t
    case One(form, env) => StepOne(h, form, env, w)
    case Forms(forms, i, last, env) =>
      if i >= |forms| || last.Recur? then Return(Val(last), w)
      else Eval(FormsK(forms, i, env), One(forms[i], env), w)
    case Values(forms, i, vals, env) =>
      if i >= |forms| then Return(Vals(vals), w)
      else Eval(ValuesK(forms, i, vals, env), One(forms[i], env), w)
    case And(forms, i, last, env) =>
      if i >= |forms| || !last.Truthy() then Return(Val(last), w)
      else Eval(AndK(forms, i, env), One(forms[i], env), w)
    case Or(forms, i, last, env) =>
      if i >= |forms| then Return(Val(last), w)
      else Eval(OrK(forms, i, env), One(forms[i], env), w)
    case Cond(clauses, i, env) =>
      if i >= |clauses| then Return(Val(Nil), w)
      else Eval(CondK(clauses, i, env), One(clauses[i].0, env), w)
    case Bind(pairs, i, saved, env) =>
      if i >= |pairs| then Return(Olds(saved), w)
      else Eval(BindK(pairs, i, saved, env), One(pairs[i].1, env), w)
    case LoopBody(patterns, body, saved, env) =>
      Eval(LoopK(patterns, body, saved, env), One(body, env), w)
    case Finally(result, finals, env) =>
      Eval(FinallyK(result), Forms(finals, 0, Nil, env), w)
    case Call(f, args) => StepCall(h, f, args, w)
    case Perform(native) => NativeAction(native)
  }

  function StepOne(h: Host, form: Form, env: EnvId, w0: World): Action {
    var (stop, w) := h.interrupt(w0);
    if stop.Some? then Return(Thrown(stop.value), w)
    else
      match form
      case MapForm(entries) => Eval(MapK, Values(Flat(entries), 0, [], env), w)
      case SetForm(items) => Eval(SetK, Values(items, 0, [], env), w)
      case VectorForm(items) => Eval(VectorK, Values(items, 0, [], env), w)
      case ListForm(v) =>
        if v == [] then Return(Val(List([])), w)
        else if |v| == 2 && v[0] == Sym("quote") then Return(AsOutcome(h.literal(v[1])), w)
        else StepList(h, v, env, w)
      case _ => Lift(h.sync(form, env, w))
  }

  function StepList(h: Host, v: seq<Form>, env: EnvId, w: World): Action
    requires v != []
  {
    if !v[0].Sym? then StepApplication(h, v, env, w)
    else
      var head := v[0].name;
      if head == "do" then Goto(Forms(v[1..], 0, Nil, env), w)
      else if head == "if" then StepIf(v, env, w)
      else if head == "and" then Goto(And(v[1..], 0, Bool(true), env), w)
      else if head == "or" then Goto(Or(v[1..], 0, Nil, env), w)
      else if head == "cond" then
        if |v| % 2 == 0 then Return(Thrown("cond expects test/expression pairs"), w)
        else Goto(Cond(Pairs(v[1..]), 0, env), w)
      else if head == "let" || head == "loop" then StepScope(head == "loop", v, env, w)
      else if head == "recur" then Eval(RecurK, Values(v[1..], 0, [], env), w)
      else if head == "try" then StepTry(v, env, w)
      else if head == "throw" then StepThrow(v, env, w)
      else if head == "std.foundation.coroutine/resume"
              || head == "std.protocol.icoroutine.ICoroutine/resume" then
        Goto(Perform(h.coroutine(v, env, w)), w)
      else if head == "def" || head == "var/set" then StepDefine(h, v, env, w)
      else if head == "set!" then StepSet(h, v, env, w)
      else if head == "resolve" && w.Get(env, "resolve").Some? && !w.Get(env, "resolve").value.Var? then
        StepApplication(h, v, env, w)
      else if SyncSpecialForm(head) then Lift(h.sync(ListForm(v), env, w))
      else StepApplication(h, v, env, w)
  }

  function StepIf(v: seq<Form>, env: EnvId, w: World): Action {
    if |v| != 3 && |v| != 4 then Return(Thrown("if expects 2 or 3 arguments"), w)
    else Eval(IfK(v, env), One(v[1], env), w)
  }

  function StepScope(isLoop: bool, v: seq<Form>, env: EnvId, w: World): Action {
    match Bindings(v, if isLoop then "loop" else "let")
    case Err(e) => Return(Thrown(e), w)
    case Ok(pairs) =>
      Eval(ScopeK(isLoop, Patterns(pairs), ScopeBody(v), env), Bind(pairs, 0, [], env), w)
  }

  function StepTry(v: seq<Form>, env: EnvId, w: World): Action
    requires v != []
  {
    match SplitTry(v[1..], TryParts([], [], []), false)
    case Err(e) => Return(Thrown(e), w)
    case Ok(parts) => Eval(TryK(parts.catches, parts.finals, env), Forms(parts.body, 0, Nil, env), w)
  }

  function StepThrow(v: seq<Form>, env: EnvId, w: World): Action {
    if |v| != 2 then Return(Thrown("throw expects one value"), w)
    else Eval(ThrowK, One(v[1], env), w)
  }

  function StepSet(h: Host, v: seq<Form>, env: EnvId, w: World): Action
    requires v != [] && v[0].Sym?
  {
    if |v| != 3 then Return(Thrown("set! expects a place and value"), w)
    else if v[1].Sym? || v[1].MetaForm? then StepDefine(h, v, env, w)
    else
      match PlaceOf(v[1])
      case BadPlace(e) => Return(Thrown(e), w)
      case FieldPlace(receiver, field) => Eval(ReceiverK(field, v[2], env), One(receiver, env), w)
  }

  function StepDefine(h: Host, v: seq<Form>, env: EnvId, w: World): Action
    requires v != [] && v[0].Sym?
  {
    if |v| != 3 then Return(Thrown("binding form expects symbol and value"), w)
    else
      match DefTarget(h, v[0].name, v[1])
      case BadTarget(e) => Return(Thrown(e), w)
      case Name(name, meta) => Eval(DefineK(v[0].name, name, meta, env), One(v[2], env), w)
  }

  function StepApplication(h: Host, v: seq<Form>, env: EnvId, w: World): Action
    requires v != []
  {
    if !v[0].Sym? then Eval(HeadK(v[1..], env), One(v[0], env), w)
    else
      var head := v[0].name;
      if h.isMacro(head, w) then Lift(h.sync(ListForm(v), env, w))
      else
        var (stop, w1) := h.prepare(head, env, w);
        if stop.Some? then Return(Thrown(stop.value), w1)
        else
          var callee := h.lookup(head, env, w1);
          if callee.Some? && callee.value.Func? then
            Eval(ArgsK(callee.value), Values(v[1..], 0, [], env), w1)
          else if SyncSpecialForm(head) then
            Eval(SpecialK(v[0], env), Values(v[1..], 0, [], env), w1)
          else Eval(HeadK(v[1..], env), One(v[0], env), w1)
  }

  function StepCall(h: Host, f: Function, args: seq<Value>, w: World): Action {
    if f.clauses != [] then
      match SelectClause(f.clauses, |args|)
      case None => Return(Thrown(CallName(f) + " has no arity accepting " + NatText(|args|) + " arguments"), w)
      case Some(clause) => Goto(Call(clause, args), w)
    else if f.code.FiberCode? then Goto(Perform(h.fiberNative(f.code.id, args, w)), w)
    else if f.code.NativeCode? then Lift(h.callNative(f, args, w))
    else
      match ArityError(f, |args|)
      case Some(e) => Return(Thrown(e), w)
      case None =>
        var w1 := Enter(h, f, w);
        match CallEnv(h, f, args, w1) {
          case Err(e) =>
            var w2 := LeaveNs(w1, ScopeOf(f, w));
            Return(Thrown("function destructuring failed: " + AppendTrace(e, w2)), PopTrace(w2, w.tracing))
          case Ok(env) =>
            Eval(CallK(ScopeOf(f, w), w.tracing), Forms(f.body, 0, Nil, w1.nextEnv), Alloc(w1, env))
        }
  }

  // ----- one call of a continuation -----

  function Resume(h: Host, f: Frame, o: Outcome, w: World): Action {
    match f
    case IfK(v, env) =>
      if !o.Val? || |v| < 3 then Return(o, w)
      else if o.v.Truthy() then Goto(One(v[2], env), w)
      else if |v| == 4 then Goto(One(v[3], env), w)
      else Return(Val(Nil), w)
    case FormsK(forms, i, env) =>
      if o.Val? then Goto(Forms(forms, i + 1, o.v, env), w) else Return(o, w)
    case ValuesK(forms, i, vals, env) =>
      if o.Val? then Goto(Values(forms, i + 1, vals + [o.v], env), w) else Return(o, w)
    case AndK(forms, i, env) =>
      if o.Val? then Goto(And(forms, i + 1, o.v, env), w) else Return(o, w)
    case OrK(forms, i, env) =>
      if o.Val? && !o.v.Truthy() then Goto(Or(forms, i + 1, o.v, env), w) else Return(o, w)
    case CondK(clauses, i, env) =>
      if !o.Val? || i >= |clauses| then Return(o, w)
      else if o.v.Truthy() then Goto(One(clauses[i].1, env), w)
      else Goto(Cond(clauses, i + 1, env), w)
    case MapK => Return(if o.Vals? then Val(h.mapOf(o.vs)) else o, w)
    case SetK => Return(if o.Vals? then Val(h.setOf(o.vs)) else o, w)
    case VectorK => Return(if o.Vals? then AsOutcome(h.vectorOf(o.vs)) else o, w)
    case RecurK => Return(if o.Vals? then Val(Recur(o.vs)) else o, w)
    case ThrowK =>
      if !o.Val? then Return(o, w)
      else if o.v.Exception? then (var (e, w1) := h.thrown(o.v, w); Return(Thrown(e), w1))
      else Return(Thrown("throw expects an Exception value created by ex"), w)
    case BindK(pairs, i, saved, env) =>
      if !o.Val? || i >= |pairs| then Return(o, w)
      else
        var before := w.EnvAt(env);
        var b := BindPattern(h, pairs[i].0, o.v, before, []);
        if b.error.Some? then Return(Thrown("destructuring failed: " + b.error.value), w.Put(env, b.env))
        else Goto(Bind(pairs, i + 1, saved + SavedAll(before, b.names), env), w.Put(env, b.env))
    case ScopeK(isLoop, patterns, body, env) =>
      if !o.Olds? then Return(o, w)
      else if isLoop then Goto(LoopBody(patterns, body, o.saved, env), w)
      else Eval(LetK(o.saved, env), One(body, env), w)
    case LetK(saved, env) => Return(o, Undo(w, env, saved))
    case LoopK(patterns, body, saved, env) =>
      if o.Val? && o.v.Recur? then
        if |o.v.args| != |patterns| then
          Return(Thrown("loop recur arity mismatch"), Undo(w, env, saved))
        else
          var (stop, bound) := Rebind(h, patterns, o.v.args, w.EnvAt(env));
          var w1 := w.Put(env, bound);
          if stop.Some? then
            Return(Thrown("loop destructuring failed: " + stop.value), Undo(w1, env, saved))
          else Goto(LoopBody(patterns, body, saved, env), w1)
      else Return(o, Undo(w, env, saved))
    case TryK(catches, finals, env) =>
      if !o.Thrown? then Goto(Finally(o, finals, env), w)
      else
        match SelectCatch(h, catches, false, o.e, w) {
          case Malformed(e) => Return(Thrown(e), w)
          case Unmatched => Goto(Finally(o, finals, env), w)
          case Selected(name, body) =>
            var (v, w1) := h.caught(o.e, w);
            Eval(CatchK(name, w1.Get(env, name), finals, env), Forms(body, 0, Nil, env),
                 w1.Put(env, w1.EnvAt(env)[name := v]))
        }
    case CatchK(name, before, finals, env) =>
      Goto(Finally(o, finals, env), Undo(w, env, [(name, before)]))
    case FinallyK(result) => Return(if o.Thrown? then o else result, w)
    case HeadK(args, env) =>
      if o.Val? then Eval(ArgsK(o.v), Values(args, 0, [], env), w) else Return(o, w)
    case ArgsK(callee) =>
      if !o.Vals? then Return(o, w)
      else if callee.Func? then Goto(Call(callee.fn, o.vs), w)
      else Lift(h.callValue(callee, o.vs, w))
    case SpecialK(op, env) =>
      if o.Vals? then Lift(h.special(op, o.vs, env, w)) else Return(o, w)
    case DefineK(op, name, meta, env) =>
      if o.Val? then Lift(h.define(op, name, meta, o.v, env, w)) else Return(o, w)
    case ReceiverK(field, replacement, env) =>
      if o.Val? then Eval(FieldK(o.v, field), One(replacement, env), w) else Return(o, w)
    case FieldK(receiver, field) =>
      if o.Val? then Lift(h.setField(receiver, field, o.v, w)) else Return(o, w)
    case CallK(scope, traced) =>
      var w1 := LeaveNs(w, scope);
      var r := if o.Val? && o.v.Recur? then Thrown(AppendTrace("recur must be inside loop", w1))
               else if o.Thrown? then Thrown(AppendTrace(o.e, w1)) else o;
      Return(r, PopTrace(w1, traced))
  }

  // ----- the machine -----

  function Apply(a: Action, k: Stack): Config {
    match a
    case Goto(t, w) => Config(Run(t), k, w)
    case Eval(f, t, w) => Config(Run(t), Push(f, k), w)
    case Return(o, w) => Config(Ret(o), k, w)
    case Suspend(p, token, w) => Config(Wait(p, token), k, w)
  }

  /** Continues a suspended configuration with the state its promise settled in. */
  function Settle(h: Host, c: Config, state: PromiseState): Config
    requires c.ctl.Wait?
  {
    Config(Run(Perform(h.settle(c.ctl.token, state, c.w.(answered := c.w.answered + 1)))), c.k, c.w)
  }

  predicate Stopped(c: Config) { c.ctl.Wait? || (c.ctl.Ret? && c.k.Bottom?) }

  /** A step that needs no answer from outside. */
  function Advance(h: Host, c: Config): Config {
    match c.ctl
    case Run(t) => Apply(Step(h, t, c.w), c.k)
    case Ret(o) => if c.k.Bottom? then c else Apply(Resume(h, c.k.top, o, c.w), c.k.rest)
    case Wait(_, _) => c
  }

  /** A step of the run in which every awaited promise answers at once. */
  function Next(h: Host, q: Answers, c: Config): Config {
    if c.ctl.Wait? then Settle(h, c, q(c.w.answered, c.ctl.promise)) else Advance(h, c)
  }

  function Stepper(h: Host, q: Answers): Config -> Config { c => Next(h, q, c) }
}
