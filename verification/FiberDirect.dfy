/**
 The reference semantics: a direct, recursive evaluator for the same forms.

 There are no continuations here.  A construct evaluates its parts by calling the
 evaluator, and `fuel` bounds the depth of those calls so that the definition is total;
 an awaited promise answers at once with the state `q` gives for it.
 */
module FiberDirect {
  import opened Optional
  import opened Results
  import opened FiberSyntax

  datatype Out<+T> = Done(r: Res<T>, w: World) | NoFuel {
    predicate IsFailure() { NoFuel? || r.Err? }
    function PropagateFailure<U>(): Out<U>
      requires IsFailure()
    {
      if NoFuel? then NoFuel else Done(Err(r.error), w)
    }
    function Extract(): (T, World)
      requires !IsFailure()
    {
      (r.value, w)
    }
  }

  function Lifted(p: (Res<Value>, World)): Out<Value> { Done(p.0, p.1) }

  function EvalOne(h: Host, q: Answers, fuel: nat, form: Form, env: EnvId, w0: World): Out<Value>
    decreases fuel, 0
  {
    if fuel == 0 then NoFuel
    else
      var (stop, w) := h.interrupt(w0);
      if stop.Some? then Done(Err(stop.value), w)
      else
        match form
        case MapForm(entries) =>
          var (vs, w1) :- EvalValues(h, q, fuel - 1, Flat(entries), env, w);
          Done(Ok(h.mapOf(vs)), w1)
        case SetForm(items) =>
          var (vs, w1) :- EvalValues(h, q, fuel - 1, items, env, w);
          Done(Ok(h.setOf(vs)), w1)
        case VectorForm(items) =>
          var (vs, w1) :- EvalValues(h, q, fuel - 1, items, env, w);
          Done(h.vectorOf(vs), w1)
        case ListForm(v) =>
          if v == [] then Done(Ok(List([])), w)
          else if |v| == 2 && v[0] == Sym("quote") then Done(h.literal(v[1]), w)
          else EvalList(h, q, fuel - 1, v, env, w)
        case _ => Lifted(h.sync(form, env, w))
  }

  function EvalList(h: Host, q: Answers, fuel: nat, v: seq<Form>, env: EnvId, w: World): Out<Value>
    requires v != []
    decreases fuel, 3
  {
    if !v[0].Sym? then EvalApplication(h, q, fuel, v, env, w)
    else
      var head := v[0].name;
      if head == "do" then EvalForms(h, q, fuel, v[1..], Nil, env, w)
      else if head == "if" then EvalIf(h, q, fuel, v, env, w)
      else if head == "and" then EvalAnd(h, q, fuel, v[1..], Bool(true), env, w)
      else if head == "or" then EvalOr(h, q, fuel, v[1..], Nil, env, w)
      else if head == "cond" then
        if |v| % 2 == 0 then Done(Err("cond expects test/expression pairs"), w)
        else EvalCond(h, q, fuel, Pairs(v[1..]), env, w)
      else if head == "let" || head == "loop" then EvalScope(h, q, fuel, head == "loop", v, env, w)
      else if head == "recur" then
        var (vs, w1) :- EvalValues(h, q, fuel, v[1..], env, w);
        Done(Ok(Recur(vs)), w1)
      else if head == "try" then
        match SplitTry(v[1..], TryParts([], [], []), false) {
          case Err(e) => Done(Err(e), w)
          case Ok(parts) => EvalTry(h, q, fuel, parts, env, w)
        }
      else if head == "throw" then EvalThrow(h, q, fuel, v, env, w)
      else if head == "std.foundation.coroutine/resume"
              || head == "std.protocol.icoroutine.ICoroutine/resume" then
        EvalNative(h, q, fuel, h.coroutine(v, env, w))
      else if head == "def" || head == "var/set" then EvalDefine(h, q, fuel, v, env, w)
      else if head == "set!" then EvalSet(h, q, fuel, v, env, w)
      else if head == "resolve" && w.Get(env, "resolve").Some? && !w.Get(env, "resolve").value.Var? then
        EvalApplication(h, q, fuel, v, env, w)
      else if SyncSpecialForm(head) then Lifted(h.sync(ListForm(v), env, w))
      else EvalApplication(h, q, fuel, v, env, w)
  }

  /** Forms in order; the value is the last one's, and a `recur` value ends the sequence. */
  function EvalForms(h: Host, q: Answers, fuel: nat, forms: seq<Form>, last: Value, env: EnvId, w: World): Out<Value>
    decreases fuel, 0
  {
    if fuel == 0 then NoFuel
    else if forms == [] || last.Recur? then Done(Ok(last), w)
    else
      var (v, w1) :- EvalOne(h, q, fuel - 1, forms[0], env, w);
      EvalForms(h, q, fuel - 1, forms[1..], v, env, w1)
  }

  function EvalValues(h: Host, q: Answers, fuel: nat, forms: seq<Form>, env: EnvId, w: World): Out<seq<Value>>
    decreases fuel, 0
  {
    if fuel == 0 then NoFuel
    else if forms == [] then Done(Ok([]), w)
    else
      var (v, w1) :- EvalOne(h, q, fuel - 1, forms[0], env, w);
      var (vs, w2) :- EvalValues(h, q, fuel - 1, forms[1..], env, w1);
      Done(Ok([v] + vs), w2)
  }

  function EvalIf(h: Host, q: Answers, fuel: nat, v: seq<Form>, env: EnvId, w: World): Out<Value>
    decreases fuel, 1
  {
    if |v| != 3 && |v| != 4 then Done(Err("if expects 2 or 3 arguments"), w)
    else
      var (test, w1) :- EvalOne(h, q, fuel, v[1], env, w);
      if test.Truthy() then EvalOne(h, q, fuel, v[2], env, w1)
      else if |v| == 4 then EvalOne(h, q, fuel, v[3], env, w1)
      else Done(Ok(Nil), w1)
  }

  function EvalAnd(h: Host, q: Answers, fuel: nat, forms: seq<Form>, last: Value, env: EnvId, w: World): Out<Value>
    decreases fuel, 0
  {
    if fuel == 0 then NoFuel
    else if forms == [] || !last.Truthy() then Done(Ok(last), w)
    else
      var (v, w1) :- EvalOne(h, q, fuel - 1, forms[0], env, w);
      EvalAnd(h, q, fuel - 1, forms[1..], v, env, w1)
  }

  function EvalOr(h: Host, q: Answers, fuel: nat, forms: seq<Form>, last: Value, env: EnvId, w: World): Out<Value>
    decreases fuel, 0
  {
    if fuel == 0 then NoFuel
    else if forms == [] then Done(Ok(last), w)
    else
      var (v, w1) :- EvalOne(h, q, fuel - 1, forms[0], env, w);
      if v.Truthy() then Done(Ok(v), w1)
      else EvalOr(h, q, fuel - 1, forms[1..], v, env, w1)
  }

  function EvalCond(h: Host, q: Answers, fuel: nat, clauses: seq<(Form, Form)>, env: EnvId, w: World): Out<Value>
    decreases fuel, 0
  {
    if fuel == 0 then NoFuel
    else if clauses == [] then Done(Ok(Nil), w)
    else
      var (test, w1) :- EvalOne(h, q, fuel - 1, clauses[0].0, env, w);
      if test.Truthy() then EvalOne(h, q, fuel - 1, clauses[0].1, env, w1)
      else EvalCond(h, q, fuel - 1, clauses[1..], env, w1)
  }

  /**
   The binding phase of `let` and `loop`: what each bound name held before.
   An initialiser or pattern that fails leaves the bindings made so far in place.
   */
  function EvalBind(h: Host, q: Answers, fuel: nat, pairs: seq<(Form, Form)>, env: EnvId, w: World): Out<Previous>
    decreases fuel, 0
  {
    if fuel == 0 then NoFuel
    else if pairs == [] then Done(Ok([]), w)
    else
      var (x, w1) :- EvalOne(h, q, fuel - 1, pairs[0].1, env, w);
      EvalBound(h, q, fuel - 1, pairs, x, env, w1)
  }

  function EvalBound(h: Host, q: Answers, fuel: nat, pairs: seq<(Form, Form)>, x: Value, env: EnvId, w: World): Out<Previous>
    requires pairs != []
    decreases fuel, 1
  {
    var before := w.EnvAt(env);
    var b := BindPattern(h, pairs[0].0, x, before, []);
    var w1 := w.Put(env, b.env);
    if b.error.Some? then Done(Err("destructuring failed: " + b.error.value), w1)
    else
      var (rest, w2) :- EvalBind(h, q, fuel, pairs[1..], env, w1);
      Done(Ok(SavedAll(before, b.names) + rest), w2)
  }

  function EvalScope(h: Host, q: Answers, fuel: nat, isLoop: bool, v: seq<Form>, env: EnvId, w: World): Out<Value>
    decreases fuel, 1
  {
    match Bindings(v, if isLoop then "loop" else "let")
    case Err(e) => Done(Err(e), w)
    case Ok(pairs) =>
      var (saved, w1) :- EvalBind(h, q, fuel, pairs, env, w);
      if isLoop then EvalLoop(h, q, fuel, Patterns(pairs), ScopeBody(v), saved, env, w1)
      else
        match EvalOne(h, q, fuel, ScopeBody(v), env, w1)
        case NoFuel => NoFuel
        case Done(r, w2) => Done(r, Undo(w2, env, saved))
  }

  function EvalLoop(h: Host, q: Answers, fuel: nat, patterns: seq<Form>, body: Form, saved: Previous,
                    env: EnvId, w: World): Out<Value>
    decreases fuel, 0
  {
    if fuel == 0 then NoFuel
    else
      match EvalOne(h, q, fuel - 1, body, env, w)
      case NoFuel => NoFuel
      case Done(r, w1) =>
        if r.Err? || !r.value.Recur? then Done(r, Undo(w1, env, saved))
        else if |r.value.args| != |patterns| then
          Done(Err("loop recur arity mismatch"), Undo(w1, env, saved))
        else
          var (stop, bound) := Rebind(h, patterns, r.value.args, w1.EnvAt(env));
          var w2 := w1.Put(env, bound);
          if stop.Some? then
            Done(Err("loop destructuring failed: " + stop.value), Undo(w2, env, saved))
          else EvalLoop(h, q, fuel - 1, patterns, body, saved, env, w2)
  }

  function EvalThrow(h: Host, q: Answers, fuel: nat, v: seq<Form>, env: EnvId, w: World): Out<Value>
    decreases fuel, 1
  {
    if |v| != 2 then Done(Err("throw expects one value"), w)
    else
      var (x, w1) :- EvalOne(h, q, fuel, v[1], env, w);
      if x.Exception? then (var (e, w2) := h.thrown(x, w1); Done(Err(e), w2))
      else Done(Err("throw expects an Exception value created by ex"), w1)
  }

  /** A malformed catch clause is only found once the body has failed, and skips `finally`. */
  function EvalTry(h: Host, q: Answers, fuel: nat, parts: TryParts, env: EnvId, w: World): Out<Value>
    decreases fuel, 1
  {
    match EvalForms(h, q, fuel, parts.body, Nil, env, w)
    case NoFuel => NoFuel
    case Done(r, w1) =>
      if r.Ok? then EvalFinally(h, q, fuel, r, parts.finals, env, w1)
      else
        match SelectCatch(h, parts.catches, false, r.error, w1)
        case Malformed(e) => Done(Err(e), w1)
        case Unmatched => EvalFinally(h, q, fuel, r, parts.finals, env, w1)
        case Selected(name, body) =>
          var (v, w2) := h.caught(r.error, w1);
          var before := w2.Get(env, name);
          match EvalForms(h, q, fuel, body, Nil, env, w2.Put(env, w2.EnvAt(env)[name := v]))
          case NoFuel => NoFuel
          case Done(r1, w3) =>
            EvalFinally(h, q, fuel, r1, parts.finals, env, Undo(w3, env, [(name, before)]))
  }

  function EvalFinally(h: Host, q: Answers, fuel: nat, r: Res<Value>, finals: seq<Form>, env: EnvId, w: World): Out<Value>
    decreases fuel, 0
  {
    if fuel == 0 then NoFuel
    else
      var (_, w1) :- EvalForms(h, q, fuel - 1, finals, Nil, env, w);
      Done(r, w1)
  }

  function EvalDefine(h: Host, q: Answers, fuel: nat, v: seq<Form>, env: EnvId, w: World): Out<Value>
    requires v != [] && v[0].Sym?
    decreases fuel, 1
  {
    if |v| != 3 then Done(Err("binding form expects symbol and value"), w)
    else
      match DefTarget(h, v[0].name, v[1])
      case BadTarget(e) => Done(Err(e), w)
      case Name(name, meta) =>
        var (x, w1) :- EvalOne(h, q, fuel, v[2], env, w);
        Lifted(h.define(v[0].name, name, meta, x, env, w1))
  }

  function EvalSet(h: Host, q: Answers, fuel: nat, v: seq<Form>, env: EnvId, w: World): Out<Value>
    requires v != [] && v[0].Sym?
    decreases fuel, 2
  {
    if |v| != 3 then Done(Err("set! expects a place and value"), w)
    else if v[1].Sym? || v[1].MetaForm? then EvalDefine(h, q, fuel, v, env, w)
    else
      match PlaceOf(v[1])
      case BadPlace(e) => Done(Err(e), w)
      case FieldPlace(receiver, field) =>
        var (r, w1) :- EvalOne(h, q, fuel, receiver, env, w);
        var (x, w2) :- EvalOne(h, q, fuel, v[2], env, w1);
        Lifted(h.setField(r, field, x, w2))
  }

  function EvalApplication(h: Host, q: Answers, fuel: nat, v: seq<Form>, env: EnvId, w: World): Out<Value>
    requires v != []
    decreases fuel, 1
  {
    if v[0].Sym? && h.isMacro(v[0].name, w) then Lifted(h.sync(ListForm(v), env, w))
    else
      var (stop, w1) := if v[0].Sym? then h.prepare(v[0].name, env, w) else (None, w);
      if stop.Some? then Done(Err(stop.value), w1)
      else
        var callee := if v[0].Sym? then h.lookup(v[0].name, env, w1) else None;
        if callee.Some? && callee.value.Func? then
          var (args, w2) :- EvalValues(h, q, fuel, v[1..], env, w1);
          EvalCall(h, q, fuel, callee.value.fn, args, w2)
        else if v[0].Sym? && SyncSpecialForm(v[0].name) then
          var (args, w2) :- EvalValues(h, q, fuel, v[1..], env, w1);
          Lifted(h.special(v[0], args, env, w2))
        else
          var (f, w2) :- EvalOne(h, q, fuel, v[0], env, w1);
          var (args, w3) :- EvalValues(h, q, fuel, v[1..], env, w2);
          if f.Func? then EvalCall(h, q, fuel, f.fn, args, w3)
          else Lifted(h.callValue(f, args, w3))
  }

  function EvalCall(h: Host, q: Answers, fuel: nat, f: Function, args: seq<Value>, w: World): Out<Value>
    decreases fuel, 0
  {
    if fuel == 0 then NoFuel
    else if f.clauses != [] then
      match SelectClause(f.clauses, |args|)
      case None => Done(Err(CallName(f) + " has no arity accepting " + NatText(|args|) + " arguments"), w)
      case Some(clause) => EvalCall(h, q, fuel - 1, clause, args, w)
    else if f.code.FiberCode? then EvalNative(h, q, fuel - 1, h.fiberNative(f.code.id, args, w))
    else if f.code.NativeCode? then Lifted(h.callNative(f, args, w))
    else
      match ArityError(f, |args|)
      case Some(e) => Done(Err(e), w)
      case None =>
        var w1 := Enter(h, f, w);
        match CallEnv(h, f, args, w1) {
          case Err(e) =>
            Done(Err("function destructuring failed: " + AppendTrace(e, LeaveNs(w1, ScopeOf(f, w)))),
                 Leave(w1, ScopeOf(f, w), w.tracing))
          case Ok(env) =>
            match EvalForms(h, q, fuel - 1, f.body, Nil, w1.nextEnv, Alloc(w1, env)) {
              case NoFuel => NoFuel
              case Done(r, w2) =>
                Done(CallResult(r, LeaveNs(w2, ScopeOf(f, w))), Leave(w2, ScopeOf(f, w), w.tracing))
            }
        }
  }

  /** A stray `recur` is an error, and errors leaving a call carry the trace. */
  function CallResult(r: Res<Value>, w: World): Res<Value> {
    match r
    case Err(e) => Err(AppendTrace(e, w))
    case Ok(v) => if v.Recur? then Err(AppendTrace("recur must be inside loop", w)) else r
  }

  function EvalNative(h: Host, q: Answers, fuel: nat, n: Native): Out<Value>
    decreases fuel, 0
  {
    if fuel == 0 then NoFuel
    else
      match n
      case NativeReturn(r, w) => Done(r, w)
      case NativeAwait(p, token, w) =>
        EvalNative(h, q, fuel - 1, h.settle(token, q(w.answered, p), w.(answered := w.answered + 1)))
  }
}
