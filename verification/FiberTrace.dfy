/**
 Calls are balanced: whatever way an evaluation ends, the trace stack is exactly what it was,
 and a call that switched namespace has switched back.
 */
module FiberTrace {
  import opened Optional
  import opened Results
  import opened FiberSyntax
  import opened FiberDirect

  /** Native code and the synchronous evaluator leave the trace as they found it. */
  ghost predicate KeepsTrace(h: Host) {
    && (forall w :: h.interrupt(w).1.trace == w.trace)
    && (forall f, e, w :: h.sync(f, e, w).1.trace == w.trace)
    && (forall v, w :: h.thrown(v, w).1.trace == w.trace)
    && (forall s, w :: h.caught(s, w).1.trace == w.trace)
    && (forall s, e, w :: h.prepare(s, e, w).1.trace == w.trace)
    && (forall f, vs, e, w :: h.special(f, vs, e, w).1.trace == w.trace)
    && (forall v, vs, w :: h.callValue(v, vs, w).1.trace == w.trace)
    && (forall f, vs, w :: h.callNative(f, vs, w).1.trace == w.trace)
    && (forall n, vs, w :: h.fiberNative(n, vs, w).w.trace == w.trace)
    && (forall v, e, w :: h.coroutine(v, e, w).w.trace == w.trace)
    && (forall t, s, w :: h.settle(t, s, w).w.trace == w.trace)
    && (forall op, n, m, v, e, w :: h.define(op, n, m, v, e, w).1.trace == w.trace)
    && (forall r, f, v, w :: h.setField(r, f, v, w).1.trace == w.trace)
  }

  predicate Balanced<T>(out: Out<T>, w: World) { out.Done? ==> out.w.trace == w.trace }

  lemma {:induction false} OneBalanced(h: Host, q: Answers, fuel: nat, form: Form, env: EnvId, w0: World)
    requires KeepsTrace(h)
    ensures Balanced(EvalOne(h, q, fuel, form, env, w0), w0)
    decreases fuel, 0
  {
    if fuel > 0 {
      var (stop, w) := h.interrupt(w0);
      match form
      case MapForm(entries) => ValuesBalanced(h, q, fuel - 1, Flat(entries), env, w);
      case SetForm(items) => ValuesBalanced(h, q, fuel - 1, items, env, w);
      case VectorForm(items) => ValuesBalanced(h, q, fuel - 1, items, env, w);
      case ListForm(v) => if v != [] { ListBalanced(h, q, fuel - 1, v, env, w); }
      case _ =>
    }
  }

  lemma {:induction false} ListBalanced(h: Host, q: Answers, fuel: nat, v: seq<Form>, env: EnvId, w: World)
    requires KeepsTrace(h) && v != []
    ensures Balanced(EvalList(h, q, fuel, v, env, w), w)
    decreases fuel, 3
  {
    hide EvalOne, EvalForms, EvalIf, EvalAnd, EvalOr, EvalCond, EvalScope, EvalTry, EvalDefine, EvalSet, EvalApplication, EvalNative;
    hide SyncSpecialForm, SplitTry;
    ApplicationBalanced(h, q, fuel, v, env, w);
    if v[0].Sym? {
      var head := v[0].name;
      if head == "do" { FormsBalanced(h, q, fuel, v[1..], Nil, env, w); }
      else if head == "if" { IfBalanced(h, q, fuel, v, env, w); }
      else if head == "and" { AndBalanced(h, q, fuel, v[1..], Bool(true), env, w); }
      else if head == "or" { OrBalanced(h, q, fuel, v[1..], Nil, env, w); }
      else if head == "cond" { CondBalanced(h, q, fuel, Pairs(v[1..]), env, w); }
      else if head == "let" || head == "loop" { ScopeBalanced(h, q, fuel, head == "loop", v, env, w); }
      else if head == "recur" { ValuesBalanced(h, q, fuel, v[1..], env, w); }
      else if head == "try" {
        var parts := SplitTry(v[1..], TryParts([], [], []), false);
        if parts.Ok? { TryBalanced(h, q, fuel, parts.value, env, w); }
      }
      else if head == "throw" { if |v| == 2 { OneBalanced(h, q, fuel, v[1], env, w); } }
      else if head == "std.foundation.coroutine/resume"
              || head == "std.protocol.icoroutine.ICoroutine/resume" {
        NativeBalanced(h, q, fuel, h.coroutine(v, env, w));
      }
      else if head == "def" || head == "var/set" { DefineBalanced(h, q, fuel, v, env, w); }
      else if head == "set!" { SetBalanced(h, q, fuel, v, env, w); }
    }
  }

  lemma {:induction false} FormsBalanced(h: Host, q: Answers, fuel: nat, forms: seq<Form>, last: Value, env: EnvId, w: World)
    requires KeepsTrace(h)
    ensures Balanced(EvalForms(h, q, fuel, forms, last, env, w), w)
    decreases fuel, 0
  {
    if fuel > 0 && forms != [] {
      OneBalanced(h, q, fuel - 1, forms[0], env, w);
      var out := EvalOne(h, q, fuel - 1, forms[0], env, w);
      if !out.IsFailure() { FormsBalanced(h, q, fuel - 1, forms[1..], out.r.value, env, out.w); }
    }
  }

  lemma {:induction false} ValuesBalanced(h: Host, q: Answers, fuel: nat, forms: seq<Form>, env: EnvId, w: World)
    requires KeepsTrace(h)
    ensures Balanced(EvalValues(h, q, fuel, forms, env, w), w)
    decreases fuel, 0
  {
    if fuel > 0 && forms != [] {
      OneBalanced(h, q, fuel - 1, forms[0], env, w);
      var out := EvalOne(h, q, fuel - 1, forms[0], env, w);
      if !out.IsFailure() { ValuesBalanced(h, q, fuel - 1, forms[1..], env, out.w); }
    }
  }

  lemma {:induction false} IfBalanced(h: Host, q: Answers, fuel: nat, v: seq<Form>, env: EnvId, w: World)
    requires KeepsTrace(h)
    ensures Balanced(EvalIf(h, q, fuel, v, env, w), w)
    decreases fuel, 1
  {
    if |v| == 3 || |v| == 4 {
      OneBalanced(h, q, fuel, v[1], env, w);
      var out := EvalOne(h, q, fuel, v[1], env, w);
      if !out.IsFailure() {
        OneBalanced(h, q, fuel, v[2], env, out.w);
        if |v| == 4 { OneBalanced(h, q, fuel, v[3], env, out.w); }
      }
    }
  }

  lemma {:induction false} AndBalanced(h: Host, q: Answers, fuel: nat, forms: seq<Form>, last: Value, env: EnvId, w: World)
    requires KeepsTrace(h)
    ensures Balanced(EvalAnd(h, q, fuel, forms, last, env, w), w)
    decreases fuel, 0
  {
    if fuel > 0 && forms != [] {
      OneBalanced(h, q, fuel - 1, forms[0], env, w);
      var out := EvalOne(h, q, fuel - 1, forms[0], env, w);
      if !out.IsFailure() { AndBalanced(h, q, fuel - 1, forms[1..], out.r.value, env, out.w); }
    }
  }

  lemma {:induction false} OrBalanced(h: Host, q: Answers, fuel: nat, forms: seq<Form>, last: Value, env: EnvId, w: World)
    requires KeepsTrace(h)
    ensures Balanced(EvalOr(h, q, fuel, forms, last, env, w), w)
    decreases fuel, 0
  {
    if fuel > 0 && forms != [] {
      OneBalanced(h, q, fuel - 1, forms[0], env, w);
      var out := EvalOne(h, q, fuel - 1, forms[0], env, w);
      if !out.IsFailure() { OrBalanced(h, q, fuel - 1, forms[1..], out.r.value, env, out.w); }
    }
  }

  lemma {:induction false} CondBalanced(h: Host, q: Answers, fuel: nat, clauses: seq<(Form, Form)>, env: EnvId, w: World)
    requires KeepsTrace(h)
    ensures Balanced(EvalCond(h, q, fuel, clauses, env, w), w)
    decreases fuel, 0
  {
    if fuel > 0 && clauses != [] {
      OneBalanced(h, q, fuel - 1, clauses[0].0, env, w);
      var out := EvalOne(h, q, fuel - 1, clauses[0].0, env, w);
      if !out.IsFailure() {
        OneBalanced(h, q, fuel - 1, clauses[0].1, env, out.w);
        CondBalanced(h, q, fuel - 1, clauses[1..], env, out.w);
      }
    }
  }

  lemma {:induction false} BindBalanced(h: Host, q: Answers, fuel: nat, pairs: seq<(Form, Form)>, env: EnvId, w: World)
    requires KeepsTrace(h)
    ensures Balanced(EvalBind(h, q, fuel, pairs, env, w), w)
    decreases fuel, 0
  {
    if fuel > 0 && pairs != [] {
      OneBalanced(h, q, fuel - 1, pairs[0].1, env, w);
      var out := EvalOne(h, q, fuel - 1, pairs[0].1, env, w);
      if !out.IsFailure() {
        var b := BindPattern(h, pairs[0].0, out.r.value, out.w.EnvAt(env), []);
        BindBalanced(h, q, fuel - 1, pairs[1..], env, out.w.Put(env, b.env));
      }
    }
  }

  lemma {:induction false} ScopeBalanced(h: Host, q: Answers, fuel: nat, isLoop: bool, v: seq<Form>, env: EnvId, w: World)
    requires KeepsTrace(h)
    ensures Balanced(EvalScope(h, q, fuel, isLoop, v, env, w), w)
    decreases fuel, 1
  {
    var bindings := Bindings(v, if isLoop then "loop" else "let");
    if bindings.Ok? {
      BindBalanced(h, q, fuel, bindings.value, env, w);
      var out := EvalBind(h, q, fuel, bindings.value, env, w);
      if !out.IsFailure() {
        OneBalanced(h, q, fuel, ScopeBody(v), env, out.w);
        LoopBalanced(h, q, fuel, Patterns(bindings.value), ScopeBody(v), out.r.value, env, out.w);
      }
    }
  }

  lemma {:induction false} LoopBalanced(h: Host, q: Answers, fuel: nat, patterns: seq<Form>, body: Form, saved: Previous,
                                        env: EnvId, w: World)
    requires KeepsTrace(h)
    ensures Balanced(EvalLoop(h, q, fuel, patterns, body, saved, env, w), w)
    decreases fuel, 0
  {
    if fuel > 0 {
      OneBalanced(h, q, fuel - 1, body, env, w);
      var out := EvalOne(h, q, fuel - 1, body, env, w);
      if !out.IsFailure() && out.r.value.Recur? {
        var (_, bound) := Rebind(h, patterns, out.r.value.args, out.w.EnvAt(env));
        LoopBalanced(h, q, fuel - 1, patterns, body, saved, env, out.w.Put(env, bound));
      }
    }
  }

  lemma {:induction false} TryBalanced(h: Host, q: Answers, fuel: nat, parts: TryParts, env: EnvId, w: World)
    requires KeepsTrace(h)
    ensures Balanced(EvalTry(h, q, fuel, parts, env, w), w)
    decreases fuel, 1
  {
    FormsBalanced(h, q, fuel, parts.body, Nil, env, w);
    var out := EvalForms(h, q, fuel, parts.body, Nil, env, w);
    if out.Done? {
      FinallyBalanced(h, q, fuel, out.r, parts.finals, env, out.w);
      if out.r.Err? {
        var sel := SelectCatch(h, parts.catches, false, out.r.error, out.w);
        if sel.Selected? {
          var (v, w2) := h.caught(out.r.error, out.w);
          var w3 := w2.Put(env, w2.EnvAt(env)[sel.name := v]);
          FormsBalanced(h, q, fuel, sel.body, Nil, env, w3);
          var out1 := EvalForms(h, q, fuel, sel.body, Nil, env, w3);
          if out1.Done? {
            FinallyBalanced(h, q, fuel, out1.r, parts.finals, env, Undo(out1.w, env, [(sel.name, w2.Get(env, sel.name))]));
          }
        }
      }
    }
  }

  lemma {:induction false} FinallyBalanced(h: Host, q: Answers, fuel: nat, r: Res<Value>, finals: seq<Form>, env: EnvId, w: World)
    requires KeepsTrace(h)
    ensures Balanced(EvalFinally(h, q, fuel, r, finals, env, w), w)
    decreases fuel, 0
  {
    if fuel > 0 { FormsBalanced(h, q, fuel - 1, finals, Nil, env, w); }
  }

  lemma {:induction false} DefineBalanced(h: Host, q: Answers, fuel: nat, v: seq<Form>, env: EnvId, w: World)
    requires KeepsTrace(h) && v != [] && v[0].Sym?
    ensures Balanced(EvalDefine(h, q, fuel, v, env, w), w)
    decreases fuel, 1
  {
    if |v| == 3 { OneBalanced(h, q, fuel, v[2], env, w); }
  }

  lemma {:induction false} SetBalanced(h: Host, q: Answers, fuel: nat, v: seq<Form>, env: EnvId, w: World)
    requires KeepsTrace(h) && v != [] && v[0].Sym?
    ensures Balanced(EvalSet(h, q, fuel, v, env, w), w)
    decreases fuel, 2
  {
    DefineBalanced(h, q, fuel, v, env, w);
    if |v| == 3 && PlaceOf(v[1]).FieldPlace? {
      var receiver := PlaceOf(v[1]).receiver;
      OneBalanced(h, q, fuel, receiver, env, w);
      var out := EvalOne(h, q, fuel, receiver, env, w);
      if !out.IsFailure() { OneBalanced(h, q, fuel, v[2], env, out.w); }
    }
  }

  lemma {:induction false} ApplicationBalanced(h: Host, q: Answers, fuel: nat, v: seq<Form>, env: EnvId, w: World)
    requires KeepsTrace(h) && v != []
    ensures Balanced(EvalApplication(h, q, fuel, v, env, w), w)
    decreases fuel, 2
  {
    var w1 := if v[0].Sym? then h.prepare(v[0].name, env, w).1 else w;
    var callee := if v[0].Sym? then h.lookup(v[0].name, env, w1) else None;
    if callee.Some? && callee.value.Func? {
      ArgumentsBalanced(h, q, fuel, callee.value, v[1..], env, w1);
    }
    ValuesBalanced(h, q, fuel, v[1..], env, w1);
    OneBalanced(h, q, fuel, v[0], env, w1);
    var out := EvalOne(h, q, fuel, v[0], env, w1);
    if !out.IsFailure() { ArgumentsBalanced(h, q, fuel, out.r.value, v[1..], env, out.w); }
  }

  lemma {:induction false} ArgumentsBalanced(h: Host, q: Answers, fuel: nat, f: Value, args: seq<Form>, env: EnvId, w: World)
    requires KeepsTrace(h)
    ensures Balanced(EvalValues(h, q, fuel, args, env, w), w)
    ensures var out := EvalValues(h, q, fuel, args, env, w);
            !out.IsFailure() && f.Func? ==> Balanced(EvalCall(h, q, fuel, f.fn, out.r.value, out.w), w)
    decreases fuel, 1
  {
    ValuesBalanced(h, q, fuel, args, env, w);
    var out := EvalValues(h, q, fuel, args, env, w);
    if !out.IsFailure() && f.Func? { CallBalanced(h, q, fuel, f.fn, out.r.value, out.w); }
  }

  /** Arity, destructuring and body errors, a stray `recur` and a normal return all pop the call's own frame. */
  lemma {:induction false} CallBalanced(h: Host, q: Answers, fuel: nat, f: Function, args: seq<Value>, w: World)
    requires KeepsTrace(h)
    ensures Balanced(EvalCall(h, q, fuel, f, args, w), w)
    decreases fuel, 0
  {
    if fuel > 0 {
      if f.clauses != [] {
        var clause := SelectClause(f.clauses, |args|);
        if clause.Some? { CallBalanced(h, q, fuel - 1, clause.value, args, w); }
      } else if f.code.FiberCode? {
        NativeBalanced(h, q, fuel - 1, h.fiberNative(f.code.id, args, w));
      } else {
        var w1 := Enter(h, f, w);
        assert w.tracing ==> w1.trace[..|w1.trace| - 1] == w.trace;
        var env := CallEnv(h, f, args, w1);
        if env.Ok? { FormsBalanced(h, q, fuel - 1, f.body, Nil, w1.nextEnv, Alloc(w1, env.value)); }
      }
    }
  }

  lemma {:induction false} NativeBalanced(h: Host, q: Answers, fuel: nat, n: Native)
    requires KeepsTrace(h)
    ensures Balanced(EvalNative(h, q, fuel, n), n.w)
    decreases fuel, 0
  {
    if fuel > 0 && n.NativeAwait? {
      NativeBalanced(h, q, fuel - 1,
                     h.settle(n.token, q(n.w.answered, n.promise), n.w.(answered := n.w.answered + 1)));
    }
  }

  // ----- the current namespace -----

  /** Every function a call of `f` can be dispatched to, whatever the arity, runs in a namespace of its own. */
  predicate Scoped(f: Function) {
    if f.clauses == [] then f.code.Hara? && f.namespace.Some? && !CallerScoped(f)
    else forall i :: 0 <= i < |f.clauses| ==> Scoped(f.clauses[i])
  }

  lemma {:induction false} ExactClauseMember(fs: seq<Function>, n: nat)
    requires ExactClause(fs, n).Some?
    ensures ExactClause(fs, n).value in fs
    decreases |fs|
  {
    if !(fs[0].variadic.None? && |fs[0].params| == n) { ExactClauseMember(fs[1..], n); }
  }

  lemma {:induction false} WidestVariadicMember(fs: seq<Function>, n: nat, best: Option<Function>)
    requires WidestVariadic(fs, n, best).Some?
    ensures WidestVariadic(fs, n, best).value in fs || WidestVariadic(fs, n, best) == best
    decreases |fs|
  {
    if fs != [] {
      var better := fs[0].variadic.Some? && n >= |fs[0].params| && (best.None? || |fs[0].params| >= |best.value.params|);
      WidestVariadicMember(fs[1..], n, if better then Some(fs[0]) else best);
    }
  }

  /** Arity dispatch picks one of the clauses. */
  lemma SelectedClauseMember(fs: seq<Function>, n: nat)
    requires SelectClause(fs, n).Some?
    ensures SelectClause(fs, n).value in fs
  {
    if ExactClause(fs, n).Some? { ExactClauseMember(fs, n); } else { WidestVariadicMember(fs, n, None); }
  }

  /**
   A call of a function whose clauses have their own namespaces ends in the caller's, through
   any depth of arity dispatch and however it ends.
   */
  lemma {:induction false} CallRestoresNamespace(h: Host, q: Answers, fuel: nat, f: Function, args: seq<Value>, w: World)
    requires Scoped(f)
    ensures var out := EvalCall(h, q, fuel, f, args, w); out.Done? ==> out.w.ns == w.ns
    decreases fuel
  {
    if fuel > 0 && f.clauses != [] {
      var clause := SelectClause(f.clauses, |args|);
      if clause.Some? {
        SelectedClauseMember(f.clauses, |args|);
        var i :| 0 <= i < |f.clauses| && f.clauses[i] == clause.value;
        CallRestoresNamespace(h, q, fuel - 1, clause.value, args, w);
      }
    }
  }

  // ----- the text of a trace -----

  /** The frames of a trace are listed from the newest down, so the oldest comes last. */
  lemma {:induction false} OldestLast(oldest: string, newer: seq<string>)
    requires newer != []
    ensures FrameLines([oldest] + newer) == FrameLines(newer) + "\n  at " + oldest
    decreases |newer|
  {
    var all, k := [oldest] + newer, |newer|;
    assert all[k] == newer[k - 1];
    if k == 1 {
      assert all[..1] == [oldest];
    } else {
      assert all[..k] == [oldest] + newer[..k - 1];
      OldestLast(oldest, newer[..k - 1]);
    }
  }

  /** An error is given the trace once: when it has one already, or nothing is traced, it stays as it is. */
  lemma TracedOnce(error: string, w: World)
    ensures error <= AppendTrace(error, w)
    ensures AppendTrace(AppendTrace(error, w), w) == AppendTrace(error, w)
  {
    if w.tracing && w.trace != [] && !Contains(error, STACK_MARK) {
      var more := "\n" + FrameLines(w.trace);
      assert AppendTrace(error, w) == error + (STACK_MARK + more);
      ContainsPart(error, STACK_MARK, more);
    }
  }

  lemma {:induction false} ContainsPart(before: string, part: string, after: string)
    ensures Contains(before + (part + after), part)
    decreases |before|
  {
    if before == "" {
      assert before + (part + after) == part + after;
    } else {
      assert (before + (part + after))[1..] == before[1..] + (part + after);
      ContainsPart(before[1..], part, after);
    }
  }
}
