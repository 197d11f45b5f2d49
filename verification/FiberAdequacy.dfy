/**
 The step machine and the direct evaluator agree: the machine calls a continuation with an
 outcome and a world exactly when direct evaluation ends with them.
 */
module FiberAdequacy {
  import opened Optional
  import opened Results
  import opened FiberSyntax
  import opened FiberMachine
  import opened FiberRuns
  import opened FiberDirect

  function EndV(out: Out<Value>): End {
    match out
    case NoFuel => OutOfFuel
    case Done(Ok(v), w) => Stop(Val(v), w)
    case Done(Err(e), w) => Stop(Thrown(e), w)
  }

  function EndVs(vals: seq<Value>, out: Out<seq<Value>>): End {
    match out
    case NoFuel => OutOfFuel
    case Done(Ok(vs), w) => Stop(Vals(vals + vs), w)
    case Done(Err(e), w) => Stop(Thrown(e), w)
  }

  function EndArgs(out: Out<seq<Value>>): End {
    match out
    case NoFuel => OutOfFuel
    case Done(Ok(vs), w) => Stop(Vals(vs), w)
    case Done(Err(e), w) => Stop(Thrown(e), w)
  }

  function EndOlds(saved: Previous, out: Out<Previous>): End {
    match out
    case NoFuel => OutOfFuel
    case Done(Ok(more), w) => Stop(Olds(saved + more), w)
    case Done(Err(e), w) => Stop(Thrown(e), w)
  }

  /** Running `t` above `k` ends as `end` says. */
  ghost predicate Agrees(h: Host, q: Answers, end: End, t: Task, k: Stack, w: World, fuel: nat) {
    Meets(Stepper(h, q), end, Config(Run(t), k, w), k, fuel)
  }

  /** Carrying out `a` above `k` ends as `end` says. */
  ghost predicate Acts(h: Host, q: Answers, end: End, a: Action, k: Stack, fuel: nat) {
    Meets(Stepper(h, q), end, Apply(a, k), k, fuel)
  }

  lemma AgreesByAction(h: Host, q: Answers, end: End, t: Task, k: Stack, w: World, fuel: nat)
    requires Acts(h, q, end, Step(h, t, w), k, fuel)
    ensures Agrees(h, q, end, t, k, w, fuel + 1)
  {
    MeetsStep(Stepper(h, q), end, Config(Run(t), k, w), k, fuel);
  }

  lemma ActsByReturn(h: Host, q: Answers, o: Outcome, w: World, k: Stack, fuel: nat)
    ensures Acts(h, q, Stop(o, w), Return(o, w), k, fuel)
  {
    MeetsNow(Stepper(h, q), o, w, k, fuel);
  }

  lemma ActsByEval(h: Host, q: Answers, end: End, sub: End, f: Frame, t: Task, w: World, k: Stack, fuel: nat)
    requires Agrees(h, q, sub, t, Push(f, k), w, fuel)
    requires sub.OutOfFuel? ==> end.OutOfFuel?
    requires sub.Stop? ==> Acts(h, q, end, Resume(h, f, sub.o, sub.w), k, fuel)
    ensures Acts(h, q, end, Eval(f, t, w), k, fuel)
  {
    MeetsPush(Stepper(h, q), end, sub, Config(Run(t), Push(f, k), w), f, k, fuel);
  }

  lemma NoStepsYet(h: Host, q: Answers, t: Task, k: Stack, w: World)
    ensures Agrees(h, q, OutOfFuel, t, k, w, 0)
  {
  }

  /** A frame that only passes errors on. */
  lemma ActsByReturns(h: Host, q: Answers, k: Stack, fuel: nat)
    ensures forall o, w :: Acts(h, q, Stop(o, w), Return(o, w), k, fuel)
  {
    forall o, w ensures Acts(h, q, Stop(o, w), Return(o, w), k, fuel) {
      ActsByReturn(h, q, o, w, k, fuel);
    }
  }

  lemma {:induction false} OneAgrees(h: Host, q: Answers, fuel: nat, form: Form, env: EnvId, k: Stack, w0: World)
    ensures Agrees(h, q, EndV(EvalOne(h, q, fuel, form, env, w0)), One(form, env), k, w0, fuel)
    decreases fuel, 0
  {
    hide Meets, Stepper, EvalCall, StepCall, Rebind, BindPattern, Restore, EvalList, StepList, EvalValues, Flat;
    NoStepsYet(h, q, One(form, env), k, w0);
    if fuel > 0 {
      var end := EndV(EvalOne(h, q, fuel, form, env, w0));
      var (stop, w) := h.interrupt(w0);
      ActsByReturns(h, q, k, fuel - 1);
      if stop.None? {
        match form
        case MapForm(entries) =>
          ValuesAgree(h, q, fuel - 1, Flat(entries), 0, [], env, Push(MapK, k), w);
          ActsByEval(h, q, end, EndArgs(EvalValues(h, q, fuel - 1, Flat(entries), env, w)),
                     MapK, Values(Flat(entries), 0, [], env), w, k, fuel - 1);
        case SetForm(items) =>
          ValuesAgree(h, q, fuel - 1, items, 0, [], env, Push(SetK, k), w);
          ActsByEval(h, q, end, EndArgs(EvalValues(h, q, fuel - 1, items, env, w)),
                     SetK, Values(items, 0, [], env), w, k, fuel - 1);
        case VectorForm(items) =>
          ValuesAgree(h, q, fuel - 1, items, 0, [], env, Push(VectorK, k), w);
          ActsByEval(h, q, end, EndArgs(EvalValues(h, q, fuel - 1, items, env, w)),
                     VectorK, Values(items, 0, [], env), w, k, fuel - 1);
        case ListForm(v) =>
          if v != [] && !(|v| == 2 && v[0] == Sym("quote")) {
            ListActs(h, q, fuel - 1, v, env, k, w);
          }
        case _ =>
      }
      AgreesByAction(h, q, end, One(form, env), k, w0, fuel - 1);
    }
  }

  lemma {:induction false} ListActs(h: Host, q: Answers, fuel: nat, v: seq<Form>, env: EnvId, k: Stack, w: World)
    requires v != []
    ensures Acts(h, q, EndV(EvalList(h, q, fuel, v, env, w)), StepList(h, v, env, w), k, fuel)
    decreases fuel, 4
  {
    hide Meets, Stepper, EvalOne, StepOne, EvalCall, StepCall, Rebind, BindPattern, Restore;
    ActsByReturns(h, q, k, fuel);
    if !v[0].Sym? {
      ApplicationActs(h, q, fuel, v, env, k, w);
    } else {
      var head := v[0].name;
      if head == "do" { FormsAgree(h, q, fuel, v[1..], 0, Nil, env, k, w); }
      else if head == "if" { IfActs(h, q, fuel, v, env, k, w); }
      else if head == "and" { AndAgrees(h, q, fuel, v[1..], 0, Bool(true), env, k, w); }
      else if head == "or" { OrAgrees(h, q, fuel, v[1..], 0, Nil, env, k, w); }
      else if head == "cond" {
        if |v| % 2 != 0 { CondAgrees(h, q, fuel, Pairs(v[1..]), 0, env, k, w); }
      }
      else if head == "let" || head == "loop" { ScopeActs(h, q, fuel, head == "loop", v, env, k, w); }
      else if head == "recur" {
        ValuesAgree(h, q, fuel, v[1..], 0, [], env, Push(RecurK, k), w);
        ActsByEval(h, q, EndV(EvalList(h, q, fuel, v, env, w)), EndArgs(EvalValues(h, q, fuel, v[1..], env, w)),
                   RecurK, Values(v[1..], 0, [], env), w, k, fuel);
      }
      else if head == "try" {
        var parts := SplitTry(v[1..], TryParts([], [], []), false);
        if parts.Ok? { TryActs(h, q, fuel, parts.value, env, k, w); }
      }
      else if head == "throw" { ThrowActs(h, q, fuel, v, env, k, w); }
      else if head == "std.foundation.coroutine/resume"
              || head == "std.protocol.icoroutine.ICoroutine/resume" {
        NativeAgrees(h, q, fuel, h.coroutine(v, env, w), k, w);
      }
      else if head == "def" || head == "var/set" { DefineActs(h, q, fuel, v, env, k, w); }
      else if head == "set!" { SetActs(h, q, fuel, v, env, k, w); }
      else { ApplicationActs(h, q, fuel, v, env, k, w); }
    }
  }

  lemma {:induction false} FormsAgree(h: Host, q: Answers, fuel: nat, forms: seq<Form>, i: nat, last: Value,
                                      env: EnvId, k: Stack, w: World)
    requires i <= |forms|
    ensures Agrees(h, q, EndV(EvalForms(h, q, fuel, forms[i..], last, env, w)), Forms(forms, i, last, env), k, w, fuel)
    decreases fuel, 0
  {
    hide Meets, Stepper, EvalOne, StepOne, EvalCall, StepCall, Rebind, BindPattern, Restore;
    NoStepsYet(h, q, Forms(forms, i, last, env), k, w);
    if fuel > 0 {
      var end := EndV(EvalForms(h, q, fuel, forms[i..], last, env, w));
      ActsByReturns(h, q, k, fuel - 1);
      if i < |forms| && !last.Recur? {
        var f := FormsK(forms, i, env);
        OneAgrees(h, q, fuel - 1, forms[i], env, Push(f, k), w);
        var out := EvalOne(h, q, fuel - 1, forms[i], env, w);
        if !out.IsFailure() {
          assert forms[i..][1..] == forms[i + 1..];
          FormsAgree(h, q, fuel - 1, forms, i + 1, out.r.value, env, k, out.w);
        }
        ActsByEval(h, q, end, EndV(out), f, One(forms[i], env), w, k, fuel - 1);
      }
      AgreesByAction(h, q, end, Forms(forms, i, last, env), k, w, fuel - 1);
    }
  }

  lemma {:induction false} ValuesAgree(h: Host, q: Answers, fuel: nat, forms: seq<Form>, i: nat, vals: seq<Value>,
                                       env: EnvId, k: Stack, w: World)
    requires i <= |forms|
    ensures Agrees(h, q, EndVs(vals, EvalValues(h, q, fuel, forms[i..], env, w)), Values(forms, i, vals, env), k, w, fuel)
    ensures i == 0 && vals == [] ==>
              Agrees(h, q, EndArgs(EvalValues(h, q, fuel, forms, env, w)), Values(forms, 0, [], env), k, w, fuel)
    decreases fuel, 0
  {
    hide Meets, Stepper, EvalOne, StepOne, EvalCall, StepCall, Rebind, BindPattern, Restore;
    NoStepsYet(h, q, Values(forms, i, vals, env), k, w);
    if fuel > 0 {
      var end := EndVs(vals, EvalValues(h, q, fuel, forms[i..], env, w));
      ActsByReturns(h, q, k, fuel - 1);
      if i < |forms| {
        var f := ValuesK(forms, i, vals, env);
        OneAgrees(h, q, fuel - 1, forms[i], env, Push(f, k), w);
        var out := EvalOne(h, q, fuel - 1, forms[i], env, w);
        if !out.IsFailure() {
          assert forms[i..][1..] == forms[i + 1..];
          ValuesAgree(h, q, fuel - 1, forms, i + 1, vals + [out.r.value], env, k, out.w);
          var rest := EvalValues(h, q, fuel - 1, forms[i + 1..], env, out.w);
          if !rest.IsFailure() {
            assert vals + [out.r.value] + rest.r.value == vals + ([out.r.value] + rest.r.value);
          }
          assert end == EndVs(vals + [out.r.value], rest);
        }
        ActsByEval(h, q, end, EndV(out), f, One(forms[i], env), w, k, fuel - 1);
      } else {
        assert vals + [] == vals;
      }
      AgreesByAction(h, q, end, Values(forms, i, vals, env), k, w, fuel - 1);
    }
    if i == 0 && vals == [] {
      assert forms[i..] == forms;
      var out := EvalValues(h, q, fuel, forms, env, w);
      if !out.IsFailure() { assert vals + out.r.value == out.r.value; }
    }
  }

  lemma {:induction false} IfActs(h: Host, q: Answers, fuel: nat, v: seq<Form>, env: EnvId, k: Stack, w: World)
    ensures Acts(h, q, EndV(EvalIf(h, q, fuel, v, env, w)), StepIf(v, env, w), k, fuel)
    decreases fuel, 2
  {
    hide Meets, Stepper, EvalOne, StepOne, EvalCall, StepCall, Rebind, BindPattern, Restore;
    ActsByReturns(h, q, k, fuel);
    if |v| == 3 || |v| == 4 {
      OneAgrees(h, q, fuel, v[1], env, Push(IfK(v, env), k), w);
      var out := EvalOne(h, q, fuel, v[1], env, w);
      if !out.IsFailure() {
        if out.r.value.Truthy() { OneAgrees(h, q, fuel, v[2], env, k, out.w); }
        else if |v| == 4 { OneAgrees(h, q, fuel, v[3], env, k, out.w); }
      }
      ActsByEval(h, q, EndV(EvalIf(h, q, fuel, v, env, w)), EndV(out), IfK(v, env), One(v[1], env), w, k, fuel);
    }
  }

  lemma {:induction false} AndAgrees(h: Host, q: Answers, fuel: nat, forms: seq<Form>, i: nat, last: Value,
                                     env: EnvId, k: Stack, w: World)
    requires i <= |forms|
    ensures Agrees(h, q, EndV(EvalAnd(h, q, fuel, forms[i..], last, env, w)), And(forms, i, last, env), k, w, fuel)
    decreases fuel, 0
  {
    hide Meets, Stepper, EvalOne, StepOne, EvalCall, StepCall, Rebind, BindPattern, Restore;
    NoStepsYet(h, q, And(forms, i, last, env), k, w);
    if fuel > 0 {
      var end := EndV(EvalAnd(h, q, fuel, forms[i..], last, env, w));
      ActsByReturns(h, q, k, fuel - 1);
      if i < |forms| && last.Truthy() {
        var f := AndK(forms, i, env);
        OneAgrees(h, q, fuel - 1, forms[i], env, Push(f, k), w);
        var out := EvalOne(h, q, fuel - 1, forms[i], env, w);
        if !out.IsFailure() {
          assert forms[i..][1..] == forms[i + 1..];
          AndAgrees(h, q, fuel - 1, forms, i + 1, out.r.value, env, k, out.w);
        }
        ActsByEval(h, q, end, EndV(out), f, One(forms[i], env), w, k, fuel - 1);
      }
      AgreesByAction(h, q, end, And(forms, i, last, env), k, w, fuel - 1);
    }
  }

  lemma {:induction false} OrAgrees(h: Host, q: Answers, fuel: nat, forms: seq<Form>, i: nat, last: Value,
                                    env: EnvId, k: Stack, w: World)
    requires i <= |forms|
    ensures Agrees(h, q, EndV(EvalOr(h, q, fuel, forms[i..], last, env, w)), Or(forms, i, last, env), k, w, fuel)
    decreases fuel, 0
  {
    hide Meets, Stepper, EvalOne, StepOne, EvalCall, StepCall, Rebind, BindPattern, Restore;
    NoStepsYet(h, q, Or(forms, i, last, env), k, w);
    if fuel > 0 {
      var end := EndV(EvalOr(h, q, fuel, forms[i..], last, env, w));
      ActsByReturns(h, q, k, fuel - 1);
      if i < |forms| {
        var f := OrK(forms, i, env);
        OneAgrees(h, q, fuel - 1, forms[i], env, Push(f, k), w);
        var out := EvalOne(h, q, fuel - 1, forms[i], env, w);
        if !out.IsFailure() && !out.r.value.Truthy() {
          assert forms[i..][1..] == forms[i + 1..];
          OrAgrees(h, q, fuel - 1, forms, i + 1, out.r.value, env, k, out.w);
        }
        ActsByEval(h, q, end, EndV(out), f, One(forms[i], env), w, k, fuel - 1);
      }
      AgreesByAction(h, q, end, Or(forms, i, last, env), k, w, fuel - 1);
    }
  }

  lemma {:induction false} CondAgrees(h: Host, q: Answers, fuel: nat, clauses: seq<(Form, Form)>, i: nat,
                                      env: EnvId, k: Stack, w: World)
    requires i <= |clauses|
    ensures Agrees(h, q, EndV(EvalCond(h, q, fuel, clauses[i..], env, w)), Cond(clauses, i, env), k, w, fuel)
    decreases fuel, 0
  {
    hide Meets, Stepper, EvalOne, StepOne, EvalCall, StepCall, Rebind, BindPattern, Restore;
    NoStepsYet(h, q, Cond(clauses, i, env), k, w);
    if fuel > 0 {
      var end := EndV(EvalCond(h, q, fuel, clauses[i..], env, w));
      ActsByReturns(h, q, k, fuel - 1);
      if i < |clauses| {
        var f := CondK(clauses, i, env);
        OneAgrees(h, q, fuel - 1, clauses[i].0, env, Push(f, k), w);
        var out := EvalOne(h, q, fuel - 1, clauses[i].0, env, w);
        if !out.IsFailure() {
          if out.r.value.Truthy() {
            OneAgrees(h, q, fuel - 1, clauses[i].1, env, k, out.w);
          } else {
            assert clauses[i..][1..] == clauses[i + 1..];
            CondAgrees(h, q, fuel - 1, clauses, i + 1, env, k, out.w);
          }
        }
        ActsByEval(h, q, end, EndV(out), f, One(clauses[i].0, env), w, k, fuel - 1);
      }
      AgreesByAction(h, q, end, Cond(clauses, i, env), k, w, fuel - 1);
    }
  }

  lemma {:induction false} BindAgrees(h: Host, q: Answers, fuel: nat, pairs: seq<(Form, Form)>, i: nat,
                                      saved: Previous, env: EnvId, k: Stack, w: World)
    requires i <= |pairs|
    ensures Agrees(h, q, EndOlds(saved, EvalBind(h, q, fuel, pairs[i..], env, w)), Bind(pairs, i, saved, env), k, w, fuel)
    decreases fuel, 0
  {
    hide Meets, Stepper, EvalOne, StepOne, EvalCall, StepCall, Rebind, BindPattern, Restore;
    NoStepsYet(h, q, Bind(pairs, i, saved, env), k, w);
    if fuel > 0 {
      var end := EndOlds(saved, EvalBind(h, q, fuel, pairs[i..], env, w));
      ActsByReturns(h, q, k, fuel - 1);
      if i < |pairs| {
        var f := BindK(pairs, i, saved, env);
        OneAgrees(h, q, fuel - 1, pairs[i].1, env, Push(f, k), w);
        var out := EvalOne(h, q, fuel - 1, pairs[i].1, env, w);
        if !out.IsFailure() { BoundActs(h, q, fuel - 1, pairs, i, saved, out.r.value, env, k, out.w); }
        ActsByEval(h, q, end, EndV(out), f, One(pairs[i].1, env), w, k, fuel - 1);
      } else {
        assert saved + [] == saved;
      }
      AgreesByAction(h, q, end, Bind(pairs, i, saved, env), k, w, fuel - 1);
    }
  }

  lemma {:induction false} BoundActs(h: Host, q: Answers, fuel: nat, pairs: seq<(Form, Form)>, i: nat,
                                     saved: Previous, x: Value, env: EnvId, k: Stack, w: World)
    requires i < |pairs|
    ensures Acts(h, q, EndOlds(saved, EvalBound(h, q, fuel, pairs[i..], x, env, w)),
                 Resume(h, BindK(pairs, i, saved, env), Val(x), w), k, fuel)
    decreases fuel, 1
  {
    hide Meets, Stepper, EvalOne, StepOne, EvalCall, StepCall, Rebind, BindPattern, Restore;
    ActsByReturns(h, q, k, fuel);
    var before := w.EnvAt(env);
    var b := BindPattern(h, pairs[i].0, x, before, []);
    if b.error.None? {
      assert pairs[i..][1..] == pairs[i + 1..];
      var names := SavedAll(before, b.names);
      BindAgrees(h, q, fuel, pairs, i + 1, saved + names, env, k, w.Put(env, b.env));
      var rest := EvalBind(h, q, fuel, pairs[i + 1..], env, w.Put(env, b.env));
      if !rest.IsFailure() {
        assert saved + names + rest.r.value == saved + (names + rest.r.value);
      }
    }
  }

  lemma {:induction false} ScopeActs(h: Host, q: Answers, fuel: nat, isLoop: bool, v: seq<Form>, env: EnvId, k: Stack, w: World)
    ensures Acts(h, q, EndV(EvalScope(h, q, fuel, isLoop, v, env, w)), StepScope(isLoop, v, env, w), k, fuel)
    decreases fuel, 2
  {
    hide Meets, Stepper, EvalOne, StepOne, EvalCall, StepCall, Rebind, BindPattern, Restore;
    ActsByReturns(h, q, k, fuel);
    var bindings := Bindings(v, if isLoop then "loop" else "let");
    if bindings.Ok? {
      var pairs := bindings.value;
      var end := EndV(EvalScope(h, q, fuel, isLoop, v, env, w));
      var f := ScopeK(isLoop, Patterns(pairs), ScopeBody(v), env);
      BindAgrees(h, q, fuel, pairs, 0, [], env, Push(f, k), w);
      assert pairs[0..] == pairs;
      var out := EvalBind(h, q, fuel, pairs, env, w);
      if !out.IsFailure() {
        var saved := out.r.value;
        assert [] + saved == saved;
        if isLoop {
          LoopAgrees(h, q, fuel, Patterns(pairs), ScopeBody(v), saved, env, k, out.w);
        } else {
          LetActs(h, q, fuel, ScopeBody(v), saved, env, k, out.w, end);
        }
      }
      ActsByEval(h, q, end, EndOlds([], out), f, Bind(pairs, 0, [], env), w, k, fuel);
    }
  }

  lemma {:induction false} LetActs(h: Host, q: Answers, fuel: nat, body: Form, saved: Previous, env: EnvId,
                                   k: Stack, w: World, end: End)
    requires end == EndV(match EvalOne(h, q, fuel, body, env, w)
                         case NoFuel => NoFuel
                         case Done(r, w2) => Done(r, Undo(w2, env, saved)))
    ensures Acts(h, q, end, Eval(LetK(saved, env), One(body, env), w), k, fuel)
    decreases fuel, 1
  {
    hide Meets, Stepper, EvalOne, StepOne, EvalCall, StepCall, Rebind, BindPattern, Restore;
    ActsByReturns(h, q, k, fuel);
    OneAgrees(h, q, fuel, body, env, Push(LetK(saved, env), k), w);
    ActsByEval(h, q, end, EndV(EvalOne(h, q, fuel, body, env, w)), LetK(saved, env), One(body, env), w, k, fuel);
  }

  lemma {:induction false} LoopAgrees(h: Host, q: Answers, fuel: nat, patterns: seq<Form>, body: Form,
                                      saved: Previous, env: EnvId, k: Stack, w: World)
    ensures Agrees(h, q, EndV(EvalLoop(h, q, fuel, patterns, body, saved, env, w)),
                   LoopBody(patterns, body, saved, env), k, w, fuel)
    decreases fuel, 0
  {
    hide Meets, Stepper, EvalOne, StepOne, EvalCall, StepCall, Rebind, BindPattern, Restore;
    NoStepsYet(h, q, LoopBody(patterns, body, saved, env), k, w);
    if fuel > 0 {
      var end := EndV(EvalLoop(h, q, fuel, patterns, body, saved, env, w));
      var f := LoopK(patterns, body, saved, env);
      ActsByReturns(h, q, k, fuel - 1);
      OneAgrees(h, q, fuel - 1, body, env, Push(f, k), w);
      var out := EvalOne(h, q, fuel - 1, body, env, w);
      if !out.IsFailure() && out.r.value.Recur? && |out.r.value.args| == |patterns| {
        var (stop, bound) := Rebind(h, patterns, out.r.value.args, out.w.EnvAt(env));
        if stop.None? {
          LoopAgrees(h, q, fuel - 1, patterns, body, saved, env, k, out.w.Put(env, bound));
        }
      }
      ActsByEval(h, q, end, EndV(out), f, One(body, env), w, k, fuel - 1);
      AgreesByAction(h, q, end, LoopBody(patterns, body, saved, env), k, w, fuel - 1);
    }
  }

  lemma {:induction false} ThrowActs(h: Host, q: Answers, fuel: nat, v: seq<Form>, env: EnvId, k: Stack, w: World)
    ensures Acts(h, q, EndV(EvalThrow(h, q, fuel, v, env, w)), StepThrow(v, env, w), k, fuel)
    decreases fuel, 2
  {
    hide Meets, Stepper, EvalOne, StepOne, EvalCall, StepCall, Rebind, BindPattern, Restore;
    ActsByReturns(h, q, k, fuel);
    if |v| == 2 {
      OneAgrees(h, q, fuel, v[1], env, Push(ThrowK, k), w);
      ActsByEval(h, q, EndV(EvalThrow(h, q, fuel, v, env, w)), EndV(EvalOne(h, q, fuel, v[1], env, w)),
                 ThrowK, One(v[1], env), w, k, fuel);
    }
  }

  lemma {:induction false} TryActs(h: Host, q: Answers, fuel: nat, parts: TryParts, env: EnvId, k: Stack, w: World)
    ensures Acts(h, q, EndV(EvalTry(h, q, fuel, parts, env, w)),
                 Eval(TryK(parts.catches, parts.finals, env), Forms(parts.body, 0, Nil, env), w), k, fuel)
    decreases fuel, 2
  {
    hide Meets, Stepper, EvalOne, StepOne, EvalCall, StepCall, Rebind, BindPattern, Restore;
    ActsByReturns(h, q, k, fuel);
    var end := EndV(EvalTry(h, q, fuel, parts, env, w));
    var f := TryK(parts.catches, parts.finals, env);
    FormsAgree(h, q, fuel, parts.body, 0, Nil, env, Push(f, k), w);
    assert parts.body[0..] == parts.body;
    var out := EvalForms(h, q, fuel, parts.body, Nil, env, w);
    if out.Done? {
      if out.r.Ok? {
        FinallyAgrees(h, q, fuel, out.r, parts.finals, env, k, out.w);
      } else {
        var sel := SelectCatch(h, parts.catches, false, out.r.error, out.w);
        if sel.Unmatched? { FinallyAgrees(h, q, fuel, out.r, parts.finals, env, k, out.w); }
        if sel.Selected? { CatchActs(h, q, fuel, out.r.error, sel.name, sel.body, parts.finals, env, k, out.w, end); }
      }
    }
    ActsByEval(h, q, end, EndV(out), f, Forms(parts.body, 0, Nil, env), w, k, fuel);
  }

  lemma {:induction false} CatchActs(h: Host, q: Answers, fuel: nat, error: string, name: string, body: seq<Form>,
                                     finals: seq<Form>, env: EnvId, k: Stack, w1: World, end: End)
    requires var (v, w2) := h.caught(error, w1);
             end == EndV(match EvalForms(h, q, fuel, body, Nil, env, w2.Put(env, w2.EnvAt(env)[name := v]))
                         case NoFuel => NoFuel
                         case Done(r1, w3) =>
                           EvalFinally(h, q, fuel, r1, finals, env, Undo(w3, env, [(name, w2.Get(env, name))])))
    ensures var (v, w2) := h.caught(error, w1);
            Acts(h, q, end, Eval(CatchK(name, w2.Get(env, name), finals, env), Forms(body, 0, Nil, env),
                                 w2.Put(env, w2.EnvAt(env)[name := v])), k, fuel)
    decreases fuel, 1
  {
    hide Meets, Stepper, EvalOne, StepOne, EvalCall, StepCall, Rebind, BindPattern, Restore;
    var (v, w2) := h.caught(error, w1);
    var w3 := w2.Put(env, w2.EnvAt(env)[name := v]);
    var f := CatchK(name, w2.Get(env, name), finals, env);
    FormsAgree(h, q, fuel, body, 0, Nil, env, Push(f, k), w3);
    assert body[0..] == body;
    var out := EvalForms(h, q, fuel, body, Nil, env, w3);
    if out.Done? {
      FinallyAgrees(h, q, fuel, out.r, finals, env, k, Undo(out.w, env, [(name, w2.Get(env, name))]));
    }
    ActsByEval(h, q, end, EndV(out), f, Forms(body, 0, Nil, env), w3, k, fuel);
  }

  lemma {:induction false} FinallyAgrees(h: Host, q: Answers, fuel: nat, r: Res<Value>, finals: seq<Form>,
                                         env: EnvId, k: Stack, w: World)
    ensures Agrees(h, q, EndV(EvalFinally(h, q, fuel, r, finals, env, w)), Finally(AsOutcome(r), finals, env), k, w, fuel)
    decreases fuel, 0
  {
    hide Meets, Stepper, EvalOne, StepOne, EvalCall, StepCall, Rebind, BindPattern, Restore;
    NoStepsYet(h, q, Finally(AsOutcome(r), finals, env), k, w);
    if fuel > 0 {
      var end := EndV(EvalFinally(h, q, fuel, r, finals, env, w));
      ActsByReturns(h, q, k, fuel - 1);
      FormsAgree(h, q, fuel - 1, finals, 0, Nil, env, Push(FinallyK(AsOutcome(r)), k), w);
      assert finals[0..] == finals;
      ActsByEval(h, q, end, EndV(EvalForms(h, q, fuel - 1, finals, Nil, env, w)),
                 FinallyK(AsOutcome(r)), Forms(finals, 0, Nil, env), w, k, fuel - 1);
      AgreesByAction(h, q, end, Finally(AsOutcome(r), finals, env), k, w, fuel - 1);
    }
  }

  lemma {:induction false} DefineActs(h: Host, q: Answers, fuel: nat, v: seq<Form>, env: EnvId, k: Stack, w: World)
    requires v != [] && v[0].Sym?
    ensures Acts(h, q, EndV(EvalDefine(h, q, fuel, v, env, w)), StepDefine(h, v, env, w), k, fuel)
    decreases fuel, 2
  {
    hide Meets, Stepper, EvalOne, StepOne, EvalCall, StepCall, Rebind, BindPattern, Restore;
    ActsByReturns(h, q, k, fuel);
    if |v| == 3 {
      var target := DefTarget(h, v[0].name, v[1]);
      if target.Name? {
        var f := DefineK(v[0].name, target.name, target.meta, env);
        OneAgrees(h, q, fuel, v[2], env, Push(f, k), w);
        ActsByEval(h, q, EndV(EvalDefine(h, q, fuel, v, env, w)), EndV(EvalOne(h, q, fuel, v[2], env, w)),
                   f, One(v[2], env), w, k, fuel);
      }
    }
  }

  lemma {:induction false} SetActs(h: Host, q: Answers, fuel: nat, v: seq<Form>, env: EnvId, k: Stack, w: World)
    requires v != [] && v[0].Sym?
    ensures Acts(h, q, EndV(EvalSet(h, q, fuel, v, env, w)), StepSet(h, v, env, w), k, fuel)
    decreases fuel, 3
  {
    hide Meets, Stepper, EvalOne, StepOne, EvalCall, StepCall, Rebind, BindPattern, Restore;
    ActsByReturns(h, q, k, fuel);
    if |v| == 3 {
      if v[1].Sym? || v[1].MetaForm? {
        DefineActs(h, q, fuel, v, env, k, w);
      } else if PlaceOf(v[1]).FieldPlace? {
        var FieldPlace(receiver, field) := PlaceOf(v[1]);
        var end := EndV(EvalSet(h, q, fuel, v, env, w));
        var f := ReceiverK(field, v[2], env);
        OneAgrees(h, q, fuel, receiver, env, Push(f, k), w);
        var out := EvalOne(h, q, fuel, receiver, env, w);
        if !out.IsFailure() {
          var g := FieldK(out.r.value, field);
          OneAgrees(h, q, fuel, v[2], env, Push(g, k), out.w);
          ActsByEval(h, q, end, EndV(EvalOne(h, q, fuel, v[2], env, out.w)), g, One(v[2], env), out.w, k, fuel);
        }
        ActsByEval(h, q, end, EndV(out), f, One(receiver, env), w, k, fuel);
      }
    }
  }

  lemma {:induction false} ApplicationActs(h: Host, q: Answers, fuel: nat, v: seq<Form>, env: EnvId, k: Stack, w: World)
    requires v != []
    ensures Acts(h, q, EndV(EvalApplication(h, q, fuel, v, env, w)), StepApplication(h, v, env, w), k, fuel)
    decreases fuel, 3
  {
    hide Meets, Stepper, EvalOne, StepOne, EvalCall, StepCall, Rebind, BindPattern, Restore;
    ActsByReturns(h, q, k, fuel);
    var end := EndV(EvalApplication(h, q, fuel, v, env, w));
    if v[0].Sym? && !h.isMacro(v[0].name, w) {
      var (stop, w1) := h.prepare(v[0].name, env, w);
      if stop.None? {
        var callee := h.lookup(v[0].name, env, w1);
        if callee.Some? && callee.value.Func? {
          ArgumentsActs(h, q, fuel, callee.value, v[1..], env, k, w1);
        } else if SyncSpecialForm(v[0].name) {
          ValuesAgree(h, q, fuel, v[1..], 0, [], env, Push(SpecialK(v[0], env), k), w1);
          ActsByEval(h, q, end, EndArgs(EvalValues(h, q, fuel, v[1..], env, w1)), SpecialK(v[0], env),
                     Values(v[1..], 0, [], env), w1, k, fuel);
        } else {
          HeadActs(h, q, fuel, v, env, k, w1);
        }
      }
    } else if !v[0].Sym? {
      HeadActs(h, q, fuel, v, env, k, w);
    }
  }

  /** Arguments, then the call of an already evaluated callee. */
  function EvalArguments(h: Host, q: Answers, fuel: nat, f: Value, args: seq<Form>, env: EnvId, w: World): Out<Value> {
    var (vs, w1) :- EvalValues(h, q, fuel, args, env, w);
    if f.Func? then EvalCall(h, q, fuel, f.fn, vs, w1) else Lifted(h.callValue(f, vs, w1))
  }

  lemma {:induction false} ArgumentsActs(h: Host, q: Answers, fuel: nat, f: Value, args: seq<Form>, env: EnvId, k: Stack, w: World)
    ensures Acts(h, q, EndV(EvalArguments(h, q, fuel, f, args, env, w)),
                 Eval(ArgsK(f), Values(args, 0, [], env), w), k, fuel)
    decreases fuel, 1
  {
    hide Meets, Stepper, EvalOne, StepOne, EvalCall, StepCall, Rebind, BindPattern, Restore;
    ActsByReturns(h, q, k, fuel);
    ValuesAgree(h, q, fuel, args, 0, [], env, Push(ArgsK(f), k), w);
    var out := EvalValues(h, q, fuel, args, env, w);
    if !out.IsFailure() {
      if f.Func? { CallAgrees(h, q, fuel, f.fn, out.r.value, k, out.w); }
    }
    ActsByEval(h, q, EndV(EvalArguments(h, q, fuel, f, args, env, w)), EndArgs(out), ArgsK(f),
               Values(args, 0, [], env), w, k, fuel);
  }

  lemma {:induction false} HeadActs(h: Host, q: Answers, fuel: nat, v: seq<Form>, env: EnvId, k: Stack, w: World)
    requires v != []
    ensures var out := EvalOne(h, q, fuel, v[0], env, w);
            Acts(h, q, EndV(if out.IsFailure() then out.PropagateFailure()
                            else EvalArguments(h, q, fuel, out.r.value, v[1..], env, out.w)),
                 Eval(HeadK(v[1..], env), One(v[0], env), w), k, fuel)
    decreases fuel, 2
  {
    hide Meets, Stepper, EvalOne, StepOne, EvalCall, StepCall, Rebind, BindPattern, Restore;
    ActsByReturns(h, q, k, fuel);
    var f := HeadK(v[1..], env);
    OneAgrees(h, q, fuel, v[0], env, Push(f, k), w);
    var out := EvalOne(h, q, fuel, v[0], env, w);
    if out.IsFailure() {
      ActsByEval(h, q, EndV(out), EndV(out), f, One(v[0], env), w, k, fuel);
    } else {
      ArgumentsActs(h, q, fuel, out.r.value, v[1..], env, k, out.w);
      ActsByEval(h, q, EndV(EvalArguments(h, q, fuel, out.r.value, v[1..], env, out.w)), EndV(out), f,
                 One(v[0], env), w, k, fuel);
    }
  }

  lemma {:induction false} CallAgrees(h: Host, q: Answers, fuel: nat, f: Function, args: seq<Value>, k: Stack, w: World)
    ensures Agrees(h, q, EndV(EvalCall(h, q, fuel, f, args, w)), Call(f, args), k, w, fuel)
    decreases fuel, 0
  {
    hide Meets, Stepper, EvalOne, StepOne, Rebind, BindPattern, Restore;
    NoStepsYet(h, q, Call(f, args), k, w);
    if fuel > 0 {
      ActsByReturns(h, q, k, fuel - 1);
      if f.clauses != [] {
        var clause := SelectClause(f.clauses, |args|);
        if clause.Some? { CallAgrees(h, q, fuel - 1, clause.value, args, k, w); }
      } else if f.code.FiberCode? {
        NativeAgrees(h, q, fuel - 1, h.fiberNative(f.code.id, args, w), k, w);
      } else if f.code.Hara? && ArityError(f, |args|).None? {
        var w1 := Enter(h, f, w);
        var env := CallEnv(h, f, args, w1);
        if env.Ok? {
          BodyActs(h, q, fuel - 1, f, ScopeOf(f, w), w.tracing, k, w1.nextEnv, Alloc(w1, env.value));
        }
      }
      AgreesByAction(h, q, EndV(EvalCall(h, q, fuel, f, args, w)), Call(f, args), k, w, fuel - 1);
    }
  }

  lemma {:induction false} BodyActs(h: Host, q: Answers, fuel: nat, f: Function, scope: Option<string>, traced: bool,
                                    k: Stack, env: EnvId, w: World)
    ensures var out := EvalForms(h, q, fuel, f.body, Nil, env, w);
            Acts(h, q, EndV(if out.NoFuel? then NoFuel
                            else Done(CallResult(out.r, LeaveNs(out.w, scope)), Leave(out.w, scope, traced))),
                 Eval(CallK(scope, traced), Forms(f.body, 0, Nil, env), w), k, fuel)
    decreases fuel, 1
  {
    hide Meets, Stepper, EvalOne, StepOne, EvalCall, StepCall, Rebind, BindPattern, Restore;
    ActsByReturns(h, q, k, fuel);
    FormsAgree(h, q, fuel, f.body, 0, Nil, env, Push(CallK(scope, traced), k), w);
    assert f.body[0..] == f.body;
    var out := EvalForms(h, q, fuel, f.body, Nil, env, w);
    ActsByEval(h, q, EndV(if out.NoFuel? then NoFuel
                          else Done(CallResult(out.r, LeaveNs(out.w, scope)), Leave(out.w, scope, traced))),
               EndV(out), CallK(scope, traced), Forms(f.body, 0, Nil, env), w, k, fuel);
  }

  lemma {:induction false} NativeAgrees(h: Host, q: Answers, fuel: nat, n: Native, k: Stack, w: World)
    ensures Agrees(h, q, EndV(EvalNative(h, q, fuel, n)), Perform(n), k, w, fuel)
    decreases fuel, 0
  {
    if fuel > 0 {
      ActsByReturns(h, q, k, fuel - 1);
      var end := EndV(EvalNative(h, q, fuel, n));
      if n.NativeAwait? {
        var waiting := Config(Wait(n.promise, n.token), k, n.w);
        var resumed := h.settle(n.token, q(n.w.answered, n.promise), n.w.(answered := n.w.answered + 1));
        NativeAgrees(h, q, fuel - 1, resumed, k, n.w);
        MeetsStep(Stepper(h, q), end, waiting, k, fuel - 1);
        if end.OutOfFuel? { StaysLess(Stepper(h, q), waiting, k, fuel, fuel - 1); }
      }
      AgreesByAction(h, q, end, Perform(n), k, w, fuel - 1);
    }
  }

  /** With fuel `fuel`, direct evaluation of `form` ends with `o` and `w'`. */
  predicate DirectEnds(h: Host, q: Answers, fuel: nat, form: Form, env: EnvId, w: World, o: Outcome, w': World) {
    EndV(EvalOne(h, q, fuel, form, env, w)) == Stop(o, w')
  }

  /** The run of `t` above `k` calls `k` with `o` and `w'` after exactly `n` steps. */
  predicate MachineCalls(h: Host, q: Answers, t: Task, k: Stack, w: World, n: nat, o: Outcome, w': World) {
    Returns(Stepper(h, q), Config(Run(t), k, w), k, n, o, w')
  }

  /**
   The main result.  Above any continuation, from any world and with any answers, the machine
   calls that continuation with `o` and `w'` exactly when direct evaluation ends with them.
   */
  lemma MachineIffDirect(h: Host, q: Answers, form: Form, env: EnvId, k: Stack, w: World, o: Outcome, w': World)
    ensures (exists n: nat :: MachineCalls(h, q, One(form, env), k, w, n, o, w'))
       <==> (exists fuel: nat :: DirectEnds(h, q, fuel, form, env, w, o, w'))
  {
    hide EvalOne, Step, Stepper, Returns, Stays;
    var c := Config(Run(One(form, env)), k, w);
    if n: nat :| MachineCalls(h, q, One(form, env), k, w, n, o, w') {
      OneAgrees(h, q, n + 1, form, env, k, w);
      DirectOf(h, q, EndV(EvalOne(h, q, n + 1, form, env, w)), c, k, n, o, w');
      assert DirectEnds(h, q, n + 1, form, env, w, o, w');
    }
    if fuel: nat :| DirectEnds(h, q, fuel, form, env, w, o, w') {
      OneAgrees(h, q, fuel, form, env, k, w);
      var n: nat :| Returns(Stepper(h, q), c, k, n, o, w');
      assert MachineCalls(h, q, One(form, env), k, w, n, o, w');
    }
  }

  predicate ProgramEnds(h: Host, q: Answers, fuel: nat, forms: seq<Form>, env: EnvId, w: World, o: Outcome, w': World) {
    EndV(EvalForms(h, q, fuel, forms, Nil, env, w)) == Stop(o, w')
  }

  /** The same for a whole program: a sequence of top-level forms. */
  lemma ProgramIffDirect(h: Host, q: Answers, forms: seq<Form>, env: EnvId, k: Stack, w: World, o: Outcome, w': World)
    ensures (exists n: nat :: MachineCalls(h, q, Forms(forms, 0, Nil, env), k, w, n, o, w'))
       <==> (exists fuel: nat :: ProgramEnds(h, q, fuel, forms, env, w, o, w'))
  {
    hide EvalForms, Step, Stepper, Returns, Stays;
    var t := Forms(forms, 0, Nil, env);
    assert forms[0..] == forms;
    if n: nat :| MachineCalls(h, q, t, k, w, n, o, w') {
      FormsAgree(h, q, n + 1, forms, 0, Nil, env, k, w);
      DirectOf(h, q, EndV(EvalForms(h, q, n + 1, forms, Nil, env, w)), Config(Run(t), k, w), k, n, o, w');
      assert ProgramEnds(h, q, n + 1, forms, env, w, o, w');
    }
    if fuel: nat :| ProgramEnds(h, q, fuel, forms, env, w, o, w') {
      FormsAgree(h, q, fuel, forms, 0, Nil, env, k, w);
      var n: nat :| Returns(Stepper(h, q), Config(Run(t), k, w), k, n, o, w');
      assert MachineCalls(h, q, t, k, w, n, o, w');
    }
  }

  /** The configuration after `m` steps of running `t` above `k`. */
  function After(h: Host, q: Answers, t: Task, k: Stack, w: World, m: nat): Config {
    Iterate(Stepper(h, q), Config(Run(t), k, w), m)
  }

  /** The continuation is called at that step and at no earlier one, and stays intact until then. */
  lemma CalledOnce(h: Host, q: Answers, t: Task, k: Stack, w: World, n: nat, o: Outcome, w': World)
    ensures MachineCalls(h, q, t, k, w, n, o, w') <==>
            (After(h, q, t, k, w, n) == Config(Ret(o), k, w')
             && forall m: nat :: m < n ==> Inside(After(h, q, t, k, w, m), k))
  {
    var c := Config(Run(t), k, w);
    if MachineCalls(h, q, t, k, w, n, o, w') {
      ReturnsAt(Stepper(h, q), c, k, n, o, w', n);
      forall m: nat | m < n ensures Inside(After(h, q, t, k, w, m), k) {
        ReturnsAt(Stepper(h, q), c, k, n, o, w', m);
      }
    } else if After(h, q, t, k, w, n) == Config(Ret(o), k, w')
              && forall m: nat :: m < n ==> Inside(After(h, q, t, k, w, m), k) {
      forall m: nat | m < n ensures Inside(Iterate(Stepper(h, q), c, m), k) {
        assert Inside(After(h, q, t, k, w, m), k);
      }
      ReturnsFrom(Stepper(h, q), c, k, n, o, w');
    }
  }

  /**
   A `recur` brings the machine back to the loop's body above the very same continuation, so
   frames do not pile up however often a loop recurs.
   */
  lemma LoopKeepsContinuation(h: Host, q: Answers, fuel: nat, patterns: seq<Form>, body: Form, saved: Previous,
                              env: EnvId, k: Stack, w: World, args: seq<Value>, w1: World)
    requires EvalOne(h, q, fuel, body, env, w) == Done(Ok(Recur(args)), w1)
    requires |args| == |patterns| && Rebind(h, patterns, args, w1.EnvAt(env)).0.None?
    ensures var loop := LoopBody(patterns, body, saved, env);
            exists n: nat :: n > 0 && Reaches(Stepper(h, q), Config(Run(loop), k, w), k, n,
              Config(Run(loop), k, w1.Put(env, Rebind(h, patterns, args, w1.EnvAt(env)).1)))
  {
    hide EvalOne, StepOne, StepCall, Rebind, Restore, BindPattern;
    var loop, f := LoopBody(patterns, body, saved, env), LoopK(patterns, body, saved, env);
    var c, c1 := Config(Run(loop), k, w), Config(Run(One(body, env)), Push(f, k), w);
    var back := Config(Run(loop), k, w1.Put(env, Rebind(h, patterns, args, w1.EnvAt(env)).1));
    OneAgrees(h, q, fuel, body, env, Push(f, k), w);
    assert Stepper(h, q)(c) == c1;
    assert Stepper(h, q)(Config(Ret(Val(Recur(args))), Push(f, k), w1)) == back;
    hide Step, Resume, Stepper, Stays;
    var n: nat :| Returns(Stepper(h, q), c1, Push(f, k), n, Val(Recur(args)), w1);
    hide Returns;
    ReachesThrough(Stepper(h, q), c1, f, k, n, Val(Recur(args)), w1);
    assert Reaches(Stepper(h, q), c, k, n + 2, back);
  }

  /** A run that calls `k` within `n` steps is not one that direct evaluation with fuel `n + 1` gives up on. */
  lemma DirectOf(h: Host, q: Answers, end: End, c: Config, k: Stack, n: nat, o: Outcome, w': World)
    requires Returns(Stepper(h, q), c, k, n, o, w')
    requires Meets(Stepper(h, q), end, c, k, n + 1)
    ensures end == Stop(o, w')
  {
    hide Stepper, Returns, Stays;
    if end.OutOfFuel? {
      ReturnsNotStays(Stepper(h, q), c, k, n, o, w', n + 1);
    } else {
      var m: nat :| Returns(Stepper(h, q), c, k, m, end.o, end.w);
      ReturnsOnce(Stepper(h, q), c, k, n, o, w', m, end.o, end.w);
    }
  }
}
