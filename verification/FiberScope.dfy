/** What `let` and `loop` leave behind in the shared environment, whether their bindings succeed or fail. */
module FiberScope {
  import opened Optional
  import opened Results
  import opened FiberSyntax
  import opened FiberDirect

  // ----- undoing bindings -----

  function Lookup(env: Env, name: string): Option<Value> {
    if name in env then Some(env[name]) else None
  }

  /** What the earliest entry for `name` says it held, or `default` when there is none. */
  function Earliest(saved: Previous, name: string, default: Option<Value>): Option<Value> {
    if saved == [] then default
    else if saved[0].0 == name then saved[0].1
    else Earliest(saved[1..], name, default)
  }

  /** Undoing in reverse order gives every recorded name its earliest recorded state, repeated names included. */
  lemma {:induction false} RestoreIsEarliest(env: Env, saved: Previous, name: string)
    ensures Lookup(Restore(env, saved), name) == Earliest(saved, name, Lookup(env, name))
    decreases |saved|
  {
    if saved != [] {
      var front, last := saved[..|saved| - 1], saved[|saved| - 1];
      RestoreIsEarliest(PutBack(env, last), front, name);
      assert saved == front + [last];
      EarliestOfConcat(front, [last], name, Lookup(env, name));
    }
  }

  lemma {:induction false} EarliestOfConcat(a: Previous, b: Previous, name: string, default: Option<Value>)
    ensures Earliest(a + b, name, default) == Earliest(a, name, Earliest(b, name, default))
    decreases |a|
  {
    if a == [] {
      assert a + b == b;
    } else {
      assert (a + b)[1..] == a[1..] + b;
      EarliestOfConcat(a[1..], b, name, default);
    }
  }

  lemma UndoneEnv(w: World, env: EnvId, saved: Previous)
    ensures Undo(w, env, saved).EnvAt(env) == Restore(w.EnvAt(env), saved)
  {
  }

  // ----- what patterns bind -----

  /** The names a pattern binds, whatever value it is given. */
  function Names(p: Form): set<string>
    decreases p, 1
  {
    match p
    case Sym(n) => if n == "_" then {} else {n}
    case VectorForm(_) => NamesFrom(p, 0)
    case _ => {}
  }

  function NamesFrom(p: Form, index: nat): set<string>
    requires p.VectorForm? && index <= |p.items|
    decreases p, 0, |p.items| - index
  {
    if index == |p.items| then {}
    else if p.items[index] == Sym("&") then
      if index + 1 >= |p.items| then {} else Names(p.items[index + 1]) + NamesFrom(p, index + 2)
    else if p.items[index] == Kw("as") then
      if index + 2 != |p.items| then {} else Names(p.items[index + 1])
    else Names(p.items[index]) + NamesFrom(p, index + 1)
  }

  function Elements(s: seq<string>): set<string> { set x | x in s }

  /** `b` extends the names of a binding and changed the environment at names of `allowed` only. */
  ghost predicate BindsWithin(b: Bound, env: Env, names: seq<string>, allowed: set<string>) {
    && Elements(b.names) <= Elements(names) + allowed
    && Elements(names) <= Elements(b.names)
    && (b.error.None? ==> Elements(b.names) == Elements(names) + allowed)
    && (forall n :: n !in b.names || n in names ==> Lookup(b.env, n) == Lookup(env, n))
  }

  lemma BindsThen(b: Bound, b1: Bound, env: Env, names: seq<string>, first: set<string>, more: set<string>)
    requires BindsWithin(b, env, names, first) && b.error.None?
    requires BindsWithin(b1, b.env, b.names, more)
    ensures BindsWithin(b1, env, names, first + more)
  {
    forall n | n !in b1.names || n in names ensures Lookup(b1.env, n) == Lookup(env, n) {
      assert n in Elements(names) <==> n in names;
      assert n in Elements(b.names) <==> n in b.names;
      assert n in Elements(b1.names) <==> n in b1.names;
    }
  }

  lemma {:induction false} PatternBinds(h: Host, p: Form, value: Value, env: Env, names: seq<string>)
    ensures BindsWithin(BindPattern(h, p, value, env, names), env, names, Names(p))
    decreases p, 1
  {
    if p.VectorForm? {
      var values := if value == Nil then Ok([]) else h.iterate(value);
      if values.Ok? { VectorBinds(h, p, 0, values.value, 0, value, env, names); }
    }
  }

  lemma {:induction false} VectorBinds(h: Host, p: Form, index: nat, values: seq<Value>, position: nat,
                                       original: Value, env: Env, names: seq<string>)
    requires p.VectorForm? && index <= |p.items|
    ensures BindsWithin(BindVector(h, p, index, values, position, original, env, names), env, names, NamesFrom(p, index))
    decreases p, 0, |p.items| - index, 1
  {
    if index == |p.items| {
      BindsNothing(BindVector(h, p, index, values, position, original, env, names), env, names);
    } else if p.items[index] == Sym("&") {
      RestBinds(h, p, index, values, position, original, env, names);
    } else if p.items[index] == Kw("as") {
      AsBinds(h, p, index, values, position, original, env, names);
    } else {
      hide BindPattern, BindsWithin, Names;
      var v := if position < |values| then values[position] else Nil;
      ElementBinds(h, p, index, v, index + 1, values, position + 1, original, env, names);
    }
  }

  lemma {:induction false} RestBinds(h: Host, p: Form, index: nat, values: seq<Value>, position: nat,
                                     original: Value, env: Env, names: seq<string>)
    requires p.VectorForm? && index < |p.items| && p.items[index] == Sym("&")
    ensures BindsWithin(BindVector(h, p, index, values, position, original, env, names), env, names, NamesFrom(p, index))
    decreases p, 0, |p.items| - index, 0
  {
    hide BindPattern, BindsWithin, Names;
    if index + 1 == |p.items| {
      BindsNothing(BindVector(h, p, index, values, position, original, env, names), env, names);
    } else {
      var rest := if position <= |values| then values[position..] else [];
      ElementBinds(h, p, index + 1, Vector(rest), index + 2, values, position, original, env, names);
    }
  }

  lemma {:induction false} AsBinds(h: Host, p: Form, index: nat, values: seq<Value>, position: nat,
                                   original: Value, env: Env, names: seq<string>)
    requires p.VectorForm? && index < |p.items| && p.items[index] == Kw("as")
    ensures BindsWithin(BindVector(h, p, index, values, position, original, env, names), env, names, NamesFrom(p, index))
    decreases p, 0, |p.items| - index, 0
  {
    hide BindPattern, BindsWithin, Names;
    if index + 2 == |p.items| {
      PatternBinds(h, p.items[index + 1], original, env, names);
    } else {
      BindsNothing(BindVector(h, p, index, values, position, original, env, names), env, names);
    }
  }

  /** One element of a vector pattern, then the rest from `next`. */
  lemma {:induction false} ElementBinds(h: Host, p: Form, index: nat, v: Value, next: nat, values: seq<Value>, position: nat,
                                        original: Value, env: Env, names: seq<string>)
    requires p.VectorForm? && index < |p.items| && index < next <= |p.items|
    ensures var b := BindPattern(h, p.items[index], v, env, names);
            BindsWithin(if b.error.Some? then b else BindVector(h, p, next, values, position, original, b.env, b.names),
                        env, names, Names(p.items[index]) + NamesFrom(p, next))
    decreases p, 0, |p.items| - index, 0
  {
    hide BindPattern, BindsWithin, BindVector, Names, NamesFrom;
    PatternBinds(h, p.items[index], v, env, names);
    var b := BindPattern(h, p.items[index], v, env, names);
    if b.error.Some? {
      BindsLess(b, env, names, Names(p.items[index]), NamesFrom(p, next));
    } else {
      VectorBinds(h, p, next, values, position, original, b.env, b.names);
      BindsThen(b, BindVector(h, p, next, values, position, original, b.env, b.names), env, names,
                Names(p.items[index]), NamesFrom(p, next));
    }
  }

  lemma BindsNothing(b: Bound, env: Env, names: seq<string>)
    requires b.env == env && b.names == names
    ensures BindsWithin(b, env, names, {})
  {
  }

  lemma BindsLess(b: Bound, env: Env, names: seq<string>, first: set<string>, more: set<string>)
    requires BindsWithin(b, env, names, first) && b.error.Some?
    ensures BindsWithin(b, env, names, first + more)
  {
  }

  // ----- scopes -----

  function ScopeNames(pairs: seq<(Form, Form)>): set<string> {
    if pairs == [] then {} else Names(pairs[0].0) + ScopeNames(pairs[1..])
  }

  /** What `name` holds at the moment the first pattern that binds it is about to. */
  function WhenBound(h: Host, q: Answers, fuel: nat, pairs: seq<(Form, Form)>, env: EnvId, w: World, name: string): Option<Value>
    decreases |pairs|
  {
    if pairs == [] || fuel == 0 then w.Get(env, name)
    else
      var out := EvalOne(h, q, fuel - 1, pairs[0].1, env, w);
      if out.IsFailure() then w.Get(env, name)
      else if name in Names(pairs[0].0) then out.w.Get(env, name)
      else WhenBound(h, q, fuel - 1, pairs[1..], env,
                     out.w.Put(env, BindPattern(h, pairs[0].0, out.r.value, out.w.EnvAt(env), []).env), name)
  }

  lemma {:induction false} SavedAllEarliest(env: Env, names: seq<string>, name: string, default: Option<Value>)
    ensures Earliest(SavedAll(env, names), name, default) == if name in names then Lookup(env, name) else default
    decreases |names|
  {
    if names != [] {
      assert SavedAll(env, names)[1..] == SavedAll(env, names[1..]);
      SavedAllEarliest(env, names[1..], name, default);
    }
  }

  /** A successful binding phase records each bound name with what it held when first bound, and no other name. */
  lemma {:induction false} BindingRecords(h: Host, q: Answers, fuel: nat, pairs: seq<(Form, Form)>, env: EnvId, w: World,
                                          name: string, default: Option<Value>)
    requires !EvalBind(h, q, fuel, pairs, env, w).IsFailure()
    ensures Earliest(EvalBind(h, q, fuel, pairs, env, w).r.value, name, default)
         == if name in ScopeNames(pairs) then WhenBound(h, q, fuel, pairs, env, w, name) else default
    decreases |pairs|
  {
    if pairs != [] {
      hide EvalOne, BindPattern, Names;
      var out := EvalOne(h, q, fuel - 1, pairs[0].1, env, w);
      var before := out.w.EnvAt(env);
      var b := BindPattern(h, pairs[0].0, out.r.value, before, []);
      PatternBinds(h, pairs[0].0, out.r.value, before, []);
      var w2 := out.w.Put(env, b.env);
      var rest := EvalBind(h, q, fuel - 1, pairs[1..], env, w2).r.value;
      EarliestOfConcat(SavedAll(before, b.names), rest, name, default);
      SavedAllEarliest(before, b.names, name, Earliest(rest, name, default));
      assert name in b.names <==> name in Elements(b.names);
      BindingRecords(h, q, fuel - 1, pairs[1..], env, w2, name, default);
    }
  }

  /** The world in which a loop's last body or rebinding ended, before its bindings are undone. */
  function LoopLeaves(h: Host, q: Answers, fuel: nat, patterns: seq<Form>, body: Form, env: EnvId, w: World): World
    decreases fuel
  {
    if fuel == 0 then w
    else
      var out := EvalOne(h, q, fuel - 1, body, env, w);
      if out.NoFuel? then w
      else if out.r.Err? || !out.r.value.Recur? || |out.r.value.args| != |patterns| then out.w
      else
        var (stop, bound) := Rebind(h, patterns, out.r.value.args, out.w.EnvAt(env));
        var w1 := out.w.Put(env, bound);
        if stop.Some? then w1 else LoopLeaves(h, q, fuel - 1, patterns, body, env, w1)
  }

  /** Every way out of a loop, after any number of `recur` steps, undoes the loop's bindings in the world it ended in. */
  lemma {:induction false} LoopEndsUndone(h: Host, q: Answers, fuel: nat, patterns: seq<Form>, body: Form,
                                          saved: Previous, env: EnvId, w: World)
    requires EvalLoop(h, q, fuel, patterns, body, saved, env, w).Done?
    ensures EvalLoop(h, q, fuel, patterns, body, saved, env, w).w
         == Undo(LoopLeaves(h, q, fuel, patterns, body, env, w), env, saved)
    decreases fuel
  {
    hide EvalOne, Rebind, Restore;
    var out := EvalOne(h, q, fuel - 1, body, env, w);
    if out.r.Ok? && out.r.value.Recur? && |out.r.value.args| == |patterns| {
      var (stop, bound) := Rebind(h, patterns, out.r.value.args, out.w.EnvAt(env));
      if stop.None? {
        LoopEndsUndone(h, q, fuel - 1, patterns, body, saved, env, out.w.Put(env, bound));
      }
    }
  }

  /** What undoing a successful binding phase makes of any name: bound names go back, others stay. */
  lemma UndoneName(h: Host, q: Answers, fuel: nat, pairs: seq<(Form, Form)>, env: EnvId, w: World, after: World, name: string)
    requires !EvalBind(h, q, fuel, pairs, env, w).IsFailure()
    ensures Undo(after, env, EvalBind(h, q, fuel, pairs, env, w).r.value).Get(env, name)
         == if name in ScopeNames(pairs) then WhenBound(h, q, fuel, pairs, env, w, name) else after.Get(env, name)
  {
    hide EvalBind, WhenBound, ScopeNames;
    var saved := EvalBind(h, q, fuel, pairs, env, w).r.value;
    UndoneEnv(after, env, saved);
    RestoreIsEarliest(after.EnvAt(env), saved, name);
    BindingRecords(h, q, fuel, pairs, env, w, name, Lookup(after.EnvAt(env), name));
  }

  /** The world in which a scope's body ended, its bindings made and not yet undone. */
  function ScopeLeaves(h: Host, q: Answers, fuel: nat, isLoop: bool, v: seq<Form>, env: EnvId, w: World): World
    requires Bindings(v, if isLoop then "loop" else "let").Ok?
  {
    if isLoop then LoopLeaves(h, q, fuel, Patterns(Pairs(v[1].items)), ScopeBody(v), env, w)
    else
      var out := EvalOne(h, q, fuel, ScopeBody(v), env, w);
      if out.NoFuel? then w else out.w
  }

  /**
   Scope balance.  Once the binding phase of a `let` or `loop` has succeeded, every name its
   patterns bind ends as it was when it was first bound, whether the body ends by value or by
   error, and every other name as the body left it.
   */
  lemma ScopeRestores(h: Host, q: Answers, fuel: nat, isLoop: bool, v: seq<Form>, env: EnvId, w: World, name: string)
    requires Bindings(v, if isLoop then "loop" else "let").Ok?
    requires !EvalBind(h, q, fuel, Pairs(v[1].items), env, w).IsFailure()
    requires EvalScope(h, q, fuel, isLoop, v, env, w).Done?
    ensures var pairs := Pairs(v[1].items);
            EvalScope(h, q, fuel, isLoop, v, env, w).w.Get(env, name) ==
            if name in ScopeNames(pairs) then WhenBound(h, q, fuel, pairs, env, w, name)
            else ScopeLeaves(h, q, fuel, isLoop, v, env, EvalBind(h, q, fuel, pairs, env, w).w).Get(env, name)
  {
    var pairs := Pairs(v[1].items);
    var bound := EvalBind(h, q, fuel, pairs, env, w);
    if isLoop { LoopEndsUndone(h, q, fuel, Patterns(pairs), ScopeBody(v), bound.r.value, env, bound.w); }
    var inner := ScopeLeaves(h, q, fuel, isLoop, v, env, bound.w);
    assert EvalScope(h, q, fuel, isLoop, v, env, w).w == Undo(inner, env, bound.r.value);
    hide EvalScope, EvalBind, WhenBound, ScopeNames, ScopeLeaves;
    UndoneName(h, q, fuel, pairs, env, w, inner, name);
  }

  // ----- a condition the text shows -----

  /** A form whose evaluation assigns nothing: `()`, a quotation, or a vector of such forms. */
  predicate Inert(form: Form) {
    || form == ListForm([])
    || (form.ListForm? && |form.items| == 2 && form.items[0] == Sym("quote"))
    || (form.VectorForm? && forall i :: 0 <= i < |form.items| ==> Inert(form.items[i]))
  }

  /** The initialisers up to and including that of the first pattern to bind `name` are inert. */
  predicate InertUntilBound(pairs: seq<(Form, Form)>, name: string) {
    pairs == [] || (Inert(pairs[0].1) && (name in Names(pairs[0].0) || InertUntilBound(pairs[1..], name)))
  }

  ghost predicate InterruptKeepsEnvs(h: Host) { forall w :: h.interrupt(w).1.envs == w.envs }

  lemma {:induction false} InertAssignsNothing(h: Host, q: Answers, fuel: nat, form: Form, env: EnvId, w: World)
    requires Inert(form) && InterruptKeepsEnvs(h) && EvalOne(h, q, fuel, form, env, w).Done?
    ensures EvalOne(h, q, fuel, form, env, w).w.envs == w.envs
    decreases fuel
  {
    var w1 := h.interrupt(w).1;
    if h.interrupt(w).0.None? && form.VectorForm? {
      InertValuesAssignNothing(h, q, fuel - 1, form.items, env, w1);
    }
  }

  lemma {:induction false} InertValuesAssignNothing(h: Host, q: Answers, fuel: nat, forms: seq<Form>, env: EnvId, w: World)
    requires (forall i :: 0 <= i < |forms| ==> Inert(forms[i])) && InterruptKeepsEnvs(h)
    requires EvalValues(h, q, fuel, forms, env, w).Done?
    ensures EvalValues(h, q, fuel, forms, env, w).w.envs == w.envs
    decreases fuel
  {
    hide EvalOne, Inert;
    if fuel > 0 && forms != [] {
      var out := EvalOne(h, q, fuel - 1, forms[0], env, w);
      InertAssignsNothing(h, q, fuel - 1, forms[0], env, w);
      if out.r.Ok? { InertValuesAssignNothing(h, q, fuel - 1, forms[1..], env, out.w); }
    }
  }

  /** Then the name is bound, and so ends, as it was on entry. */
  lemma {:induction false} InertIsBalanced(h: Host, q: Answers, fuel: nat, pairs: seq<(Form, Form)>, env: EnvId, w: World, name: string)
    requires InterruptKeepsEnvs(h) && InertUntilBound(pairs, name)
    requires !EvalBind(h, q, fuel, pairs, env, w).IsFailure() && name in ScopeNames(pairs)
    ensures WhenBound(h, q, fuel, pairs, env, w, name) == w.Get(env, name)
    decreases |pairs|
  {
    hide EvalOne, BindPattern, Names, Inert, InterruptKeepsEnvs;
    var out := EvalOne(h, q, fuel - 1, pairs[0].1, env, w);
    InertAssignsNothing(h, q, fuel - 1, pairs[0].1, env, w);
    if name !in Names(pairs[0].0) {
      var before := out.w.EnvAt(env);
      var b := BindPattern(h, pairs[0].0, out.r.value, before, []);
      PatternBinds(h, pairs[0].0, out.r.value, before, []);
      assert name in b.names <==> name in Elements(b.names);
      assert Lookup(b.env, name) == Lookup(before, name);
      InertIsBalanced(h, q, fuel - 1, pairs[1..], env, out.w.Put(env, b.env), name);
    }
  }

  // ----- a binding phase that fails -----

  /** What evaluating the initialiser of pair `i` does, the pairs before it bound. */
  function Initialised(h: Host, q: Answers, fuel: nat, pairs: seq<(Form, Form)>, env: EnvId, w: World, i: nat): Out<Value>
    requires i < |pairs|
  {
    var before := EvalBind(h, q, fuel, pairs[..i], env, w);
    if before.IsFailure() || fuel <= i then NoFuel else EvalOne(h, q, fuel - i - 1, pairs[i].1, env, before.w)
  }

  /** The phase stops at pair `i`: its initialiser fails, or its pattern does not fit. */
  predicate StopsAt(h: Host, q: Answers, fuel: nat, pairs: seq<(Form, Form)>, env: EnvId, w: World, i: nat)
    requires i < |pairs|
  {
    var out := EvalBind(h, q, fuel, pairs, env, w);
    var init := Initialised(h, q, fuel, pairs, env, w, i);
    && !EvalBind(h, q, fuel, pairs[..i], env, w).IsFailure() && init.Done?
    && (init.r.Err? ==> out == Done(Err(init.r.error), init.w))
    && (init.r.Ok? ==>
          var b := BindPattern(h, pairs[i].0, init.r.value, init.w.EnvAt(env), []);
          b.error.Some? && out == Done(Err("destructuring failed: " + b.error.value), init.w.Put(env, b.env)))
  }

  lemma {:induction false} FailureStops(h: Host, q: Answers, fuel: nat, pairs: seq<(Form, Form)>, env: EnvId, w: World)
    returns (i: nat)
    requires EvalBind(h, q, fuel, pairs, env, w).Done? && EvalBind(h, q, fuel, pairs, env, w).r.Err?
    ensures i < |pairs| && StopsAt(h, q, fuel, pairs, env, w, i)
    decreases |pairs|
  {
    hide EvalOne, BindPattern;
    var init := EvalOne(h, q, fuel - 1, pairs[0].1, env, w);
    var b := if init.r.Ok? then BindPattern(h, pairs[0].0, init.r.value, init.w.EnvAt(env), []) else Bound(None, map[], []);
    if init.r.Err? || b.error.Some? {
      i := 0;
      assert pairs[..0] == [];
      assert EvalBind(h, q, fuel, [], env, w) == Done(Ok([]), w);
    } else {
      var rest, w1 := pairs[1..], init.w.Put(env, b.env);
      var j := FailureStops(h, q, fuel - 1, rest, env, w1);
      i := j + 1;
      assert pairs[..i][1..] == rest[..j];
      assert EvalBind(h, q, fuel, pairs[..i], env, w) == EvalBound(h, q, fuel - 1, pairs[..i], init.r.value, env, init.w);
    }
  }

  /** The world after `j + 1` pairs is what the initialiser of pair `j` left with its pattern bound in it. */
  lemma {:induction false} BoundSoFar(h: Host, q: Answers, fuel: nat, pairs: seq<(Form, Form)>, env: EnvId, w: World, j: nat)
    requires j < |pairs| && !EvalBind(h, q, fuel, pairs[..j + 1], env, w).IsFailure()
    ensures var init := Initialised(h, q, fuel, pairs, env, w, j);
            && !init.IsFailure()
            && EvalBind(h, q, fuel, pairs[..j + 1], env, w).w
               == init.w.Put(env, BindPattern(h, pairs[j].0, init.r.value, init.w.EnvAt(env), []).env)
    decreases j
  {
    hide EvalOne, BindPattern;
    var init := EvalOne(h, q, fuel - 1, pairs[0].1, env, w);
    var b := BindPattern(h, pairs[0].0, init.r.value, init.w.EnvAt(env), []);
    var rest, w1 := pairs[1..], init.w.Put(env, b.env);
    assert pairs[..j + 1][1..] == rest[..j];
    assert EvalBind(h, q, fuel, pairs[..j + 1], env, w) == EvalBound(h, q, fuel - 1, pairs[..j + 1], init.r.value, env, init.w);
    if j == 0 {
      assert pairs[..0] == [] && rest[..0] == [];
      assert EvalBind(h, q, fuel, [], env, w) == Done(Ok([]), w);
      assert EvalBind(h, q, fuel - 1, rest[..0], env, w1) == Done(Ok([]), w1);
    } else {
      BoundSoFar(h, q, fuel - 1, rest, env, w1, j - 1);
      assert pairs[..j][1..] == rest[..j - 1];
      assert EvalBind(h, q, fuel, pairs[..j], env, w) == EvalBound(h, q, fuel - 1, pairs[..j], init.r.value, env, init.w);
    }
  }

  /** The names the pattern of the pair where the phase stops had bound before it failed. */
  function Partial(h: Host, q: Answers, fuel: nat, pairs: seq<(Form, Form)>, env: EnvId, w: World, i: nat): seq<string>
    requires i < |pairs|
  {
    var init := Initialised(h, q, fuel, pairs, env, w, i);
    if init.IsFailure() then [] else BindPattern(h, pairs[i].0, init.r.value, init.w.EnvAt(env), []).names
  }

  /** What the phase, stopped at pair `i`, would have had to put back: all it bound, the failing pattern included. */
  function Unrestored(h: Host, q: Answers, fuel: nat, pairs: seq<(Form, Form)>, env: EnvId, w: World, i: nat): Previous
    requires i < |pairs| && StopsAt(h, q, fuel, pairs, env, w, i)
  {
    EvalBind(h, q, fuel, pairs[..i], env, w).r.value
    + SavedAll(Initialised(h, q, fuel, pairs, env, w, i).w.EnvAt(env), Partial(h, q, fuel, pairs, env, w, i))
  }

  /** What a name held before the phase, stopped at pair `i`, first bound it; its present state if it never did. */
  function HeldBefore(h: Host, q: Answers, fuel: nat, pairs: seq<(Form, Form)>, env: EnvId, w: World, i: nat, name: string): Option<Value>
    requires i < |pairs| && StopsAt(h, q, fuel, pairs, env, w, i)
  {
    if name in ScopeNames(pairs[..i]) then WhenBound(h, q, fuel, pairs[..i], env, w, name)
    else if name in Partial(h, q, fuel, pairs, env, w, i) then Initialised(h, q, fuel, pairs, env, w, i).w.Get(env, name)
    else EvalBind(h, q, fuel, pairs, env, w).w.Get(env, name)
  }

  /** The failing pattern changed only names of its own, and only those it had bound. */
  lemma PartialNames(h: Host, q: Answers, fuel: nat, pairs: seq<(Form, Form)>, env: EnvId, w: World, i: nat, name: string)
    requires i < |pairs| && StopsAt(h, q, fuel, pairs, env, w, i)
    ensures var out, init := EvalBind(h, q, fuel, pairs, env, w), Initialised(h, q, fuel, pairs, env, w, i);
            var partial := Partial(h, q, fuel, pairs, env, w, i);
            && (name in partial ==> name in Names(pairs[i].0))
            && (name !in partial ==> out.w.Get(env, name) == init.w.Get(env, name))
  {
    hide EvalBind, Initialised, BindPattern, Names;
    var init := Initialised(h, q, fuel, pairs, env, w, i);
    if init.r.Ok? {
      var b := BindPattern(h, pairs[i].0, init.r.value, init.w.EnvAt(env), []);
      PatternBinds(h, pairs[i].0, init.r.value, init.w.EnvAt(env), []);
      assert (name in b.names <==> name in Elements(b.names)) && name !in Elements([]);
      assert name !in b.names ==> Lookup(b.env, name) == Lookup(init.w.EnvAt(env), name);
    }
  }

  /** What undoing all that the failing phase bound would make of a name. */
  lemma StoppedName(h: Host, q: Answers, fuel: nat, pairs: seq<(Form, Form)>, env: EnvId, w: World, i: nat, name: string)
    requires i < |pairs| && StopsAt(h, q, fuel, pairs, env, w, i)
    ensures Undo(EvalBind(h, q, fuel, pairs, env, w).w, env, Unrestored(h, q, fuel, pairs, env, w, i)).Get(env, name)
         == HeldBefore(h, q, fuel, pairs, env, w, i, name)
  {
    hide EvalBind, EvalOne, WhenBound, ScopeNames, BindPattern, Names, Initialised, Partial;
    var now, before := EvalBind(h, q, fuel, pairs, env, w).w, Initialised(h, q, fuel, pairs, env, w, i).w.EnvAt(env);
    var partial, saved := Partial(h, q, fuel, pairs, env, w, i), EvalBind(h, q, fuel, pairs[..i], env, w).r.value;
    var default := Lookup(now.EnvAt(env), name);
    UndoneEnv(now, env, Unrestored(h, q, fuel, pairs, env, w, i));
    RestoreIsEarliest(now.EnvAt(env), Unrestored(h, q, fuel, pairs, env, w, i), name);
    EarliestOfConcat(saved, SavedAll(before, partial), name, default);
    SavedAllEarliest(before, partial, name, default);
    BindingRecords(h, q, fuel, pairs[..i], env, w, name, Earliest(SavedAll(before, partial), name, default));
  }

  /**
   A binding phase that fails ends the scope at once with nothing undone.  It stops at one pair;
   the names it leaves changed by its bindings are exactly those it bound, by the patterns
   before that pair or by the failing pattern itself before it failed, that do not happen to hold
   what they held before.  Any other name is as the last initialiser left it.
   */
  lemma FailedBindingUndoesNothing(h: Host, q: Answers, fuel: nat, isLoop: bool, v: seq<Form>, env: EnvId, w: World)
    returns (i: nat)
    requires Bindings(v, if isLoop then "loop" else "let").Ok?
    requires var out := EvalBind(h, q, fuel, Pairs(v[1].items), env, w); out.Done? && out.r.Err?
    ensures var pairs := Pairs(v[1].items);
            var out := EvalBind(h, q, fuel, pairs, env, w);
            && i < |pairs| && StopsAt(h, q, fuel, pairs, env, w, i)
            && EvalScope(h, q, fuel, isLoop, v, env, w) == Done(Err(out.r.error), out.w)
            && (forall name :: name !in Partial(h, q, fuel, pairs, env, w, i) ==>
                  out.w.Get(env, name) == Initialised(h, q, fuel, pairs, env, w, i).w.Get(env, name))
            && (forall name ::
                  Undo(out.w, env, Unrestored(h, q, fuel, pairs, env, w, i)).Get(env, name) != out.w.Get(env, name) <==>
                  && (name in ScopeNames(pairs[..i]) || name in Partial(h, q, fuel, pairs, env, w, i))
                  && out.w.Get(env, name) != HeldBefore(h, q, fuel, pairs, env, w, i, name))
  {
    var pairs := Pairs(v[1].items);
    var out := EvalBind(h, q, fuel, pairs, env, w);
    assert EvalScope(h, q, fuel, isLoop, v, env, w) == Done(Err(out.r.error), out.w);
    hide EvalBind, EvalScope, WhenBound, ScopeNames, StopsAt, Partial, Unrestored, Initialised;
    i := FailureStops(h, q, fuel, pairs, env, w);
    forall name ensures
      && (name !in Partial(h, q, fuel, pairs, env, w, i) ==>
            out.w.Get(env, name) == Initialised(h, q, fuel, pairs, env, w, i).w.Get(env, name))
      && Undo(out.w, env, Unrestored(h, q, fuel, pairs, env, w, i)).Get(env, name)
         == HeldBefore(h, q, fuel, pairs, env, w, i, name)
    {
      PartialNames(h, q, fuel, pairs, env, w, i, name);
      StoppedName(h, q, fuel, pairs, env, w, i, name);
    }
  }

  /** A pattern that fails part of the way leaves names bound too: `a` after `(let [[a a] ()] ())`. */
  lemma FailedPatternLeaks(h: Host, q: Answers, env: EnvId, w: World)
    requires forall w1 :: h.interrupt(w1) == (None, w1)
    requires h.iterate(List([])) == Ok([]) && "a" !in w.EnvAt(env)
    ensures var form := ListForm([Sym("let"), VectorForm([VectorForm([Sym("a"), Sym("a")]), ListForm([])]), ListForm([])]);
            var out := EvalOne(h, q, 9, form, env, w);
            out.Done? && out.r.Err? && w.Get(env, "a") == None && out.w.Get(env, "a") == Some(Nil)
  {
    var pattern := VectorForm([Sym("a"), Sym("a")]);
    var v := [Sym("let"), VectorForm([pattern, ListForm([])]), ListForm([])];
    var pairs := [(pattern, ListForm([]))];
    assert Bindings(v, "let") == Ok(pairs) by { assert Pairs([pattern, ListForm([])]) == pairs; }
    RepeatedNameStops(h, q, pairs, env, w);
    hide EvalBind, EvalBound, EvalOne, BindPattern, Bindings;
    var _ := FailedBindingUndoesNothing(h, q, 8, false, v, env, w);
    LetIsScope(h, q, v, env, w);
  }

  lemma RepeatedNameStops(h: Host, q: Answers, pairs: seq<(Form, Form)>, env: EnvId, w: World)
    requires forall w1 :: h.interrupt(w1) == (None, w1)
    requires pairs == [(VectorForm([Sym("a"), Sym("a")]), ListForm([]))] && h.iterate(List([])) == Ok([])
    ensures var out := EvalBind(h, q, 8, pairs, env, w);
            out.Done? && out.r.Err? && out.w == w.Put(env, w.EnvAt(env)["a" := Nil])
  {
    RepeatedName(h, pairs[0].0, w.EnvAt(env));
    assert EvalOne(h, q, 7, ListForm([]), env, w) == Done(Ok(List([])), w);
    hide EvalOne, BindPattern;
    assert EvalBind(h, q, 8, pairs, env, w) == EvalBound(h, q, 7, pairs, List([]), env, w);
  }

  lemma RepeatedName(h: Host, pattern: Form, env: Env)
    requires pattern == VectorForm([Sym("a"), Sym("a")]) && h.iterate(List([])) == Ok([])
    ensures var b := BindPattern(h, pattern, List([]), env, []);
            b.error.Some? && b.env == env["a" := Nil] && b.names == ["a"]
  {
    var e1 := env["a" := Nil];
    assert BindPattern(h, Sym("a"), Nil, env, []) == Bound(None, e1, ["a"]);
    var second := BindPattern(h, Sym("a"), Nil, e1, ["a"]);
    assert second.error.Some? && second.env == e1 && second.names == ["a"];
    assert BindVector(h, pattern, 1, [], 1, List([]), e1, ["a"]) == second;
    assert BindVector(h, pattern, 0, [], 0, List([]), env, []) == BindVector(h, pattern, 1, [], 1, List([]), e1, ["a"]);
  }

  /** So the balance law is false of `(let [x () y (if)] x)`: `x` stays bound after the error. */
  lemma FailedInitialiserLeaks(h: Host, q: Answers, env: EnvId, w: World)
    requires forall w1 :: h.interrupt(w1) == (None, w1)
    requires "x" !in w.EnvAt(env)
    ensures var form := ListForm([Sym("let"),
                                  VectorForm([Sym("x"), ListForm([]), Sym("y"), ListForm([Sym("if")])]),
                                  Sym("x")]);
            var out := EvalOne(h, q, 9, form, env, w);
            out.Done? && out.r == Err("if expects 2 or 3 arguments") && out.w.Get(env, "x") == Some(List([]))
  {
    var broken := ListForm([Sym("if")]);
    var bindings := [Sym("x"), ListForm([]), Sym("y"), broken];
    var v := [Sym("let"), VectorForm(bindings), Sym("x")];
    var pairs := [(Sym("x"), ListForm([])), (Sym("y"), broken)];
    assert Bindings(v, "let") == Ok(pairs) by { assert Pairs(bindings) == pairs; }
    var w1 := w.Put(env, w.EnvAt(env)["x" := List([])]);
    assert EvalOne(h, q, 7, ListForm([]), env, w) == Done(Ok(List([])), w);
    EmptyIfFails(h, q, 6, env, w1);
    assert pairs[1..] == [(Sym("y"), broken)];
    assert EvalBind(h, q, 8, pairs, env, w) == EvalBound(h, q, 7, pairs, List([]), env, w);
    assert EvalBind(h, q, 7, pairs[1..], env, w1) == Done(Err("if expects 2 or 3 arguments"), w1);
    hide EvalBind, EvalOne;
    assert EvalBound(h, q, 7, pairs, List([]), env, w) == Done(Err("if expects 2 or 3 arguments"), w1);
    var _ := FailedBindingUndoesNothing(h, q, 8, false, v, env, w);
    LetIsScope(h, q, v, env, w);
  }

  /**
   And a scope whose bindings succeed can still leave a name changed: in
   `(let [a (def x ()) x ()] ())` the first initialiser defines `x` before it is bound.
   */
  lemma EarlierInitialiserLeaks(h: Host, q: Answers, env: EnvId, w: World, id: nat)
    requires forall w1 :: h.interrupt(w1) == (None, w1)
    requires h.define("def", "x", None, List([]), env, w) == (Ok(Var(id)), w.Put(env, w.EnvAt(env)["x" := Var(id)]))
    requires "x" !in w.EnvAt(env)
    ensures var form := ListForm([Sym("let"),
                                  VectorForm([Sym("a"), ListForm([Sym("def"), Sym("x"), ListForm([])]), Sym("x"), ListForm([])]),
                                  ListForm([])]);
            var out := EvalOne(h, q, 9, form, env, w);
            out.Done? && out.r == Ok(List([])) && w.Get(env, "x") == None && out.w.Get(env, "x") == Some(Var(id))
  {
    var define := ListForm([Sym("def"), Sym("x"), ListForm([])]);
    var bindings := [Sym("a"), define, Sym("x"), ListForm([])];
    var v := [Sym("let"), VectorForm(bindings), ListForm([])];
    var pairs := [(Sym("a"), define), (Sym("x"), ListForm([]))];
    assert Bindings(v, "let") == Ok(pairs) by { assert Pairs(bindings) == pairs; }
    DefThenBound(h, q, pairs, env, w, id);
    hide EvalBind, WhenBound, ScopeNames;
    LetIsScope(h, q, v, env, w);
    assert EvalScope(h, q, 8, false, v, env, w).Done? && EvalScope(h, q, 8, false, v, env, w).r == Ok(List([])) by {
      var after := EvalBind(h, q, 8, pairs, env, w).w;
      assert EvalOne(h, q, 8, ListForm([]), env, after) == Done(Ok(List([])), after);
    }
    hide EvalScope, EvalOne;
    ScopeRestores(h, q, 8, false, v, env, w, "x");
  }

  lemma DefThenBound(h: Host, q: Answers, pairs: seq<(Form, Form)>, env: EnvId, w: World, id: nat)
    requires forall w1 :: h.interrupt(w1) == (None, w1)
    requires h.define("def", "x", None, List([]), env, w) == (Ok(Var(id)), w.Put(env, w.EnvAt(env)["x" := Var(id)]))
    requires pairs == [(Sym("a"), ListForm([Sym("def"), Sym("x"), ListForm([])])), (Sym("x"), ListForm([]))]
    ensures !EvalBind(h, q, 8, pairs, env, w).IsFailure() && "x" in ScopeNames(pairs)
    ensures WhenBound(h, q, 8, pairs, env, w, "x") == Some(Var(id))
  {
    hide EvalList, Restore, BindVector;
    var w1 := w.Put(env, w.EnvAt(env)["x" := Var(id)]);
    var w2 := w1.Put(env, w1.EnvAt(env)["a" := Var(id)]);
    DefineStores(h, q, 7, env, w, id);
    assert pairs[1..] == [(Sym("x"), ListForm([]))];
    assert BindPattern(h, Sym("a"), Var(id), w1.EnvAt(env), []) == Bound(None, w1.EnvAt(env)["a" := Var(id)], ["a"]);
    assert EvalOne(h, q, 6, ListForm([]), env, w2) == Done(Ok(List([])), w2);
    BindOne(h, q, 7, pairs[1..], env, w2);
    hide EvalOne, BindPattern;
    assert ScopeNames(pairs) == Names(Sym("a")) + ScopeNames(pairs[1..]);
    assert EvalBind(h, q, 8, pairs, env, w) == EvalBound(h, q, 7, pairs, Var(id), env, w1);
    assert WhenBound(h, q, 7, pairs[1..], env, w2, "x") == Some(Var(id));
    assert WhenBound(h, q, 8, pairs, env, w, "x") == WhenBound(h, q, 7, pairs[1..], env, w2, "x");
  }

  lemma DefineStores(h: Host, q: Answers, fuel: nat, env: EnvId, w: World, id: nat)
    requires fuel > 1 && forall w1 :: h.interrupt(w1) == (None, w1)
    requires h.define("def", "x", None, List([]), env, w) == (Ok(Var(id)), w.Put(env, w.EnvAt(env)["x" := Var(id)]))
    ensures EvalOne(h, q, fuel, ListForm([Sym("def"), Sym("x"), ListForm([])]), env, w)
         == Done(Ok(Var(id)), w.Put(env, w.EnvAt(env)["x" := Var(id)]))
  {
    var v := [Sym("def"), Sym("x"), ListForm([])];
    assert EvalOne(h, q, fuel - 1, ListForm([]), env, w) == Done(Ok(List([])), w);
    assert EvalDefine(h, q, fuel - 1, v, env, w) == Lifted(h.define("def", "x", None, List([]), env, w));
    hide EvalDefine;
    assert EvalList(h, q, fuel - 1, v, env, w) == EvalDefine(h, q, fuel - 1, v, env, w);
  }

  lemma BindOne(h: Host, q: Answers, fuel: nat, pairs: seq<(Form, Form)>, env: EnvId, w: World)
    requires fuel > 1 && pairs == [(Sym("x"), ListForm([]))] && forall w1 :: h.interrupt(w1) == (None, w1)
    ensures !EvalBind(h, q, fuel, pairs, env, w).IsFailure()
  {
    assert pairs[1..] == [];
    assert EvalOne(h, q, fuel - 1, ListForm([]), env, w) == Done(Ok(List([])), w);
    var w1 := w.Put(env, w.EnvAt(env)["x" := List([])]);
    assert BindPattern(h, Sym("x"), List([]), w.EnvAt(env), []) == Bound(None, w.EnvAt(env)["x" := List([])], ["x"]);
    assert EvalBind(h, q, fuel - 1, [], env, w1) == Done(Ok([]), w1);
    assert EvalBind(h, q, fuel, pairs, env, w) == EvalBound(h, q, fuel - 1, pairs, List([]), env, w);
  }

  lemma EmptyIfFails(h: Host, q: Answers, fuel: nat, env: EnvId, w: World)
    requires fuel > 0 && h.interrupt(w) == (None, w)
    ensures EvalOne(h, q, fuel, ListForm([Sym("if")]), env, w) == Done(Err("if expects 2 or 3 arguments"), w)
  {
    assert EvalList(h, q, fuel - 1, [Sym("if")], env, w) == EvalIf(h, q, fuel - 1, [Sym("if")], env, w);
  }

  lemma LetIsScope(h: Host, q: Answers, v: seq<Form>, env: EnvId, w: World)
    requires |v| == 3 && v[0] == Sym("let") && h.interrupt(w) == (None, w)
    ensures EvalOne(h, q, 9, ListForm(v), env, w) == EvalScope(h, q, 8, false, v, env, w)
  {
    hide EvalScope;
  }
}
