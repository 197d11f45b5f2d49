/** What a call of a Hara function does: which clause it takes, what its parameters hold, and where its body runs. */
module FiberCalls {
  import opened Optional
  import opened Results
  import opened FiberSyntax
  import opened FiberDirect
  import opened FiberScope
  import opened FiberPatterns

  // ----- which clause -----

  predicate Exact(f: Function, n: nat) { f.variadic.None? && |f.params| == n }

  predicate Takes(f: Function, n: nat) { f.variadic.Some? && |f.params| <= n }

  lemma {:induction false} ExactIsFirst(fs: seq<Function>, n: nat) returns (i: nat)
    ensures i <= |fs| && (forall j :: 0 <= j < i ==> !Exact(fs[j], n))
    ensures ExactClause(fs, n) == if i < |fs| then Some(fs[i]) else None
    ensures i < |fs| ==> Exact(fs[i], n)
    decreases |fs|
  {
    if fs == [] || Exact(fs[0], n) {
      i := 0;
    } else {
      var k := ExactIsFirst(fs[1..], n);
      i := k + 1;
      assert forall j :: 0 < j < i ==> fs[j] == fs[1..][j - 1];
    }
  }

  /** The widest variadic clause that takes `n` arguments, the last one of several. */
  ghost predicate Widest(fs: seq<Function>, n: nat, i: nat) {
    && i < |fs| && Takes(fs[i], n)
    && forall j :: 0 <= j < |fs| && Takes(fs[j], n) ==>
         |fs[j].params| <= |fs[i].params| && (j > i ==> |fs[j].params| < |fs[i].params|)
  }

  lemma {:induction false} WidestIsLast(fs: seq<Function>, n: nat, k: nat, best: Option<Function>) returns (i: nat)
    requires k <= |fs| && (best.None? ==> forall j :: 0 <= j < k ==> !Takes(fs[j], n))
    requires best.Some? ==> exists b :: 0 <= b < k && fs[b] == best.value && Widest(fs[..k], n, b)
    ensures WidestVariadic(fs[k..], n, best) == if i < |fs| then Some(fs[i]) else None
    ensures if i < |fs| then Widest(fs, n, i) else forall j :: 0 <= j < |fs| ==> !Takes(fs[j], n)
    decreases |fs| - k
  {
    if k == |fs| {
      assert fs[..k] == fs && fs[k..] == [];
      if best.Some? { i :| 0 <= i < k && fs[i] == best.value && Widest(fs[..k], n, i); } else { i := k; }
    } else {
      var f, front := fs[k], fs[..k + 1];
      assert fs[k..][0] == f && fs[k..][1..] == fs[k + 1..];
      assert front == fs[..k] + [f] && front[k] == f;
      var taken := Takes(f, n) && (best.None? || |f.params| >= |best.value.params|);
      if taken {
        if best.Some? { var b :| 0 <= b < k && fs[b] == best.value && Widest(fs[..k], n, b); }
        assert Widest(front, n, k);
        i := WidestIsLast(fs, n, k + 1, Some(f));
      } else {
        if best.Some? {
          var b :| 0 <= b < k && fs[b] == best.value && Widest(fs[..k], n, b);
          assert Widest(front, n, b);
        }
        i := WidestIsLast(fs, n, k + 1, best);
      }
    }
  }

  /** Dispatch takes the first clause of that very arity, otherwise the widest variadic one that has room, otherwise none. */
  lemma ClauseChosen(fs: seq<Function>, n: nat) returns (i: nat)
    ensures SelectClause(fs, n) == if i < |fs| then Some(fs[i]) else None
    ensures (exists j :: 0 <= j < |fs| && Exact(fs[j], n)) ==>
              i < |fs| && Exact(fs[i], n) && forall j :: 0 <= j < i ==> !Exact(fs[j], n)
    ensures (forall j :: 0 <= j < |fs| ==> !Exact(fs[j], n)) && i < |fs| ==> Widest(fs, n, i)
    ensures i >= |fs| ==> forall j :: 0 <= j < |fs| ==> !Exact(fs[j], n) && !Takes(fs[j], n)
  {
    i := ExactIsFirst(fs, n);
    if i == |fs| {
      i := WidestIsLast(fs, n, 0, None);
      assert fs[0..] == fs;
    }
  }

  lemma ArityMeans(f: Function, n: nat)
    ensures ArityError(f, n).None? <==> Exact(f, n) || Takes(f, n)
  {
  }

  // ----- what the parameters hold -----

  /** How many of the first are paired with one of the second. */
  function Paired<S, T>(a: seq<S>, b: seq<T>): nat { if |a| <= |b| then |a| else |b| }

  predicate LastOf(params: seq<string>, i: nat, k: nat, n: string)
    requires i < k <= |params|
  {
    params[i] == n && forall j :: i < j < k ==> params[j] != n
  }

  /** A parameter holds its argument (the last of several of that name), and any other name what it held before. */
  ghost predicate FromParams(params: seq<string>, values: seq<Value>, n: string, before: Option<Value>, now: Option<Value>) {
    var k := Paired(params, values);
    && (forall i :: 0 <= i < k && LastOf(params, i, k, n) ==> now == Some(values[i]))
    && ((forall i :: 0 <= i < k ==> params[i] != n) ==> now == before)
  }

  lemma {:induction false} ParamsHold(params: seq<string>, values: seq<Value>, env: Env, n: string)
    ensures FromParams(params, values, n, Lookup(env, n), Lookup(BindParams(params, values, env), n))
    decreases |params|
  {
    if params != [] && values != [] {
      var more, rest, k := params[1..], values[1..], Paired(params, values);
      var env1 := env[params[0] := values[0]];
      ParamsHold(more, rest, env1, n);
      var now := Lookup(BindParams(params, values, env), n);
      assert now == Lookup(BindParams(more, rest, env1), n);
      hide BindParams;
      forall i | 0 <= i < k && LastOf(params, i, k, n) ensures now == Some(values[i]) {
        forall j | i <= j < k - 1 ensures more[j] != n { assert more[j] == params[j + 1]; }
        if i > 0 { assert LastOf(more, i - 1, k - 1, n); }
      }
      if forall i :: 0 <= i < k ==> params[i] != n {
        forall j | 0 <= j < k - 1 ensures more[j] != n { assert more[j] == params[j + 1]; }
        assert params[0] != n;
      }
    }
  }

  ghost predicate NoPattern(patterns: seq<Form>, k: nat, n: string)
    requires k <= |patterns|
  {
    forall i :: 0 <= i < k ==> n !in Names(patterns[i])
  }

  ghost predicate Bears(b: Bound, n: string, x: Value) { Lookup(b.env, n) == Some(x) && n in b.names }

  /** Patterns are paired with arguments from the left, and no name is bound twice. */
  lemma {:induction false} ArgumentsHold(h: Host, patterns: seq<Form>, values: seq<Value>, env: Env, names: seq<string>, n: string)
    requires BindArguments(h, patterns, values, env, names).error.None?
    ensures var b, k := BindArguments(h, patterns, values, env, names), Paired(patterns, values);
            && (forall i, x :: 0 <= i < k && Gives(h, patterns[i], values[i], n, x) ==> Bears(b, n, x))
            && (n in names ==> n in b.names)
            && (n in names || NoPattern(patterns, k, n) ==> Lookup(b.env, n) == Lookup(env, n))
    decreases |patterns|
  {
    hide BindPattern, Gives, Names;
    if patterns != [] && values != [] {
      var p, v, more, rest, k := patterns[0], values[0], patterns[1..], values[1..], Paired(patterns, values);
      var b := BindPattern(h, p, v, env, names);
      PatternBinds(h, p, v, env, names);
      assert forall s: seq<string> :: n in Elements(s) <==> n in s;
      ArgumentsHold(h, more, rest, b.env, b.names, n);
      forall x | Gives(h, p, v, n, x) ensures Lookup(b.env, n) == Some(x) && n in b.names {
        GivesHolds(h, p, v, env, names, n, x);
      }
      var c := BindArguments(h, patterns, values, env, names);
      forall i, x | 0 <= i < k && Gives(h, patterns[i], values[i], n, x) ensures Bears(c, n, x) {
        if i > 0 { assert patterns[i] == more[i - 1] && values[i] == rest[i - 1]; }
      }
      if NoPattern(patterns, k, n) {
        assert n !in Names(p) && NoPattern(more, k - 1, n) by {
          forall i | 0 <= i < k - 1 ensures n !in Names(more[i]) { assert patterns[i + 1] == more[i]; }
        }
      }
    }
  }

  function Rest(f: Function, args: seq<Value>): Value { List(if |f.params| <= |args| then args[|f.params|..] else []) }

  /** The names a call's rest parameter binds besides its own. */
  function RestNames(f: Function): set<string> {
    if f.variadic.Some? && f.variadicPattern.Some? then Names(f.variadicPattern.value) else {}
  }

  /** What the patterns give the name, each from the argument at its position, is what it holds. */
  ghost predicate FromPatterns(h: Host, f: Function, args: seq<Value>, n: string, now: Option<Value>) {
    forall i, x :: 0 <= i < Paired(f.patterns, args) && Gives(h, f.patterns[i], args[i], n, x) ==> now == Some(x)
  }

  lemma BeforeRest(h: Host, f: Function, args: seq<Value>, w: World, n: string)
    requires BindArguments(h, f.patterns, args, BindParams(f.params, args, w.EnvAt(f.captured)), []).error.None?
    ensures var b := BindArguments(h, f.patterns, args, BindParams(f.params, args, w.EnvAt(f.captured)), []);
            && FromPatterns(h, f, args, n, Lookup(b.env, n))
            && (n !in b.names ==> forall now :: FromPatterns(h, f, args, n, now))
            && (NoPattern(f.patterns, Paired(f.patterns, args), n) ==>
                  FromParams(f.params, args, n, w.Get(f.captured, n), Lookup(b.env, n)))
  {
    hide BindParams, BindArguments, Gives, Names, NoPattern, FromParams;
    var env := BindParams(f.params, args, w.EnvAt(f.captured));
    var b := BindArguments(h, f.patterns, args, env, []);
    ParamsHold(f.params, args, w.EnvAt(f.captured), n);
    ArgumentsHold(h, f.patterns, args, env, [], n);
    forall i, x | 0 <= i < Paired(f.patterns, args) && Gives(h, f.patterns[i], args[i], n, x)
      ensures Lookup(b.env, n) == Some(x) && n in b.names
    {
      assert Bears(b, n, x);
    }
  }

  /**
   The environment of a call, name by name.  What the pattern at each position gives a name, from
   the argument at that position, is what the name holds; the rest parameter holds the list of the
   arguments after the parameters; a parameter that no pattern rebinds holds its argument; any
   other name is as it was captured.
   */
  lemma CallHolds(h: Host, f: Function, args: seq<Value>, w: World, n: string)
    requires CallEnv(h, f, args, w).Ok?
    ensures var now := Lookup(CallEnv(h, f, args, w).value, n);
            && (f.variadic != Some(n) ==> FromPatterns(h, f, args, n, now))
            && (f.variadic == Some(n) && n !in RestNames(f) ==> now == Some(Rest(f, args)))
            && (n in RestNames(f) ==> forall x :: Gives(h, f.variadicPattern.value, Rest(f, args), n, x) ==> now == Some(x))
            && (f.variadic != Some(n) && n !in RestNames(f) && NoPattern(f.patterns, Paired(f.patterns, args), n) ==>
                  FromParams(f.params, args, n, w.Get(f.captured, n), now))
  {
    BeforeRest(h, f, args, w, n);
    hide BindParams, BindArguments, BindPattern, Gives, Names, FromPatterns, FromParams, NoPattern;
    if f.variadic.Some? && f.variadicPattern.Some? {
      var b := BindArguments(h, f.patterns, args, BindParams(f.params, args, w.EnvAt(f.captured)), []);
      RestHolds(h, f.variadicPattern.value, Rest(f, args), b.env[f.variadic.value := Rest(f, args)], b.names, n);
    }
  }

  /** So a name that is the pattern at position `i` holds argument `i`. */
  lemma ParameterHolds(h: Host, f: Function, args: seq<Value>, w: World, i: nat, n: string)
    requires CallEnv(h, f, args, w).Ok? && i < |f.patterns| && i < |args|
    requires f.patterns[i] == Sym(n) && n != "_" && f.variadic != Some(n)
    ensures Lookup(CallEnv(h, f, args, w).value, n) == Some(args[i])
  {
    hide CallEnv;
    CallHolds(h, f, args, w, n);
    assert Gives(h, f.patterns[i], args[i], n, args[i]);
  }

  lemma RestHolds(h: Host, p: Form, v: Value, env: Env, names: seq<string>, n: string)
    requires BindPattern(h, p, v, env, names).error.None?
    ensures var now := Lookup(BindPattern(h, p, v, env, names).env, n);
            && (forall x :: Gives(h, p, v, n, x) ==> now == Some(x))
            && (n !in Names(p) || n in names ==> now == Lookup(env, n))
  {
    hide BindPattern, Gives, Names;
    PatternHolds(h, p, v, env, names, n);
    PatternBinds(h, p, v, env, names);
  }

  // ----- where the body runs -----

  /** The cell a call's body runs in holds the call's environment. */
  lemma BodyCell(h: Host, f: Function, args: seq<Value>, w: World)
    requires CallEnv(h, f, args, Enter(h, f, w)).Ok?
    ensures var w1 := Enter(h, f, w);
            var env := CallEnv(h, f, args, w1).value;
            && Alloc(w1, env).EnvAt(w1.nextEnv) == env
            && (forall id :: id != w1.nextEnv ==> Alloc(w1, env).EnvAt(id) == w.EnvAt(id))
            && Alloc(w1, env).ns == if CallerScoped(f) || f.namespace.None? then w.ns else f.namespace.value
  {
    hide CallEnv;
  }

  /**
   A call of a Hara function whose arity fits runs its body there, in order, and gives the value of
   the last form; a `recur` that leaves the body is an error.
   */
  lemma CallRunsBody(h: Host, q: Answers, fuel: nat, f: Function, args: seq<Value>, w: World, v: Value)
    requires f.clauses == [] && f.code == Hara && fuel > 0 && (Exact(f, |args|) || Takes(f, |args|))
    requires CallEnv(h, f, args, Enter(h, f, w)).Ok?
    ensures var w1 := Enter(h, f, w);
            var body := EvalForms(h, q, fuel - 1, f.body, Nil, w1.nextEnv, Alloc(w1, CallEnv(h, f, args, w1).value));
            var out := EvalCall(h, q, fuel, f, args, w);
            && (out.NoFuel? <==> body.NoFuel?)
            && (out.Done? ==>
                  && (out.r == Ok(v) <==> body.r == Ok(v) && !v.Recur?)
                  && out.w.envs == body.w.envs
                  && out.w.ns == if CallerScoped(f) || f.namespace.None? then body.w.ns else w.ns)
  {
    ArityMeans(f, |args|);
    hide CallEnv, EvalForms;
  }

  // ----- rebinding by recur -----

  ghost predicate LastToBind(patterns: seq<Form>, i: nat, n: string) {
    forall j :: i < j < |patterns| ==> n !in Names(patterns[j])
  }

  /** A `recur` rebinds the patterns of its loop from the left; a name bound twice keeps the last. */
  lemma {:induction false} RebindHolds(h: Host, patterns: seq<Form>, values: seq<Value>, env: Env, n: string)
    requires Rebind(h, patterns, values, env).0.None? && |patterns| == |values|
    ensures var now := Lookup(Rebind(h, patterns, values, env).1, n);
            && (forall i, x :: 0 <= i < |patterns| && Gives(h, patterns[i], values[i], n, x) && LastToBind(patterns, i, n) ==>
                  now == Some(x))
            && (NoPattern(patterns, |patterns|, n) ==> now == Lookup(env, n))
    decreases |patterns|
  {
    hide BindPattern, Gives, Names;
    if patterns != [] {
      var p, v, more, rest := patterns[0], values[0], patterns[1..], values[1..];
      var b := BindPattern(h, p, v, env, []);
      PatternHolds(h, p, v, env, [], n);
      RebindHolds(h, more, rest, b.env, n);
      var now := Lookup(Rebind(h, patterns, values, env).1, n);
      assert forall i :: 0 < i < |patterns| ==> patterns[i] == more[i - 1] && values[i] == rest[i - 1];
      forall i, x | 0 <= i < |patterns| && Gives(h, patterns[i], values[i], n, x) && LastToBind(patterns, i, n)
        ensures now == Some(x)
      {
        forall j | 0 <= j < |more| && i <= j ensures n !in Names(more[j]) { assert patterns[j + 1] == more[j]; }
        if i == 0 { assert NoPattern(more, |more|, n); } else { assert Gives(h, more[i - 1], rest[i - 1], n, x); }
      }
      if NoPattern(patterns, |patterns|, n) {
        forall j | 0 <= j < |more| ensures n !in Names(more[j]) { assert patterns[j + 1] == more[j]; }
      }
    }
  }
}
