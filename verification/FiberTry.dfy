/** When the finally forms of a `try` run, from what state, and what a catch clause leaves behind. */
module FiberTry {
  import opened Optional
  import opened Results
  import opened FiberSyntax
  import opened FiberMachine
  import opened FiberRuns
  import opened FiberDirect
  import opened FiberAdequacy
  import opened FiberScope

  const BAD_SELECTOR: string :=
    "catch selector must be a namespaced keyword, a non-empty vector of namespaced keywords, or omitted"

  /**
   The scan can only fail on a clause that does not parse.  The check that an unconditional
   clause comes last is never reached, since such a clause is selected at once.
   */
  lemma {:induction false} OnlySelectorsFail(h: Host, catches: seq<seq<Form>>, error: string, w: World)
    ensures var s := SelectCatch(h, catches, false, error, w); s.Malformed? ==> s.error == BAD_SELECTOR
    decreases |catches|
  {
    if catches != [] && ParseCatch(catches[0]).Ok? {
      OnlySelectorsFail(h, catches[1..], error, w);
    }
  }

  // ----- direct evaluation up to the finally forms -----

  function BodyOf(h: Host, q: Answers, fuel: nat, parts: TryParts, env: EnvId, w: World): Out<Value> {
    EvalForms(h, q, fuel, parts.body, Nil, env, w)
  }

  /** The run of a selected catch clause's body, with the caught value bound. */
  function CatchBody(h: Host, q: Answers, fuel: nat, name: string, body: seq<Form>, error: string, env: EnvId, w: World): Out<Value> {
    var (v, w1) := h.caught(error, w);
    EvalForms(h, q, fuel, body, Nil, env, w1.Put(env, w1.EnvAt(env)[name := v]))
  }

  /** The one way out that skips the finally forms: the body failed and a scanned clause is malformed. */
  predicate SkipsFinally(h: Host, q: Answers, fuel: nat, parts: TryParts, env: EnvId, w: World) {
    var body := BodyOf(h, q, fuel, parts, env, w);
    body.Done? && body.r.Err? && SelectCatch(h, parts.catches, false, body.r.error, body.w).Malformed?
  }

  /** The result the finally forms start from and the world they run in, when they run. */
  function BeforeFinally(h: Host, q: Answers, fuel: nat, parts: TryParts, env: EnvId, w: World): Out<Value> {
    var body := BodyOf(h, q, fuel, parts, env, w);
    if body.NoFuel? || body.r.Ok? then body
    else
      match SelectCatch(h, parts.catches, false, body.r.error, body.w)
      case Selected(name, forms) =>
        var out := CatchBody(h, q, fuel, name, forms, body.r.error, env, body.w);
        if out.NoFuel? then NoFuel
        else Done(out.r, Undo(out.w, env, [(name, h.caught(body.r.error, body.w).1.Get(env, name))]))
      case _ => body
  }

  /**
   The name a catch clause binds is, when its body has ended by value or error, as it was when
   the clause was entered; every other name is as the clause's body left it.
   */
  lemma CatchRestores(h: Host, q: Answers, fuel: nat, parts: TryParts, env: EnvId, w: World, other: string)
    requires var body := BodyOf(h, q, fuel, parts, env, w);
             body.Done? && body.r.Err? && SelectCatch(h, parts.catches, false, body.r.error, body.w).Selected?
    requires BeforeFinally(h, q, fuel, parts, env, w).Done?
    ensures var body := BodyOf(h, q, fuel, parts, env, w);
            var sel := SelectCatch(h, parts.catches, false, body.r.error, body.w);
            var out := CatchBody(h, q, fuel, sel.name, sel.body, body.r.error, env, body.w);
            var before := BeforeFinally(h, q, fuel, parts, env, w);
            && out.Done? && before.r == out.r
            && before.w.Get(env, sel.name) == h.caught(body.r.error, body.w).1.Get(env, sel.name)
            && (other != sel.name ==> before.w.Get(env, other) == out.w.Get(env, other))
            && EvalTry(h, q, fuel, parts, env, w) == EvalFinally(h, q, fuel, out.r, parts.finals, env, before.w)
  {
    hide EvalForms, EvalFinally, SelectCatch;
    var body := BodyOf(h, q, fuel, parts, env, w);
    var sel := SelectCatch(h, parts.catches, false, body.r.error, body.w);
    var out := CatchBody(h, q, fuel, sel.name, sel.body, body.r.error, env, body.w);
    var saved := [(sel.name, h.caught(body.r.error, body.w).1.Get(env, sel.name))];
    UndoneEnv(out.w, env, saved);
    RestoreIsEarliest(out.w.EnvAt(env), saved, sel.name);
    RestoreIsEarliest(out.w.EnvAt(env), saved, other);
    assert saved[1..] == [];
  }

  // ----- the machine -----

  /** The body of the `try`, about to run above its own frame. */
  function TryStart(parts: TryParts, env: EnvId, k: Stack, w: World): Config {
    Config(Run(Forms(parts.body, 0, Nil, env)), Push(TryK(parts.catches, parts.finals, env), k), w)
  }

  /** After `n` steps, all of them above `k`, the machine is about to run the finally forms. */
  ghost predicate FinallyAt(h: Host, q: Answers, parts: TryParts, env: EnvId, k: Stack, w: World, n: nat, o: Outcome, w1: World) {
    Reaches(Stepper(h, q), TryStart(parts, env, k, w), k, n, Config(Run(Finally(o, parts.finals, env)), k, w1))
  }

  lemma FormsReturn(h: Host, q: Answers, fuel: nat, forms: seq<Form>, env: EnvId, f: Frame, k: Stack, w: World) returns (n: nat)
    requires EvalForms(h, q, fuel, forms, Nil, env, w).Done?
    ensures var out := EvalForms(h, q, fuel, forms, Nil, env, w);
            var c := Config(Run(Forms(forms, 0, Nil, env)), Push(f, k), w);
            var back := Apply(Resume(h, f, AsOutcome(out.r), out.w), k);
            Reaches(Stepper(h, q), c, k, n + 1, back) && Descends(Stepper(h, q), c, k, n + 1, back)
  {
    hide EvalForms, Step, Resume, Returns, Stays, Reaches, Descends;
    FormsAgree(h, q, fuel, forms, 0, Nil, env, Push(f, k), w);
    assert forms[0..] == forms;
    var out := EvalForms(h, q, fuel, forms, Nil, env, w);
    var c := Config(Run(Forms(forms, 0, Nil, env)), Push(f, k), w);
    assert EndV(out) == Stop(AsOutcome(out.r), out.w);
    n :| Returns(Stepper(h, q), c, Push(f, k), n, AsOutcome(out.r), out.w);
    ReachesThrough(Stepper(h, q), c, f, k, n, AsOutcome(out.r), out.w);
    ReturnsDescends(Stepper(h, q), c, f, k, n, AsOutcome(out.r), out.w);
  }

  /** How the machine leaves the part of a `try` before its finally forms. */
  lemma TryLeaves(h: Host, q: Answers, fuel: nat, parts: TryParts, env: EnvId, k: Stack, w: World) returns (n: nat)
    requires BeforeFinally(h, q, fuel, parts, env, w).Done?
    ensures var before := BeforeFinally(h, q, fuel, parts, env, w);
            var d := if SkipsFinally(h, q, fuel, parts, env, w) then Config(Ret(Thrown(BAD_SELECTOR)), k, before.w)
                     else Config(Run(Finally(AsOutcome(before.r), parts.finals, env)), k, before.w);
            Reaches(Stepper(h, q), TryStart(parts, env, k, w), k, n, d) && Descends(Stepper(h, q), TryStart(parts, env, k, w), k, n, d)
  {
    hide EvalForms, Step, Returns, Stays, Reaches, Descends, SelectCatch, Stepper;
    var body := BodyOf(h, q, fuel, parts, env, w);
    var f := TryK(parts.catches, parts.finals, env);
    var m := FormsReturn(h, q, fuel, parts.body, env, f, k, w);
    n := m + 1;
    if body.r.Err? {
      OnlySelectorsFail(h, parts.catches, body.r.error, body.w);
      var sel := SelectCatch(h, parts.catches, false, body.r.error, body.w);
      if sel.Selected? {
        var (v, w1) := h.caught(body.r.error, body.w);
        var g := CatchK(sel.name, w1.Get(env, sel.name), parts.finals, env);
        var w2 := w1.Put(env, w1.EnvAt(env)[sel.name := v]);
        var c := Config(Run(Forms(sel.body, 0, Nil, env)), Push(g, k), w2);
        assert Apply(Resume(h, f, AsOutcome(body.r), body.w), k) == c;
        var j := FormsReturn(h, q, fuel, sel.body, env, g, k, w2);
        var out := EvalForms(h, q, fuel, sel.body, Nil, env, w2);
        var d := Apply(Resume(h, g, AsOutcome(out.r), out.w), k);
        ReachesAppend(Stepper(h, q), TryStart(parts, env, k, w), k, n, c, j + 1, d);
        DescendsAppend(Stepper(h, q), TryStart(parts, env, k, w), k, n, c, j + 1, d);
        n := n + (j + 1);
      }
    }
  }

  /** Two runs to `k`: one that first comes down to `k` at `d`, and one still inside at `e` above or at `k`. */
  lemma NotBefore(next: Next, c: Config, k: Stack, n: nat, d: Config, m: nat, e: Config)
    requires Descends(next, c, k, n, d) && Reaches(next, c, k, m, e) && e.k == k
    ensures n <= m && (m == n ==> e == d) && (m > n ==> Inside(d, k))
  {
    ReachesIterates(next, c, k, m, e, if n <= m then n else 0);
  }

  /** Once begun, the finally forms come down to `k` with a call of it. */
  lemma FinallyDescends(h: Host, q: Answers, fuel: nat, o: Outcome, finals: seq<Form>, env: EnvId, k: Stack, w: World)
    returns (n: nat, d: Config)
    requires fuel > 0 && EvalForms(h, q, fuel - 1, finals, Nil, env, w).Done?
    ensures n > 0 && d.ctl.Ret? && d.k == k
    ensures Descends(Stepper(h, q), Stepper(h, q)(Config(Run(Finally(o, finals, env)), k, w)), k, n, d)
  {
    hide EvalForms, Returns, Stays, Reaches, Descends;
    var c := Config(Run(Finally(o, finals, env)), k, w);
    var c1 := Config(Run(Forms(finals, 0, Nil, env)), Push(FinallyK(o), k), w);
    assert Stepper(h, q)(c) == c1;
    var m := FormsReturn(h, q, fuel - 1, finals, env, FinallyK(o), k, w);
    var out := EvalForms(h, q, fuel - 1, finals, Nil, env, w);
    d := Apply(Resume(h, FinallyK(o), AsOutcome(out.r), out.w), k);
    n := m + 1;
  }

  /** The finally forms begin in one way only: whenever the machine is about to run them, it is as `BeforeFinally` says. */
  lemma FinallyOnce(h: Host, q: Answers, fuel: nat, parts: TryParts, env: EnvId, k: Stack, w: World, n: nat, o: Outcome, w1: World)
    requires EvalTry(h, q, fuel, parts, env, w).Done? && FinallyAt(h, q, parts, env, k, w, n, o, w1)
    ensures !SkipsFinally(h, q, fuel, parts, env, w)
    ensures Done(BeforeFinally(h, q, fuel, parts, env, w).r, w1) == BeforeFinally(h, q, fuel, parts, env, w)
    ensures o == AsOutcome(BeforeFinally(h, q, fuel, parts, env, w).r)
  {
    TryParted(h, q, fuel, parts, env, w);
    hide EvalForms, EvalTry, Reaches, Descends, Step, SelectCatch, BeforeFinally;
    var before := BeforeFinally(h, q, fuel, parts, env, w);
    var c := TryStart(parts, env, k, w);
    var e := Config(Run(Finally(o, parts.finals, env)), k, w1);
    var m := TryLeaves(h, q, fuel, parts, env, k, w);
    if SkipsFinally(h, q, fuel, parts, env, w) {
      NotBefore(Stepper(h, q), c, k, m, Config(Ret(Thrown(BAD_SELECTOR)), k, before.w), n, e);
    } else {
      var d := Config(Run(Finally(AsOutcome(before.r), parts.finals, env)), k, before.w);
      NotBefore(Stepper(h, q), c, k, m, d, n, e);
      FinallyNotAgain(h, q, fuel, before.r, parts, env, k, w, before.w, m, n, e);
    }
  }

  lemma FinallyNotAgain(h: Host, q: Answers, fuel: nat, r: Res<Value>, parts: TryParts, env: EnvId, k: Stack, w: World, w1: World,
                        m: nat, n: nat, e: Config)
    requires fuel > 0 && EvalForms(h, q, fuel - 1, parts.finals, Nil, env, w1).Done?
    requires Iterate(Stepper(h, q), TryStart(parts, env, k, w), m) == Config(Run(Finally(AsOutcome(r), parts.finals, env)), k, w1)
    requires Reaches(Stepper(h, q), TryStart(parts, env, k, w), k, n, e) && e.k == k && e.ctl.Run?
    ensures n <= m
  {
    hide EvalForms, Reaches, Step;
    var next, c := Stepper(h, q), TryStart(parts, env, k, w);
    var d := Config(Run(Finally(AsOutcome(r), parts.finals, env)), k, w1);
    var j, last := FinallyDescends(h, q, fuel, AsOutcome(r), parts.finals, env, k, w1);
    hide Stepper;
    IterateSum(next, c, m, 1);
    assert Iterate(next, d, 1) == Iterate(next, next(d), 0);
    ReachesIterates(next, c, k, n, e, n);
    if n > m { IterateSum(next, c, m + 1, n - m - 1); }
    IterateSum(next, c, m + 1, j);
    if n > m + 1 + j { ReachesIterates(next, c, k, n, e, m + 1 + j); }
  }

  lemma TryParted(h: Host, q: Answers, fuel: nat, parts: TryParts, env: EnvId, w: World)
    requires EvalTry(h, q, fuel, parts, env, w).Done?
    ensures var before := BeforeFinally(h, q, fuel, parts, env, w);
            && before.Done?
            && (!SkipsFinally(h, q, fuel, parts, env, w) ==>
                  && EvalTry(h, q, fuel, parts, env, w) == EvalFinally(h, q, fuel, before.r, parts.finals, env, before.w)
                  && fuel > 0 && EvalForms(h, q, fuel - 1, parts.finals, Nil, env, before.w).Done?)
            && (SkipsFinally(h, q, fuel, parts, env, w) ==>
                  EvalTry(h, q, fuel, parts, env, w) == Done(Err(BAD_SELECTOR), BodyOf(h, q, fuel, parts, env, w).w))
  {
    hide EvalForms, SelectCatch;
    var body := BodyOf(h, q, fuel, parts, env, w);
    if body.r.Err? { OnlySelectorsFail(h, parts.catches, body.r.error, body.w); }
  }

  /**
   The finally forms of a `try` that ends run exactly unless the body failed and a scanned
   catch clause is malformed.  When they run, they start from the outcome and world of the body,
   or of the selected catch clause with its name put back; when they do not, the selector error
   is the result and the world is the body's.
   */
  lemma FinallyRunsIff(h: Host, q: Answers, fuel: nat, parts: TryParts, env: EnvId, k: Stack, w: World)
    requires EvalTry(h, q, fuel, parts, env, w).Done?
    ensures (exists n: nat, o, w1 :: FinallyAt(h, q, parts, env, k, w, n, o, w1)) <==> !SkipsFinally(h, q, fuel, parts, env, w)
    ensures var before := BeforeFinally(h, q, fuel, parts, env, w);
            && before.Done?
            && (forall n: nat, o, w1 :: FinallyAt(h, q, parts, env, k, w, n, o, w1) ==> o == AsOutcome(before.r) && w1 == before.w)
            && EvalTry(h, q, fuel, parts, env, w) ==
               if SkipsFinally(h, q, fuel, parts, env, w) then Done(Err(BAD_SELECTOR), BodyOf(h, q, fuel, parts, env, w).w)
               else EvalFinally(h, q, fuel, before.r, parts.finals, env, before.w)
  {
    TryParted(h, q, fuel, parts, env, w);
    hide EvalForms, EvalTry, EvalFinally, Reaches, Descends, Step, SelectCatch, BeforeFinally, SkipsFinally;
    var before := BeforeFinally(h, q, fuel, parts, env, w);
    forall n: nat, o, w1 | FinallyAt(h, q, parts, env, k, w, n, o, w1)
      ensures o == AsOutcome(before.r) && w1 == before.w && !SkipsFinally(h, q, fuel, parts, env, w)
    {
      FinallyOnce(h, q, fuel, parts, env, k, w, n, o, w1);
    }
    if !SkipsFinally(h, q, fuel, parts, env, w) {
      var n := TryLeaves(h, q, fuel, parts, env, k, w);
      assert FinallyAt(h, q, parts, env, k, w, n, AsOutcome(before.r), before.w);
    }
  }

  /** So finally is not run for `(try (if) (catch) (finally cleanup))`, whatever `cleanup` is. */
  lemma MalformedCatchSkipsFinally(h: Host, q: Answers, env: EnvId, k: Stack, w: World, cleanup: Form)
    requires forall w1 :: h.interrupt(w1) == (None, w1)
    ensures var forms := [ListForm([Sym("if")]), ListForm([Sym("catch")]), ListForm([Sym("finally"), cleanup])];
            var split := SplitTry(forms, TryParts([], [], []), false);
            && split == Ok(TryParts([ListForm([Sym("if")])], [[Sym("catch")]], [cleanup]))
            && EvalTry(h, q, 4, split.value, env, w) == Done(Err(BAD_SELECTOR), w)
            && !exists n: nat, o, w1 :: FinallyAt(h, q, split.value, env, k, w, n, o, w1)
  {
    var broken, clause, last := ListForm([Sym("if")]), ListForm([Sym("catch")]), ListForm([Sym("finally"), cleanup]);
    var parts := TryParts([broken], [[Sym("catch")]], [cleanup]);
    SplitsTry(broken, clause, last, cleanup);
    EmptyIfFails(h, q, 3, env, w);
    assert EvalForms(h, q, 4, [broken], Nil, env, w) == Done(Err("if expects 2 or 3 arguments"), w);
    assert ParseCatch([Sym("catch")]).Err?;
    assert SkipsFinally(h, q, 4, parts, env, w);
    assert EvalTry(h, q, 4, parts, env, w).Done?;
    hide SkipsFinally, EvalTry, SplitTry, FinallyAt, EvalForms;
    FinallyRunsIff(h, q, 4, parts, env, k, w);
  }

  lemma SplitsTry(broken: Form, clause: Form, last: Form, cleanup: Form)
    requires broken == ListForm([Sym("if")]) && clause == ListForm([Sym("catch")]) && last == ListForm([Sym("finally"), cleanup])
    ensures SplitTry([broken, clause, last], TryParts([], [], []), false) == Ok(TryParts([broken], [[Sym("catch")]], [cleanup]))
  {
    var none := TryParts([], [], []);
    var a, b, c := [broken, clause, last], [clause, last], [last];
    assert a[1..] == b && b[1..] == c && c[1..] == [];
    assert last.items[1..] == [cleanup];
    assert [] + [broken] == [broken] && [] + [clause.items] == [[Sym("catch")]] && [] + [cleanup] == [cleanup];
    assert HeadIs(clause, "catch") && HeadIs(last, "finally") && !HeadIs(last, "catch");
    assert !HeadIs(broken, "catch") && !HeadIs(broken, "finally");
    assert SplitTry(a, none, false) == SplitTry(b, TryParts([broken], [], []), false);
    assert SplitTry(b, TryParts([broken], [], []), false) == SplitTry(c, TryParts([broken], [[Sym("catch")]], []), true);
    assert SplitTry(c, TryParts([broken], [[Sym("catch")]], []), true) == SplitTry([], TryParts([broken], [[Sym("catch")]], [cleanup]), true);
  }
}
