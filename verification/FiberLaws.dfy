/**
 Laws of the direct evaluator's control forms, in terms of evaluating forms one after the other:
 which forms are evaluated, in which order, and whose value is the result.
 */
module FiberLaws {
  import opened Optional
  import opened Results
  import opened FiberSyntax
  import opened FiberDirect

  /** The two values that count as false. */
  predicate Falsy(v: Value) { v == Nil || v == Bool(false) }

  // ----- order -----

  /** Evaluating a list of forms is evaluating its front, and then the others in the world that leaves. */
  lemma {:induction false} ValuesInOrder(h: Host, q: Answers, fuel: nat, a: seq<Form>, b: seq<Form>, env: EnvId, w: World)
    requires !EvalValues(h, q, fuel, a + b, env, w).IsFailure()
    ensures fuel > |a| && !EvalValues(h, q, fuel, a, env, w).IsFailure()
    ensures var (vs, w1) := EvalValues(h, q, fuel, a, env, w).Extract();
            && |vs| == |a|
            && !EvalValues(h, q, fuel - |a|, b, env, w1).IsFailure()
            && var (us, w2) := EvalValues(h, q, fuel - |a|, b, env, w1).Extract();
               EvalValues(h, q, fuel, a + b, env, w) == Done(Ok(vs + us), w2)
    decreases |a|
  {
    if a == [] {
      assert a + b == b;
      assert EvalValues(h, q, fuel, a, env, w) == Done(Ok([]), w);
      var (us, w2) := EvalValues(h, q, fuel, b, env, w).Extract();
      assert [] + us == us;
    } else {
      hide EvalOne;
      assert (a + b)[0] == a[0] && (a + b)[1..] == a[1..] + b;
      var (v, w1) := EvalOne(h, q, fuel - 1, a[0], env, w).Extract();
      ValuesInOrder(h, q, fuel - 1, a[1..], b, env, w1);
      var (vs, w2) := EvalValues(h, q, fuel - 1, a[1..], env, w1).Extract();
      var (us, w3) := EvalValues(h, q, fuel - |a|, b, env, w2).Extract();
      assert [v] + (vs + us) == [v] + vs + us;
    }
  }

  /** The values of the first `k` forms, evaluated in order, and the world they leave. */
  ghost predicate First(h: Host, q: Answers, fuel: nat, forms: seq<Form>, k: nat, env: EnvId, w: World, vs: seq<Value>, w1: World) {
    k <= |forms| && |vs| == k && EvalValues(h, q, fuel, forms[..k], env, w) == Done(Ok(vs), w1)
  }

  lemma FirstMore(h: Host, q: Answers, fuel: nat, forms: seq<Form>, k: nat, env: EnvId, w: World, vs: seq<Value>, w1: World)
    requires fuel > 0 && forms != [] && !EvalOne(h, q, fuel - 1, forms[0], env, w).IsFailure()
    requires First(h, q, fuel - 1, forms[1..], k, env, EvalOne(h, q, fuel - 1, forms[0], env, w).w, vs, w1)
    ensures First(h, q, fuel, forms, k + 1, env, w, [EvalOne(h, q, fuel - 1, forms[0], env, w).r.value] + vs, w1)
  {
    hide EvalOne;
    assert forms[..k + 1][0] == forms[0] && forms[..k + 1][1..] == forms[1..][..k];
  }

  lemma FirstNone(h: Host, q: Answers, fuel: nat, forms: seq<Form>, env: EnvId, w: World)
    requires fuel > 0
    ensures First(h, q, fuel, forms, 0, env, w, [], w)
  {
    assert forms[..0] == [];
  }

  // ----- sequences of forms -----

  /** The last value, or `last` when there is none. */
  function LastOr(vs: seq<Value>, last: Value): Value { if vs == [] then last else vs[|vs| - 1] }

  /** A body evaluates its forms in order up to the first `recur`, and its value is the last one evaluated. */
  lemma {:induction false} FormsMean(h: Host, q: Answers, fuel: nat, forms: seq<Form>, last: Value, env: EnvId, w: World)
    returns (k: nat, vs: seq<Value>)
    requires !EvalForms(h, q, fuel, forms, last, env, w).IsFailure()
    ensures var (v, w1) := EvalForms(h, q, fuel, forms, last, env, w).Extract();
            First(h, q, fuel, forms, k, env, w, vs, w1) && v == LastOr(vs, last) && (k < |forms| ==> v.Recur?)
    ensures (k > 0 ==> !last.Recur?) && forall i :: 0 <= i < k - 1 ==> !vs[i].Recur?
    decreases |forms|
  {
    if forms == [] || last.Recur? {
      k, vs := 0, [];
      FirstNone(h, q, fuel, forms, env, w);
    } else {
      hide EvalOne, First;
      var (v, w1) := EvalOne(h, q, fuel - 1, forms[0], env, w).Extract();
      var j, us := FormsMean(h, q, fuel - 1, forms[1..], v, env, w1);
      FirstMore(h, q, fuel, forms, j, env, w, us, EvalForms(h, q, fuel, forms, last, env, w).w);
      assert |us| == j by { assert First(h, q, fuel - 1, forms[1..], j, env, w1, us, EvalForms(h, q, fuel, forms, last, env, w).w); }
      k, vs := j + 1, [v] + us;
    }
  }

  /** `set!` on a field evaluates the receiver before the value: when it fails, nothing else happens. */
  lemma ReceiverFirst(h: Host, q: Answers, fuel: nat, v: seq<Form>, env: EnvId, w: World)
    requires |v| == 3 && v[0].Sym? && v[1].ListForm? && PlaceOf(v[1]).FieldPlace?
    requires EvalOne(h, q, fuel, PlaceOf(v[1]).receiver, env, w).IsFailure()
    ensures EvalSet(h, q, fuel, v, env, w) == EvalOne(h, q, fuel, PlaceOf(v[1]).receiver, env, w)
  {
    hide EvalOne;
  }

  /** A computed head is evaluated before the arguments, and the arguments before the call. */
  lemma HeadFirst(h: Host, q: Answers, fuel: nat, v: seq<Form>, env: EnvId, w: World)
    requires v != [] && !v[0].Sym?
    ensures var head := EvalOne(h, q, fuel, v[0], env, w);
            && (head.IsFailure() ==> EvalApplication(h, q, fuel, v, env, w) == head)
            && (!head.IsFailure() && EvalValues(h, q, fuel, v[1..], env, head.w).IsFailure() ==>
                  EvalApplication(h, q, fuel, v, env, w) == EvalValues(h, q, fuel, v[1..], env, head.w).PropagateFailure<Value>())
  {
    hide EvalOne, EvalValues;
  }

  /** The body of a `let` or `loop` is its forms after the bindings: one form as it is, several in order like `do`. */
  lemma ScopeBodyRuns(h: Host, q: Answers, fuel: nat, v: seq<Form>, env: EnvId, w: World)
    requires |v| >= 3 && fuel > 0 && h.interrupt(w).0.None?
    ensures |v| == 3 ==> EvalOne(h, q, fuel, ScopeBody(v), env, w) == EvalOne(h, q, fuel, v[2], env, w)
    ensures |v| > 3 ==> EvalOne(h, q, fuel, ScopeBody(v), env, w) == EvalForms(h, q, fuel - 1, v[2..], Nil, env, h.interrupt(w).1)
  {
    if |v| > 3 {
      var forms := [Sym("do")] + v[2..];
      assert forms[1..] == v[2..] && forms[0] == Sym("do") && |forms| >= 3;
      assert EvalOne(h, q, fuel, ScopeBody(v), env, w) == EvalList(h, q, fuel - 1, forms, env, h.interrupt(w).1);
      hide EvalForms;
    }
  }

  // ----- branches -----

  /** `if` takes its second branch on nil and false, and its first on anything else. */
  lemma IfMeans(h: Host, q: Answers, fuel: nat, v: seq<Form>, env: EnvId, w: World)
    requires (|v| == 3 || |v| == 4) && !EvalOne(h, q, fuel, v[1], env, w).IsFailure()
    ensures var (test, w1) := EvalOne(h, q, fuel, v[1], env, w).Extract();
            EvalIf(h, q, fuel, v, env, w) ==
            if test != Nil && test != Bool(false) then EvalOne(h, q, fuel, v[2], env, w1)
            else if |v| == 4 then EvalOne(h, q, fuel, v[3], env, w1)
            else Done(Ok(Nil), w1)
  {
    hide EvalOne;
  }

  /** `and` evaluates its forms in order up to the first nil or false, and its value is the last one evaluated. */
  lemma {:induction false} AndMeans(h: Host, q: Answers, fuel: nat, forms: seq<Form>, last: Value, env: EnvId, w: World)
    returns (k: nat, vs: seq<Value>)
    requires !EvalAnd(h, q, fuel, forms, last, env, w).IsFailure()
    ensures var (v, w1) := EvalAnd(h, q, fuel, forms, last, env, w).Extract();
            First(h, q, fuel, forms, k, env, w, vs, w1) && v == LastOr(vs, last) && (k < |forms| ==> Falsy(v))
    ensures (k > 0 ==> !Falsy(last)) && forall i :: 0 <= i < k - 1 ==> !Falsy(vs[i])
    decreases |forms|
  {
    if forms == [] || !last.Truthy() {
      k, vs := 0, [];
      FirstNone(h, q, fuel, forms, env, w);
    } else {
      hide EvalOne;
      var (v, w1) := EvalOne(h, q, fuel - 1, forms[0], env, w).Extract();
      var j, us := AndMeans(h, q, fuel - 1, forms[1..], v, env, w1);
      FirstMore(h, q, fuel, forms, j, env, w, us, EvalAnd(h, q, fuel, forms, last, env, w).w);
      hide First;
      k, vs := j + 1, [v] + us;
    }
  }

  /** `or` evaluates its forms in order up to the first that is neither, and its value is the last one evaluated. */
  lemma {:induction false} OrMeans(h: Host, q: Answers, fuel: nat, forms: seq<Form>, last: Value, env: EnvId, w: World)
    returns (k: nat, vs: seq<Value>)
    requires !EvalOr(h, q, fuel, forms, last, env, w).IsFailure()
    ensures var (v, w1) := EvalOr(h, q, fuel, forms, last, env, w).Extract();
            First(h, q, fuel, forms, k, env, w, vs, w1) && v == LastOr(vs, last) && (k < |forms| ==> k > 0 && !Falsy(v))
    ensures forall i :: 0 <= i < k - 1 ==> Falsy(vs[i])
    decreases |forms|
  {
    if forms == [] {
      k, vs := 0, [];
      FirstNone(h, q, fuel, forms, env, w);
    } else {
      hide EvalOne;
      var (v, w1) := EvalOne(h, q, fuel - 1, forms[0], env, w).Extract();
      if v.Truthy() {
        assert fuel > 1;
        FirstNone(h, q, fuel - 1, forms[1..], env, w1);
        FirstMore(h, q, fuel, forms, 0, env, w, [], w1);
        k, vs := 1, [v] + [];
      } else {
        var j, us := OrMeans(h, q, fuel - 1, forms[1..], v, env, w1);
        FirstMore(h, q, fuel, forms, j, env, w, us, EvalOr(h, q, fuel, forms, last, env, w).w);
        k, vs := j + 1, [v] + us;
      }
    }
  }

  function Tests(clauses: seq<(Form, Form)>): seq<Form> {
    seq(|clauses|, i requires 0 <= i < |clauses| => clauses[i].0)
  }

  /** `cond` evaluates its tests in order up to the first that is neither, and then that clause's expression; nil without one. */
  lemma {:induction false} CondMeans(h: Host, q: Answers, fuel: nat, clauses: seq<(Form, Form)>, env: EnvId, w: World)
    returns (k: nat, vs: seq<Value>, w1: World)
    requires !EvalCond(h, q, fuel, clauses, env, w).IsFailure()
    ensures First(h, q, fuel, Tests(clauses), k, env, w, vs, w1) && (forall i :: 0 <= i < k - 1 ==> Falsy(vs[i]))
    ensures if k > 0 && !Falsy(vs[k - 1])
            then k <= fuel && EvalCond(h, q, fuel, clauses, env, w) == EvalOne(h, q, fuel - k, clauses[k - 1].1, env, w1)
            else k == |clauses| && EvalCond(h, q, fuel, clauses, env, w) == Done(Ok(Nil), w1)
    decreases |clauses|
  {
    if clauses == [] {
      k, vs, w1 := 0, [], w;
      FirstNone(h, q, fuel, Tests(clauses), env, w);
    } else {
      var (v, w2) := EvalOne(h, q, fuel - 1, clauses[0].0, env, w).Extract();
      assert fuel > 1;
      hide EvalOne;
      assert Tests(clauses)[0] == clauses[0].0 && Tests(clauses)[1..] == Tests(clauses[1..]);
      if v.Truthy() {
        FirstNone(h, q, fuel - 1, Tests(clauses[1..]), env, w2);
        FirstMore(h, q, fuel, Tests(clauses), 0, env, w, [], w2);
        k, vs, w1 := 1, [v] + [], w2;
      } else {
        var j, us;
        j, us, w1 := CondMeans(h, q, fuel - 1, clauses[1..], env, w2);
        FirstMore(h, q, fuel, Tests(clauses), j, env, w, us, w1);
        k, vs := j + 1, [v] + us;
      }
    }
  }

  // ----- shapes -----

  /** The entries of a map literal are evaluated key before value, entry by entry. */
  lemma {:induction false} FlatAt(entries: seq<(Form, Form)>, i: nat)
    requires i < |entries|
    ensures |Flat(entries)| == 2 * |entries| && Flat(entries)[2 * i] == entries[i].0 && Flat(entries)[2 * i + 1] == entries[i].1
    decreases |entries|
  {
    if |entries| > 1 { FlatAt(entries[1..], if i == 0 then 0 else i - 1); }
  }

  predicate IsClause(f: Form) { HeadIs(f, "catch") || HeadIs(f, "finally") }

  function CatchesOf(v: seq<Form>): seq<seq<Form>> {
    if v == [] then []
    else (if HeadIs(v[0], "catch") then [v[0].items] else []) + CatchesOf(v[1..])
  }

  function FinalsOf(v: seq<Form>): seq<Form> {
    if v == [] then []
    else (if HeadIs(v[0], "finally") then v[0].items[1..] else []) + FinalsOf(v[1..])
  }

  lemma {:induction false} ClausesSplit(v: seq<Form>, parts: TryParts)
    ensures SplitTry(v, parts, true) ==
            if forall f :: f in v ==> IsClause(f)
            then Ok(TryParts(parts.body, parts.catches + CatchesOf(v), parts.finals + FinalsOf(v)))
            else Err("try clauses must follow body")
    decreases |v|
  {
    if v == [] {
      assert parts.catches + [] == parts.catches && parts.finals + [] == parts.finals;
    } else if IsClause(v[0]) {
      assert v == [v[0]] + v[1..];
      if HeadIs(v[0], "catch") {
        ClausesSplit(v[1..], parts.(catches := parts.catches + [v[0].items]));
        assert parts.catches + [v[0].items] + CatchesOf(v[1..]) == parts.catches + CatchesOf(v);
        assert parts.finals + FinalsOf(v[1..]) == parts.finals + FinalsOf(v);
      } else {
        ClausesSplit(v[1..], parts.(finals := parts.finals + v[0].items[1..]));
        assert parts.finals + v[0].items[1..] + FinalsOf(v[1..]) == parts.finals + FinalsOf(v);
        assert parts.catches + CatchesOf(v[1..]) == parts.catches + CatchesOf(v);
      }
    } else {
      assert v[0] in v;
    }
  }

  /**
   The forms of a `try`: a body of forms that are no clauses, then clauses only.  The catch clauses
   and the forms of all finally clauses are kept in order.
   */
  lemma {:induction false} TrySplits(body: seq<Form>, clauses: seq<Form>, before: seq<Form>)
    requires (forall f :: f in body ==> !IsClause(f)) && (clauses != [] ==> IsClause(clauses[0]))
    ensures SplitTry(body + clauses, TryParts(before, [], []), false) ==
            if forall f :: f in clauses ==> IsClause(f)
            then Ok(TryParts(before + body, CatchesOf(clauses), FinalsOf(clauses)))
            else Err("try clauses must follow body")
    decreases |body|
  {
    if body == [] {
      assert body + clauses == clauses && before + body == before;
      if clauses != [] {
        ClausesSplit(clauses, TryParts(before, [], []));
        assert [] + CatchesOf(clauses) == CatchesOf(clauses) && [] + FinalsOf(clauses) == FinalsOf(clauses);
      }
    } else {
      assert body[0] in body;
      assert (body + clauses)[0] == body[0] && (body + clauses)[1..] == body[1..] + clauses;
      TrySplits(body[1..], clauses, before + [body[0]]);
      assert before + [body[0]] + body[1..] == before + body;
    }
  }

  /** A clause that is well formed and takes the error. */
  predicate Matches(h: Host, clause: seq<Form>, error: string, w: World) {
    ParseCatch(clause).Ok? &&
      var c := ParseCatch(clause).value; c.selector.None? || h.catches(error, c.selector.value, w)
  }

  /** The first clause that takes the error is selected, provided none before it is malformed. */
  lemma {:induction false} CatchChosen(h: Host, catches: seq<seq<Form>>, error: string, w: World) returns (i: nat)
    requires SelectCatch(h, catches, false, error, w).Selected?
    ensures i < |catches| && Matches(h, catches[i], error, w)
    ensures forall j :: 0 <= j < i ==> ParseCatch(catches[j]).Ok? && !Matches(h, catches[j], error, w)
    ensures var c, s := ParseCatch(catches[i]).value, SelectCatch(h, catches, false, error, w);
            c.binding < c.body < |catches[i]| && catches[i][c.binding] == Sym(s.name) && s.body == catches[i][c.body..]
    decreases |catches|
  {
    hide JoinSelectors;
    if Matches(h, catches[0], error, w) {
      i := 0;
    } else {
      var k := CatchChosen(h, catches[1..], error, w);
      i := k + 1;
      forall j | 0 < j < i ensures catches[j] == catches[1..][j - 1] { }
    }
  }

  /** `(catch e ...)` takes every error: the name comes first, then the body. */
  lemma CatchAll(name: string, form: Form, body: seq<Form>)
    requires name != "Exception" && name != "Throwable" && (body == [] || !form.Sym?)
    ensures ParseCatch([Sym("catch"), Sym(name), form] + body) == Ok(Clause(None, 1, 2))
  {
    hide JoinSelectors;
    var p := [Sym("catch"), Sym(name), form] + body;
    assert p[1] == Sym(name) && p[2] == form;
  }

  /** `(catch :ns/code e ...)` and `(catch Exception e ...)` name what they take: the name and the body follow. */
  lemma CatchCode(selector: Form, name: string, form: Form, body: seq<Form>)
    requires QualifiedKeyword(selector) || selector == Sym("Exception") || selector == Sym("Throwable")
    ensures var text := if selector.Kw? then ":" + selector.name else selector.name;
            ParseCatch([Sym("catch"), selector, Sym(name), form] + body) == Ok(Clause(Some(text), 2, 3))
  {
    hide JoinSelectors;
    var p := [Sym("catch"), selector, Sym(name), form] + body;
    assert p[1] == selector && p[2] == Sym(name) && |p| >= 4;
  }
}
