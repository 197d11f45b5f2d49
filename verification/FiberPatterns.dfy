/**
 What a name holds once a pattern is bound, said position by position and without the evaluator's
 running environment: patterns in `let`, `loop` and `recur`, and the parameters of calls.
 */
module FiberPatterns {
  import opened Optional
  import opened Results
  import opened FiberSyntax
  import opened FiberDirect
  import opened FiberScope

  // ----- vector patterns, position by position -----

  /** `&` or `:as` that introduces the pattern after it. */
  predicate Marks(ps: seq<Form>, i: nat)
    requires i < |ps|
  {
    (ps[i] == Sym("&") || ps[i] == Kw("as")) && !(i > 0 && Marks(ps, i - 1))
  }

  predicate Marked(ps: seq<Form>, i: nat)
    requires i <= |ps|
  {
    i > 0 && Marks(ps, i - 1)
  }

  /** How many patterns before position `i` take an item each. */
  function Place(ps: seq<Form>, i: nat): nat
    requires i <= |ps|
  {
    if i == 0 then 0 else Place(ps, i - 1) + if Marks(ps, i - 1) || Marked(ps, i - 1) then 0 else 1
  }

  /** What the pattern at position `i` is matched with: an item, the items left, or all of the value. */
  function ItemAt(ps: seq<Form>, i: nat, values: seq<Value>, original: Value): Value
    requires i < |ps|
  {
    if !Marked(ps, i) then if Place(ps, i) < |values| then values[Place(ps, i)] else Nil
    else if ps[i - 1] == Kw("as") then original
    else Vector(if Place(ps, i) <= |values| then values[Place(ps, i)..] else [])
  }

  function ItemsOf(h: Host, v: Value): seq<Value> {
    if v == Nil || h.iterate(v).Err? then [] else h.iterate(v).value
  }

  /** Matched with `v`, the pattern gives the name `n` the value `x`. */
  ghost predicate Gives(h: Host, p: Form, v: Value, n: string, x: Value) {
    match p
    case Sym(m) => m != "_" && n == m && x == v
    case VectorForm(ps) =>
      exists i :: 0 <= i < |ps| && !Marks(ps, i) && Gives(h, ps[i], ItemAt(ps, i, ItemsOf(h, v), v), n, x)
    case _ => false
  }

  lemma {:induction false} GivesHolds(h: Host, p: Form, v: Value, env: Env, names: seq<string>, n: string, x: Value)
    requires var b := BindPattern(h, p, v, env, names); b.error.None?
    requires Gives(h, p, v, n, x)
    ensures var b := BindPattern(h, p, v, env, names); Lookup(b.env, n) == Some(x) && n in b.names && n !in names
    decreases p, 1
  {
    if p.VectorForm? {
      var ps, values := p.items, ItemsOf(h, v);
      var i :| 0 <= i < |ps| && !Marks(ps, i) && Gives(h, ps[i], ItemAt(ps, i, values, v), n, x);
      VectorGivesHolds(h, p, 0, values, v, env, names, i, n, x);
    }
  }

  /** The position of the next pattern that is matched with something. */
  function At(ps: seq<Form>, index: nat): nat
    requires index < |ps|
  {
    if Marks(ps, index) then index + 1 else index
  }

  lemma AfterMark(ps: seq<Form>, index: nat)
    requires index + 1 < |ps| && Marks(ps, index)
    ensures !Marks(ps, index + 1) && Place(ps, index + 2) == Place(ps, index + 1) == Place(ps, index)
  {
  }

  /** Binding from `index` is binding the pattern at the next matched position, then binding from behind it. */
  ghost predicate Steps(h: Host, p: Form, index: nat, values: seq<Value>, original: Value, env: Env, names: seq<string>)
    requires p.VectorForm? && index < |p.items|
  {
    var at := At(p.items, index);
    && at < |p.items| && !Marks(p.items, at) && !Marked(p.items, at + 1)
    && var b := BindPattern(h, p.items[at], ItemAt(p.items, at, values, original), env, names);
       && b.error.None?
       && BindVector(h, p, index, values, Place(p.items, index), original, env, names)
          == BindVector(h, p, at + 1, values, Place(p.items, at + 1), original, b.env, b.names)
  }

  lemma VectorSteps(h: Host, p: Form, index: nat, values: seq<Value>, original: Value, env: Env, names: seq<string>)
    requires p.VectorForm? && index < |p.items| && !Marked(p.items, index)
    requires BindVector(h, p, index, values, Place(p.items, index), original, env, names).error.None?
    ensures Steps(h, p, index, values, original, env, names)
  {
    if Marks(p.items, index) {
      MarkSteps(h, p, index, values, original, env, names);
    } else {
      assert Place(p.items, index + 1) == Place(p.items, index) + 1;
      hide BindPattern, Place, Marks;
    }
  }

  lemma MarkSteps(h: Host, p: Form, index: nat, values: seq<Value>, original: Value, env: Env, names: seq<string>)
    requires p.VectorForm? && index < |p.items| && Marks(p.items, index)
    requires BindVector(h, p, index, values, Place(p.items, index), original, env, names).error.None?
    ensures Steps(h, p, index, values, original, env, names)
  {
    assert p.items[index] == Sym("&") || p.items[index] == Kw("as");
    assert index + 1 < |p.items|;
    AfterMark(p.items, index);
    hide BindPattern, Place, Marks;
  }

  /** Later patterns leave a bound name as it is. */
  lemma StaysBound(b: Bound, c: Bound, allowed: set<string>, n: string)
    requires n in b.names && BindsWithin(c, b.env, b.names, allowed)
    ensures n in c.names && Lookup(c.env, n) == Lookup(b.env, n)
  {
    assert n in Elements(b.names);
  }

  lemma NotBoundBefore(b: Bound, env: Env, names: seq<string>, allowed: set<string>, n: string)
    requires n !in b.names && BindsWithin(b, env, names, allowed)
    ensures n !in names
  {
    assert n in names ==> n in Elements(names);
  }

  lemma {:induction false} VectorGivesHolds(h: Host, p: Form, index: nat, values: seq<Value>, original: Value,
                                            env: Env, names: seq<string>, i: nat, n: string, x: Value)
    requires p.VectorForm? && index <= i < |p.items| && !Marked(p.items, index)
    requires !Marks(p.items, i) && Gives(h, p.items[i], ItemAt(p.items, i, values, original), n, x)
    requires BindVector(h, p, index, values, Place(p.items, index), original, env, names).error.None?
    ensures var b := BindVector(h, p, index, values, Place(p.items, index), original, env, names);
            Lookup(b.env, n) == Some(x) && n in b.names && n !in names
    decreases p, 0, |p.items| - index
  {
    VectorSteps(h, p, index, values, original, env, names);
    hide BindPattern, BindVector, Gives, ItemAt, Place, Names, NamesFrom, BindsWithin;
    var at := At(p.items, index);
    var v := ItemAt(p.items, at, values, original);
    var b := BindPattern(h, p.items[at], v, env, names);
    PatternBinds(h, p.items[at], v, env, names);
    VectorBinds(h, p, at + 1, values, Place(p.items, at + 1), original, b.env, b.names);
    var c := BindVector(h, p, at + 1, values, Place(p.items, at + 1), original, b.env, b.names);
    if i == at {
      GivesHolds(h, p.items[at], v, env, names, n, x);
      StaysBound(b, c, NamesFrom(p, at + 1), n);
    } else {
      VectorGivesHolds(h, p, at + 1, values, original, b.env, b.names, i, n, x);
      NotBoundBefore(b, env, names, Names(p.items[at]), n);
    }
  }

  /** Every name of a pattern that could be bound is given something. */
  lemma {:induction false} NamesGiven(h: Host, p: Form, v: Value, env: Env, names: seq<string>, n: string) returns (x: Value)
    requires BindPattern(h, p, v, env, names).error.None? && n in Names(p)
    ensures Gives(h, p, v, n, x)
    decreases p, 1
  {
    if p.Sym? {
      x := v;
    } else {
      var i;
      i, x := VectorNamesGiven(h, p, 0, ItemsOf(h, v), v, env, names, n);
    }
  }

  lemma {:induction false} VectorNamesGiven(h: Host, p: Form, index: nat, values: seq<Value>, original: Value,
                                            env: Env, names: seq<string>, n: string) returns (i: nat, x: Value)
    requires p.VectorForm? && index <= |p.items| && !Marked(p.items, index)
    requires BindVector(h, p, index, values, Place(p.items, index), original, env, names).error.None? && n in NamesFrom(p, index)
    ensures i < |p.items| && !Marks(p.items, i) && Gives(h, p.items[i], ItemAt(p.items, i, values, original), n, x)
    decreases p, 0, |p.items| - index
  {
    VectorSteps(h, p, index, values, original, env, names);
    var ps, at := p.items, At(p.items, index);
    assert n in Names(ps[at]) || n in NamesFrom(p, at + 1);
    hide BindPattern, BindVector, Gives, ItemAt, Place, Names, NamesFrom;
    var v := ItemAt(ps, at, values, original);
    if n in Names(ps[at]) {
      i := at;
      x := NamesGiven(h, ps[at], v, env, names, n);
    } else {
      var b := BindPattern(h, ps[at], v, env, names);
      i, x := VectorNamesGiven(h, p, at + 1, values, original, b.env, b.names, n);
    }
  }

  /** A pattern that was bound gives each of its names one value, which it then holds, and changes no other name. */
  lemma PatternHolds(h: Host, p: Form, v: Value, env: Env, names: seq<string>, n: string)
    requires BindPattern(h, p, v, env, names).error.None?
    ensures var now := Lookup(BindPattern(h, p, v, env, names).env, n);
            && (forall x :: Gives(h, p, v, n, x) ==> now == Some(x))
            && (n in Names(p) <==> exists x :: Gives(h, p, v, n, x))
            && (n !in Names(p) ==> now == Lookup(env, n))
  {
    hide BindPattern, Gives, Names;
    var b := BindPattern(h, p, v, env, names);
    PatternBinds(h, p, v, env, names);
    assert n in Elements(b.names) <==> n in b.names;
    assert n in Elements(names) <==> n in names;
    forall x | Gives(h, p, v, n, x) ensures Lookup(b.env, n) == Some(x) && n in Names(p) {
      GivesHolds(h, p, v, env, names, n, x);
    }
    if n in Names(p) {
      var x := NamesGiven(h, p, v, env, names, n);
      assert Gives(h, p, v, n, x);
    }
  }

  /** Without markers before it, a name at position `i` of a vector gets item `i`, or nil past the end. */
  lemma {:induction false} PlainPlace(ps: seq<Form>, i: nat)
    requires i < |ps| && forall j :: 0 <= j < i ==> ps[j] != Sym("&") && ps[j] != Kw("as")
    ensures Place(ps, i) == i && !Marked(ps, i)
  {
    if i > 0 { PlainPlace(ps, i - 1); }
  }

  lemma PositionHolds(h: Host, ps: seq<Form>, v: Value, env: Env, names: seq<string>, i: nat, n: string)
    requires BindPattern(h, VectorForm(ps), v, env, names).error.None?
    requires i < |ps| && ps[i] == Sym(n) && n != "_" && n != "&"
    requires forall j :: 0 <= j < i ==> ps[j] != Sym("&") && ps[j] != Kw("as")
    ensures var items := ItemsOf(h, v);
            Lookup(BindPattern(h, VectorForm(ps), v, env, names).env, n) == Some(if i < |items| then items[i] else Nil)
  {
    hide BindPattern;
    PlainPlace(ps, i);
    var x := ItemAt(ps, i, ItemsOf(h, v), v);
    assert !Marks(ps, i) && Gives(h, ps[i], x, n, x);
    GivesHolds(h, VectorForm(ps), v, env, names, n, x);
  }
}
