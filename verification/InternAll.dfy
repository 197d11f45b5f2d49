/**
 Closing public names over intern-all imports (scripts/runtime/foundation_parity.py): the
 while-changed loop, and the reachability it computes.
 */
module InternAll {
  import opened Optional
  import opened Graphs
  import opened Names

  /** One source file; a missing namespace is the empty string. */
  datatype Entry = Entry(namespace: string, interns: seq<string>, public: seq<string>)

  /** Where each namespace is found: the last entry that declares it. */
  function Index(es: seq<Entry>): (ix: map<string, nat>)
    ensures forall n :: n in ix ==> ix[n] < |es| && es[ix[n]].namespace == n && n != ""
    ensures forall k :: 0 <= k < |es| && es[k].namespace != "" ==> es[k].namespace in ix && k <= ix[es[k].namespace]
  {
    if es == [] then map[]
    else
      var last := |es| - 1;
      var ix := Index(es[..last]);
      if es[last].namespace == "" then ix else ix[es[last].namespace := last]
  }

  /** Entry `i` imports everything of entry `j`. */
  ghost predicate Edge(es: seq<Entry>, i: int, j: int) {
    0 <= i < |es| && exists n :: n in es[i].interns && n in Index(es) && Index(es)[n] == j
  }

  ghost function Links(es: seq<Entry>): iset<(int, int)> { iset i: int, j: int | Edge(es, i, j) :: (i, j) }

  ghost predicate Reaches(es: seq<Entry>, i: int, j: int) { Reachable(Links(es), i, j) }

  /** The original public names of every entry reachable from `i`. */
  ghost function Closure(es: seq<Entry>, i: nat): set<string> {
    set j, n | 0 <= j < |es| && Reaches(es, i, j) && n in es[j].public :: n
  }

  ghost function Resolved(es: seq<Entry>): seq<Entry> {
    seq(|es|, i requires 0 <= i < |es| => es[i].(public := Sorted(Closure(es, i))))
  }

  // ----- what a pass keeps -----

  /** Between the original entries and their closure: the state of the loop at any time. */
  ghost predicate Between(original: seq<Entry>, es: seq<Entry>) {
    && |es| == |original|
    && forall i :: 0 <= i < |es| ==>
         && es[i].namespace == original[i].namespace && es[i].interns == original[i].interns
         && Members(original[i].public) <= Members(es[i].public) <= Closure(original, i)
  }

  /** What entry `i` holds once its imports are added, as things stand. */
  ghost function Expansion(original: seq<Entry>, es: seq<Entry>, i: nat): set<string>
    requires i < |es| == |original|
  {
    Members(es[i].public) + (set j, n | 0 <= j < |es| && Edge(original, i, j) && n in es[j].public :: n)
  }

  lemma OwnNames(es: seq<Entry>, i: nat)
    requires i < |es|
    ensures Members(es[i].public) <= Closure(es, i)
  {
    ReachesSelf(Links(es), i);
  }

  lemma ClosureShrinks(es: seq<Entry>, i: nat, j: nat)
    requires Edge(es, i, j)
    ensures Closure(es, j) <= Closure(es, i)
  {
    hide Edge;
    forall n | n in Closure(es, j) ensures n in Closure(es, i) {
      var k :| 0 <= k < |es| && Reaches(es, j, k) && n in es[k].public;
      ReachesOn(Links(es), i, j, k);
    }
  }

  lemma ExpansionStaysWithin(original: seq<Entry>, es: seq<Entry>, i: nat)
    requires i < |es| && Between(original, es)
    ensures Members(es[i].public) <= Expansion(original, es, i) <= Closure(original, i)
  {
    hide Edge, Closure;
    forall j, n | 0 <= j < |es| && Edge(original, i, j) && n in es[j].public ensures n in Closure(original, i) {
      ClosureShrinks(original, i, j);
      assert n in Members(es[j].public);
    }
  }

  // ----- a pass that changes nothing -----

  ghost predicate Settled(original: seq<Entry>, es: seq<Entry>, i: nat)
    requires i < |es| == |original|
  {
    es[i].public == Sorted(Expansion(original, es, i))
  }

  lemma {:induction false} SettledReachesAll(original: seq<Entry>, es: seq<Entry>, p: seq<int>, i: nat, j: nat)
    requires Between(original, es) && forall k :: 0 <= k < |es| ==> Settled(original, es, k)
    requires Leads(Links(original), p, i, j) && i < |es| && j < |es|
    ensures Members(es[j].public) <= Members(es[i].public)
    decreases |p|
  {
    hide Closure, Sorted;
    if |p| > 1 {
      WalkOn(Links(original), p);
      var next := p[1];
      SettledReachesAll(original, es, p[1..], next, j);
      SortedFacts(Expansion(original, es, i));
      assert Settled(original, es, i);
      forall n | n in Members(es[next].public) ensures n in Expansion(original, es, i) {}
    }
  }

  /** Once a whole pass changes nothing, every entry holds its closure. */
  lemma SettledIsClosure(original: seq<Entry>, es: seq<Entry>)
    requires Between(original, es) && forall k :: 0 <= k < |es| ==> Settled(original, es, k)
    ensures es == Resolved(original)
  {
    hide Edge, Reaches, Sorted;
    forall i | 0 <= i < |es| ensures es[i] == Resolved(original)[i] {
      forall n | n in Closure(original, i) ensures n in Members(es[i].public) {
        var j :| 0 <= j < |es| && Reaches(original, i, j) && n in original[j].public;
        ReachedNames(original, es, i, j);
      }
      SortedFacts(Expansion(original, es, i));
      assert Settled(original, es, i);
      ExpansionStaysWithin(original, es, i);
      assert Expansion(original, es, i) == Closure(original, i);
    }
  }

  lemma ReachedNames(original: seq<Entry>, es: seq<Entry>, i: nat, j: nat)
    requires Between(original, es) && forall k :: 0 <= k < |es| ==> Settled(original, es, k)
    requires Reaches(original, i, j) && i < |es| && j < |es|
    ensures Members(original[j].public) <= Members(es[i].public)
  {
    hide Edge, Sorted, Closure;
    var p :| Leads(Links(original), p, i, j);
    SettledReachesAll(original, es, p, i, j);
  }

  // ----- why the loop ends -----

  /** What is still missing, and which entries are not yet in order. */
  ghost function Todo(original: seq<Entry>, es: seq<Entry>): set<(nat, Option<string>)>
    requires |es| == |original|
  {
    (set i: nat, n | 0 <= i < |es| && n in Closure(original, i) && n !in es[i].public :: (i, Some(n)))
    + (set i: nat | 0 <= i < |es| && es[i].public != Sorted(Members(es[i].public)) :: (i, None))
  }

  lemma ChangeIsProgress(original: seq<Entry>, es: seq<Entry>, i: nat)
    requires i < |es| && Between(original, es) && !Settled(original, es, i)
    ensures var next := es[i := es[i].(public := Sorted(Expansion(original, es, i)))];
            Between(original, next) && Todo(original, next) < Todo(original, es)
  {
    hide Edge, Closure, Sorted;
    ExpansionStaysWithin(original, es, i);
    var e := Expansion(original, es, i);
    hide Expansion;
    SortedFacts(e);
    var next := es[i := es[i].(public := Sorted(e))];
    assert forall k :: 0 <= k < |es| ==> Members(es[k].public) <= Members(next[k].public);
    if Members(es[i].public) == e {
      assert (i, None) in Todo(original, es) && (i, None) !in Todo(original, next);
    } else {
      var n :| n in e && n !in es[i].public;
      assert (i, Some(n)) in Todo(original, es) && (i, Some(n)) !in Todo(original, next);
    }
    forall t | t in Todo(original, next) ensures t in Todo(original, es) {
      var k := t.0;
      if t.1.Some? && k == i { assert t.1.value !in Members(next[k].public); }
    }
  }

  // ----- the loop -----

  method SortedList(names: set<string>) returns (r: seq<string>)
    ensures r == Sorted(names)
  {
    var rest, list := names, [];
    while rest != {}
      invariant rest <= names && Members(list) == names - rest
      decreases |rest|
    {
      var n :| n in rest;
      MembersSnoc(list, n);
      list := list + [n];
      rest := rest - {n};
    }
    SortDedupIsSorted(list);
    assert names - rest == names;
    r := SortDedup(list);
  }

  /** Entry `i` with its imports added. */
  method Expanded(entries: array<Entry>, ghost original: seq<Entry>, byNamespace: map<string, nat>, i: nat) returns (r: set<string>)
    requires i < entries.Length && Between(original, entries[..]) && byNamespace == Index(original)
    ensures r == Expansion(original, entries[..], i)
  {
    hide Closure, Sorted;
    ghost var es := entries[..];
    var entry := entries[i];
    r := Set(entry.public);
    var k := 0;
    while k < |entry.interns|
      invariant 0 <= k <= |entry.interns|
      invariant r == Members(entry.public) + ImportedBy(original, es, entry.interns[..k])
    {
      assert entry.interns[..k + 1] == entry.interns[..k] + [entry.interns[k]];
      var imported := entry.interns[k];
      ghost var before := r;
      if imported in byNamespace {
        assert byNamespace[imported] < |original|;
        var more := Set(entries[byNamespace[imported]].public);
        r := r + more;
      }
      ImportOne(original, es, entry.interns, k);
      k := k + 1;
    }
    assert entry.interns[..k] == entry.interns;
    assert ImportedBy(original, es, entry.interns)
        == (set j, n | 0 <= j < |es| && Edge(original, i, j) && n in es[j].public :: n);
  }

  ghost function ImportedBy(original: seq<Entry>, es: seq<Entry>, interns: seq<string>): set<string>
    requires |es| == |original|
  {
    set x, n | x in interns && x in Index(original) && n in es[Index(original)[x]].public :: n
  }

  lemma ImportOne(original: seq<Entry>, es: seq<Entry>, interns: seq<string>, k: nat)
    requires k < |interns| && |es| == |original|
    ensures ImportedBy(original, es, interns[..k + 1]) ==
            ImportedBy(original, es, interns[..k])
            + if interns[k] in Index(original) then Members(es[Index(original)[interns[k]]].public) else {}
  {
    assert interns[..k + 1] == interns[..k] + [interns[k]];
  }

  function Set(s: seq<string>): (r: set<string>)
    ensures r == Members(s)
  {
    set n | n in s
  }

  /** Ends for every input, cyclic imports included, with every entry holding its closure in ascending order. */
  method ResolveInternAll(entries: array<Entry>)
    modifies entries
    ensures entries[..] == Resolved(old(entries[..]))
  {
    hide Sorted, Closure, Expansion, Todo, Resolved, Between, Settled;
    ghost var original := entries[..];
    var byNamespace := Index(entries[..]);
    Start(original);
    var changed := true;
    while changed
      invariant Between(original, entries[..]) && (!changed ==> entries[..] == Resolved(original))
      decreases Todo(original, entries[..]), changed
    {
      changed := false;
      ghost var before := entries[..];
      var i := 0;
      while i < entries.Length
        invariant 0 <= i <= entries.Length && Between(original, entries[..])
        invariant Todo(original, entries[..]) <= Todo(original, before)
        invariant changed ==> Todo(original, entries[..]) < Todo(original, before)
        invariant !changed ==> entries[..] == before && forall k :: 0 <= k < i ==> Settled(original, before, k)
      {
        ghost var es := entries[..];
        var expanded := Expanded(entries, original, byNamespace, i);
        var ordered := SortedList(expanded);
        SettledMeans(original, es, i);
        if ordered != entries[i].public {
          ChangeIsProgress(original, es, i);
          entries[i] := entries[i].(public := ordered);
          assert entries[..] == es[i := es[i].(public := ordered)];
          changed := true;
        }
        i := i + 1;
      }
      if !changed { SettledIsClosure(original, before); }
    }
  }

  lemma SettledMeans(original: seq<Entry>, es: seq<Entry>, i: nat)
    requires i < |es| == |original|
    ensures Settled(original, es, i) <==> es[i].public == Sorted(Expansion(original, es, i))
  {
  }

  lemma Start(es: seq<Entry>)
    ensures Between(es, es)
  {
    forall i | 0 <= i < |es| ensures Members(es[i].public) <= Closure(es, i) { OwnNames(es, i); }
  }

  // ----- entry order -----

  ghost predicate DistinctNamespaces(es: seq<Entry>) {
    forall i, j :: 0 <= i < j < |es| && es[i].namespace != "" ==> es[i].namespace != es[j].namespace
  }

  /** A chain of imports in one list of entries has a counterpart in any rearrangement of it. */
  lemma {:induction false} Counterpart(es: seq<Entry>, fs: seq<Entry>, p: seq<int>, i: nat, j: nat, k: nat) returns (m: nat)
    requires DistinctNamespaces(fs) && forall e :: e in es ==> e in fs
    requires i < |es| && k < |fs| && es[i] == fs[k] && Leads(Links(es), p, i, j) && j < |es|
    ensures m < |fs| && fs[m] == es[j] && Reaches(fs, k, m)
    decreases |p|
  {
    if |p| == 1 {
      ReachesSelf(Links(fs), k);
      m := k;
    } else {
      WalkOn(Links(es), p);
      var n :| n in es[i].interns && n in Index(es) && Index(es)[n] == p[1];
      assert es[p[1]] in fs;
      var next :| 0 <= next < |fs| && fs[next] == es[p[1]];
      assert Index(fs)[n] == next;
      m := Counterpart(es, fs, p[1..], p[1], j, next);
      assert Edge(fs, k, next);
      ReachesOn(Links(fs), k, next, m);
    }
  }

  lemma ClosureCarriesOver(es: seq<Entry>, fs: seq<Entry>, i: nat, k: nat)
    requires DistinctNamespaces(fs) && forall e :: e in es ==> e in fs
    requires i < |es| && k < |fs| && es[i] == fs[k]
    ensures Closure(es, i) <= Closure(fs, k)
  {
    hide Edge;
    forall n | n in Closure(es, i) ensures n in Closure(fs, k) {
      var j :| 0 <= j < |es| && Reaches(es, i, j) && n in es[j].public;
      var p :| Leads(Links(es), p, i, j);
      var m := Counterpart(es, fs, p, i, j, k);
    }
  }

  /** With distinct namespaces, an entry resolves to the same names whatever order the entries come in. */
  lemma EntryOrderDoesNotMatter(es: seq<Entry>, fs: seq<Entry>, i: nat, k: nat)
    requires DistinctNamespaces(es) && DistinctNamespaces(fs) && forall e :: e in es <==> e in fs
    requires i < |es| && k < |fs| && es[i] == fs[k]
    ensures Resolved(es)[i] == Resolved(fs)[k]
  {
    ClosureCarriesOver(es, fs, i, k);
    ClosureCarriesOver(fs, es, k, i);
    hide Closure;
    assert Closure(es, i) == Closure(fs, k);
  }
}
