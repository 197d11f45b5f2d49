/**
 Dependency order of semantic packages (core/rust/src/package_catalog.rs): name resolution, the
 depth-first search and the graph it searches.
 */
module Packages {
  import opened Optional
  import opened Results
  import opened Graphs
  import opened Sequences
  import opened Splitting
  import opened Names

  datatype PackageError =
    | NotDefined(name: string) | DependencyCycle(name: string)
    | AmbiguousDependency(name: string) | NamespaceOverlap(name: string)

  type Res<+T> = Result<T, PackageError>

  /** Package names with their declared dependencies. */
  type Catalog = map<string, seq<string>>

  // ----- names -----

  /** What follows the last '/', if there is one. */
  function AfterSlash(s: string): Option<string> {
    if s == "" then None
    else if s[|s| - 1] == '/' then Some("")
    else match AfterSlash(s[..|s| - 1])
         case None => None
         case Some(t) => Some(t + [s[|s| - 1]])
  }

  function Suffix(s: string): string { match AfterSlash(s) case None => s case Some(t) => t }

  /** The packages a name can stand for: itself, or else those with its last part. */
  function Candidates(c: Catalog, wanted: string): set<string> {
    if wanted in c then {wanted}
    else set n | n in c && (n == Suffix(wanted) || AfterSlash(n) == Some(Suffix(wanted)))
  }

  /** `t` is the last part of `s`: what follows its last '/', or all of it. */
  ghost predicate LastPart(s: string, t: string) { '/' !in t && (s == t || exists front :: s == front + "/" + t) }

  lemma {:induction false} AfterSlashMeans(s: string)
    ensures AfterSlash(s).None? <==> '/' !in s
    ensures AfterSlash(s).Some? ==> var t := AfterSlash(s).value; |t| < |s| && '/' !in t && s == s[..|s| - |t| - 1] + "/" + t
    decreases |s|
  {
    if s != "" {
      var front, last := s[..|s| - 1], s[|s| - 1];
      assert s == front + [last];
      AfterSlashMeans(front);
    }
  }

  lemma LastPartIsSuffix(s: string, t: string)
    ensures LastPart(s, t) <==> t == Suffix(s)
  {
    AfterSlashMeans(s);
    if LastPart(s, t) {
      if front :| s == front + "/" + t {
        var u := AfterSlash(s).value;
        assert s[|front|] == '/';
        SameLastPart(front, t, s[..|s| - |u| - 1], u);
      }
    }
  }

  lemma SameLastPart(a: string, t: string, b: string, u: string)
    requires '/' !in t && '/' !in u && a + "/" + t == b + "/" + u
    ensures a == b && t == u
  {
    var s := a + "/" + t;
    assert s[|a|] == '/' && s[|b|] == '/';
    assert forall i :: |a| < i < |s| ==> s[i] == t[i - |a| - 1];
    assert forall i :: |b| < i < |s| ==> s[i] == u[i - |b| - 1];
    assert |a| == |b|;
    assert s[..|a|] == a && s[|a| + 1..] == t && s[..|b|] == b && s[|b| + 1..] == u;
  }

  /** A name stands for the package of that name, or else for the packages with the same last part and at most a prefix. */
  lemma CandidatesMean(c: Catalog, wanted: string, n: string)
    ensures wanted in c ==> (n in Candidates(c, wanted) <==> n == wanted)
    ensures wanted !in c ==> (n in Candidates(c, wanted) <==> n in c && exists part :: LastPart(wanted, part) && LastPart(n, part))
  {
    LastPartIsSuffix(wanted, Suffix(wanted));
    LastPartIsSuffix(n, Suffix(wanted));
    if part :| LastPart(wanted, part) && LastPart(n, part) { LastPartIsSuffix(wanted, part); }
    AfterSlashMeans(n);
    AfterSlashMeans(wanted);
  }

  function ResolveTarget(c: Catalog, target: string): Res<string> {
    var found := Candidates(c, target);
    if |found| == 1 then
      OnlyOne(found);
      var n :| n in found; Ok(n)
    else Err(NotDefined(target))
  }

  lemma OnlyOne(s: set<string>)
    requires |s| == 1
    ensures exists n :: n in s
    ensures forall x, y :: x in s && y in s ==> x == y
  {
    var n :| n in s;
    assert |s - {n}| == 0;
    assert s == {n};
  }

  /** The internal packages a list of dependencies names; the first ambiguous one is an error. */
  function Internal(c: Catalog, dependencies: seq<string>): Res<set<string>> {
    if dependencies == [] then Ok({})
    else
      var last := dependencies[|dependencies| - 1];
      var found :- Internal(c, dependencies[..|dependencies| - 1]);
      if |Candidates(c, last)| > 1 then Err(AmbiguousDependency(last)) else Ok(found + Candidates(c, last))
  }

  // ----- the graph -----

  ghost predicate Edge(c: Catalog, a: string, b: string) {
    a in c && exists d :: d in c[a] && b in Candidates(c, d)
  }

  ghost predicate Unambiguous(c: Catalog, d: string) { |Candidates(c, d)| <= 1 }

  ghost predicate Clear(c: Catalog, a: string) { a in c && forall d :: d in c[a] ==> Unambiguous(c, d) }

  ghost function Links(c: Catalog): iset<(string, string)> { iset a, b | Edge(c, a, b) :: (a, b) }

  ghost predicate Reaches(c: Catalog, a: string, b: string) { Reachable(Links(c), a, b) }

  ghost predicate OnCycle(c: Catalog, a: string) { exists b :: Edge(c, a, b) && Reaches(c, b, a) }

  lemma ReachesSelf(c: Catalog, a: string)
    ensures Reaches(c, a, a)
  {
    Graphs.ReachesSelf(Links(c), a);
  }

  lemma ReachesOn(c: Catalog, a: string, b: string, d: string)
    requires Edge(c, a, b) && Reaches(c, b, d)
    ensures Reaches(c, a, d)
  {
    hide Edge;
    Graphs.ReachesOn(Links(c), a, b, d);
  }

  // ----- the search -----

  datatype Search = Search(visited: set<string>, ordered: seq<string>)

  /** Visits a package after everything it depends on; `visiting` is the chain of packages under way. */
  ghost function Visit(c: Catalog, name: string, visiting: set<string>, s: Search): Res<Search>
    decreases c.Keys - visiting, 0, 0
  {
    if name in s.visited then Ok(s)
    else if name in visiting then Err(DependencyCycle(name))
    else if name !in c then Err(NotDefined(name))
    else
      var found :- Internal(c, c[name]);
      assert name in c.Keys - visiting;
      var after :- VisitAll(c, Sorted(found), visiting + {name}, s);
      Ok(Search(after.visited + {name}, after.ordered + [name]))
  }

  ghost function VisitAll(c: Catalog, names: seq<string>, visiting: set<string>, s: Search): Res<Search>
    decreases c.Keys - visiting, 1, |names|
  {
    if names == [] then Ok(s)
    else
      var next :- Visit(c, names[0], visiting, s);
      VisitAll(c, names[1..], visiting, next)
  }

  ghost function Order(c: Catalog, targets: seq<string>, s: Search): Res<Search>
    decreases |targets|
  {
    if targets == [] then Ok(s)
    else
      var name :- ResolveTarget(c, targets[0]);
      var next :- Visit(c, name, {}, s);
      Order(c, targets[1..], next)
  }

  // ----- what resolution finds -----

  lemma {:induction false} InternalMeans(c: Catalog, dependencies: seq<string>)
    ensures var r := Internal(c, dependencies);
            && (r.Ok? ==> forall d :: d in dependencies ==> Unambiguous(c, d))
            && (r.Ok? ==> forall b :: b in r.value <==> exists d :: d in dependencies && b in Candidates(c, d))
            && (r.Err? ==> r.error.AmbiguousDependency? && r.error.name in dependencies && !Unambiguous(c, r.error.name))
    decreases |dependencies|
  {
    hide Candidates;
    if dependencies != [] {
      var front, last := dependencies[..|dependencies| - 1], dependencies[|dependencies| - 1];
      assert dependencies == front + [last];
      InternalMeans(c, front);
    }
  }

  lemma InternalEdges(c: Catalog, name: string)
    requires name in c
    ensures var r := Internal(c, c[name]);
            && (r.Ok? ==> Clear(c, name) && forall b :: b in r.value <==> Edge(c, name, b))
            && (r.Err? ==> r.error.AmbiguousDependency? && r.error.name in c[name] && !Unambiguous(c, r.error.name))
  {
    InternalMeans(c, c[name]);
  }

  lemma EdgesAreInternal(c: Catalog, a: string, b: string)
    requires Edge(c, a, b)
    ensures b in c
  {
  }

  // ----- a finished search -----

  /** Each package once, every one unambiguous and after everything it depends on. */
  ghost predicate Good(c: Catalog, s: Search) {
    && s.visited == Members(s.ordered) && Distinct(s.ordered)
    && (forall n :: n in s.visited ==> Clear(c, n))
    && (forall i, b :: 0 <= i < |s.ordered| && Edge(c, s.ordered[i], b) ==> b in s.ordered[..i])
  }

  ghost predicate Grown(c: Catalog, names: set<string>, s: Search, t: Search) {
    && s.ordered <= t.ordered && s.visited <= t.visited && names <= t.visited
    && forall n :: n in t.visited && n !in s.visited ==> exists m :: m in names && Reaches(c, m, n)
  }

  lemma {:induction false} VisitFinishes(c: Catalog, name: string, visiting: set<string>, s: Search)
    requires Good(c, s) && visiting !! s.visited && Visit(c, name, visiting, s).Ok?
    ensures var t := Visit(c, name, visiting, s).value;
            Good(c, t) && visiting !! t.visited && Grown(c, {name}, s, t)
    decreases c.Keys - visiting, 0, 0
  {
    hide Clear, Edge, Reaches, Internal, Sorted, Members, Distinct;
    ReachesSelf(c, name);
    if name !in s.visited {
      var found := Internal(c, c[name]).value;
      InternalEdges(c, name);
      SortedFacts(found);
      assert name in c.Keys - visiting;
      VisitAllFinishes(c, Sorted(found), visiting + {name}, s);
      var after := VisitAll(c, Sorted(found), visiting + {name}, s).value;
      AppendGood(c, after, name, found);
      forall n | n in after.visited && n !in s.visited ensures Reaches(c, name, n) {
        var m :| m in Members(Sorted(found)) && Reaches(c, m, n);
        ReachesOn(c, name, m, n);
      }
    }
  }

  lemma AppendGood(c: Catalog, s: Search, name: string, found: set<string>)
    requires Good(c, s) && name !in s.visited && Clear(c, name) && found <= s.visited
    requires forall b :: b in found <==> Edge(c, name, b)
    ensures Good(c, Search(s.visited + {name}, s.ordered + [name]))
  {
    hide Clear, Edge;
    var t := s.ordered + [name];
    forall i, b | 0 <= i < |t| && Edge(c, t[i], b) ensures b in t[..i] {
      if i < |s.ordered| { assert t[..i] == s.ordered[..i]; } else { assert t[..i] == s.ordered; }
    }
  }

  lemma {:induction false} VisitAllFinishes(c: Catalog, names: seq<string>, visiting: set<string>, s: Search)
    requires Good(c, s) && visiting !! s.visited && VisitAll(c, names, visiting, s).Ok?
    ensures var t := VisitAll(c, names, visiting, s).value;
            Good(c, t) && visiting !! t.visited && Grown(c, Members(names), s, t)
    decreases c.Keys - visiting, 1, |names|
  {
    hide Good, Reaches, Visit;
    if names != [] {
      VisitFinishes(c, names[0], visiting, s);
      var next := Visit(c, names[0], visiting, s).value;
      VisitAllFinishes(c, names[1..], visiting, next);
      var t := VisitAll(c, names, visiting, s).value;
      assert Members(names) == {names[0]} + Members(names[1..]);
    }
  }

  // ----- a search that fails -----

  /** What each error means: it is the fault of something the visited package reaches. */
  ghost predicate Blamed(c: Catalog, name: string, visiting: set<string>, e: PackageError) {
    match e
    case NotDefined(n) => n == name && name !in c
    case AmbiguousDependency(d) =>
      exists n :: Reaches(c, name, n) && n in c && d in c[n] && !Unambiguous(c, d)
    case DependencyCycle(n) => Reaches(c, name, n) && (n in visiting || OnCycle(c, n))
    case NamespaceOverlap(_) => false
  }

  lemma {:induction false} VisitFails(c: Catalog, name: string, visiting: set<string>, s: Search)
    requires Visit(c, name, visiting, s).Err?
    ensures Blamed(c, name, visiting, Visit(c, name, visiting, s).error)
    decreases c.Keys - visiting, 0, 0
  {
    hide Clear, Edge, Reaches, Internal, Sorted, Members, Unambiguous, OnCycle;
    ReachesSelf(c, name);
    if name in c && name !in visiting {
      InternalEdges(c, name);
      if Internal(c, c[name]).Ok? {
        var found := Internal(c, c[name]).value;
        SortedFacts(found);
        assert name in c.Keys - visiting;
        var m := VisitAllFails(c, Sorted(found), visiting + {name}, s);
        var e := VisitAll(c, Sorted(found), visiting + {name}, s).error;
        MemberOf(m, Sorted(found));
        BlamePassesUp(c, name, m, visiting, e);
      }
    }
  }

  lemma MemberOf(m: string, names: seq<string>)
    requires m in names
    ensures m in Members(names)
  {
  }

  lemma BlamePassesUp(c: Catalog, name: string, m: string, visiting: set<string>, e: PackageError)
    requires Edge(c, name, m) && Blamed(c, m, visiting + {name}, e)
    ensures Blamed(c, name, visiting, e)
  {
    hide Edge, Reaches, Unambiguous;
    EdgesAreInternal(c, name, m);
    match e
    case AmbiguousDependency(d) =>
      var n :| Reaches(c, m, n) && n in c && d in c[n] && !Unambiguous(c, d);
      ReachesOn(c, name, m, n);
    case DependencyCycle(n) => ReachesOn(c, name, m, n);
    case _ =>
  }

  lemma {:induction false} VisitAllFails(c: Catalog, names: seq<string>, visiting: set<string>, s: Search) returns (m: string)
    requires VisitAll(c, names, visiting, s).Err?
    ensures m in names && Blamed(c, m, visiting, VisitAll(c, names, visiting, s).error)
    decreases c.Keys - visiting, 1, |names|
  {
    hide Visit, Blamed;
    var first := Visit(c, names[0], visiting, s);
    if first.Err? {
      VisitFails(c, names[0], visiting, s);
      m := names[0];
    } else {
      m := VisitAllFails(c, names[1..], visiting, first.value);
    }
  }

  // ----- a good order leaves no cycle and nothing out -----

  lemma {:induction false} ReachedIsEarlier(c: Catalog, s: Search, p: seq<string>, i: nat)
    requires Good(c, s) && Walk(Links(c), p) && i < |s.ordered| && p[0] == s.ordered[i]
    ensures p[|p| - 1] in s.ordered[..i + 1]
    decreases |p|
  {
    hide Edge, Clear, Members;
    if |p| > 1 {
      WalkOn(Links(c), p);
      var j :| 0 <= j < i && s.ordered[j] == p[1];
      ReachedIsEarlier(c, s, p[1..], j);
      assert s.ordered[..j + 1] <= s.ordered[..i + 1];
    }
  }

  lemma ClosedAndAcyclic(c: Catalog, s: Search, a: string, b: string)
    requires Good(c, s) && a in s.visited && Reaches(c, a, b)
    ensures b in s.visited && Clear(c, b) && !OnCycle(c, b)
  {
    hide Edge, Clear;
    var i :| 0 <= i < |s.ordered| && s.ordered[i] == a;
    var p :| Leads(Links(c), p, a, b);
    ReachedIsEarlier(c, s, p, i);
    var j :| 0 <= j <= i && s.ordered[j] == b;
    forall d | Edge(c, b, d) ensures !Reaches(c, d, b) {
      var k :| 0 <= k < j && s.ordered[k] == d;
      forall q | Leads(Links(c), q, d, b) ensures false { ReachedIsEarlier(c, s, q, k); }
    }
  }

  // ----- the order of targets -----

  /** `n` is a target, or something a target depends on, however far down. */
  ghost predicate Needed(c: Catalog, targets: seq<string>, n: string) {
    exists t :: t in targets && NeededBy(c, t, n)
  }

  ghost predicate NeededBy(c: Catalog, t: string, n: string) {
    ResolveTarget(c, t).Ok? && Reaches(c, ResolveTarget(c, t).value, n)
  }

  ghost predicate Orderable(c: Catalog, targets: seq<string>) {
    && (forall t :: t in targets ==> ResolveTarget(c, t).Ok?)
    && forall n :: Needed(c, targets, n) ==> Clear(c, n) && !OnCycle(c, n)
  }

  lemma {:induction false} OrderFinishes(c: Catalog, targets: seq<string>, s: Search)
    requires Good(c, s) && Order(c, targets, s).Ok?
    ensures var t := Order(c, targets, s).value;
            && Good(c, t) && s.visited <= t.visited
            && (forall x :: x in targets ==> ResolveTarget(c, x).Ok? && ResolveTarget(c, x).value in t.visited)
            && (forall n :: n in t.visited ==> n in s.visited || Needed(c, targets, n))
    decreases |targets|
  {
    hide Good, Reaches, Visit, ResolveTarget;
    if targets != [] {
      var name := ResolveTarget(c, targets[0]).value;
      VisitFinishes(c, name, {}, s);
      var next := Visit(c, name, {}, s).value;
      OrderFinishes(c, targets[1..], next);
      var t := Order(c, targets, s).value;
      forall n | n in t.visited ensures n in s.visited || Needed(c, targets, n) {
        if n in next.visited {
          assert n !in s.visited ==> NeededBy(c, targets[0], n);
        } else {
          var x :| x in targets[1..] && NeededBy(c, x, n);
          assert x in targets;
        }
      }
    }
  }

  /** What the error of a whole order means. */
  ghost predicate Explains(c: Catalog, targets: seq<string>, e: PackageError) {
    match e
    case NotDefined(t) => t in targets && |Candidates(c, t)| != 1
    case AmbiguousDependency(d) => exists n :: Needed(c, targets, n) && n in c && d in c[n] && !Unambiguous(c, d)
    case DependencyCycle(n) => Needed(c, targets, n) && OnCycle(c, n)
    case NamespaceOverlap(_) => false
  }

  lemma {:induction false} OrderFails(c: Catalog, targets: seq<string>, s: Search)
    requires Order(c, targets, s).Err?
    ensures Explains(c, targets, Order(c, targets, s).error)
    decreases |targets|
  {
    hide Reaches, Visit, OnCycle, Candidates, Unambiguous;
    assert targets[0] in targets;
    var first := ResolveTarget(c, targets[0]);
    if first.Ok? {
      var next := Visit(c, first.value, {}, s);
      if next.Err? {
        VisitFails(c, first.value, {}, s);
        BlameExplains(c, targets, targets[0], next.error);
      } else {
        OrderFails(c, targets[1..], next.value);
        assert forall x :: x in targets[1..] ==> x in targets;
        assert forall n :: Needed(c, targets[1..], n) ==> Needed(c, targets, n);
      }
    }
  }

  lemma BlameExplains(c: Catalog, targets: seq<string>, t: string, e: PackageError)
    requires t in targets && ResolveTarget(c, t).Ok? && Blamed(c, ResolveTarget(c, t).value, {}, e)
    ensures Explains(c, targets, e)
  {
    hide Reaches, OnCycle, Unambiguous;
    var name := ResolveTarget(c, t).value;
    assert forall n :: Reaches(c, name, n) ==> NeededBy(c, t, n);
    assert forall n :: NeededBy(c, t, n) ==> Needed(c, targets, n);
  }

  lemma ExplainedIsNotOrderable(c: Catalog, targets: seq<string>, e: PackageError)
    requires Explains(c, targets, e)
    ensures !Orderable(c, targets)
  {
    hide Needed, OnCycle, Unambiguous;
  }

  /**
   The order exists exactly when every target names one package and nothing the targets need
   has an ambiguous dependency or lies on a cycle; and then it lists what the targets need,
   each package once and after all it depends on.
   */
  lemma OrderIffAcyclic(c: Catalog, targets: seq<string>)
    ensures var r := Order(c, targets, Search({}, []));
            && (r.Ok? <==> Orderable(c, targets))
            && (r.Err? ==> Explains(c, targets, r.error))
            && (r.Ok? ==>
                  var ordered := r.value.ordered;
                  && r.value.visited == Members(ordered) && Distinct(ordered)
                  && (forall n :: n in ordered <==> Needed(c, targets, n))
                  && (forall i, b :: 0 <= i < |ordered| && Edge(c, ordered[i], b) ==> b in ordered[..i]))
  {
    hide Reaches, ResolveTarget, Clear, OnCycle, Edge, Order;
    var s := Search({}, []);
    var r := Order(c, targets, s);
    if r.Err? {
      OrderFails(c, targets, s);
      ExplainedIsNotOrderable(c, targets, r.error);
    } else {
      OrderFinishes(c, targets, s);
      forall n | Needed(c, targets, n) ensures n in r.value.visited && Clear(c, n) && !OnCycle(c, n) {
        var t :| t in targets && NeededBy(c, t, n);
        ClosedAndAcyclic(c, r.value, ResolveTarget(c, t).value, n);
      }
    }
  }

  // ----- the search, in place -----

  class DependencySearch {
    var visiting: set<string>
    var visited: set<string>
    var ordered: seq<string>

    constructor ()
      ensures visiting == {} && visited == {} && ordered == []
    {
      visiting, visited, ordered := {}, {}, [];
    }

    /** Visits one package; an error leaves the rest of the search unfinished. */
    method VisitPackage(c: Catalog, name: string) returns (r: Res<()>)
      modifies this
      ensures var spec := Visit(c, name, old(visiting), Search(old(visited), old(ordered)));
              && (r.Ok? <==> spec.Ok?)
              && (r.Ok? ==> spec.value == Search(visited, ordered) && visiting == old(visiting))
              && (r.Err? ==> spec.error == r.error)
      decreases c.Keys - visiting
    {
      if name in visited { return Ok(()); }
      if name in visiting { return Err(DependencyCycle(name)); }
      visiting := visiting + {name};
      if name !in c { return Err(NotDefined(name)); }
      var found :- InternalNames(c, c[name]);
      var dependencies := SortDedup(found);
      assert dependencies == Sorted(Members(found)) by { SortDedupIsSorted(found); }
      assert name in c.Keys - old(visiting);
      hide Internal, SortDedup, Sorted;
      var i := 0;
      assert dependencies[0..] == dependencies;
      ghost var whole := VisitAll(c, dependencies, visiting, Search(visited, ordered));
      while i < |dependencies|
        invariant 0 <= i <= |dependencies| && visiting == old(visiting) + {name}
        invariant whole == VisitAll(c, dependencies[i..], visiting, Search(visited, ordered))
      {
        assert dependencies[i..][1..] == dependencies[i + 1..];
        var _ :- VisitPackage(c, dependencies[i]);
        i := i + 1;
      }
      visiting := visiting - {name};
      visited := visited + {name};
      ordered := ordered + [name];
      r := Ok(());
    }
  }

  method InternalNames(c: Catalog, dependencies: seq<string>) returns (r: Res<seq<string>>)
    ensures var spec := Internal(c, dependencies);
            && (r.Ok? <==> spec.Ok?)
            && (r.Ok? ==> Members(r.value) == spec.value)
            && (r.Err? ==> spec.error == r.error)
  {
    var names: seq<string> := [];
    var i := 0;
    assert Members(names) == {};
    hide Candidates, Members;
    while i < |dependencies|
      invariant 0 <= i <= |dependencies|
      invariant Internal(c, dependencies[..i]) == Ok(Members(names))
    {
      var dependency := dependencies[i];
      var matches := Candidates(c, dependency);
      assert dependencies[..i + 1][..i] == dependencies[..i];
      if |matches| > 1 {
        AmbiguityStops(c, dependencies, i + 1);
        return Err(AmbiguousDependency(dependency));
      }
      if |matches| == 1 {
        OnlyOne(matches);
        var n :| n in matches;
        assert matches == {n};
        MembersSnoc(names, n);
        names := names + [n];
      } else {
        assert matches == {};
      }
      assert Internal(c, dependencies[..i + 1]) == Ok(Internal(c, dependencies[..i]).value + matches);
      i := i + 1;
    }
    assert dependencies[..i] == dependencies;
    r := Ok(names);
  }

  lemma {:induction false} AmbiguityStops(c: Catalog, dependencies: seq<string>, i: nat)
    requires i <= |dependencies| && Internal(c, dependencies[..i]).Err?
    ensures Internal(c, dependencies) == Internal(c, dependencies[..i])
    decreases |dependencies|
  {
    if i == |dependencies| {
      assert dependencies[..i] == dependencies;
    } else {
      var front := dependencies[..|dependencies| - 1];
      assert front[..i] == dependencies[..i];
      AmbiguityStops(c, front, i);
    }
  }

  // ----- definitions -----

  datatype SelectorMode = Base | Complete | Exclude(roots: seq<string>)
  datatype Selector = Selector(namespace: string, mode: SelectorMode)
  datatype Definition = Definition(name: string, selectors: seq<Selector>, dependencies: seq<string>)

  function CatalogOf(definitions: seq<Definition>): Catalog {
    if definitions == [] then map[]
    else
      var last := definitions[|definitions| - 1];
      CatalogOf(definitions[..|definitions| - 1])[last.name := last.dependencies]
  }

  /** Of several definitions of one name the last counts. */
  lemma {:induction false} CatalogKeepsLast(definitions: seq<Definition>, i: nat)
    requires i < |definitions| && forall j :: i < j < |definitions| ==> definitions[j].name != definitions[i].name
    ensures definitions[i].name in CatalogOf(definitions)
    ensures CatalogOf(definitions)[definitions[i].name] == definitions[i].dependencies
    decreases |definitions|
  {
    if i < |definitions| - 1 { CatalogKeepsLast(definitions[..|definitions| - 1], i); }
  }

  method DependencyOrder(definitions: seq<Definition>, targets: seq<string>) returns (r: Res<seq<string>>)
    ensures var c := CatalogOf(definitions);
            && (r.Ok? <==> Orderable(c, targets))
            && (r.Err? ==> Explains(c, targets, r.error) && Order(c, targets, Search({}, [])) == Err(r.error))
            && (r.Ok? ==>
                  && Order(c, targets, Search({}, [])) == Ok(Search(Members(r.value), r.value))
                  && Distinct(r.value)
                  && (forall n :: n in r.value <==> Needed(c, targets, n))
                  && (forall i, b :: 0 <= i < |r.value| && Edge(c, r.value[i], b) ==> b in r.value[..i]))
  {
    var c := CatalogOf(definitions);
    var search := new DependencySearch();
    ghost var whole := Order(c, targets, Search({}, []));
    OrderIffAcyclic(c, targets);
    hide Explains, Orderable, Needed, Edge, Distinct, Visit, CatalogOf, ResolveTarget;
    var i := 0;
    assert targets[0..] == targets;
    while i < |targets|
      invariant 0 <= i <= |targets| && search.visiting == {}
      invariant whole == Order(c, targets[i..], Search(search.visited, search.ordered))
    {
      assert targets[i..][1..] == targets[i + 1..];
      var name :- ResolveTarget(c, targets[i]);
      var _ :- search.VisitPackage(c, name);
      i := i + 1;
    }
    r := Ok(search.ordered);
  }

  // ----- ownership of namespaces -----

  predicate Within(namespace: string, root: string) { namespace == root || root + "." <= namespace }

  predicate Selects(selector: Selector, namespace: string) {
    match selector.mode
    case Complete => Within(namespace, selector.namespace)
    case Base => namespace == selector.namespace || selector.namespace + ".base." <= namespace
    case Exclude(roots) =>
      Within(namespace, selector.namespace) && !exists root :: root in roots && Within(namespace, root)
  }

  /** The segments of a namespace. */
  function Segments(namespace: string): seq<string> { Split(namespace, '.') }

  lemma DottedPrefix(namespace: string, root: string)
    ensures root + "." <= namespace <==> Segments(root) < Segments(namespace)
  {
    var dot := root + ['.'];
    if dot <= namespace {
      var rest := namespace[|dot|..];
      assert namespace == root + ['.'] + rest;
      SplitAppend(root, rest, '.');
    }
    if Segments(root) < Segments(namespace) { PrefixDotted(namespace, root); }
  }

  /** Fewer segments that agree leave a dot behind them. */
  lemma {:induction false} PrefixDotted(namespace: string, root: string)
    requires Segments(root) < Segments(namespace)
    ensures root + ['.'] <= namespace
    decreases |namespace|
  {
    var p, q := Segments(root), Segments(namespace);
    assert namespace != "";
    var more := Split(namespace[1..], '.');
    assert namespace == [namespace[0]] + namespace[1..];
    if root == "" {
      assert q[0] == p[0] == "";
    } else {
      var less := Split(root[1..], '.');
      assert root == [root[0]] + root[1..];
      assert p == Attach(root[0], less, '.') && q == Attach(namespace[0], more, '.');
      assert p[0] == q[0];
      assert root[0] == namespace[0] && less < more by { AttachPrefix(root[0], less, namespace[0], more); }
      PrefixDotted(namespace[1..], root[1..]);
      assert root + ['.'] == [root[0]] + (root[1..] + ['.']);
    }
  }

  lemma AttachPrefix(c: char, less: seq<string>, d: char, more: seq<string>)
    requires less != [] && more != [] && Attach(c, less, '.') < Attach(d, more, '.')
    ensures c == d && less < more
  {
    var p, q := Attach(c, less, '.'), Attach(d, more, '.');
    assert p[0] == q[0];
    if c == '.' {
      assert p[1..] == less && q[1..] == more;
    } else {
      assert p[0][0] == c && p[0][1..] == less[0] && q[0][0] == d && q[0][1..] == more[0];
      assert p[1..] == less[1..] && q[1..] == more[1..];
      assert less == [less[0]] + less[1..] && more == [more[0]] + more[1..];
    }
    assert forall i :: 0 < i < |p| ==> p[i] == q[i];
  }

  lemma WithinMeans(namespace: string, root: string)
    ensures Within(namespace, root) <==> Segments(root) <= Segments(namespace)
  {
    DottedPrefix(namespace, root);
    if Segments(root) == Segments(namespace) { SplitInjective(root, namespace, '.'); }
  }

  /** What a selector picks, by segments: a subtree, a root with what lies beneath its `base`, or a subtree without others. */
  lemma SelectsMeans(selector: Selector, namespace: string)
    ensures var root, mine := Segments(selector.namespace), Segments(namespace);
            Selects(selector, namespace) <==>
            match selector.mode
            case Complete => root <= mine
            case Base => root == mine || root + ["base"] < mine
            case Exclude(roots) => root <= mine && forall r :: r in roots ==> !(Segments(r) <= mine)
  {
    WithinMeans(namespace, selector.namespace);
    match selector.mode
    case Complete =>
    case Base =>
      if Segments(selector.namespace) == Segments(namespace) { SplitInjective(selector.namespace, namespace, '.'); }
      assert selector.namespace + ".base." == selector.namespace + ".base" + ".";
      assert selector.namespace + ".base" == selector.namespace + ['.'] + "base";
      DottedPrefix(namespace, selector.namespace + ".base");
      SplitAppend(selector.namespace, "base", '.');
      SplitSegment("base", '.');
    case Exclude(roots) =>
      forall r | r in roots ensures Within(namespace, r) <==> Segments(r) <= Segments(namespace) { WithinMeans(namespace, r); }
  }

  function Filtered(selector: Selector, available: seq<string>): seq<string> {
    if available == [] then []
    else (if Selects(selector, available[0]) then [available[0]] else []) + Filtered(selector, available[1..])
  }

  function Expand(selector: Selector, available: seq<string>): seq<string> {
    SortDedup(Filtered(selector, available))
  }

  function Gathered(selectors: seq<Selector>, available: seq<string>): seq<string> {
    if selectors == [] then [] else Expand(selectors[0], available) + Gathered(selectors[1..], available)
  }

  function Namespaces(d: Definition, available: seq<string>): seq<string> {
    SortDedup(Gathered(d.selectors, available))
  }

  ghost predicate Chosen(selectors: seq<Selector>, namespace: string) {
    exists s :: s in selectors && Selects(s, namespace)
  }

  ghost function Owned(d: Definition, available: seq<string>): set<string> {
    set n | n in available && Chosen(d.selectors, n)
  }

  lemma {:induction false} FilteredMeans(selector: Selector, available: seq<string>)
    ensures forall n :: n in Filtered(selector, available) <==> n in available && Selects(selector, n)
    decreases |available|
  {
    if available != [] { FilteredMeans(selector, available[1..]); }
  }

  lemma {:induction false} GatheredMeans(selectors: seq<Selector>, available: seq<string>)
    ensures forall n :: n in Gathered(selectors, available) <==> n in available && Chosen(selectors, n)
    decreases |selectors|
  {
    hide Selects, SortDedup, Sorted, Filtered;
    if selectors != [] {
      var first, rest := selectors[0], selectors[1..];
      FilteredMeans(first, available);
      SortDedupIsSorted(Filtered(first, available));
      SortedFacts(Members(Filtered(first, available)));
      GatheredMeans(rest, available);
      forall n ensures n in Gathered(selectors, available) <==> n in available && Chosen(selectors, n) {
        assert n in Expand(first, available) <==> n in Members(Expand(first, available));
        assert selectors == [first] + rest;
      }
    }
  }

  /** A package owns, in ascending order and without repeats, the available namespaces some selector picks. */
  lemma NamespacesAreOwned(d: Definition, available: seq<string>)
    ensures Namespaces(d, available) == Sorted(Owned(d, available))
  {
    GatheredMeans(d.selectors, available);
    SortDedupIsSorted(Gathered(d.selectors, available));
    assert Members(Gathered(d.selectors, available)) == Owned(d, available);
  }

  ghost predicate OwnersApart(definitions: seq<Definition>, available: seq<string>) {
    forall i, j :: 0 <= i < j < |definitions| ==> Owned(definitions[i], available) !! Owned(definitions[j], available)
  }

  ghost predicate Consistent(c: Catalog) { forall n :: n in c ==> Clear(c, n) && !OnCycle(c, n) }

  ghost function OwnedByFirst(definitions: seq<Definition>, available: seq<string>, k: nat): set<string>
    requires k <= |definitions|
  {
    set i, n | 0 <= i < k && n in Owned(definitions[i], available) :: n
  }

  /** Definitions are valid exactly when no namespace has two owners and the whole graph is unambiguous and acyclic. */
  method Validate(definitions: seq<Definition>, available: seq<string>) returns (r: Res<()>)
    ensures r.Ok? <==> OwnersApart(definitions, available) && Consistent(CatalogOf(definitions))
    ensures r.Err? && r.error.NamespaceOverlap? <==> !OwnersApart(definitions, available)
  {
    hide Owned, Consistent, CatalogOf, Needed, Orderable, Explains, Order;
    var owners: map<string, string> := map[];
    var i := 0;
    while i < |definitions|
      invariant 0 <= i <= |definitions| && owners.Keys == OwnedByFirst(definitions, available, i)
      invariant OwnersApart(definitions[..i], available)
    {
      var owned := Namespaces(definitions[i], available);
      NamespacesAreOwned(definitions[i], available);
      SortedFacts(Owned(definitions[i], available));
      hide Namespaces, Sorted, OwnersApart, OwnedByFirst, Members, Distinct;
      var claimed := Claim(owners, owned, definitions[i].name);
      if claimed.Err? {
        Clash(definitions, available, i, claimed.error.name);
        return Err(claimed.error);
      }
      owners := claimed.value;
      NoClash(definitions, available, i);
      i := i + 1;
    }
    assert definitions[..i] == definitions;
    AllTargets(definitions);
    var ordered := DependencyOrder(definitions, NamesOf(definitions));
    if ordered.Err? {
      ExplainsNoOverlap(CatalogOf(definitions), NamesOf(definitions), ordered.error);
      return Err(ordered.error);
    }
    r := Ok(());
  }

  /** Enters one package's namespaces; one that has an owner already is an error. */
  method Claim(before: map<string, string>, owned: seq<string>, owner: string) returns (r: Res<map<string, string>>)
    requires Distinct(owned)
    ensures r.Ok? <==> before.Keys !! Members(owned)
    ensures r.Ok? ==> r.value.Keys == before.Keys + Members(owned)
    ensures r.Err? ==> r.error.NamespaceOverlap? && r.error.name in before.Keys && r.error.name in Members(owned)
  {
    var owners := before;
    var j := 0;
    while j < |owned|
      invariant 0 <= j <= |owned|
      invariant owners.Keys == before.Keys + Members(owned[..j]) && before.Keys !! Members(owned[..j])
    {
      assert owned[..j + 1] == owned[..j] + [owned[j]];
      MembersSnoc(owned[..j], owned[j]);
      assert owned[j] !in Members(owned[..j]) && owned[j] in Members(owned);
      if owned[j] in owners { return Err(NamespaceOverlap(owned[j])); }
      owners := owners[owned[j] := owner];
      j := j + 1;
    }
    assert owned[..j] == owned;
    r := Ok(owners);
  }

  function NamesOf(definitions: seq<Definition>): seq<string> {
    seq(|definitions|, i requires 0 <= i < |definitions| => definitions[i].name)
  }

  lemma ExplainsNoOverlap(c: Catalog, targets: seq<string>, e: PackageError)
    requires Explains(c, targets, e)
    ensures !e.NamespaceOverlap?
  {
  }

  lemma Clash(definitions: seq<Definition>, available: seq<string>, i: nat, n: string)
    requires i < |definitions| && n in OwnedByFirst(definitions, available, i) && n in Owned(definitions[i], available)
    ensures !OwnersApart(definitions, available)
  {
  }

  lemma NoClash(definitions: seq<Definition>, available: seq<string>, i: nat)
    requires i < |definitions| && OwnersApart(definitions[..i], available)
    requires OwnedByFirst(definitions, available, i) !! Owned(definitions[i], available)
    ensures OwnersApart(definitions[..i + 1], available)
    ensures OwnedByFirst(definitions, available, i + 1) == OwnedByFirst(definitions, available, i) + Owned(definitions[i], available)
  {
    forall j, k | 0 <= j < k < i + 1 ensures Owned(definitions[j], available) !! Owned(definitions[k], available) {
      if k < i {
        assert definitions[..i][j] == definitions[j] && definitions[..i][k] == definitions[k];
      }
    }
  }

  lemma {:induction false} CatalogNames(definitions: seq<Definition>)
    ensures forall n :: n in CatalogOf(definitions) <==> n in NamesOf(definitions)
    decreases |definitions|
  {
    if definitions != [] {
      var front, last := definitions[..|definitions| - 1], definitions[|definitions| - 1];
      CatalogNames(front);
      assert NamesOf(definitions) == NamesOf(front) + [last.name];
    }
  }

  /** With every package a target, everything in the catalogue is needed. */
  lemma AllTargets(definitions: seq<Definition>)
    ensures Orderable(CatalogOf(definitions), NamesOf(definitions)) <==> Consistent(CatalogOf(definitions))
  {
    hide CatalogOf, Clear, OnCycle, NamesOf, Needed, ResolveTarget;
    var c, targets := CatalogOf(definitions), NamesOf(definitions);
    CatalogNames(definitions);
    forall n | n in c ensures ResolveTarget(c, n) == Ok(n) && Needed(c, targets, n) { OwnTarget(c, targets, n); }
    forall n | Needed(c, targets, n) ensures n in c { NeededIsDefined(c, targets, n); }
  }

  lemma OwnTarget(c: Catalog, targets: seq<string>, n: string)
    requires n in c && n in targets
    ensures ResolveTarget(c, n) == Ok(n) && Needed(c, targets, n)
  {
    hide Reaches;
    ReachesSelf(c, n);
    assert NeededBy(c, n, n);
  }

  lemma NeededIsDefined(c: Catalog, targets: seq<string>, n: string)
    requires Needed(c, targets, n)
    ensures n in c
  {
    var t :| t in targets && NeededBy(c, t, n);
    var p :| Leads(Links(c), p, ResolveTarget(c, t).value, n);
    hide Edge;
    if |p| > 1 {
      assert (p[|p| - 2], p[|p| - 2 + 1]) in Links(c);
      EdgesAreInternal(c, p[|p| - 2], n);
    }
  }
}
