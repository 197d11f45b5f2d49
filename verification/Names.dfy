/**
 Lists of names as the sorts of core/rust/src/package_catalog.rs and
 scripts/runtime/foundation_parity.py leave them: ascending, each name once.
 */
module Names {
  import opened Sequences
  import opened Ordering

  function Keyed(name: string): (Key, string) { (Codes(name), name) }

  ghost function KeyedAll(names: set<string>): set<(Key, string)> { set n | n in names :: Keyed(n) }

  function Plain(es: seq<(Key, string)>): seq<string> {
    seq(|es|, i requires 0 <= i < |es| => es[i].1)
  }

  function WithKeys(s: seq<string>): seq<(Key, string)> {
    seq(|s|, i requires 0 <= i < |s| => Keyed(s[i]))
  }

  /** A set of names in ascending order. */
  ghost function Sorted(names: set<string>): seq<string> { Plain(Arrange(KeyedAll(names))) }

  ghost function Members(s: seq<string>): set<string> { set n | n in s }

  lemma MembersSnoc(s: seq<string>, n: string)
    ensures Members(s + [n]) == Members(s) + {n}
  {
  }

  /** Ascending order leaves room for equal neighbours until they are dropped. */
  ghost predicate Weakly(s: seq<(Key, string)>) {
    forall i, j :: 0 <= i < j < |s| ==> s[i].0 == s[j].0 || Less(s[i].0, s[j].0)
  }

  /** Drops a name that equals the one before it. */
  function Dedup(s: seq<string>): seq<string> {
    if |s| <= 1 then s
    else if s[0] == s[1] then Dedup(s[1..])
    else [s[0]] + Dedup(s[1..])
  }

  function SortDedup(s: seq<string>): seq<string> { Dedup(Plain(Sort(WithKeys(s)))) }

  /** In dictionary order, each name once. */
  ghost predicate InNameOrder(s: seq<string>) {
    forall i, j :: 0 <= i < j < |s| ==> Precedes(Codes(s[i]), Codes(s[j]))
  }

  lemma SortedFacts(names: set<string>)
    ensures Members(Sorted(names)) == names && Distinct(Sorted(names))
    ensures InNameOrder(Sorted(names))
  {
    hide Arrange, Codes, Less, Precedes;
    var es := KeyedAll(names);
    var t := Arrange(es);
    ArrangeEntries(es);
    forall x, y | x in es && y in es && x.0 == y.0 ensures x == y { CodesInjective(x.1, y.1); }
    ArrangeAscends(es);
    var s := Sorted(names);
    forall i | 0 <= i < |t| ensures t[i] == Keyed(s[i]) && s[i] in names {
      assert t[i] in Entries(t);
    }
    forall n | n in names ensures n in s {
      assert Keyed(n) in Entries(t);
      var i :| 0 <= i < |t| && t[i] == Keyed(n);
      assert s[i] == n;
    }
    forall i, j | 0 <= i < j < |s| ensures Precedes(Codes(s[i]), Codes(s[j])) && s[i] != s[j] {
      assert Less(t[i].0, t[j].0);
      LessIrreflexive(t[i].0);
      LessMeans(t[i].0, t[j].0);
    }
  }

  /** An ascending list of names is the sorted list of its members. */
  lemma AscendingIsSorted(s: seq<string>)
    requires Ascending(WithKeys(s))
    ensures s == Sorted(Members(s))
  {
    hide Arrange, Codes, Less;
    var es := WithKeys(s);
    AscendingIsArrange(es);
    forall e ensures e in Entries(es) <==> e in KeyedAll(Members(s)) {
      if e in es { var i :| 0 <= i < |es| && es[i] == e; assert s[i] in s; }
      if e in KeyedAll(Members(s)) {
        var n :| n in Members(s) && e == Keyed(n);
        var i :| 0 <= i < |s| && s[i] == n;
        assert es[i] == e;
      }
    }
    assert Entries(es) == KeyedAll(Members(s));
    assert Plain(es) == s;
  }

  lemma {:induction false} InsertWeakly(x: (Key, string), s: seq<(Key, string)>)
    requires Weakly(s)
    ensures Weakly(Insert(x, s)) && Entries(Insert(x, s)) == Entries(s) + {x}
    decreases |s|
  {
    hide Less;
    if s != [] {
      if Less(x.0, s[0].0) {
        ConsWeakly(x, s);
        EntriesCons(x, s);
      } else {
        LessTotal(x.0, s[0].0);
        InsertWeakly(x, s[1..]);
        var t := Insert(x, s[1..]);
        forall j | 0 <= j < |t| ensures s[0].0 == t[j].0 || Less(s[0].0, t[j].0) {
          assert t[j] in Entries(t);
          if t[j] != x { assert t[j] in s[1..]; }
        }
        ConsWeakly(s[0], t);
        EntriesCons(s[0], t);
        EntriesCons(s[0], s[1..]);
        assert s == [s[0]] + s[1..];
      }
    }
  }

  lemma ConsWeakly(x: (Key, string), s: seq<(Key, string)>)
    requires Weakly(s) && (s != [] ==> x.0 == s[0].0 || Less(x.0, s[0].0))
    ensures Weakly([x] + s)
  {
    forall j | 0 < j < |s| + 1 ensures x.0 == ([x] + s)[j].0 || Less(x.0, ([x] + s)[j].0) {
      if j > 1 && x.0 != s[0].0 && s[0].0 != s[j - 1].0 { LessTrans(x.0, s[0].0, s[j - 1].0); }
    }
  }

  lemma {:induction false} SortWeakly(s: seq<(Key, string)>)
    ensures Weakly(Sort(s)) && Entries(Sort(s)) == Entries(s)
    decreases |s|
  {
    if s != [] {
      var front, x := s[..|s| - 1], s[|s| - 1];
      assert s == front + [x];
      SortWeakly(front);
      InsertWeakly(x, Sort(front));
      EntriesSnoc(front, x);
    }
  }

  lemma {:induction false} DedupAscends(s: seq<string>)
    requires Weakly(WithKeys(s))
    ensures Ascending(WithKeys(Dedup(s))) && Members(Dedup(s)) == Members(s)
    ensures s != [] ==> Dedup(s) != [] && Dedup(s)[0] == s[0]
    decreases |s|
  {
    hide Less, Codes;
    if |s| > 1 {
      var rest := s[1..];
      assert s == [s[0]] + rest;
      assert forall i :: 0 <= i < |rest| ==> WithKeys(rest)[i] == WithKeys(s)[i + 1];
      DedupAscends(rest);
      assert Members(s) == {s[0]} + Members(rest) && rest[0] in rest;
      if s[0] != s[1] {
        assert Dedup(s) == [s[0]] + Dedup(rest);
        assert Members(Dedup(s)) == {s[0]} + Members(Dedup(rest));
        if WithKeys(s)[0].0 == WithKeys(s)[1].0 { CodesInjective(s[0], s[1]); }
        assert WithKeys([s[0]] + Dedup(rest)) == [Keyed(s[0])] + WithKeys(Dedup(rest));
        ConsAscends(Keyed(s[0]), WithKeys(Dedup(rest)));
      }
    }
  }

  /** Sorting and dropping equal neighbours gives the members once each, in dictionary order. */
  lemma SortDedupIsSorted(s: seq<string>)
    ensures SortDedup(s) == Sorted(Members(s)) && Members(SortDedup(s)) == Members(s)
    ensures InNameOrder(SortDedup(s))
  {
    SortedFacts(Members(s));
    hide Sort, Arrange, Less, Codes, Dedup, InNameOrder;
    var es := WithKeys(s);
    SortWeakly(es);
    var t := Sort(es);
    forall i | 0 <= i < |t| ensures t[i] == WithKeys(Plain(t))[i] && t[i].1 in s {
      assert t[i] in Entries(t);
      var j :| 0 <= j < |es| && es[j] == t[i];
    }
    assert WithKeys(Plain(t)) == t;
    forall n | n in s ensures n in Plain(t) {
      var j :| 0 <= j < |s| && s[j] == n;
      assert es[j] in Entries(es);
      var i :| 0 <= i < |t| && t[i] == es[j];
      assert Plain(t)[i] == n;
    }
    assert Members(Plain(t)) == Members(s);
    DedupAscends(Plain(t));
    AscendingIsSorted(Dedup(Plain(t)));
  }
}
