/**
 Byte-wise (lexicographic) order and the arrangement of a finite set in that order.

 Vectors of bytes and strings are compared this way by the sorts of core/rust/src/hta.rs,
 core/rust/src/file.rs and scripts/runtime/foundation_parity.py.
 */
module Ordering {
  import opened Sequences

  type Key = seq<int>

  predicate Less(a: Key, b: Key) {
    if a == [] then b != []
    else b != [] && (a[0] < b[0] || (a[0] == b[0] && Less(a[1..], b[1..])))
  }

  /** The first place at which two keys differ, or at which one ends. */
  ghost predicate DifferAt(a: Key, b: Key, k: nat) {
    && k <= |a| && k <= |b| && a[..k] == b[..k]
    && ((k == |a| && k < |b|) || (k < |a| && k < |b| && a[k] < b[k]))
  }

  /** Dictionary order: `a` is a proper prefix of `b`, or has the smaller item where they first differ. */
  ghost predicate Precedes(a: Key, b: Key) { exists k: nat :: DifferAt(a, b, k) }

  lemma {:induction false} LessMeans(a: Key, b: Key)
    ensures Less(a, b) <==> Precedes(a, b)
    decreases |a|
  {
    if a != [] && b != [] {
      LessMeans(a[1..], b[1..]);
      if Less(a, b) {
        if a[0] == b[0] {
          var k: nat :| DifferAt(a[1..], b[1..], k);
          assert a[..k + 1] == [a[0]] + a[1..][..k] && b[..k + 1] == [b[0]] + b[1..][..k];
          assert DifferAt(a, b, k + 1);
        } else {
          assert DifferAt(a, b, 0);
        }
      }
      if k: nat :| DifferAt(a, b, k) {
        if k > 0 {
          assert a[0] == a[..k][0] == b[..k][0] == b[0];
          assert a[1..][..k - 1] == a[..k][1..] && b[1..][..k - 1] == b[..k][1..];
          assert DifferAt(a[1..], b[1..], k - 1);
        }
      }
    } else {
      if Less(a, b) { assert DifferAt(a, b, 0); }
    }
  }

  lemma {:induction false} LessTotal(a: Key, b: Key)
    ensures Less(a, b) || a == b || Less(b, a)
    decreases |a|
  {
    if a != [] && b != [] {
      LessTotal(a[1..], b[1..]);
      if a[0] == b[0] && a[1..] == b[1..] { assert a == [a[0]] + a[1..] && b == [b[0]] + b[1..]; }
    }
  }

  lemma {:induction false} LessTrans(a: Key, b: Key, c: Key)
    requires Less(a, b) && Less(b, c)
    ensures Less(a, c)
    decreases |a|
  {
    if a != [] && a[0] == b[0] == c[0] { LessTrans(a[1..], b[1..], c[1..]); }
  }

  lemma {:induction false} LessIrreflexive(a: Key)
    ensures !Less(a, a)
    decreases |a|
  {
    if a != [] { LessIrreflexive(a[1..]); }
  }

  /** Entries carry a payload next to the key they are ordered by. */
  predicate Ascending<T>(s: seq<(Key, T)>) {
    forall i, j :: 0 <= i < j < |s| ==> Less(s[i].0, s[j].0)
  }

  /** In dictionary order of their keys, without repeats. */
  ghost predicate InDictionaryOrder<T>(s: seq<(Key, T)>) {
    forall i, j :: 0 <= i < j < |s| ==> Precedes(s[i].0, s[j].0)
  }

  lemma AscendingMeans<T>(s: seq<(Key, T)>)
    ensures Ascending(s) <==> InDictionaryOrder(s)
  {
    hide Less, Precedes;
    forall i, j | 0 <= i < j < |s| ensures Less(s[i].0, s[j].0) <==> Precedes(s[i].0, s[j].0) { LessMeans(s[i].0, s[j].0); }
  }

  ghost predicate DistinctKeys<T>(es: set<(Key, T)>) {
    forall x, y :: x in es && y in es && x.0 == y.0 ==> x == y
  }

  ghost predicate IsLeast<T>(m: (Key, T), es: set<(Key, T)>) {
    m in es && forall x :: x in es ==> m.0 == x.0 || Less(m.0, x.0)
  }

  lemma {:induction false} LeastExists<T>(es: set<(Key, T)>) returns (m: (Key, T))
    requires es != {}
    ensures IsLeast(m, es)
    decreases |es|
  {
    m :| m in es;
    if es != {m} {
      var rest := es - {m};
      assert es == {m} + rest;
      var n := LeastExists(rest);
      LessTotal(m.0, n.0);
      if Less(n.0, m.0) {
        m := n;
      } else {
        forall x | x in es ensures m.0 == x.0 || Less(m.0, x.0) {
          if x != m && m.0 != n.0 && n.0 != x.0 { LessTrans(m.0, n.0, x.0); }
        }
      }
    }
  }

  ghost function Least<T>(es: set<(Key, T)>): (m: (Key, T))
    requires es != {}
    ensures IsLeast(m, es)
  {
    assert exists m :: m in es && IsLeast(m, es) by { var m := LeastExists(es); }
    var m :| m in es && IsLeast(m, es);
    m
  }

  /** The entries of a set, in ascending order of key. */
  ghost function Arrange<T>(es: set<(Key, T)>): seq<(Key, T)>
    decreases |es|
  {
    if es == {} then [] else [Least(es)] + Arrange(es - {Least(es)})
  }

  ghost function Entries<T>(s: seq<(Key, T)>): set<(Key, T)> { set x | x in s }

  lemma {:induction false} ArrangeEntries<T>(es: set<(Key, T)>)
    ensures Entries(Arrange(es)) == es && |Arrange(es)| == |es|
    decreases |es|
  {
    if es != {} {
      var m := Least(es);
      ArrangeEntries(es - {m});
      EntriesCons(m, Arrange(es - {m}));
    }
  }

  lemma EntriesCons<T>(x: (Key, T), s: seq<(Key, T)>)
    ensures Entries([x] + s) == {x} + Entries(s)
  {
  }

  lemma EntriesSnoc<T>(s: seq<(Key, T)>, x: (Key, T))
    ensures Entries(s + [x]) == Entries(s) + {x}
  {
  }

  /** A set with distinct keys is arranged in dictionary order. */
  lemma ArrangeInOrder<T>(es: set<(Key, T)>)
    requires DistinctKeys(es)
    ensures InDictionaryOrder(Arrange(es))
  {
    ArrangeAscends(es);
    AscendingMeans(Arrange(es));
  }

  lemma {:induction false} ArrangeAscends<T>(es: set<(Key, T)>)
    requires DistinctKeys(es)
    ensures Ascending(Arrange(es))
    decreases |es|
  {
    if es != {} {
      var m := Least(es);
      var rest := es - {m};
      ArrangeAscends(rest);
      ArrangeEntries(rest);
      var t := Arrange(rest);
      forall j | 0 <= j < |t| ensures Less(m.0, t[j].0) {
        assert t[j] in Entries(t);
      }
    }
  }

  /** An ascending sequence is the arrangement of its own entries. */
  lemma {:induction false} AscendingIsArrange<T>(s: seq<(Key, T)>)
    requires Ascending(s)
    ensures Arrange(Entries(s)) == s
    decreases |s|
  {
    if s == [] {
      assert Entries(s) == {};
    } else {
      var es := Entries(s);
      assert s[0] in es;
      var m := Least(es);
      assert m == s[0] by {
        var i :| 0 <= i < |s| && s[i] == m;
        if i > 0 {
          assert Less(s[0].0, m.0);
          LessIrreflexive(m.0);
          if Less(m.0, s[0].0) { LessTrans(m.0, s[0].0, m.0); }
        }
      }
      forall x ensures x in Entries(s[1..]) <==> x in es - {m} {
        if x in s[1..] {
          var j :| 0 <= j < |s[1..]| && s[1..][j] == x;
          assert x == s[j + 1] && Less(s[0].0, x.0);
          LessIrreflexive(x.0);
        }
        if x in es && x != m {
          var j :| 0 <= j < |s| && s[j] == x;
          assert x == s[1..][j - 1];
        }
      }
      assert Entries(s[1..]) == es - {m};
      AscendingIsArrange(s[1..]);
    }
  }

  // ----- sorting -----

  /** Inserts after equal keys, as a stable sort does. */
  function Insert<T>(x: (Key, T), s: seq<(Key, T)>): seq<(Key, T)> {
    if s == [] then [x]
    else if Less(x.0, s[0].0) then [x] + s
    else [s[0]] + Insert(x, s[1..])
  }

  function Sort<T>(s: seq<(Key, T)>): seq<(Key, T)> {
    if s == [] then [] else Insert(s[|s| - 1], Sort(s[..|s| - 1]))
  }

  lemma ConsAscends<T>(x: (Key, T), s: seq<(Key, T)>)
    requires Ascending(s) && (s != [] ==> Less(x.0, s[0].0))
    ensures Ascending([x] + s)
  {
    forall j | 0 < j < |s| + 1 ensures Less(x.0, ([x] + s)[j].0) {
      if j > 1 { LessTrans(x.0, s[0].0, s[j - 1].0); }
    }
  }

  lemma {:induction false} InsertEntries<T>(x: (Key, T), s: seq<(Key, T)>)
    requires Ascending(s)
    requires forall y :: y in s ==> y.0 != x.0
    ensures Ascending(Insert(x, s)) && Entries(Insert(x, s)) == Entries(s) + {x} && |Insert(x, s)| == |s| + 1
    decreases |s|
  {
    hide Less;
    if s != [] {
      if Less(x.0, s[0].0) {
        ConsAscends(x, s);
        EntriesCons(x, s);
      } else {
        LessTotal(x.0, s[0].0);
        assert s[0] in s;
        assert forall y :: y in s[1..] ==> y in s;
        InsertEntries(x, s[1..]);
        var t := Insert(x, s[1..]);
        forall j | 0 <= j < |t| ensures Less(s[0].0, t[j].0) {
          assert t[j] in Entries(t);
          if t[j] != x { assert t[j] in s[1..]; }
        }
        ConsAscends(s[0], t);
        EntriesCons(s[0], t);
        EntriesCons(s[0], s[1..]);
        assert s == [s[0]] + s[1..];
      }
    }
  }

  lemma {:induction false} SortEntries<T>(s: seq<(Key, T)>)
    requires DistinctFirsts(s)
    ensures Ascending(Sort(s)) && Entries(Sort(s)) == Entries(s) && |Sort(s)| == |s|
    decreases |s|
  {
    if s != [] {
      var front, x := s[..|s| - 1], s[|s| - 1];
      assert s == front + [x];
      SortEntries(front);
      forall y | y in Sort(front) ensures y.0 != x.0 {
        assert y in Entries(Sort(front));
        var i :| 0 <= i < |front| && front[i] == y;
        assert s[i] == y;
      }
      InsertEntries(x, Sort(front));
      EntriesSnoc(front, x);
    }
  }

  /**
   Sorting entries with distinct keys gives the same entries in dictionary order: the arrangement of
   their set, whatever order they came in.
   */
  lemma SortIsArrange<T>(s: seq<(Key, T)>)
    requires DistinctFirsts(s)
    ensures Sort(s) == Arrange(Entries(s))
    ensures InDictionaryOrder(Sort(s)) && Entries(Sort(s)) == Entries(s) && |Sort(s)| == |s|
  {
    hide Less, Precedes;
    SortEntries(s);
    AscendingIsArrange(Sort(s));
    AscendingMeans(Sort(s));
  }

  /** Strings are ordered by their characters' code points. */
  function Codes(s: string): Key {
    seq(|s|, i requires 0 <= i < |s| => s[i] as int)
  }

  lemma CodesInjective(a: string, b: string)
    requires Codes(a) == Codes(b)
    ensures a == b
  {
    assert |a| == |Codes(a)| == |Codes(b)| == |b|;
    forall i | 0 <= i < |a| ensures a[i] == b[i] {
      assert Codes(a)[i] == Codes(b)[i];
    }
  }
}
