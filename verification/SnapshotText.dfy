/**
 The text a logical digest is taken of tells everything but the order of lists and the
 accelerators: two valid manifests have the same text exactly when they agree on the rest.
 */
module SnapshotText {
  import opened Optional
  import opened Results
  import opened ByteStrings
  import opened Sequences
  import opened Ordering
  import opened Snapshots

  const HASH_BYTES := 32

  /** Digests have a fixed width. */
  predicate FixedWidth<V>(m: Manifest<V>) {
    && |m.lock| == HASH_BYTES
    && (forall l :: l in m.libraries ==> LibraryOk(l))
    && (forall n :: n in m.namespaces ==> NamespaceOk(n))
  }

  predicate LibraryOk(l: Library) { |l.digest| == HASH_BYTES }
  predicate NamespaceOk(n: Namespace) { |n.digest| == HASH_BYTES }
  predicate Any<T>(x: T) { true }

  /** The manifests agree but for list order and accelerators; state is compared as encoded. */
  ghost predicate SameContent<V>(h: Host<V>, m: Manifest<V>, n: Manifest<V>)
    requires Encodable(h, m) && Encodable(h, n)
  {
    && m.languageVersion == n.languageVersion && m.lock == n.lock
    && SameItems(m.libraries, n.libraries) && SameItems(m.namespaces, n.namespaces)
    && m.entrypoints == n.entrypoints
    && EncodedState(h, m.initialState) == EncodedState(h, n.initialState)
    && m.capabilities == n.capabilities
    && SameItems(m.secrets, n.secrets)
  }

  ghost predicate Encodable<V>(h: Host<V>, m: Manifest<V>) {
    forall k :: k in m.initialState ==> h.encode(m.initialState[k]).Some?
  }

  // ----- cutting a text off the front -----

  lemma Cut(a: Bytes, b: Bytes, s: Bytes, t: Bytes)
    requires |a| == |b| && a + s == b + t
    ensures a == b && s == t
  {
    assert (a + s)[..|a|] == a && (b + t)[..|b|] == b;
    assert (a + s)[|a|..] == s && (b + t)[|b|..] == t;
  }

  lemma CountCut(n: nat, m: nat, s: Bytes, t: Bytes)
    requires n < U32 && m < U32 && BigEndian(n, 4) + s == BigEndian(m, 4) + t
    ensures n == m && s == t
  {
    assert Power256(4) == U32 by { assert Power256(2) == 0x1_0000; }
    hide BigEndian, Power256;
    Cut(BigEndian(n, 4), BigEndian(m, 4), s, t);
    BigEndianRoundTrip(n, 4);
    BigEndianRoundTrip(m, 4);
  }

  lemma BlockCut(a: Bytes, b: Bytes, s: Bytes, t: Bytes)
    requires Block(a).Ok? && Block(b).Ok? && Block(a).value + s == Block(b).value + t
    ensures a == b && s == t
  {
    hide BigEndian;
    Joined(BigEndian(|a|, 4), a, s);
    Joined(BigEndian(|b|, 4), b, t);
    CountCut(|a|, |b|, a + s, b + t);
    Cut(a, b, s, t);
  }

  lemma OptionalCut(a: Option<Bytes>, b: Option<Bytes>, s: Bytes, t: Bytes)
    requires OptionalBlock(a).Ok? && OptionalBlock(b).Ok? && OptionalBlock(a).value + s == OptionalBlock(b).value + t
    ensures a == b && s == t
  {
    hide Block;
    assert (OptionalBlock(a).value + s)[0] == OptionalBlock(a).value[0];
    assert (OptionalBlock(b).value + t)[0] == OptionalBlock(b).value[0];
    if a.None? && b.None? {
      Cut([0], [0], s, t);
    } else if a.Some? && b.Some? {
      var x, y := Block(a.value).value, Block(b.value).value;
      Joined([1], x, s);
      Joined([1], y, t);
      Cut([1], [1], x + s, y + t);
      BlockCut(a.value, b.value, s, t);
    }
  }

  /** No text of an item runs into what follows it. */
  ghost predicate Cuts<T(!new)>(text: T -> Res<Bytes>, ok: T -> bool) {
    forall x, y, s: Bytes, t: Bytes ::
      ok(x) && ok(y) && text(x).Ok? && text(y).Ok? && text(x).value + s == text(y).value + t ==> x == y && s == t
  }

  lemma LibraryCuts()
    ensures Cuts(LibraryText, LibraryOk)
  {
    hide Block;
    forall x, y, s: Bytes, t: Bytes
      | LibraryOk(x) && LibraryOk(y) && LibraryText(x).Ok? && LibraryText(y).Ok? && LibraryText(x).value + s == LibraryText(y).value + t
      ensures x == y && s == t
    {
      JoinedFour(Block(x.id).value, Block(x.version).value, x.digest, s);
      JoinedFour(Block(y.id).value, Block(y.version).value, y.digest, t);
      BlockCut(x.id, y.id, Block(x.version).value + (x.digest + s), Block(y.version).value + (y.digest + t));
      BlockCut(x.version, y.version, x.digest + s, y.digest + t);
      Cut(x.digest, y.digest, s, t);
    }
  }

  lemma NamespaceCuts()
    ensures Cuts(NamespaceText, NamespaceOk)
  {
    hide Block, OptionalBlock;
    forall x, y, s: Bytes, t: Bytes
      | NamespaceOk(x) && NamespaceOk(y) && NamespaceText(x).Ok? && NamespaceText(y).Ok?
        && NamespaceText(x).value + s == NamespaceText(y).value + t
      ensures x == y && s == t
    {
      JoinedFour(Block(x.name).value, x.digest, OptionalBlock(x.halc).value, s);
      JoinedFour(Block(y.name).value, y.digest, OptionalBlock(y.halc).value, t);
      BlockCut(x.name, y.name, x.digest + (OptionalBlock(x.halc).value + s), y.digest + (OptionalBlock(y.halc).value + t));
      Cut(x.digest, y.digest, OptionalBlock(x.halc).value + s, OptionalBlock(y.halc).value + t);
      OptionalCut(x.halc, y.halc, s, t);
    }
  }

  lemma PairCuts()
    ensures Cuts(PairText, Any)
  {
    hide Block;
    forall x, y, s: Bytes, t: Bytes
      | PairText(x).Ok? && PairText(y).Ok? && PairText(x).value + s == PairText(y).value + t
      ensures x == y && s == t
    {
      Joined(Block(x.0).value, Block(x.1).value, s);
      Joined(Block(y.0).value, Block(y.1).value, t);
      BlockCut(x.0, y.0, Block(x.1).value + s, Block(y.1).value + t);
      BlockCut(x.1, y.1, s, t);
    }
  }

  lemma BlockCuts()
    ensures Cuts(Block, Any)
  {
    hide Block;
    forall x, y, s: Bytes, t: Bytes | Block(x).Ok? && Block(y).Ok? && Block(x).value + s == Block(y).value + t
      ensures x == y && s == t
    {
      BlockCut(x, y, s, t);
    }
  }

  lemma SecretCuts()
    ensures Cuts(SecretText, Any)
  {
    hide Block, OptionalBlock;
    forall x, y, s: Bytes, t: Bytes
      | SecretText(x).Ok? && SecretText(y).Ok? && SecretText(x).value + s == SecretText(y).value + t
      ensures x == y && s == t
    {
      var fx, fy: Bytes := [if x.required then 1 else 0], [if y.required then 1 else 0];
      var vx, vy := OptionalBlock(x.version).value, OptionalBlock(y.version).value;
      JoinedFive(Block(x.id).value, Block(x.purpose).value, fx, vx, s);
      JoinedFive(Block(y.id).value, Block(y.purpose).value, fy, vy, t);
      BlockCut(x.id, y.id, Block(x.purpose).value + (fx + (vx + s)), Block(y.purpose).value + (fy + (vy + t)));
      BlockCut(x.purpose, y.purpose, fx + (vx + s), fy + (vy + t));
      Cut(fx, fy, vx + s, vy + t);
      assert fx[0] == fy[0];
      OptionalCut(x.version, y.version, s, t);
    }
  }

  // ----- sections -----

  function Items<T>(es: seq<(Key, T)>): seq<T> { seq(|es|, i requires 0 <= i < |es| => es[i].1) }

  lemma {:induction false} TextsCut<T(!new)>(es: seq<(Key, T)>, fs: seq<(Key, T)>, text: T -> Res<Bytes>, ok: T -> bool, s: Bytes, t: Bytes)
    requires Cuts(text, ok) && |es| == |fs| && (forall e :: e in es ==> ok(e.1)) && (forall e :: e in fs ==> ok(e.1))
    requires Texts(es, text).Ok? && Texts(fs, text).Ok? && Texts(es, text).value + s == Texts(fs, text).value + t
    ensures Items(es) == Items(fs) && s == t
    decreases |es|
  {
    if es == [] {
      assert [] + s == s && [] + t == t;
    } else {
      var last := |es| - 1;
      var a, b := Texts(es[..last], text).value, Texts(fs[..last], text).value;
      var x, y := text(es[last].1).value, text(fs[last].1).value;
      Joined(a, x, s);
      Joined(b, y, t);
      assert (forall e :: e in es[..last] ==> e in es) && (forall e :: e in fs[..last] ==> e in fs);
      assert es[last] in es && fs[last] in fs;
      TextsCut(es[..last], fs[..last], text, ok, x + s, y + t);
      assert x + s == y + t;
      assert es[last].1 == fs[last].1 && s == t;
      forall i | 0 <= i < |es| ensures Items(es)[i] == Items(fs)[i] {
        if i < last { assert Items(es[..last])[i] == Items(fs[..last])[i]; }
      }
    }
  }

  lemma SectionCut<T(!new)>(es: seq<(Key, T)>, fs: seq<(Key, T)>, text: T -> Res<Bytes>, ok: T -> bool, s: Bytes, t: Bytes)
    requires Cuts(text, ok) && (forall e :: e in es ==> ok(e.1)) && (forall e :: e in fs ==> ok(e.1))
    requires Section(es, text).Ok? && Section(fs, text).Ok? && Section(es, text).value + s == Section(fs, text).value + t
    ensures Items(es) == Items(fs) && s == t
  {
    hide Cuts, Texts, BigEndian, Items;
    var a, b := Texts(es, text).value, Texts(fs, text).value;
    Joined(BigEndian(|es|, 4), a, s);
    Joined(BigEndian(|fs|, 4), b, t);
    CountCut(|es|, |fs|, a + s, b + t);
    TextsCut(es, fs, text, ok, s, t);
  }

  /** A sorted list has the items it was made from. */
  lemma SortedItems<T(!new)>(items: seq<T>, key: T -> Bytes)
    requires Unique(items, key)
    ensures SameItems(Items(Sort(Keyed(items, key))), items)
    ensures forall e :: e in Sort(Keyed(items, key)) ==> e.1 in items
  {
    hide Sort;
    var es := Sort(Keyed(items, key));
    SortEntries(Keyed(items, key));
    forall e ensures e in es <==> e.1 in items && e == KeyedOne(e.1, key) {
      KeyedEntry(items, key, e);
      assert e in es <==> e in Entries(es);
    }
    forall x ensures x in Items(es) <==> x in items {
      if x in items {
        assert KeyedOne(x, key) in es;
        var i :| 0 <= i < |es| && es[i] == KeyedOne(x, key);
        assert Items(es)[i] == x;
      }
      if x in Items(es) {
        var i :| 0 <= i < |es| && Items(es)[i] == x;
        assert es[i] in es;
      }
    }
  }

  lemma ArrangedItems<T(!new)>(es: set<(Key, T)>, fs: set<(Key, T)>)
    requires Items(Arrange(es)) == Items(Arrange(fs))
    requires (forall x, y :: x in es && y in fs && x.1 == y.1 ==> x == y)
    ensures es == fs
  {
    hide Arrange;
    ArrangeEntries(es);
    ArrangeEntries(fs);
    var a, b := Arrange(es), Arrange(fs);
    assert |Items(a)| == |a| && |Items(b)| == |b|;
    forall i | 0 <= i < |a| ensures a[i] == b[i] {
      assert a[i] in Entries(a) && b[i] in Entries(b);
      assert Items(a)[i] == a[i].1 && Items(b)[i] == b[i].1;
    }
    assert a == b;
  }

  lemma PairsTell(m: map<Bytes, Bytes>, n: map<Bytes, Bytes>)
    requires Items(Arrange(Pairs(m))) == Items(Arrange(Pairs(n)))
    ensures m == n
  {
    hide Arrange, Items;
    ArrangedItems(Pairs(m), Pairs(n));
    forall k ensures k in m <==> k in n {
      if k in m { assert KeyedOne((k, m[k]), First) in Pairs(n); }
      if k in n { assert KeyedOne((k, n[k]), First) in Pairs(m); }
    }
    forall k | k in m ensures m[k] == n[k] {
      assert KeyedOne((k, m[k]), First) in Pairs(n);
    }
  }

  lemma SinglesTell(s: set<Bytes>, t: set<Bytes>)
    requires Items(Arrange(Singles(s))) == Items(Arrange(Singles(t)))
    ensures s == t
  {
    hide Arrange, Items;
    ArrangedItems(Singles(s), Singles(t));
    forall d ensures d in s <==> d in t {
      if d in s { assert KeyedOne(d, Itself) in Singles(t); }
      if d in t { assert KeyedOne(d, Itself) in Singles(s); }
    }
  }

  // ----- manifests -----

  lemma CodeCut<V>(m: Manifest<V>, n: Manifest<V>, s: Bytes, t: Bytes)
    requires FixedWidth(m) && FixedWidth(n) && Unique(m.libraries, LibraryId) && Unique(n.libraries, LibraryId)
    requires Unique(m.namespaces, NamespaceName) && Unique(n.namespaces, NamespaceName)
    requires CodeText(m).Ok? && CodeText(n).Ok? && CodeText(m).value + s == CodeText(n).value + t
    ensures m.languageVersion == n.languageVersion && m.lock == n.lock
    ensures SameItems(m.libraries, n.libraries) && SameItems(m.namespaces, n.namespaces) && s == t
  {
    var ml, nl := Sort(Keyed(m.libraries, LibraryId)), Sort(Keyed(n.libraries, LibraryId));
    var mn, nn := Sort(Keyed(m.namespaces, NamespaceName)), Sort(Keyed(n.namespaces, NamespaceName));
    SortedItems(m.libraries, LibraryId);
    SortedItems(n.libraries, LibraryId);
    SortedItems(m.namespaces, NamespaceName);
    SortedItems(n.namespaces, NamespaceName);
    LibraryCuts();
    NamespaceCuts();
    assert (forall e :: e in ml ==> LibraryOk(e.1)) && (forall e :: e in nl ==> LibraryOk(e.1));
    assert (forall e :: e in mn ==> NamespaceOk(e.1)) && (forall e :: e in nn ==> NamespaceOk(e.1));
    hide Sort, Keyed, Unique, Cuts, Section, Block, FixedWidth, Items;
    var a, b, c, d := Block(m.languageVersion).value, m.lock, Section(ml, LibraryText).value, Section(mn, NamespaceText).value;
    var e, f, g, i := Block(n.languageVersion).value, n.lock, Section(nl, LibraryText).value, Section(nn, NamespaceText).value;
    JoinedFive(a, b, c, d, s);
    JoinedFive(e, f, g, i, t);
    BlockCut(m.languageVersion, n.languageVersion, b + (c + (d + s)), f + (g + (i + t)));
    assert |b| == |f| by { WidthOfLock(m); WidthOfLock(n); }
    Cut(b, f, c + (d + s), g + (i + t));
    SectionCut(ml, nl, LibraryText, LibraryOk, d + s, i + t);
    SectionCut(mn, nn, NamespaceText, NamespaceOk, s, t);
  }

  lemma WidthOfLock<V>(m: Manifest<V>)
    requires FixedWidth(m)
    ensures |m.lock| == HASH_BYTES
  {
  }

  lemma SettingsCut<V>(h: Host<V>, m: Manifest<V>, n: Manifest<V>, s: Bytes, t: Bytes)
    requires Encodable(h, m) && Encodable(h, n) && Unique(m.secrets, SecretId) && Unique(n.secrets, SecretId)
    requires SettingsText(h, m).Ok? && SettingsText(h, n).Ok? && SettingsText(h, m).value + s == SettingsText(h, n).value + t
    ensures m.entrypoints == n.entrypoints && EncodedState(h, m.initialState) == EncodedState(h, n.initialState)
    ensures m.capabilities == n.capabilities && SameItems(m.secrets, n.secrets) && s == t
  {
    var me, ne := Arrange(Pairs(m.entrypoints)), Arrange(Pairs(n.entrypoints));
    var ms, ns := EncodedState(h, m.initialState), EncodedState(h, n.initialState);
    var mc, nc := Arrange(Singles(m.capabilities)), Arrange(Singles(n.capabilities));
    var mx, nx := Sort(Keyed(m.secrets, SecretId)), Sort(Keyed(n.secrets, SecretId));
    SortedItems(m.secrets, SecretId);
    SortedItems(n.secrets, SecretId);
    PairCuts();
    BlockCuts();
    SecretCuts();
    hide Sort, Keyed, Unique, Cuts, Section, Block, Items, Arrange, Pairs, Singles, EncodedState, Encodable;
    var a, b := Section(me, PairText).value, Section(Arrange(Pairs(ms)), PairText).value;
    var c, d := Section(mc, Block).value, Section(mx, SecretText).value;
    var e, f := Section(ne, PairText).value, Section(Arrange(Pairs(ns)), PairText).value;
    var g, i := Section(nc, Block).value, Section(nx, SecretText).value;
    JoinedFive(a, b, c, d, s);
    JoinedFive(e, f, g, i, t);
    SectionCut(me, ne, PairText, Any, b + (c + (d + s)), f + (g + (i + t)));
    SectionCut(Arrange(Pairs(ms)), Arrange(Pairs(ns)), PairText, Any, c + (d + s), g + (i + t));
    SectionCut(mc, nc, Block, Any, d + s, i + t);
    SectionCut(mx, nx, SecretText, Any, s, t);
    PairsTell(m.entrypoints, n.entrypoints);
    PairsTell(ms, ns);
    SinglesTell(m.capabilities, n.capabilities);
  }

  ghost predicate Listed<V>(m: Manifest<V>) {
    Unique(m.libraries, LibraryId) && Unique(m.namespaces, NamespaceName) && Unique(m.secrets, SecretId)
  }

  lemma SameCode<V>(m: Manifest<V>, n: Manifest<V>)
    requires Listed(m) && Listed(n) && m.languageVersion == n.languageVersion && m.lock == n.lock
    requires SameItems(m.libraries, n.libraries) && SameItems(m.namespaces, n.namespaces)
    ensures CodeText(m) == CodeText(n)
  {
    hide Section, Sort, Keyed, Unique, SameItems, Block;
    SortIgnoresOrder(m.libraries, n.libraries, LibraryId);
    SortIgnoresOrder(m.namespaces, n.namespaces, NamespaceName);
  }

  lemma SameSettings<V>(h: Host<V>, m: Manifest<V>, n: Manifest<V>)
    requires Encodable(h, m) && Encodable(h, n) && Listed(m) && Listed(n) && SameContent(h, m, n)
    ensures SettingsText(h, m) == SettingsText(h, n)
  {
    hide Section, Sort, Keyed, Unique, SameItems, Arrange, Pairs, Singles, EncodedState;
    SortIgnoresOrder(m.secrets, n.secrets, SecretId);
  }

  /**
   Two manifests have the same text exactly when they agree up to list order and accelerators:
   the logical digest is taken of nothing less and nothing more.
   */
  lemma TextIffSameContent<V>(h: Host<V>, m: Manifest<V>, n: Manifest<V>)
    requires Encodable(h, m) && Encodable(h, n) && FixedWidth(m) && FixedWidth(n) && Listed(m) && Listed(n)
    requires Text(h, m).Ok? && Text(h, n).Ok?
    ensures Text(h, m) == Text(h, n) <==> SameContent(h, m, n)
  {
    hide Unique, FixedWidth, EncodedState, SameItems, CodeText, SettingsText, BigEndian;
    if SameContent(h, m, n) {
      SameCode(m, n);
      SameSettings(h, m, n);
    }
    if Text(h, m) == Text(h, n) {
      var zero := BigEndian(0, 4);
      var a, b, c, d := CodeText(m).value, SettingsText(h, m).value, CodeText(n).value, SettingsText(h, n).value;
      Joined(a, b, zero);
      Joined(c, d, zero);
      CodeCut(m, n, b + zero, d + zero);
      SettingsCut(h, m, n, zero, zero);
    }
  }

  /** So, unless the hash collides on these two texts, the digests of two full manifests agree exactly then. */
  lemma DigestTells<V>(h: Host<V>, m: Manifest<V>, n: Manifest<V>)
    requires Full(h, m) && Full(h, n) && FixedWidth(m) && FixedWidth(n) && Encodable(h, m) && Encodable(h, n)
    requires Text(h, m).Ok? && Text(h, n).Ok? && h.sha(Text(h, m).value) == h.sha(Text(h, n).value) ==> Text(h, m) == Text(h, n)
    ensures LogicalDigest(h, m) == LogicalDigest(h, n) <==> SameContent(h, m, n)
  {
    assert Listed(m) && Listed(n);
    hide Fault, Text, FixedWidth, SameContent, Listed;
    TextIffSameContent(h, m, n);
  }
}
