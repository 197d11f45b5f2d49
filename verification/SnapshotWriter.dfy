/**
 Resolving and digesting as they run (core/rust/src/snapshot.rs): a loop that fills in inherited
 payloads, and a writer that appends to its buffer.
 */
module SnapshotWriter {
  import opened Optional
  import opened Results
  import opened ByteStrings
  import opened Sequences
  import opened Ordering
  import opened Snapshots

  // ----- validation -----

  method CheckUnique<T>(items: seq<T>, key: T -> Bytes) returns (ok: bool)
    ensures ok <==> Unique(items, key)
  {
    var seen: set<Bytes> := {};
    var i := 0;
    while i < |items|
      invariant 0 <= i <= |items|
      invariant seen == set j | 0 <= j < i :: key(items[j])
      invariant forall j, k :: 0 <= j < k < i ==> key(items[j]) != key(items[k])
    {
      if key(items[i]) in seen { return false; }
      seen := seen + {key(items[i])};
      i := i + 1;
    }
    ok := true;
  }

  method CheckNamespaces<V>(h: Host<V>, ns: seq<Namespace>, incremental: bool) returns (fault: Option<SnapshotError>)
    ensures fault == NamespaceFault(h, ns, incremental)
  {
    var i := 0;
    assert ns[0..] == ns;
    while i < |ns|
      invariant 0 <= i <= |ns| && NamespaceFault(h, ns[i..], incremental) == NamespaceFault(h, ns, incremental)
    {
      assert ns[i..][1..] == ns[i + 1..];
      var n := ns[i];
      if n.name == [] { return Some(NamespaceNameRequired); }
      match n.halc {
        case Some(bytes) => if h.sha(bytes) != n.digest { return Some(NamespaceChecksum); }
        case None => if !incremental { return Some(InheritedInFull); }
      }
      i := i + 1;
    }
    fault := None;
  }

  method CheckState<V>(h: Host<V>, state: map<Bytes, V>) returns (fault: Option<SnapshotError>)
    ensures fault == StateFault(h, Arrange(Pairs(state)))
  {
    hide Arrange, Pairs;
    var es := ListPairs(state);
    var i := 0;
    assert es[0..] == es;
    while i < |es|
      invariant 0 <= i <= |es| && StateFault(h, es[i..]) == StateFault(h, es)
    {
      assert es[i..][1..] == es[i + 1..];
      var (name, value) := es[i].1;
      if name == [] || !h.transferable(value) { return Some(NonTransferableState); }
      if h.encode(value).None? { return Some(StateEncoding); }
      i := i + 1;
    }
    fault := None;
  }

  method Validate<V>(h: Host<V>, m: Manifest<V>, incremental: bool) returns (fault: Option<SnapshotError>)
    ensures fault == Fault(h, m, incremental)
  {
    hide Unique, NamespaceFault, StateFault, Arrange, Pairs;
    if m.languageVersion == [] { return Some(VersionRequired); }
    var libraries := CheckUnique(m.libraries, LibraryId);
    if !libraries { return Some(DuplicateLibrary); }
    var namespaces := CheckUnique(m.namespaces, NamespaceName);
    if !namespaces { return Some(DuplicateNamespace); }
    var secrets := CheckUnique(m.secrets, SecretId);
    if !secrets { return Some(DuplicateSecret); }
    var accelerators := CheckUnique(m.accelerators, AcceleratorId);
    if !accelerators { return Some(DuplicateAccelerator); }
    fault := CheckNamespaces(h, m.namespaces, incremental);
    if fault.Some? { return; }
    fault := CheckState(h, m.initialState);
    if fault.Some? { return; }
    if exists s :: s in m.secrets && (s.id == [] || s.purpose == []) { return Some(SecretIncomplete); }
    if exists a :: a in m.accelerators && h.sha(a.bytes) != a.digest { return Some(AcceleratorChecksum); }
    fault := None;
  }

  // ----- the writer -----

  class Writer {
    var out: Bytes

    constructor ()
      ensures out == []
    {
      out := [];
    }

    /** Appends what the text of something is, or reports why it has none. */
    method Append(text: Res<Bytes>) returns (r: Res<()>)
      modifies this
      ensures r.Ok? <==> text.Ok?
      ensures r.Ok? ==> out == old(out) + text.value
      ensures r.Err? ==> text == Err(r.error)
    {
      if text.Err? { return Err(text.error); }
      out := out + text.value;
      r := Ok(());
    }

    /** A count, then every item in the order given. */
    method WriteSection<T>(es: seq<(Key, T)>, text: T -> Res<Bytes>) returns (r: Res<()>)
      modifies this
      ensures r.Ok? <==> Section(es, text).Ok?
      ensures r.Ok? ==> out == old(out) + Section(es, text).value
      ensures r.Err? ==> Section(es, text) == Err(r.error)
    {
      hide Counted;
      r := Append(Counted(|es|));
      if r.Err? { return; }
      ghost var head := out;
      var i := 0;
      while i < |es|
        invariant 0 <= i <= |es| && Texts(es[..i], text).Ok? && out == head + Texts(es[..i], text).value
      {
        assert es[..i + 1][..i] == es[..i];
        r := Append(text(es[i].1));
        if r.Err? {
          TextsStop(es, text, i + 1);
          return;
        }
        i := i + 1;
      }
      assert es[..i] == es;
      r := Ok(());
    }

    method WriteCode<V>(m: Manifest<V>) returns (r: Res<()>)
      modifies this
      ensures r.Ok? <==> CodeText(m).Ok?
      ensures r.Ok? ==> out == old(out) + CodeText(m).value
      ensures r.Err? ==> CodeText(m) == Err(r.error)
    {
      hide Section, Sort, Keyed, Block;
      var _ :- Append(Block(m.languageVersion));
      out := out + m.lock;
      ghost var a := Block(m.languageVersion).value + m.lock;
      assert out == old(out) + a;
      var _ :- WriteSection(Sort(Keyed(m.libraries, LibraryId)), LibraryText);
      ghost var b := Section(Sort(Keyed(m.libraries, LibraryId)), LibraryText).value;
      Joined(old(out), a, b);
      var _ :- WriteSection(Sort(Keyed(m.namespaces, NamespaceName)), NamespaceText);
      Joined(old(out), a + b, Section(Sort(Keyed(m.namespaces, NamespaceName)), NamespaceText).value);
      r := Ok(());
    }

    method WriteSettings<V>(h: Host<V>, m: Manifest<V>) returns (r: Res<()>)
      requires forall k :: k in m.initialState ==> h.encode(m.initialState[k]).Some?
      modifies this
      ensures r.Ok? <==> SettingsText(h, m).Ok?
      ensures r.Ok? ==> out == old(out) + SettingsText(h, m).value
      ensures r.Err? ==> SettingsText(h, m) == Err(r.error)
    {
      hide Section, Sort, Arrange, Keyed, Pairs, Singles, EncodedState;
      var entrypoints := ListPairs(m.entrypoints);
      var _ :- WriteSection(entrypoints, PairText);
      ghost var a := Section(entrypoints, PairText).value;
      var state := ListPairs(EncodedState(h, m.initialState));
      var _ :- WriteSection(state, PairText);
      ghost var b := Section(state, PairText).value;
      Joined(old(out), a, b);
      var capabilities := ListSingles(m.capabilities);
      var _ :- WriteSection(capabilities, Block);
      ghost var c := Section(capabilities, Block).value;
      Joined(old(out), a + b, c);
      var _ :- WriteSection(Sort(Keyed(m.secrets, SecretId)), SecretText);
      Joined(old(out), a + b + c, Section(Sort(Keyed(m.secrets, SecretId)), SecretText).value);
      r := Ok(());
    }

    /** The manifest without its accelerators, whose place holds a count of none. */
    method WriteManifest<V>(h: Host<V>, m: Manifest<V>) returns (r: Res<()>)
      requires out == [] && forall k :: k in m.initialState ==> h.encode(m.initialState[k]).Some?
      modifies this
      ensures r.Ok? <==> Text(h, m).Ok?
      ensures r.Ok? ==> out == Text(h, m).value
      ensures r.Err? ==> Text(h, m) == Err(r.error)
    {
      hide CodeText, SettingsText;
      var _ :- WriteCode(m);
      var _ :- WriteSettings(h, m);
      out := out + BigEndian(0, 4);
      r := Ok(());
    }
  }

  lemma {:induction false} TextsStop<T>(es: seq<(Key, T)>, text: T -> Res<Bytes>, i: nat)
    requires i <= |es| && Texts(es[..i], text).Err?
    ensures Texts(es, text) == Texts(es[..i], text)
    decreases |es|
  {
    if i == |es| {
      assert es[..i] == es;
    } else {
      var front := es[..|es| - 1];
      assert front[..i] == es[..i];
      TextsStop(front, text, i);
    }
  }

  /** The entries of an ordered map, in order of key. */
  method ListPairs<V>(m: map<Bytes, V>) returns (es: seq<(Key, (Bytes, V))>)
    ensures es == Arrange(Pairs(m))
  {
    hide Sort, Arrange;
    var list: seq<(Key, (Bytes, V))> := [];
    var rest := m.Keys;
    while rest != {}
      invariant rest <= m.Keys
      invariant forall e :: e in list <==> e in Pairs(m) && e.1.0 !in rest
      invariant forall i, j :: 0 <= i < j < |list| ==> list[i].0 != list[j].0
      decreases |rest|
    {
      var k :| k in rest;
      assert forall e :: e in list ==> e.0 != k;
      list := list + [KeyedOne((k, m[k]), First)];
      rest := rest - {k};
    }
    SortIsArrange(list);
    assert Entries(list) == Pairs(m);
    es := Sort(list);
  }

  method ListSingles(s: set<Bytes>) returns (es: seq<(Key, Bytes)>)
    ensures es == Arrange(Singles(s))
  {
    hide Sort, Arrange;
    var list: seq<(Key, Bytes)> := [];
    var rest := s;
    while rest != {}
      invariant rest <= s
      invariant forall e :: e in list <==> e in Singles(s) && e.1 !in rest
      invariant forall i, j :: 0 <= i < j < |list| ==> list[i].0 != list[j].0
      decreases |rest|
    {
      var d :| d in rest;
      assert forall e :: e in list ==> e.0 != d;
      list := list + [KeyedOne(d, Itself)];
      rest := rest - {d};
    }
    SortIsArrange(list);
    assert Entries(list) == Singles(s);
    es := Sort(list);
  }

  method Digest<V>(h: Host<V>, m: Manifest<V>) returns (r: Res<Bytes>)
    ensures r == LogicalDigest(h, m)
  {
    hide Fault, Text;
    var fault := Validate(h, m, false);
    if fault.Some? { return Err(fault.value); }
    assert Valid(h, m, false);
    ValidState(h, m, false);
    var writer := new Writer();
    var _ :- writer.WriteManifest(h, m);
    r := Ok(h.sha(writer.out));
  }

  // ----- resolving -----

  /** Fills in the payloads a delta inherits from its base. */
  method FillIn(namespaces: seq<Namespace>, base: seq<Namespace>) returns (r: Res<seq<Namespace>>)
    ensures r == Inherit(namespaces, base)
  {
    var filled := namespaces;
    var i := 0;
    assert namespaces[0..] == namespaces;
    ghost var whole := Inherit(namespaces, base);
    assert whole.Ok? ==> filled[..0] + whole.value == whole.value;
    while i < |namespaces|
      invariant 0 <= i <= |namespaces| && |filled| == |namespaces| && filled[i..] == namespaces[i..]
      invariant var rest := Inherit(namespaces[i..], base);
                whole == if rest.Ok? then Ok(filled[..i] + rest.value) else rest
    {
      assert namespaces[i..][1..] == namespaces[i + 1..];
      var n := namespaces[i];
      ghost var rest := Inherit(namespaces[i + 1..], base);
      if n.halc.None? {
        var source := Find(base, n.name);
        if source.None? { return Err(InheritedMissing); }
        if source.value.digest != n.digest { return Err(InheritedMismatch); }
        filled := filled[i := n.(halc := source.value.halc)];
      }
      assert filled[i] == filled[i..][0];
      if rest.Ok? { assert filled[..i] + ([filled[i]] + rest.value) == filled[..i + 1] + rest.value; }
      i := i + 1;
    }
    assert filled[..i] + [] == filled;
    r := Ok(filled);
  }

  /** Resolving a delta made by leaving out payloads the base carries gives the full snapshot back. */
  method ResolveArtifact<V>(h: Host<V>, a: Artifact<V>, base: Option<Resolved<V>>) returns (r: Res<Resolved<V>>)
    ensures r == Resolve(h, a, base)
    ensures r.Ok? ==> forall n :: n in r.value.manifest.namespaces ==> n.halc.Some? && h.sha(n.halc.value) == n.digest
  {
    if Resolve(h, a, base).Ok? { ResolvedIsSound(h, a, base); }
    hide Fault, LogicalDigest, Inherit;
    var fault := Validate(h, a.manifest, a.base.Some?);
    if fault.Some? { return Err(fault.value); }
    if a.base.None? && base.Some? { return Err(FullTakesNoBase); }
    if a.base.Some? && base.None? { return Err(BaseRequired); }
    if a.base.Some? && a.base.value != base.value.digest { return Err(BaseMismatch); }
    var manifest := a.manifest;
    if base.Some? {
      var filled :- FillIn(manifest.namespaces, base.value.manifest.namespaces);
      manifest := manifest.(namespaces := filled);
    }
    if exists n :: n in manifest.namespaces && n.halc.None? { return Err(InheritedInFull); }
    var digest :- Digest(h, manifest);
    r := Ok(Resolved(digest, manifest));
  }
}
