/**
 Session snapshots (core/rust/src/snapshot.rs): validation, the logical digest, and resolving a
 snapshot that inherits namespace payloads from a base.

 SHA-256 and the encoding of initial state are parameters: nothing here depends on them beyond
 being functions of their input.
 */
module Snapshots {
  import opened Optional
  import opened Results
  import opened ByteStrings
  import opened Ordering

  datatype SnapshotError =
    | VersionRequired | DuplicateLibrary | DuplicateNamespace | DuplicateSecret | DuplicateAccelerator
    | NamespaceNameRequired | NamespaceChecksum | InheritedInFull | NonTransferableState | StateEncoding | SecretIncomplete
    | AcceleratorChecksum | FullTakesNoBase | BaseRequired | BaseMismatch | InheritedMissing
    | InheritedMismatch | TooManyItems | ArtifactTooLarge

  type Res<+T> = Result<T, SnapshotError>

  /** Text is kept as its UTF-8 bytes, which is also what it is sorted by. */
  datatype Library = Library(id: Bytes, version: Bytes, digest: Bytes)
  datatype Namespace = Namespace(name: Bytes, digest: Bytes, halc: Option<Bytes>)
  datatype Secret = Secret(id: Bytes, purpose: Bytes, required: bool, version: Option<Bytes>)
  datatype Accelerator = Accelerator(runtime: Bytes, format: Bytes, version: Bytes, digest: Bytes, bytes: Bytes)
  datatype Manifest<V> = Manifest(
    languageVersion: Bytes,
    lock: Bytes,
    libraries: seq<Library>,
    namespaces: seq<Namespace>,
    entrypoints: map<Bytes, Bytes>,
    initialState: map<Bytes, V>,
    capabilities: set<Bytes>,
    secrets: seq<Secret>,
    accelerators: seq<Accelerator>)
  datatype Artifact<V> = Artifact(base: Option<Bytes>, manifest: Manifest<V>)
  datatype Resolved<V> = Resolved(digest: Bytes, manifest: Manifest<V>)

  /** `encode` is the encoding of a value, if it has one. */
  datatype Host<!V> = Host(sha: Bytes -> Bytes, transferable: V -> bool, encode: V -> Option<Bytes>)

  // ----- validation -----

  ghost predicate Unique<T>(items: seq<T>, key: T -> Bytes) {
    forall i, j :: 0 <= i < j < |items| ==> key(items[i]) != key(items[j])
  }

  function LibraryId(l: Library): Bytes { l.id }
  function NamespaceName(n: Namespace): Bytes { n.name }
  function SecretId(s: Secret): Bytes { s.id }
  function AcceleratorId(a: Accelerator): Bytes { a.runtime + [58] + a.format }

  /** What is wrong with a namespace, if anything: the first namespace at fault decides. */
  function NamespaceFault<V>(h: Host<V>, ns: seq<Namespace>, incremental: bool): Option<SnapshotError> {
    if ns == [] then None
    else if ns[0].name == [] then Some(NamespaceNameRequired)
    else if ns[0].halc.Some? && h.sha(ns[0].halc.value) != ns[0].digest then Some(NamespaceChecksum)
    else if ns[0].halc.None? && !incremental then Some(InheritedInFull)
    else NamespaceFault(h, ns[1..], incremental)
  }

  function KeyedOne<T>(x: T, key: T -> Bytes): (Key, T) { (key(x), x) }

  function First<V>(p: (Bytes, V)): Bytes { p.0 }

  ghost function Pairs<V>(m: map<Bytes, V>): set<(Key, (Bytes, V))> {
    set k | k in m :: KeyedOne((k, m[k]), First)
  }

  /** What is wrong with the initial state, if anything: the first entry at fault, in order of name, decides. */
  function StateFault<V>(h: Host<V>, es: seq<(Key, (Bytes, V))>): Option<SnapshotError> {
    if es == [] then None
    else
      var (name, value) := es[0].1;
      if name == [] || !h.transferable(value) then Some(NonTransferableState)
      else if h.encode(value).None? then Some(StateEncoding)
      else StateFault(h, es[1..])
  }

  lemma {:induction false} StateSound<V>(h: Host<V>, es: seq<(Key, (Bytes, V))>)
    ensures StateFault(h, es).None? <==>
            forall e :: e in es ==> e.1.0 != [] && h.transferable(e.1.1) && h.encode(e.1.1).Some?
    decreases |es|
  {
    if es != [] {
      StateSound(h, es[1..]);
      assert es[0] in es && forall e :: e in es <==> e == es[0] || e in es[1..];
    }
  }

  ghost function Fault<V>(h: Host<V>, m: Manifest<V>, incremental: bool): Option<SnapshotError> {
    if m.languageVersion == [] then Some(VersionRequired)
    else if !Unique(m.libraries, LibraryId) then Some(DuplicateLibrary)
    else if !Unique(m.namespaces, NamespaceName) then Some(DuplicateNamespace)
    else if !Unique(m.secrets, SecretId) then Some(DuplicateSecret)
    else if !Unique(m.accelerators, AcceleratorId) then Some(DuplicateAccelerator)
    else if NamespaceFault(h, m.namespaces, incremental).Some? then NamespaceFault(h, m.namespaces, incremental)
    else if StateFault(h, Arrange(Pairs(m.initialState))).Some? then StateFault(h, Arrange(Pairs(m.initialState)))
    else if exists s :: s in m.secrets && (s.id == [] || s.purpose == []) then Some(SecretIncomplete)
    else if exists a :: a in m.accelerators && h.sha(a.bytes) != a.digest then Some(AcceleratorChecksum)
    else None
  }

  ghost predicate Valid<V>(h: Host<V>, m: Manifest<V>, incremental: bool) { Fault(h, m, incremental).None? }

  /** A payload that is there is the one its digest declares. */
  predicate Sound<V>(h: Host<V>, n: Namespace, incremental: bool) {
    n.name != [] && (if n.halc.Some? then h.sha(n.halc.value) == n.digest else incremental)
  }

  lemma {:induction false} NamespacesSound<V>(h: Host<V>, ns: seq<Namespace>, incremental: bool)
    ensures NamespaceFault(h, ns, incremental).None? <==> forall n :: n in ns ==> Sound(h, n, incremental)
    decreases |ns|
  {
    if ns != [] {
      NamespacesSound(h, ns[1..], incremental);
      assert ns[0] in ns && forall n :: n in ns <==> n == ns[0] || n in ns[1..];
    }
  }

  // ----- what the logical digest is taken of -----

  function Counted(n: nat): Res<Bytes> { if n < U32 then Ok(BigEndian(n, 4)) else Err(TooManyItems) }

  function Block(d: Bytes): Res<Bytes> {
    var count :- Counted(|d|);
    Ok(count + d)
  }

  function OptionalBlock(o: Option<Bytes>): Res<Bytes> {
    if o.None? then Ok([0])
    else
      var b :- Block(o.value);
      Ok([1] + b)
  }

  function LibraryText(l: Library): Res<Bytes> {
    var id :- Block(l.id);
    var version :- Block(l.version);
    Ok(id + version + l.digest)
  }

  function NamespaceText(n: Namespace): Res<Bytes> {
    var name :- Block(n.name);
    var halc :- OptionalBlock(n.halc);
    Ok(name + n.digest + halc)
  }

  function PairText(p: (Bytes, Bytes)): Res<Bytes> {
    var a :- Block(p.0);
    var b :- Block(p.1);
    Ok(a + b)
  }

  function SecretText(s: Secret): Res<Bytes> {
    var id :- Block(s.id);
    var purpose :- Block(s.purpose);
    var version :- OptionalBlock(s.version);
    Ok(id + purpose + [if s.required then 1 else 0] + version)
  }

  function Keyed<T>(items: seq<T>, key: T -> Bytes): seq<(Key, T)> {
    seq(|items|, i requires 0 <= i < |items| => KeyedOne(items[i], key))
  }

  function Texts<T>(es: seq<(Key, T)>, text: T -> Res<Bytes>): Res<Bytes> {
    if es == [] then Ok([])
    else
      var front :- Texts(es[..|es| - 1], text);
      var last :- text(es[|es| - 1].1);
      Ok(front + last)
  }

  /** A count and the items in order. */
  function Section<T>(es: seq<(Key, T)>, text: T -> Res<Bytes>): Res<Bytes> {
    var count :- Counted(|es|);
    var body :- Texts(es, text);
    Ok(count + body)
  }

  function Itself(d: Bytes): Bytes { d }

  ghost function Singles(s: set<Bytes>): set<(Key, Bytes)> { set d | d in s :: KeyedOne(d, Itself) }

  function EncodedState<V>(h: Host<V>, m: map<Bytes, V>): map<Bytes, Bytes>
    requires forall k :: k in m ==> h.encode(m[k]).Some?
  {
    map k | k in m :: h.encode(m[k]).value
  }

  function CodeText<V>(m: Manifest<V>): Res<Bytes> {
    var version :- Block(m.languageVersion);
    var libraries :- Section(Sort(Keyed(m.libraries, LibraryId)), LibraryText);
    var namespaces :- Section(Sort(Keyed(m.namespaces, NamespaceName)), NamespaceText);
    Ok(version + m.lock + libraries + namespaces)
  }

  ghost function SettingsText<V>(h: Host<V>, m: Manifest<V>): Res<Bytes>
    requires forall k :: k in m.initialState ==> h.encode(m.initialState[k]).Some?
  {
    var entrypoints :- Section(Arrange(Pairs(m.entrypoints)), PairText);
    var state :- Section(Arrange(Pairs(EncodedState(h, m.initialState))), PairText);
    var capabilities :- Section(Arrange(Singles(m.capabilities)), Block);
    var secrets :- Section(Sort(Keyed(m.secrets, SecretId)), SecretText);
    Ok(entrypoints + state + capabilities + secrets)
  }

  /** The text of a valid manifest without its accelerators, every list in order of its keys. */
  ghost function Text<V>(h: Host<V>, m: Manifest<V>): Res<Bytes>
    requires forall k :: k in m.initialState ==> h.encode(m.initialState[k]).Some?
  {
    var code :- CodeText(m);
    var settings :- SettingsText(h, m);
    Ok(code + settings + BigEndian(0, 4))
  }

  lemma ValidState<V>(h: Host<V>, m: Manifest<V>, incremental: bool)
    requires Valid(h, m, incremental)
    ensures forall k :: k in m.initialState ==> h.encode(m.initialState[k]).Some?
  {
    hide Arrange, Unique, NamespaceFault;
    var es := Arrange(Pairs(m.initialState));
    StateSound(h, es);
    ArrangeEntries(Pairs(m.initialState));
    forall k | k in m.initialState ensures h.encode(m.initialState[k]).Some? {
      assert KeyedOne((k, m.initialState[k]), First) in Entries(es);
    }
  }

  ghost function LogicalDigest<V>(h: Host<V>, m: Manifest<V>): Res<Bytes> {
    if Fault(h, m, false).Some? then Err(Fault(h, m, false).value)
    else
      ValidState(h, m, false);
      var text :- Text(h, m);
      Ok(h.sha(text))
  }

  // ----- resolving -----

  /** The last namespace of that name. */
  function Find(ns: seq<Namespace>, name: Bytes): Option<Namespace> {
    if ns == [] then None
    else if ns[|ns| - 1].name == name then Some(ns[|ns| - 1])
    else Find(ns[..|ns| - 1], name)
  }

  function InheritOne(n: Namespace, base: seq<Namespace>): Res<Namespace> {
    if n.halc.Some? then Ok(n)
    else
      match Find(base, n.name)
      case None => Err(InheritedMissing)
      case Some(source) =>
        if source.digest != n.digest then Err(InheritedMismatch) else Ok(n.(halc := source.halc))
  }

  function Inherit(ns: seq<Namespace>, base: seq<Namespace>): Res<seq<Namespace>> {
    if ns == [] then Ok([])
    else
      var first :- InheritOne(ns[0], base);
      var rest :- Inherit(ns[1..], base);
      Ok([first] + rest)
  }

  ghost function Resolve<V>(h: Host<V>, a: Artifact<V>, base: Option<Resolved<V>>): Res<Resolved<V>> {
    if Fault(h, a.manifest, a.base.Some?).Some? then Err(Fault(h, a.manifest, a.base.Some?).value)
    else if a.base.None? && base.Some? then Err(FullTakesNoBase)
    else if a.base.Some? && base.None? then Err(BaseRequired)
    else if a.base.Some? && a.base.value != base.value.digest then Err(BaseMismatch)
    else
      var filled :- if base.None? then Ok(a.manifest.namespaces)
                    else Inherit(a.manifest.namespaces, base.value.manifest.namespaces);
      var m := a.manifest.(namespaces := filled);
      if exists n :: n in filled && n.halc.None? then Err(InheritedInFull)
      else
        var digest :- LogicalDigest(h, m);
        Ok(Resolved(digest, m))
  }

  /** Every payload of a resolved snapshot is there and is the one its digest declares. */
  lemma ResolvedIsSound<V>(h: Host<V>, a: Artifact<V>, base: Option<Resolved<V>>)
    requires Resolve(h, a, base).Ok?
    ensures var r := Resolve(h, a, base).value;
            Valid(h, r.manifest, false) && LogicalDigest(h, r.manifest) == Ok(r.digest)
            && forall n :: n in r.manifest.namespaces ==> n.halc.Some? && h.sha(n.halc.value) == n.digest
  {
    var r := Resolve(h, a, base).value;
    hide Text, Unique;
    NamespacesSound(h, r.manifest.namespaces, false);
  }

  /**
   What a resolve checks of its base: it succeeds only without one for a full artifact, and only with
   the very one it names for a delta.  A valid artifact given anything else is refused for that.
   */
  lemma ResolveNeedsItsBase<V>(h: Host<V>, a: Artifact<V>, base: Option<Resolved<V>>)
    ensures Resolve(h, a, base).Ok? ==>
              Valid(h, a.manifest, a.base.Some?) && (a.base.None? <==> base.None?) && (base.Some? ==> a.base == Some(base.value.digest))
    ensures Valid(h, a.manifest, a.base.Some?) ==>
              && (a.base.None? && base.Some? ==> Resolve(h, a, base) == Err(FullTakesNoBase))
              && (a.base.Some? && base.None? ==> Resolve(h, a, base) == Err(BaseRequired))
              && (a.base.Some? && base.Some? && a.base.value != base.value.digest ==> Resolve(h, a, base) == Err(BaseMismatch))
    ensures !Valid(h, a.manifest, a.base.Some?) ==> Resolve(h, a, base) == Err(Fault(h, a.manifest, a.base.Some?).value)
  {
    hide Fault, Inherit, LogicalDigest;
  }

  /** The last namespace of a name is found, if there is one. */
  lemma {:induction false} FindIsLast(ns: seq<Namespace>, name: Bytes)
    ensures forall i :: 0 <= i < |ns| && ns[i].name == name && (forall j :: i < j < |ns| ==> ns[j].name != name) ==>
              Find(ns, name) == Some(ns[i])
    ensures Find(ns, name).None? <==> forall i :: 0 <= i < |ns| ==> ns[i].name != name
    decreases |ns|
  {
    if ns != [] {
      var front := ns[..|ns| - 1];
      FindIsLast(front, name);
      assert forall i :: 0 <= i < |front| ==> ns[i] == front[i];
    }
  }

  /** Namespace `filled` is `n` itself, or `n` with the payload of the base's namespace of that name and digest. */
  ghost predicate FilledFrom(n: Namespace, filled: Namespace, base: seq<Namespace>) {
    if n.halc.Some? then filled == n
    else filled.name == n.name && filled.digest == n.digest && Find(base, n.name) == Some(filled)
  }

  lemma {:induction false} InheritFills(ns: seq<Namespace>, base: seq<Namespace>)
    requires Inherit(ns, base).Ok?
    ensures var filled := Inherit(ns, base).value;
            |filled| == |ns| && forall i :: 0 <= i < |ns| ==> FilledFrom(ns[i], filled[i], base)
    decreases |ns|
  {
    if ns != [] {
      InheritFills(ns[1..], base);
      var rest := Inherit(ns[1..], base).value;
      if ns[0].halc.None? { FindOrigin(base, ns[0].name); }
      forall i | 0 < i < |ns| ensures FilledFrom(ns[i], Inherit(ns, base).value[i], base) {
        assert FilledFrom(ns[1..][i - 1], rest[i - 1], base);
      }
    }
  }

  /** A resolved manifest is the artifact's own, with every payload left out filled in, position by position. */
  lemma ResolveFills<V>(h: Host<V>, a: Artifact<V>, base: Option<Resolved<V>>)
    requires Resolve(h, a, base).Ok?
    ensures var m, filled := a.manifest, Resolve(h, a, base).value.manifest.namespaces;
            && Resolve(h, a, base).value.manifest == m.(namespaces := filled) && |filled| == |m.namespaces|
            && forall i :: 0 <= i < |filled| ==>
                 FilledFrom(m.namespaces[i], filled[i], if base.Some? then base.value.manifest.namespaces else [])
  {
    hide Fault, Inherit, LogicalDigest;
    if base.Some? { InheritFills(a.manifest.namespaces, base.value.manifest.namespaces); }
    else {
      forall n | n in a.manifest.namespaces ensures n.halc.Some? { }
    }
  }

  /** A chain of artifacts, each resolved against the one before. */
  ghost function ResolveChain<V>(h: Host<V>, chain: seq<Artifact<V>>): Res<Resolved<V>>
    requires chain != []
  {
    if |chain| == 1 then Resolve(h, chain[0], None)
    else
      var base :- ResolveChain(h, chain[..|chain| - 1]);
      Resolve(h, chain[|chain| - 1], Some(base))
  }

  /** Some artifact of the chain itself carries this very payload, under this name and digest. */
  ghost predicate CarriedBy<V>(chain: seq<Artifact<V>>, n: Namespace) {
    n.halc.Some? && exists i :: 0 <= i < |chain| && n in chain[i].manifest.namespaces
  }

  lemma {:induction false} FindOrigin(ns: seq<Namespace>, name: Bytes)
    requires Find(ns, name).Some?
    ensures Find(ns, name).value in ns && Find(ns, name).value.name == name
    decreases |ns|
  {
    if ns[|ns| - 1].name != name { FindOrigin(ns[..|ns| - 1], name); }
  }

  /** A filled-in namespace is one of the delta's own, or one of the base's. */
  lemma {:induction false} InheritOrigin(ns: seq<Namespace>, base: seq<Namespace>)
    requires Inherit(ns, base).Ok?
    ensures forall n :: n in Inherit(ns, base).value ==> (n in ns && n.halc.Some?) || n in base
    decreases |ns|
  {
    if ns != [] {
      InheritOrigin(ns[1..], base);
      if ns[0].halc.None? { FindOrigin(base, ns[0].name); }
      assert forall n :: n in ns[1..] ==> n in ns;
      assert ns[0] in ns;
    }
  }

  lemma LinkOrigin<V>(h: Host<V>, a: Artifact<V>, base: Option<Resolved<V>>)
    requires Resolve(h, a, base).Ok?
    ensures forall n :: n in Resolve(h, a, base).value.manifest.namespaces ==>
              (n in a.manifest.namespaces && n.halc.Some?) || (base.Some? && n in base.value.manifest.namespaces)
  {
    hide Inherit, LogicalDigest, Fault;
    if base.Some? { InheritOrigin(a.manifest.namespaces, base.value.manifest.namespaces); }
  }

  /**
   Along a chain of any length, every payload of the result matches its declared digest and is
   carried, under that name and digest, by some artifact of the chain.
   */
  lemma {:induction false} ChainIsSound<V>(h: Host<V>, chain: seq<Artifact<V>>)
    requires chain != [] && ResolveChain(h, chain).Ok?
    ensures var r := ResolveChain(h, chain).value;
            LogicalDigest(h, r.manifest) == Ok(r.digest)
            && forall n :: n in r.manifest.namespaces ==> CarriedBy(chain, n) && h.sha(n.halc.value) == n.digest
    decreases |chain|
  {
    hide Resolve, LogicalDigest;
    var last, front := |chain| - 1, chain[..|chain| - 1];
    var r := ResolveChain(h, chain).value;
    var base := if last == 0 then None else Some(ResolveChain(h, front).value);
    ResolvedIsSound(h, chain[last], base);
    LinkOrigin(h, chain[last], base);
    if last > 0 { ChainIsSound(h, front); }
    forall n | n in r.manifest.namespaces ensures CarriedBy(chain, n) {
      if !(n in chain[last].manifest.namespaces && n.halc.Some?) {
        assert CarriedBy(front, n);
        var i :| 0 <= i < |front| && n in front[i].manifest.namespaces;
        assert chain[i] == front[i];
      }
    }
  }

  // ----- deltas -----

  /** The namespaces with the payloads of `dropped` left out. */
  function DropOne(n: Namespace, dropped: set<Bytes>): Namespace { if n.name in dropped then n.(halc := None) else n }

  function Drop(ns: seq<Namespace>, dropped: set<Bytes>): seq<Namespace> {
    seq(|ns|, i requires 0 <= i < |ns| => DropOne(ns[i], dropped))
  }

  function Delta<V>(m: Manifest<V>, dropped: set<Bytes>, base: Resolved<V>): Artifact<V> {
    Artifact(Some(base.digest), m.(namespaces := Drop(m.namespaces, dropped)))
  }

  /** The base holds this very namespace: same name, digest and payload. */
  ghost predicate Carried(n: Namespace, base: seq<Namespace>) { n in base }

  lemma {:induction false} FindUnique(ns: seq<Namespace>, name: Bytes)
    requires Unique(ns, NamespaceName)
    ensures Find(ns, name).Some? ==> Find(ns, name).value in ns && Find(ns, name).value.name == name
    ensures forall n :: n in ns && n.name == name ==> Find(ns, name) == Some(n)
    decreases |ns|
  {
    if ns != [] {
      var last, front := ns[|ns| - 1], ns[..|ns| - 1];
      assert ns == front + [last];
      FindUnique(front, name);
      forall n | n in front ensures n.name != last.name {
        var i :| 0 <= i < |front| && front[i] == n;
        assert NamespaceName(ns[i]) != NamespaceName(ns[|ns| - 1]);
      }
    }
  }

  lemma InheritDropped(n: Namespace, dropped: set<Bytes>, base: seq<Namespace>)
    requires Unique(base, NamespaceName) && n.halc.Some?
    ensures InheritOne(DropOne(n, dropped), base) == Ok(n) <==> (n.name in dropped ==> Carried(n, base))
  {
    FindUnique(base, n.name);
  }

  lemma {:induction false} InheritAll(ns: seq<Namespace>, dropped: set<Bytes>, base: seq<Namespace>)
    requires Unique(base, NamespaceName) && forall n :: n in ns ==> n.halc.Some?
    ensures Inherit(Drop(ns, dropped), base) == Ok(ns) <==>
            forall n :: n in ns && n.name in dropped ==> Carried(n, base)
    decreases |ns|
  {
    hide InheritOne, Unique, DropOne;
    if ns != [] {
      var n, rest := ns[0], ns[1..];
      assert n in ns && ns == [n] + rest;
      assert Drop(ns, dropped)[1..] == Drop(rest, dropped);
      InheritDropped(n, dropped, base);
      InheritAll(rest, dropped, base);
      var first, more := InheritOne(DropOne(n, dropped), base), Inherit(Drop(rest, dropped), base);
      if first.Ok? && more.Ok? {
        assert [first.value] + more.value == [n] + rest <==> first.value == n && more.value == rest by {
          assert ([first.value] + more.value)[0] == first.value && ([first.value] + more.value)[1..] == more.value;
          assert ([n] + rest)[1..] == rest;
        }
      }
    }
  }

  lemma DroppedIsValid<V>(h: Host<V>, m: Manifest<V>, dropped: set<Bytes>)
    requires Valid(h, m, false)
    ensures Valid(h, m.(namespaces := Drop(m.namespaces, dropped)), true)
  {
    var ns := m.namespaces;
    var ds := Drop(ns, dropped);
    NamespacesSound(h, ns, false);
    forall d | d in ds ensures Sound(h, d, true) {
      var i :| 0 <= i < |ds| && ds[i] == d;
      assert ns[i] in ns;
    }
    NamespacesSound(h, ds, true);
    forall i, j | 0 <= i < j < |ds| ensures NamespaceName(ds[i]) != NamespaceName(ds[j]) {
      assert NamespaceName(ns[i]) != NamespaceName(ns[j]);
    }
    assert Unique(ds, NamespaceName);
    hide Unique, NamespaceFault, Drop;
  }

  /**
   Deltas agree with full snapshots: leaving out any payloads and resolving against a base gives
   the full manifest and its logical digest back exactly when the base carries each namespace
   whose payload was left out.
   */
  lemma DeltaIsFull<V>(h: Host<V>, m: Manifest<V>, dropped: set<Bytes>, base: Resolved<V>)
    requires Valid(h, m, false) && LogicalDigest(h, m).Ok? && Valid(h, base.manifest, false)
    ensures Resolve(h, Delta(m, dropped, base), Some(base)) == Ok(Resolved(LogicalDigest(h, m).value, m)) <==>
            forall n :: n in m.namespaces && n.name in dropped ==> Carried(n, base.manifest.namespaces)
  {
    assert Unique(base.manifest.namespaces, NamespaceName);
    DroppedIsValid(h, m, dropped);
    NamespacesSound(h, m.namespaces, false);
    InheritAll(m.namespaces, dropped, base.manifest.namespaces);
    ResolvesInherited(h, Delta(m, dropped, base), base);
    hide Unique, NamespaceFault, Inherit, Drop, LogicalDigest, Fault, Resolve;
    var filled := Inherit(Drop(m.namespaces, dropped), base.manifest.namespaces);
    if filled.Ok? {
      assert Delta(m, dropped, base).manifest.(namespaces := filled.value) == m.(namespaces := filled.value);
      assert filled.value == m.namespaces ==> m.(namespaces := filled.value) == m;
    }
  }

  lemma ResolvesInherited<V>(h: Host<V>, a: Artifact<V>, base: Resolved<V>)
    requires a.base == Some(base.digest) && Valid(h, a.manifest, true)
    ensures var filled := Inherit(a.manifest.namespaces, base.manifest.namespaces);
            Resolve(h, a, Some(base)) ==
            if filled.Err? then Err(filled.error)
            else
              var m := a.manifest.(namespaces := filled.value);
              if exists n :: n in filled.value && n.halc.None? then Err(InheritedInFull)
              else if LogicalDigest(h, m).Err? then Err(LogicalDigest(h, m).error)
              else Ok(Resolved(LogicalDigest(h, m).value, m))
  {
    hide Inherit, LogicalDigest;
  }

  // ----- chains of deltas -----

  ghost predicate Full<V>(h: Host<V>, m: Manifest<V>) { Valid(h, m, false) && LogicalDigest(h, m).Ok? }

  /** A full manifest as a resolved snapshot. */
  ghost function Whole<V>(h: Host<V>, m: Manifest<V>): Resolved<V>
    requires Full(h, m)
  {
    Resolved(LogicalDigest(h, m).value, m)
  }

  ghost predicate AllFull<V>(h: Host<V>, ms: seq<Manifest<V>>) { forall i :: 0 <= i < |ms| ==> Full(h, ms[i]) }

  /** The first of `k` manifests in full, then each as a delta of the one before, with some payloads left out. */
  ghost function ChainOf<V>(h: Host<V>, ms: seq<Manifest<V>>, dropped: seq<set<Bytes>>, k: nat): seq<Artifact<V>>
    requires |dropped| == |ms| && AllFull(h, ms) && 0 < k <= |ms|
  {
    if k == 1 then [Artifact(None, ms[0])]
    else ChainOf(h, ms, dropped, k - 1) + [Delta(ms[k - 1], dropped[k - 1], Whole(h, ms[k - 2]))]
  }

  /** Link `i` leaves out only what the manifest before it carries identically. */
  ghost predicate LinkCarried<V>(ms: seq<Manifest<V>>, dropped: seq<set<Bytes>>, i: nat)
    requires 0 < i < |ms| == |dropped|
  {
    forall n :: n in ms[i].namespaces && n.name in dropped[i] ==> Carried(n, ms[i - 1].namespaces)
  }

  lemma FullResolves<V>(h: Host<V>, m: Manifest<V>)
    requires Full(h, m)
    ensures Resolve(h, Artifact(None, m), None) == Ok(Whole(h, m))
  {
    NamespacesSound(h, m.namespaces, false);
    hide Text, Unique, NamespaceFault, LogicalDigest;
    assert m.(namespaces := m.namespaces) == m;
  }

  lemma OneMoreLink<V>(h: Host<V>, chain: seq<Artifact<V>>, a: Artifact<V>, base: Resolved<V>)
    requires chain != [] && ResolveChain(h, chain) == Ok(base)
    ensures ResolveChain(h, chain + [a]) == Resolve(h, a, Some(base))
  {
    hide Resolve;
    assert (chain + [a])[..|chain|] == chain;
  }

  /** The `k` first artifacts resolve to the last of their manifests in full. */
  ghost predicate ResolvesFully<V>(h: Host<V>, ms: seq<Manifest<V>>, dropped: seq<set<Bytes>>, k: nat)
    requires |dropped| == |ms| && AllFull(h, ms) && 0 < k <= |ms|
  {
    ResolveChain(h, ChainOf(h, ms, dropped, k)) == Ok(Whole(h, ms[k - 1]))
  }

  lemma ChainLink<V>(h: Host<V>, ms: seq<Manifest<V>>, dropped: seq<set<Bytes>>, i: nat)
    requires |dropped| == |ms| && AllFull(h, ms) && 0 < i < |ms| && ResolvesFully(h, ms, dropped, i)
    ensures ResolvesFully(h, ms, dropped, i + 1) <==> LinkCarried(ms, dropped, i)
  {
    var base, delta := Whole(h, ms[i - 1]), Delta(ms[i], dropped[i], Whole(h, ms[i - 1]));
    var chain := ChainOf(h, ms, dropped, i);
    assert ChainOf(h, ms, dropped, i + 1) == chain + [delta];
    assert Full(h, ms[i]) && Full(h, ms[i - 1]);
    hide ChainOf, AllFull, Resolve, LogicalDigest, Fault, ResolveChain, Delta;
    OneMoreLink(h, chain, delta, base);
    DeltaIsFull(h, ms[i], dropped[i], base);
  }

  ghost predicate AllResolve<V>(h: Host<V>, ms: seq<Manifest<V>>, dropped: seq<set<Bytes>>, k: nat)
    requires |dropped| == |ms| && AllFull(h, ms) && 0 < k <= |ms|
  {
    forall i: nat :: 0 < i <= k ==> ResolvesFully(h, ms, dropped, i)
  }

  ghost predicate AllCarried<V>(ms: seq<Manifest<V>>, dropped: seq<set<Bytes>>, k: nat)
    requires k <= |ms| == |dropped|
  {
    forall i: nat :: 0 < i < k ==> LinkCarried(ms, dropped, i)
  }

  lemma OneMore<V>(h: Host<V>, ms: seq<Manifest<V>>, dropped: seq<set<Bytes>>, k: nat)
    requires |dropped| == |ms| && AllFull(h, ms) && 1 < k <= |ms|
    ensures AllResolve(h, ms, dropped, k) <==> AllResolve(h, ms, dropped, k - 1) && ResolvesFully(h, ms, dropped, k)
    ensures AllResolve(h, ms, dropped, k - 1) ==> ResolvesFully(h, ms, dropped, k - 1)
    ensures AllCarried(ms, dropped, k) <==> AllCarried(ms, dropped, k - 1) && LinkCarried(ms, dropped, k - 1)
  {
    hide ResolvesFully, LinkCarried, AllFull;
  }

  /**
   Chains of deltas agree with full snapshots: a chain that starts in full resolves, at every
   link, to that link's full manifest and digest exactly when each link leaves out only what the
   one before carries identically.
   */
  lemma {:induction false} ChainIsFull<V>(h: Host<V>, ms: seq<Manifest<V>>, dropped: seq<set<Bytes>>, k: nat)
    requires |dropped| == |ms| && AllFull(h, ms) && 0 < k <= |ms|
    ensures AllResolve(h, ms, dropped, k) <==> AllCarried(ms, dropped, k)
    decreases k
  {
    if k == 1 {
      FirstLink(h, ms, dropped);
    } else {
      hide AllResolve, AllCarried, ResolvesFully, LinkCarried, AllFull;
      ChainIsFull(h, ms, dropped, k - 1);
      OneMore(h, ms, dropped, k);
      if AllResolve(h, ms, dropped, k - 1) { ChainLink(h, ms, dropped, k - 1); }
    }
  }

  lemma FirstLink<V>(h: Host<V>, ms: seq<Manifest<V>>, dropped: seq<set<Bytes>>)
    requires |dropped| == |ms| > 0 && AllFull(h, ms)
    ensures ResolvesFully(h, ms, dropped, 1)
  {
    hide Resolve, LogicalDigest, Fault;
    assert Full(h, ms[0]);
    FullResolves(h, ms[0]);
  }

  // ----- the digest is logical -----

  ghost predicate SameItems<T(!new)>(a: seq<T>, b: seq<T>) { forall x :: x in a <==> x in b }

  lemma SortIgnoresOrder<T(!new)>(a: seq<T>, b: seq<T>, key: T -> Bytes)
    requires Unique(a, key) && Unique(b, key) && SameItems(a, b)
    ensures Sort(Keyed(a, key)) == Sort(Keyed(b, key))
  {
    hide Sort, Arrange;
    KeyedArranged(a, key);
    KeyedArranged(b, key);
    forall e ensures e in Entries(Keyed(a, key)) <==> e in Entries(Keyed(b, key)) {
      KeyedEntry(a, key, e);
      KeyedEntry(b, key, e);
    }
    assert Entries(Keyed(a, key)) == Entries(Keyed(b, key));
  }

  lemma KeyedArranged<T>(a: seq<T>, key: T -> Bytes)
    requires Unique(a, key)
    ensures Sort(Keyed(a, key)) == Arrange(Entries(Keyed(a, key)))
  {
    hide Sort, Arrange;
    SortIsArrange(Keyed(a, key));
  }

  lemma KeyedEntry<T>(a: seq<T>, key: T -> Bytes, e: (Key, T))
    ensures e in Entries(Keyed(a, key)) <==> e.1 in a && e == KeyedOne(e.1, key)
  {
    if e.1 in a && e == KeyedOne(e.1, key) {
      var i :| 0 <= i < |a| && a[i] == e.1;
      assert Keyed(a, key)[i] == e;
    }
  }

  /** The logical digest does not depend on the order of any list, nor on valid accelerators. */
  lemma DigestIgnoresOrder<V>(h: Host<V>, m: Manifest<V>, libraries: seq<Library>, namespaces: seq<Namespace>,
                              secrets: seq<Secret>, accelerators: seq<Accelerator>)
    requires SameItems(m.libraries, libraries) && SameItems(m.namespaces, namespaces) && SameItems(m.secrets, secrets)
    requires Valid(h, m, false)
    requires Valid(h, m.(libraries := libraries, namespaces := namespaces, secrets := secrets, accelerators := accelerators), false)
    ensures LogicalDigest(h, m) == LogicalDigest(h, m.(libraries := libraries, namespaces := namespaces,
                                                       secrets := secrets, accelerators := accelerators))
  {
    hide SameItems, Unique, NamespaceFault, StateFault, Section, Sort, Keyed, Arrange, Pairs;
    SortIgnoresOrder(m.libraries, libraries, LibraryId);
    SortIgnoresOrder(m.namespaces, namespaces, NamespaceName);
    SortIgnoresOrder(m.secrets, secrets, SecretId);
  }
}
