/** When a snapshot manifest is valid, and which of its faults is reported. */
module SnapshotFaults {
  import opened Optional
  import opened Results
  import opened ByteStrings
  import opened Ordering
  import opened Snapshots

  ghost predicate Repeats<T>(items: seq<T>, key: T -> Bytes) {
    exists i, j :: 0 <= i < j < |items| && key(items[i]) == key(items[j])
  }

  /** The manifest has this fault. */
  ghost predicate Has<V>(h: Host<V>, m: Manifest<V>, incremental: bool, e: SnapshotError) {
    match e
    case VersionRequired => m.languageVersion == []
    case DuplicateLibrary => Repeats(m.libraries, LibraryId)
    case DuplicateNamespace => Repeats(m.namespaces, NamespaceName)
    case DuplicateSecret => Repeats(m.secrets, SecretId)
    case DuplicateAccelerator => Repeats(m.accelerators, AcceleratorId)
    case NamespaceNameRequired => exists n :: n in m.namespaces && n.name == []
    case NamespaceChecksum => exists n :: n in m.namespaces && n.halc.Some? && h.sha(n.halc.value) != n.digest
    case InheritedInFull => !incremental && exists n :: n in m.namespaces && n.halc.None?
    case NonTransferableState => exists k :: k in m.initialState && (k == [] || !h.transferable(m.initialState[k]))
    case StateEncoding => exists k :: k in m.initialState && h.encode(m.initialState[k]).None?
    case SecretIncomplete => exists s :: s in m.secrets && (s.id == [] || s.purpose == [])
    case AcceleratorChecksum => exists a :: a in m.accelerators && h.sha(a.bytes) != a.digest
    case _ => false
  }

  /** The order in which kinds of fault are looked for. */
  function Stage(e: SnapshotError): nat {
    match e
    case VersionRequired => 0
    case DuplicateLibrary => 1
    case DuplicateNamespace => 2
    case DuplicateSecret => 3
    case DuplicateAccelerator => 4
    case NamespaceNameRequired => 5
    case NamespaceChecksum => 5
    case InheritedInFull => 5
    case NonTransferableState => 6
    case StateEncoding => 6
    case SecretIncomplete => 7
    case AcceleratorChecksum => 8
    case _ => 9
  }

  lemma UniqueMeans<T>(items: seq<T>, key: T -> Bytes)
    ensures Unique(items, key) <==> !Repeats(items, key)
  {
  }

  /** What is wrong with a namespace: its name, then its payload. */
  function WrongWith<V>(h: Host<V>, n: Namespace): SnapshotError {
    if n.name == [] then NamespaceNameRequired else if n.halc.Some? then NamespaceChecksum else InheritedInFull
  }

  /** The first namespace that is not sound decides. */
  lemma {:induction false} FirstNamespaceFault<V>(h: Host<V>, ns: seq<Namespace>, incremental: bool) returns (i: nat)
    requires NamespaceFault(h, ns, incremental).Some?
    ensures i < |ns| && !Sound(h, ns[i], incremental) && (forall j :: 0 <= j < i ==> Sound(h, ns[j], incremental))
    ensures NamespaceFault(h, ns, incremental) == Some(WrongWith(h, ns[i]))
    decreases |ns|
  {
    if Sound(h, ns[0], incremental) {
      var k := FirstNamespaceFault(h, ns[1..], incremental);
      i := k + 1;
      assert forall j :: 0 < j < |ns| ==> ns[j] == ns[1..][j - 1];
    } else {
      i := 0;
    }
  }

  /** An entry of the initial state that can be carried over. */
  predicate StateOk<V>(h: Host<V>, e: (Key, (Bytes, V))) {
    e.1.0 != [] && h.transferable(e.1.1) && h.encode(e.1.1).Some?
  }

  /** The first entry that cannot, in order of name, decides. */
  lemma {:induction false} FirstStateFault<V>(h: Host<V>, es: seq<(Key, (Bytes, V))>) returns (i: nat)
    requires StateFault(h, es).Some?
    ensures i < |es| && !StateOk(h, es[i]) && (forall j :: 0 <= j < i ==> StateOk(h, es[j]))
    ensures StateFault(h, es)
         == Some(if es[i].1.0 == [] || !h.transferable(es[i].1.1) then NonTransferableState else StateEncoding)
    decreases |es|
  {
    if StateOk(h, es[0]) {
      var k := FirstStateFault(h, es[1..]);
      i := k + 1;
      assert forall j :: 0 < j < |es| ==> es[j] == es[1..][j - 1];
    } else {
      i := 0;
    }
  }

  lemma StateFaultMeans<V>(h: Host<V>, m: Manifest<V>, incremental: bool)
    ensures var fault := StateFault(h, Arrange(Pairs(m.initialState)));
            && (fault.Some? ==> Stage(fault.value) == 6 && Has(h, m, incremental, fault.value))
            && (fault.None? ==> !Has(h, m, incremental, NonTransferableState) && !Has(h, m, incremental, StateEncoding))
  {
    hide Arrange;
    var es := Arrange(Pairs(m.initialState));
    ArrangeEntries(Pairs(m.initialState));
    if StateFault(h, es).Some? {
      var i := FirstStateFault(h, es);
      assert es[i] in Entries(es);
    } else {
      StateSound(h, es);
      forall k | k in m.initialState ensures k != [] && h.transferable(m.initialState[k]) && h.encode(m.initialState[k]).Some? {
        assert KeyedOne((k, m.initialState[k]), First) in Entries(es);
      }
    }
  }

  lemma NamespaceFaultMeans<V>(h: Host<V>, m: Manifest<V>, incremental: bool)
    ensures var fault := NamespaceFault(h, m.namespaces, incremental);
            && (fault.Some? ==> Stage(fault.value) == 5 && Has(h, m, incremental, fault.value))
            && (fault.None? ==> forall e :: Stage(e) == 5 ==> !Has(h, m, incremental, e))
  {
    hide NamespaceFault;
    NamespacesSound(h, m.namespaces, incremental);
    if NamespaceFault(h, m.namespaces, incremental).Some? {
      var i := FirstNamespaceFault(h, m.namespaces, incremental);
      assert m.namespaces[i] in m.namespaces;
    } else { assert forall n :: n in m.namespaces ==> Sound(h, n, incremental); }
  }

  /** A manifest is valid exactly when it has no fault; the one reported is a fault it has, of the earliest kind it has. */
  lemma FaultIsFirst<V>(h: Host<V>, m: Manifest<V>, incremental: bool)
    ensures Valid(h, m, incremental) <==> forall e :: !Has(h, m, incremental, e)
    ensures var fault := Fault(h, m, incremental);
            fault.Some? ==> Has(h, m, incremental, fault.value)
                            && forall e :: Has(h, m, incremental, e) ==> Stage(fault.value) <= Stage(e)
  {
    UniqueMeans(m.libraries, LibraryId);
    UniqueMeans(m.namespaces, NamespaceName);
    UniqueMeans(m.secrets, SecretId);
    UniqueMeans(m.accelerators, AcceleratorId);
    NamespaceFaultMeans(h, m, incremental);
    StateFaultMeans(h, m, incremental);
    hide Unique, Repeats, NamespaceFault, StateFault, Arrange, Pairs;
    var fault := Fault(h, m, incremental);
    forall e | Has(h, m, incremental, e) ensures fault.Some? && Stage(fault.value) <= Stage(e) {
      assert Stage(e) == 5 || Stage(e) == 6 ==> fault.Some?;
    }
    if fault.Some? { assert Has(h, m, incremental, fault.value); }
  }
}
