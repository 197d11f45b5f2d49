/**
 Snapshot artifacts as bytes (core/rust/src/snapshot.rs): what `encode` writes, `decode` reads
 back, exactly up to the number of items the reader accepts.
 */
module SnapshotFrames {
  import opened Optional
  import opened Results
  import opened ByteStrings
  import opened Sequences
  import opened Ordering
  import opened Snapshots
  import opened SnapshotText
  import opened SnapshotFaults

  const MAGIC: Bytes := [72, 83, 83, 48]
  const FORMAT_VERSION: nat := 1
  const MAX_PAYLOAD_BYTES: nat := 512 * 1024 * 1024
  const MAX_ITEMS: nat := 1_000_000

  datatype FormatError =
    | InvalidMagic | UnsupportedVersion | TooLarge | Truncated | TrailingArtifact | ChecksumMismatch | TrailingPayload
    | InvalidBoolean | SectionTooLarge | InvalidUtf8 | TooMany | DuplicateKey | InvalidState | Invalid(fault: SnapshotError)

  type Read<+T> = Reading<T, FormatError>

  // ----- reading -----

  function Take(s: Bytes, n: nat): Read<Bytes> { Front(s, n, Truncated) }

  function ReadNumber(s: Bytes, width: nat): Read<nat> {
    var (d, rest) :- Take(s, width);
    Got(FromBigEndian(d), rest)
  }

  function ReadFlag(s: Bytes): Read<bool> {
    var (d, rest) :- Take(s, 1);
    if d[0] == 0 then Got(false, rest) else if d[0] == 1 then Got(true, rest) else Bad(InvalidBoolean)
  }

  function ReadBlock(s: Bytes): Read<Bytes> {
    var (n, rest) :- ReadNumber(s, 4);
    if n > MAX_PAYLOAD_BYTES then Bad(SectionTooLarge) else Take(rest, n)
  }

  function ReadText(u: Utf8, s: Bytes): Read<Bytes> {
    var (d, rest) :- ReadBlock(s);
    if u(d) then Got(d, rest) else Bad(InvalidUtf8)
  }

  function ReadDigest(s: Bytes): Read<Bytes> { Take(s, HASH_BYTES) }

  function ReadOptionalBlock(s: Bytes): Read<Option<Bytes>> {
    var (there, t) :- ReadFlag(s);
    if !there then Got(None, t)
    else
      var (d, rest) :- ReadBlock(t);
      Got(Some(d), rest)
  }

  function ReadOptionalText(u: Utf8, s: Bytes): Read<Option<Bytes>> {
    var (there, t) :- ReadFlag(s);
    if !there then Got(None, t)
    else
      var (d, rest) :- ReadText(u, t);
      Got(Some(d), rest)
  }

  function ReadOptionalDigest(s: Bytes): Read<Option<Bytes>> {
    var (there, t) :- ReadFlag(s);
    if !there then Got(None, t)
    else
      var (d, rest) :- ReadDigest(t);
      Got(Some(d), rest)
  }

  function LibraryAt(u: Utf8, s: Bytes): Read<Library> {
    var (id, t) :- ReadText(u, s);
    var (version, t1) :- ReadText(u, t);
    var (digest, rest) :- ReadDigest(t1);
    Got(Library(id, version, digest), rest)
  }

  function ReadLibrary(u: Utf8): Bytes -> Read<Library> { s => LibraryAt(u, s) }

  function NamespaceAt(u: Utf8, s: Bytes): Read<Namespace> {
    var (name, t) :- ReadText(u, s);
    var (digest, t1) :- ReadDigest(t);
    var (halc, rest) :- ReadOptionalBlock(t1);
    Got(Namespace(name, digest, halc), rest)
  }

  function ReadNamespace(u: Utf8): Bytes -> Read<Namespace> { s => NamespaceAt(u, s) }

  function EntrypointAt(u: Utf8, s: Bytes): Read<(Bytes, Bytes)> {
    var (name, t) :- ReadText(u, s);
    var (target, rest) :- ReadText(u, t);
    Got((name, target), rest)
  }

  function ReadEntrypoint(u: Utf8): Bytes -> Read<(Bytes, Bytes)> { s => EntrypointAt(u, s) }

  function StateAt<V>(u: Utf8, decode: Bytes -> Option<V>, s: Bytes): Read<(Bytes, V)> {
    var (name, t) :- ReadText(u, s);
    var (d, rest) :- ReadBlock(t);
    if decode(d).None? then Bad(InvalidState) else Got((name, decode(d).value), rest)
  }

  function ReadState<V>(u: Utf8, decode: Bytes -> Option<V>): Bytes -> Read<(Bytes, V)> { s => StateAt(u, decode, s) }

  function ReadCapability(u: Utf8): Bytes -> Read<Bytes> { s => ReadText(u, s) }

  function SecretAt(u: Utf8, s: Bytes): Read<Secret> {
    var (id, t) :- ReadText(u, s);
    var (purpose, t1) :- ReadText(u, t);
    var (required, t2) :- ReadFlag(t1);
    var (version, rest) :- ReadOptionalText(u, t2);
    Got(Secret(id, purpose, required, version), rest)
  }

  function ReadSecret(u: Utf8): Bytes -> Read<Secret> { s => SecretAt(u, s) }

  function AcceleratorAt(u: Utf8, s: Bytes): Read<Accelerator> {
    var (runtime, t) :- ReadText(u, s);
    var (format, t1) :- ReadText(u, t);
    var (version, t2) :- ReadText(u, t1);
    var (digest, t3) :- ReadDigest(t2);
    var (bytes, rest) :- ReadBlock(t3);
    Got(Accelerator(runtime, format, version, digest, bytes), rest)
  }

  function ReadAccelerator(u: Utf8): Bytes -> Read<Accelerator> { s => AcceleratorAt(u, s) }

  function ReadSome<T>(read: Bytes -> Read<T>, n: nat, s: Bytes): Read<seq<T>>
    decreases n
  {
    if n == 0 then Got([], s)
    else
      var (x, t) :- read(s);
      var (more, rest) :- ReadSome(read, n - 1, t);
      Got([x] + more, rest)
  }

  function ReadItems<T>(read: Bytes -> Read<T>, s: Bytes): Read<seq<T>> {
    var (n, rest) :- ReadNumber(s, 4);
    if n > MAX_ITEMS then Bad(TooMany) else ReadSome(read, n, rest)
  }

  function ReadMap<V>(read: Bytes -> Read<(Bytes, V)>, s: Bytes): Read<map<Bytes, V>> {
    var (pairs, rest) :- ReadItems(read, s);
    if |MapOf(pairs)| != |pairs| then Bad(DuplicateKey) else Got(MapOf(pairs), rest)
  }

  function ReadManifest<V>(u: Utf8, decode: Bytes -> Option<V>, s: Bytes): Read<Manifest<V>> {
    var (languageVersion, t) :- ReadText(u, s);
    var (lock, t1) :- ReadDigest(t);
    var (libraries, t2) :- ReadItems(ReadLibrary(u), t1);
    var (namespaces, t3) :- ReadItems(ReadNamespace(u), t2);
    var (entrypoints, t4) :- ReadMap(ReadEntrypoint(u), t3);
    var (initialState, t5) :- ReadMap(ReadState(u, decode), t4);
    var (capabilities, t6) :- ReadItems(ReadCapability(u), t5);
    var (secrets, t7) :- ReadItems(ReadSecret(u), t6);
    var (accelerators, rest) :- ReadItems(ReadAccelerator(u), t7);
    Got(Manifest(languageVersion, lock, libraries, namespaces, entrypoints, initialState,
                 (set c | c in capabilities), secrets, accelerators), rest)
  }

  ghost function ReadPayload<V>(h: Host<V>, u: Utf8, decode: Bytes -> Option<V>, payload: Bytes): Read<Artifact<V>> {
    var (base, t) :- ReadOptionalDigest(payload);
    var (m, rest) :- ReadManifest(u, decode, t);
    if rest != [] then Bad(TrailingPayload)
    else if Fault(h, m, base.Some?).Some? then Bad(Invalid(Fault(h, m, base.Some?).value))
    else Got(Artifact(base, m), [])
  }

  ghost function Decode<V>(h: Host<V>, u: Utf8, decode: Bytes -> Option<V>, bytes: Bytes): Read<Artifact<V>> {
    var (magic, t) :- Take(bytes, 4);
    if magic != MAGIC then Bad(InvalidMagic)
    else
      var (version, t1) :- ReadNumber(t, 2);
      if version != FORMAT_VERSION then Bad(UnsupportedVersion)
      else
        var (length, t2) :- ReadNumber(t1, 4);
        if length > MAX_PAYLOAD_BYTES then Bad(TooLarge)
        else
          var (expected, t3) :- ReadDigest(t2);
          var (payload, rest) :- Take(t3, length);
          if rest != [] then Bad(TrailingArtifact)
          else if expected != h.sha(payload) then Bad(ChecksumMismatch)
          else ReadPayload(h, u, decode, payload)
  }

  // ----- writing -----

  function AcceleratorText(a: Accelerator): Res<Bytes> {
    var runtime :- Block(a.runtime);
    var format :- Block(a.format);
    var version :- Block(a.version);
    var bytes :- Block(a.bytes);
    Ok(runtime + (format + (version + (a.digest + bytes))))
  }

  /** Orders pairs of texts: the first text, then the second. */
  function PairKey(a: Bytes, b: Bytes): Key {
    var raised: Key := seq(|a|, i requires 0 <= i < |a| => var x: int := a[i]; x + 1);
    raised + [0] + b
  }

  function KeyedAccelerators(items: seq<Accelerator>): seq<(Key, Accelerator)> {
    seq(|items|, i requires 0 <= i < |items| => (PairKey(items[i].runtime, items[i].format), items[i]))
  }

  function OptionalDigest(d: Option<Bytes>): Bytes { if d.None? then [0] else [1] + d.value }

  ghost function Payload<V>(h: Host<V>, a: Artifact<V>): Res<Bytes>
    requires Encodable(h, a.manifest)
  {
    var code :- CodeText(a.manifest);
    var settings :- SettingsText(h, a.manifest);
    var accelerators :- Section(Sort(KeyedAccelerators(a.manifest.accelerators)), AcceleratorText);
    Ok(OptionalDigest(a.base) + (code + (settings + accelerators)))
  }

  function Framed<V>(h: Host<V>, payload: Bytes): Bytes {
    MAGIC + (BigEndian(FORMAT_VERSION, 2) + (BigEndian(|payload|, 4) + (h.sha(payload) + payload)))
  }

  ghost function Encode<V>(h: Host<V>, a: Artifact<V>): Res<Bytes> {
    if Fault(h, a.manifest, a.base.Some?).Some? then Err(Fault(h, a.manifest, a.base.Some?).value)
    else
      ValidState(h, a.manifest, a.base.Some?);
      var payload :- Payload(h, a);
      if |payload| > MAX_PAYLOAD_BYTES then Err(ArtifactTooLarge) else Ok(Framed(h, payload))
  }

  // ----- what was written is read -----

  lemma TakeReads(d: Bytes, rest: Bytes)
    ensures Take(d + rest, |d|) == Got(d, rest)
  {
    assert (d + rest)[..|d|] == d && (d + rest)[|d|..] == rest;
  }

  lemma CountReads(n: nat, rest: Bytes)
    requires n < U32
    ensures ReadNumber(BigEndian(n, 4) + rest, 4) == Got(n, rest)
  {
    assert Power256(4) == U32 by { assert Power256(2) == 0x1_0000; }
    hide BigEndian, Power256;
    TakeReads(BigEndian(n, 4), rest);
    BigEndianRoundTrip(n, 4);
  }

  predicate Fits(d: Bytes) { |d| <= MAX_PAYLOAD_BYTES }

  lemma BlockReads(d: Bytes, rest: Bytes)
    requires Fits(d)
    ensures Block(d).Ok? && ReadBlock(Block(d).value + rest) == Got(d, rest)
  {
    hide BigEndian;
    Joined(BigEndian(|d|, 4), d, rest);
    CountReads(|d|, d + rest);
    TakeReads(d, rest);
  }

  lemma TextReads(u: Utf8, d: Bytes, rest: Bytes)
    requires Fits(d) && u(d)
    ensures Block(d).Ok? && ReadText(u, Block(d).value + rest) == Got(d, rest)
  {
    hide Block;
    BlockReads(d, rest);
  }

  lemma FlagReads(b: bool, rest: Bytes)
    ensures ReadFlag([if b then 1 else 0] + rest) == Got(b, rest)
  {
    TakeReads([if b then 1 else 0], rest);
  }

  lemma OptionalBlockReads(o: Option<Bytes>, rest: Bytes)
    requires o.Some? ==> Fits(o.value)
    ensures OptionalBlock(o).Ok? && ReadOptionalBlock(OptionalBlock(o).value + rest) == Got(o, rest)
  {
    hide Block, ReadFlag, ReadBlock;
    if o.None? {
      FlagReads(false, rest);
    } else {
      BlockReads(o.value, rest);
      Joined([1], Block(o.value).value, rest);
      FlagReads(true, Block(o.value).value + rest);
    }
  }

  lemma OptionalTextReads(u: Utf8, o: Option<Bytes>, rest: Bytes)
    requires o.Some? ==> Fits(o.value) && u(o.value)
    ensures OptionalBlock(o).Ok? && ReadOptionalText(u, OptionalBlock(o).value + rest) == Got(o, rest)
  {
    hide Block, ReadFlag, ReadText;
    if o.None? {
      FlagReads(false, rest);
    } else {
      TextReads(u, o.value, rest);
      Joined([1], Block(o.value).value, rest);
      FlagReads(true, Block(o.value).value + rest);
    }
  }

  lemma OptionalDigestReads(o: Option<Bytes>, rest: Bytes)
    requires o.Some? ==> |o.value| == HASH_BYTES
    ensures ReadOptionalDigest(OptionalDigest(o) + rest) == Got(o, rest)
  {
    hide ReadFlag;
    if o.None? {
      FlagReads(false, rest);
    } else {
      TakeReads(o.value, rest);
      Joined([1], o.value, rest);
      FlagReads(true, o.value + rest);
    }
  }

  // ----- items -----

  /** Reading the text of an item gives what it means and stops where the text ends. */
  ghost predicate Reads<S(!new), T(!new)>(read: Bytes -> Read<T>, text: S -> Res<Bytes>, ok: S -> bool, mean: S -> T) {
    forall x: S, rest: Bytes :: ok(x) && text(x).Ok? ==> read(text(x).value + rest) == Got(mean(x), rest)
  }

  function Same<T>(x: T): T { x }

  function LibraryFits(u: Utf8): Library -> bool {
    (l: Library) => u(l.id) && u(l.version) && Fits(l.id) && Fits(l.version) && |l.digest| == HASH_BYTES
  }

  lemma LibraryReads(u: Utf8)
    ensures Reads(ReadLibrary(u), LibraryText, LibraryFits(u), Same<Library>)
  {
    hide Block, ReadText;
    forall x: Library, rest: Bytes | LibraryFits(u)(x) && LibraryText(x).Ok?
      ensures ReadLibrary(u)(LibraryText(x).value + rest) == Got(x, rest)
    {
      var a, b := Block(x.id).value, Block(x.version).value;
      JoinedFour(a, b, x.digest, rest);
      TextReads(u, x.id, b + (x.digest + rest));
      TextReads(u, x.version, x.digest + rest);
      TakeReads(x.digest, rest);
    }
  }

  function NamespaceFits(u: Utf8): Namespace -> bool {
    (n: Namespace) => u(n.name) && Fits(n.name) && |n.digest| == HASH_BYTES && (n.halc.Some? ==> Fits(n.halc.value))
  }

  lemma NamespaceReads(u: Utf8)
    ensures Reads(ReadNamespace(u), NamespaceText, NamespaceFits(u), Same<Namespace>)
  {
    hide Block, ReadText, OptionalBlock, ReadOptionalBlock;
    forall x: Namespace, rest: Bytes | NamespaceFits(u)(x) && NamespaceText(x).Ok?
      ensures ReadNamespace(u)(NamespaceText(x).value + rest) == Got(x, rest)
    {
      var a, b := Block(x.name).value, OptionalBlock(x.halc).value;
      JoinedFour(a, x.digest, b, rest);
      TextReads(u, x.name, x.digest + (b + rest));
      TakeReads(x.digest, b + rest);
      OptionalBlockReads(x.halc, rest);
    }
  }

  function EntrypointFits(u: Utf8): ((Bytes, Bytes)) -> bool {
    (p: (Bytes, Bytes)) => u(p.0) && u(p.1) && Fits(p.0) && Fits(p.1)
  }

  lemma EntrypointReads(u: Utf8)
    ensures Reads(ReadEntrypoint(u), PairText, EntrypointFits(u), Same<(Bytes, Bytes)>)
  {
    hide Block, ReadText;
    forall x: (Bytes, Bytes), rest: Bytes | EntrypointFits(u)(x) && PairText(x).Ok?
      ensures ReadEntrypoint(u)(PairText(x).value + rest) == Got(x, rest)
    {
      Joined(Block(x.0).value, Block(x.1).value, rest);
      TextReads(u, x.0, Block(x.1).value + rest);
      TextReads(u, x.1, rest);
    }
  }

  function StateFits<V>(u: Utf8, decode: Bytes -> Option<V>): ((Bytes, Bytes)) -> bool {
    (p: (Bytes, Bytes)) => u(p.0) && Fits(p.0) && Fits(p.1) && decode(p.1).Some?
  }

  function StateMeans<V>(decode: Bytes -> Option<V>, default: V): ((Bytes, Bytes)) -> (Bytes, V) {
    (p: (Bytes, Bytes)) => (p.0, if decode(p.1).Some? then decode(p.1).value else default)
  }

  lemma StateReads<V(!new)>(u: Utf8, decode: Bytes -> Option<V>, default: V)
    ensures Reads(ReadState(u, decode), PairText, StateFits(u, decode), StateMeans(decode, default))
  {
    hide Block, ReadText, ReadBlock;
    forall x: (Bytes, Bytes), rest: Bytes | StateFits(u, decode)(x) && PairText(x).Ok?
      ensures ReadState(u, decode)(PairText(x).value + rest) == Got(StateMeans(decode, default)(x), rest)
    {
      var s := PairText(x).value + rest;
      Joined(Block(x.0).value, Block(x.1).value, rest);
      TextReads(u, x.0, Block(x.1).value + rest);
      BlockReads(x.1, rest);
      assert ReadText(u, s) == Got(x.0, Block(x.1).value + rest);
      assert StateAt(u, decode, s) == Got((x.0, decode(x.1).value), rest);
    }
  }

  function CapabilityFits(u: Utf8): Bytes -> bool { (d: Bytes) => u(d) && Fits(d) }

  lemma CapabilityReads(u: Utf8)
    ensures Reads(ReadCapability(u), Block, CapabilityFits(u), Same<Bytes>)
  {
    hide Block, ReadText;
    forall x: Bytes, rest: Bytes | CapabilityFits(u)(x) && Block(x).Ok?
      ensures ReadCapability(u)(Block(x).value + rest) == Got(x, rest)
    {
      TextReads(u, x, rest);
    }
  }

  function SecretFits(u: Utf8): Secret -> bool {
    (s: Secret) => u(s.id) && u(s.purpose) && Fits(s.id) && Fits(s.purpose) && (s.version.Some? ==> u(s.version.value) && Fits(s.version.value))
  }

  lemma SecretReads(u: Utf8)
    ensures Reads(ReadSecret(u), SecretText, SecretFits(u), Same<Secret>)
  {
    hide Block, ReadText, OptionalBlock, ReadOptionalText, ReadFlag;
    forall x: Secret, rest: Bytes | SecretFits(u)(x) && SecretText(x).Ok?
      ensures ReadSecret(u)(SecretText(x).value + rest) == Got(x, rest)
    {
      var a, b, c := Block(x.id).value, Block(x.purpose).value, OptionalBlock(x.version).value;
      var flag: Bytes := [if x.required then 1 else 0];
      JoinedFive(a, b, flag, c, rest);
      var s := SecretText(x).value + rest;
      assert s == a + (b + (flag + (c + rest)));
      TextReads(u, x.id, b + (flag + (c + rest)));
      TextReads(u, x.purpose, flag + (c + rest));
      FlagReads(x.required, c + rest);
      OptionalTextReads(u, x.version, rest);
      assert SecretAt(u, s) == Got(Secret(x.id, x.purpose, x.required, x.version), rest);
    }
  }

  function AcceleratorFits(u: Utf8): Accelerator -> bool {
    (a: Accelerator) => u(a.runtime) && u(a.format) && u(a.version) && Fits(a.runtime) && Fits(a.format) && Fits(a.version)
         && |a.digest| == HASH_BYTES && Fits(a.bytes)
  }

  lemma AcceleratorReads(u: Utf8)
    ensures Reads(ReadAccelerator(u), AcceleratorText, AcceleratorFits(u), Same<Accelerator>)
  {
    hide Block, ReadText, ReadBlock;
    forall x: Accelerator, rest: Bytes | AcceleratorFits(u)(x) && AcceleratorText(x).Ok?
      ensures ReadAccelerator(u)(AcceleratorText(x).value + rest) == Got(x, rest)
    {
      var a, b, c, d := Block(x.runtime).value, Block(x.format).value, Block(x.version).value, Block(x.bytes).value;
      AcceleratorPrefix(a, b, c, x.digest, d, rest);
      TextReads(u, x.runtime, b + (c + (x.digest + (d + rest))));
      TextReads(u, x.format, c + (x.digest + (d + rest)));
      TextReads(u, x.version, x.digest + (d + rest));
      TakeReads(x.digest, d + rest);
      BlockReads(x.bytes, rest);
    }
  }

  lemma AcceleratorPrefix(a: Bytes, b: Bytes, c: Bytes, d: Bytes, e: Bytes, rest: Bytes)
    ensures a + (b + (c + (d + e))) + rest == a + (b + (c + (d + (e + rest))))
  {
    Joined(a, b + (c + (d + e)), rest);
    Joined(b, c + (d + e), rest);
    Joined(c, d + e, rest);
    Joined(d, e, rest);
  }

  // ----- sections -----

  function Means<S, T>(es: seq<(Key, S)>, mean: S -> T): seq<T> { seq(|es|, i requires 0 <= i < |es| => mean(es[i].1)) }

  lemma {:induction false} TextsCons<S>(es: seq<(Key, S)>, text: S -> Res<Bytes>)
    requires es != [] && Texts(es, text).Ok?
    ensures text(es[0].1).Ok? && Texts(es[1..], text).Ok?
    ensures Texts(es, text).value == text(es[0].1).value + Texts(es[1..], text).value
    decreases |es|
  {
    var k := |es| - 1;
    if k == 0 {
      assert es[..0] == [] && es[1..] == [];
      assert Texts(es[..0], text) == Ok([]) && Texts(es[1..], text) == Ok([]);
    } else {
      TextsCons(es[..k], text);
      assert es[..k][1..] == es[1..][..k - 1] && es[1..][k - 1] == es[k];
      Joined(text(es[0].1).value, Texts(es[..k][1..], text).value, text(es[k].1).value);
    }
  }

  lemma {:induction false} SomeRead<S(!new), T(!new)>(es: seq<(Key, S)>, read: Bytes -> Read<T>, text: S -> Res<Bytes>,
                                                      ok: S -> bool, mean: S -> T, rest: Bytes)
    requires Reads(read, text, ok, mean) && Texts(es, text).Ok? && forall e :: e in es ==> ok(e.1)
    ensures ReadSome(read, |es|, Texts(es, text).value + rest) == Got(Means(es, mean), rest)
    decreases |es|
  {
    if es == [] {
      assert [] + rest == rest;
    } else {
      var first, more := es[0], es[1..];
      assert first in es && forall e :: e in more ==> e in es;
      TextsCons(es, text);
      var a, b := text(first.1).value, Texts(more, text).value;
      SomeRead(more, read, text, ok, mean, rest);
      hide Texts;
      Joined(a, b, rest);
      assert read(a + (b + rest)) == Got(mean(first.1), b + rest);
      hide Reads;
      assert [mean(first.1)] + Means(more, mean) == Means(es, mean);
    }
  }

  lemma SectionReads<S(!new), T(!new)>(es: seq<(Key, S)>, read: Bytes -> Read<T>, text: S -> Res<Bytes>,
                                       ok: S -> bool, mean: S -> T, rest: Bytes)
    requires Reads(read, text, ok, mean) && Section(es, text).Ok? && forall e :: e in es ==> ok(e.1)
    ensures ReadItems(read, Section(es, text).value + rest) ==
            if |es| <= MAX_ITEMS then Got(Means(es, mean), rest) else Bad(TooMany)
  {
    hide Reads, Texts, BigEndian, ReadSome, Means;
    Joined(BigEndian(|es|, 4), Texts(es, text).value, rest);
    CountReads(|es|, Texts(es, text).value + rest);
    SomeRead(es, read, text, ok, mean, rest);
  }

  /** Every item of a section takes up part of it. */
  lemma {:induction false} TextsLonger<S>(es: seq<(Key, S)>, text: S -> Res<Bytes>, i: nat)
    requires Texts(es, text).Ok? && i < |es|
    ensures text(es[i].1).Ok? && |text(es[i].1).value| <= |Texts(es, text).value|
    decreases |es|
  {
    if i < |es| - 1 { TextsLonger(es[..|es| - 1], text, i); }
  }

  ghost predicate SectionFits<S>(es: seq<(Key, S)>, text: S -> Res<Bytes>) {
    forall e :: e in es ==> text(e.1).Ok? && |text(e.1).value| <= MAX_PAYLOAD_BYTES
  }

  lemma SectionItemsFit<S>(es: seq<(Key, S)>, text: S -> Res<Bytes>)
    requires Section(es, text).Ok? && |Section(es, text).value| <= MAX_PAYLOAD_BYTES
    ensures SectionFits(es, text)
  {
    hide Texts, BigEndian;
    forall e | e in es ensures text(e.1).Ok? && |text(e.1).value| <= MAX_PAYLOAD_BYTES {
      var i :| 0 <= i < |es| && es[i] == e;
      TextsLonger(es, text, i);
    }
  }

  // ----- maps and sets -----

  /** The map holds exactly these pairs. */
  ghost predicate Holds<V>(m: map<Bytes, V>, pairs: seq<(Bytes, V)>) {
    && |m| == |pairs|
    && (forall p :: p in pairs ==> p.0 in m && m[p.0] == p.1)
    && (forall k :: k in m ==> (k, m[k]) in pairs)
  }

  lemma OneMorePair<V>(m: map<Bytes, V>, pairs: seq<(Bytes, V)>, last: (Bytes, V))
    requires Holds(m, pairs) && last.0 !in m
    ensures Holds(m[last.0 := last.1], pairs + [last])
  {
    var n, all := m[last.0 := last.1], pairs + [last];
    assert n.Keys == m.Keys + {last.0};
    forall p | p in all ensures p.0 in n && n[p.0] == p.1 { assert p == last || p in pairs; }
    forall k | k in n ensures (k, n[k]) in all {
      if k == last.0 { assert (k, n[k]) == last && all[|pairs|] == last; } else { assert (k, m[k]) in pairs; }
    }
  }

  lemma {:induction false} MapOfPairs<V>(pairs: seq<(Bytes, V)>)
    requires DistinctFirsts(pairs)
    ensures Holds(MapOf(pairs), pairs)
    decreases |pairs|
  {
    if pairs != [] {
      var front, last := pairs[..|pairs| - 1], pairs[|pairs| - 1];
      assert pairs == front + [last];
      MapOfPairs(front);
      var less := MapOf(front);
      forall k | k in less ensures k != last.0 {
        var i :| 0 <= i < |front| && front[i] == (k, less[k]);
        assert pairs[i].0 != pairs[|pairs| - 1].0;
      }
      OneMorePair(less, front, last);
    }
  }

  /** Pairs with distinct first parts that list a map make up that map. */
  lemma MapOfListed<V>(pairs: seq<(Bytes, V)>, m: map<Bytes, V>)
    requires DistinctFirsts(pairs) && (forall p :: p in pairs ==> p.0 in m && m[p.0] == p.1) && (forall k :: k in m ==> (k, m[k]) in pairs)
    ensures MapOf(pairs) == m && |m| == |pairs|
  {
    hide MapOf;
    MapOfPairs(pairs);
    var n := MapOf(pairs);
    forall k ensures k in n <==> k in m {
      if k in n { assert (k, n[k]) in pairs; }
      if k in m { assert (k, m[k]) in pairs; }
    }
    forall k | k in m ensures n[k] == m[k] { assert (k, m[k]) in pairs; }
    assert n == m;
  }

  lemma PairsListed<V>(m: map<Bytes, V>)
    ensures var pairs := Means(Arrange(Pairs(m)), Same<(Bytes, V)>);
            MapOf(pairs) == m && |m| == |pairs| && |pairs| == |Arrange(Pairs(m))|
    ensures forall e :: e in Arrange(Pairs(m)) ==> e.1.0 in m && m[e.1.0] == e.1.1
  {
    hide Arrange;
    var es := Arrange(Pairs(m));
    PairsInOrder(m);
    SameIsItems(es);
    hide Means;
    var pairs := Items(es);
    forall p | p in pairs ensures p.0 in m && m[p.0] == p.1 {
      var i :| 0 <= i < |pairs| && pairs[i] == p;
      assert es[i] in es;
    }
    forall k | k in m ensures (k, m[k]) in pairs {
      assert KeyedOne((k, m[k]), First) in Entries(es);
      var i :| 0 <= i < |es| && es[i] == KeyedOne((k, m[k]), First);
      assert pairs[i] == (k, m[k]);
    }
    MapOfListed(pairs, m);
  }

  /** The entries of a map are arranged with distinct names. */
  lemma PairsInOrder<V>(m: map<Bytes, V>)
    ensures var es := Arrange(Pairs(m));
            && Entries(es) == Pairs(m)
            && (forall i, j :: 0 <= i < j < |es| ==> es[i].1.0 != es[j].1.0)
            && (forall e :: e in es ==> e.1.0 in m && m[e.1.0] == e.1.1)
  {
    hide Arrange;
    var es := Arrange(Pairs(m));
    ArrangeEntries(Pairs(m));
    ArrangeAscends(Pairs(m));
    forall e | e in es ensures e.1.0 in m && m[e.1.0] == e.1.1 && e.0 == e.1.0 { assert e in Entries(es); }
    forall i, j | 0 <= i < j < |es| ensures es[i].1.0 != es[j].1.0 {
      assert es[i] in es && es[j] in es && Less(es[i].0, es[j].0);
      LessIrreflexive(es[i].0);
    }
  }

  lemma StateListed<V>(h: Host<V>, m: map<Bytes, V>, decode: Bytes -> Option<V>, default: V)
    requires (forall k :: k in m ==> h.encode(m[k]).Some? && decode(h.encode(m[k]).value) == Some(m[k]))
    ensures var es := Arrange(Pairs(EncodedState(h, m)));
            var pairs := Means(es, StateMeans(decode, default));
            && MapOf(pairs) == m && |m| == |pairs| && |pairs| == |es|
            && (forall e :: e in es ==> decode(e.1.1).Some?)
  {
    hide Arrange;
    var encoded := EncodedState(h, m);
    var es := Arrange(Pairs(encoded));
    PairsInOrder(encoded);
    var pairs := Means(es, StateMeans(decode, default));
    forall i | 0 <= i < |es| ensures es[i].1.0 in m && pairs[i] == (es[i].1.0, m[es[i].1.0]) { assert es[i] in es; }
    forall k | k in m ensures (k, m[k]) in pairs {
      assert KeyedOne((k, encoded[k]), First) in Entries(es);
      var i :| 0 <= i < |es| && es[i] == KeyedOne((k, encoded[k]), First);
      assert pairs[i] == (k, m[k]);
    }
    MapOfListed(pairs, m);
  }

  lemma SinglesListed(s: set<Bytes>)
    ensures var es := Arrange(Singles(s));
            (set c | c in Means(es, Same<Bytes>)) == s && |es| == |s| && forall e :: e in es ==> e.1 in s
  {
    hide Arrange;
    var es := Arrange(Singles(s));
    ArrangeEntries(Singles(s));
    SameIsItems(es);
    hide Means;
    var items := Items(es);
    forall e | e in es ensures e.1 in s { assert e in Entries(es); }
    forall c ensures c in items <==> c in s {
      if c in s {
        assert KeyedOne(c, Itself) in Entries(es);
        var i :| 0 <= i < |es| && es[i] == KeyedOne(c, Itself);
        assert items[i] == c;
      }
      if c in items {
        var i :| 0 <= i < |items| && items[i] == c;
        assert es[i] in es;
      }
    }
    SinglesCount(s);
  }

  lemma {:induction false} SinglesCount(s: set<Bytes>)
    ensures |Singles(s)| == |s|
    decreases |s|
  {
    if s != {} {
      var d :| d in s;
      SinglesCount(s - {d});
      assert Singles(s) == Singles(s - {d}) + {KeyedOne(d, Itself)};
    }
  }

  // ----- manifests -----

  /** The manifest with its lists in the order they are written. */
  function Canonical<V>(m: Manifest<V>): Manifest<V> {
    m.(libraries := Items(Sort(Keyed(m.libraries, LibraryId))),
       namespaces := Items(Sort(Keyed(m.namespaces, NamespaceName))),
       secrets := Items(Sort(Keyed(m.secrets, SecretId))),
       accelerators := Items(Sort(KeyedAccelerators(m.accelerators))))
  }

  /** No list, map or set is longer than the reader accepts. */
  predicate FewItems<V>(m: Manifest<V>) {
    && |m.libraries| <= MAX_ITEMS && |m.namespaces| <= MAX_ITEMS && |m.entrypoints| <= MAX_ITEMS
    && |m.initialState| <= MAX_ITEMS && |m.capabilities| <= MAX_ITEMS && |m.secrets| <= MAX_ITEMS
    && |m.accelerators| <= MAX_ITEMS
  }

  lemma SameIsItems<T>(es: seq<(Key, T)>)
    ensures Means(es, Same<T>) == Items(es)
  {
    assert |Means(es, Same<T>)| == |Items(es)|;
    forall i | 0 <= i < |es| ensures Means(es, Same<T>)[i] == Items(es)[i] { }
  }

  /** The texts are valid UTF-8 and the digests have their width. */
  ghost predicate Typed<V>(u: Utf8, m: Manifest<V>) {
    && u(m.languageVersion) && |m.lock| == HASH_BYTES
    && (forall l :: l in m.libraries ==> u(l.id) && u(l.version) && |l.digest| == HASH_BYTES)
    && (forall n :: n in m.namespaces ==> u(n.name) && |n.digest| == HASH_BYTES)
    && (forall k :: k in m.entrypoints ==> u(k) && u(m.entrypoints[k]))
    && (forall k :: k in m.initialState ==> u(k))
    && (forall c :: c in m.capabilities ==> u(c))
    && (forall s :: s in m.secrets ==> u(s.id) && u(s.purpose) && (s.version.Some? ==> u(s.version.value)))
    && (forall a :: a in m.accelerators ==> u(a.runtime) && u(a.format) && u(a.version) && |a.digest| == HASH_BYTES)
  }

  lemma PairKeyAt(a: Bytes, b: Bytes)
    ensures var s := PairKey(a, b);
            |s| == |a| + 1 + |b| && s[|a|] == 0 && s[|a| + 1..] == b && forall i :: 0 <= i < |a| ==> s[i] > 0 && s[i] - 1 == a[i]
  {
  }

  lemma PairKeyInjective(a: Bytes, b: Bytes, c: Bytes, d: Bytes)
    requires PairKey(a, b) == PairKey(c, d)
    ensures a == c && b == d
  {
    hide PairKey;
    PairKeyAt(a, b);
    PairKeyAt(c, d);
    assert |a| == |c|;
    forall i | 0 <= i < |a| ensures a[i] == c[i] { }
  }

  lemma AcceleratorKeys(items: seq<Accelerator>)
    requires Unique(items, AcceleratorId)
    ensures DistinctFirsts(KeyedAccelerators(items))
  {
    var es := KeyedAccelerators(items);
    hide PairKey;
    forall i, j | 0 <= i < j < |es| ensures es[i].0 != es[j].0 {
      assert AcceleratorId(items[i]) != AcceleratorId(items[j]);
      if es[i].0 == es[j].0 { PairKeyInjective(items[i].runtime, items[i].format, items[j].runtime, items[j].format); }
    }
  }

  /** Entries sorted by distinct keys are the same items, each once. */
  lemma SortedSame<T(!new)>(es: seq<(Key, T)>, items: seq<T>)
    requires DistinctFirsts(es) && |es| == |items| && forall i :: 0 <= i < |es| ==> es[i].1 == items[i]
    ensures var sorted := Sort(es);
            && |sorted| == |items| && SameItems(Items(sorted), items) && (forall e :: e in sorted ==> e.1 in items)
            && (forall i, j :: 0 <= i < j < |sorted| ==> sorted[i].0 != sorted[j].0)
  {
    hide Sort, Less;
    SortEntries(es);
    var sorted := Sort(es);
    forall e ensures e in sorted <==> e in es { assert e in Entries(sorted) <==> e in Entries(es); }
    forall e | e in sorted ensures e.1 in items { var i :| 0 <= i < |es| && es[i] == e; }
    forall x ensures x in Items(sorted) <==> x in items {
      if x in items {
        var i :| 0 <= i < |items| && items[i] == x;
        assert es[i] in sorted;
        var j :| 0 <= j < |sorted| && sorted[j] == es[i];
        assert Items(sorted)[j] == x;
      }
      if x in Items(sorted) {
        var j :| 0 <= j < |sorted| && Items(sorted)[j] == x;
        assert sorted[j] in sorted;
      }
    }
    forall i, j | 0 <= i < j < |sorted| ensures sorted[i].0 != sorted[j].0 {
      assert Less(sorted[i].0, sorted[j].0);
      LessIrreflexive(sorted[i].0);
    }
  }

  /** Items each of which stands once keep the distinctness of any key of theirs. */
  lemma StaysUnique<T(!new)>(items: seq<T>, sorted: seq<(Key, T)>, key: T -> Bytes)
    requires Unique(items, key) && (forall e :: e in sorted ==> e.1 in items)
    requires forall i, j :: 0 <= i < j < |sorted| ==> sorted[i].1 != sorted[j].1
    ensures Unique(Items(sorted), key)
  {
    var list := Items(sorted);
    forall i, j | 0 <= i < j < |list| ensures key(list[i]) != key(list[j]) {
      assert sorted[i] in sorted && sorted[j] in sorted;
      var a :| 0 <= a < |items| && items[a] == list[i];
      var b :| 0 <= b < |items| && items[b] == list[j];
      assert a != b;
      assert a < b ==> key(items[a]) != key(items[b]);
      assert b < a ==> key(items[b]) != key(items[a]);
    }
  }

  lemma ListSorted<T(!new)>(items: seq<T>, key: T -> Bytes)
    requires Unique(items, key)
    ensures var sorted := Sort(Keyed(items, key));
            && |sorted| == |items| && SameItems(Items(sorted), items) && Unique(Items(sorted), key)
            && forall e :: e in sorted ==> e.1 in items
  {
    hide Sort;
    var es := Keyed(items, key);
    SortedSame(es, items);
    var sorted := Sort(es);
    forall e | e in sorted ensures e.0 == key(e.1) {
      SortEntries(es);
      assert e in Entries(es);
    }
    forall i, j | 0 <= i < j < |sorted| ensures sorted[i].1 != sorted[j].1 { assert sorted[i] in sorted && sorted[j] in sorted; }
    StaysUnique(items, sorted, key);
  }

  lemma AcceleratorsSorted(items: seq<Accelerator>)
    requires Unique(items, AcceleratorId)
    ensures var sorted := Sort(KeyedAccelerators(items));
            && |sorted| == |items| && SameItems(Items(sorted), items) && Unique(Items(sorted), AcceleratorId)
            && forall e :: e in sorted ==> e.1 in items
  {
    hide Sort, PairKey;
    var es := KeyedAccelerators(items);
    AcceleratorKeys(items);
    SortedSame(es, items);
    var sorted := Sort(es);
    forall e | e in sorted ensures e.0 == PairKey(e.1.runtime, e.1.format) {
      SortEntries(es);
      assert e in Entries(es);
    }
    forall i, j | 0 <= i < j < |sorted| ensures sorted[i].1 != sorted[j].1 { assert sorted[i] in sorted && sorted[j] in sorted; }
    StaysUnique(items, sorted, AcceleratorId);
  }

  lemma NamespacesStaySound<V>(h: Host<V>, a: seq<Namespace>, b: seq<Namespace>, incremental: bool)
    requires NamespaceFault(h, a, incremental).None? && SameItems(b, a)
    ensures NamespaceFault(h, b, incremental).None?
  {
    hide NamespaceFault;
    NamespacesSound(h, a, incremental);
    NamespacesSound(h, b, incremental);
  }

  /** Putting the lists in order keeps a manifest valid. */
  lemma CanonicalIsValid<V>(h: Host<V>, m: Manifest<V>, incremental: bool)
    requires Valid(h, m, incremental)
    ensures Valid(h, Canonical(m), incremental)
  {
    hide Unique, NamespaceFault, StateFault, Sort, Keyed, KeyedAccelerators, Items, Arrange, Pairs, SameItems;
    var c := Canonical(m);
    ListSorted(m.libraries, LibraryId);
    ListSorted(m.namespaces, NamespaceName);
    ListSorted(m.secrets, SecretId);
    AcceleratorsSorted(m.accelerators);
    NamespacesStaySound(h, m.namespaces, c.namespaces, incremental);
    assert !exists s :: s in c.secrets && (s.id == [] || s.purpose == []) by { SecretsStay(m.secrets, c.secrets); }
    assert !exists a :: a in c.accelerators && h.sha(a.bytes) != a.digest by { AcceleratorsStay(h, m.accelerators, c.accelerators); }
  }

  lemma SecretsStay(a: seq<Secret>, b: seq<Secret>)
    requires SameItems(b, a) && !exists s :: s in a && (s.id == [] || s.purpose == [])
    ensures !exists s :: s in b && (s.id == [] || s.purpose == [])
  {
  }

  lemma AcceleratorsStay<V>(h: Host<V>, a: seq<Accelerator>, b: seq<Accelerator>)
    requires SameItems(b, a) && !exists x :: x in a && h.sha(x.bytes) != x.digest
    ensures !exists x :: x in b && h.sha(x.bytes) != x.digest
  {
  }

  // ----- reading a manifest -----

  /** What a section reads as, given how long it is. */
  ghost function Outcome<T>(few: bool, x: T, rest: Bytes): Read<T> { if few then Got(x, rest) else Bad(TooMany) }

  lemma LibrariesRead<V>(u: Utf8, m: Manifest<V>, rest: Bytes)
    requires Typed(u, m) && Unique(m.libraries, LibraryId)
    requires var s := Section(Sort(Keyed(m.libraries, LibraryId)), LibraryText); s.Ok? && |s.value| <= MAX_PAYLOAD_BYTES
    ensures ReadItems(ReadLibrary(u), Section(Sort(Keyed(m.libraries, LibraryId)), LibraryText).value + rest)
         == Outcome(|m.libraries| <= MAX_ITEMS, Canonical(m).libraries, rest)
  {
    var es := Sort(Keyed(m.libraries, LibraryId));
    ListSorted(m.libraries, LibraryId);
    SectionItemsFit(es, LibraryText);
    forall e | e in es ensures LibraryFits(u)(e.1) { assert e.1 in m.libraries; }
    hide Sort, Keyed, Unique, Section, Items, ReadItems, SameItems, SectionFits, Reads;
    LibraryReads(u);
    SectionReads(es, ReadLibrary(u), LibraryText, LibraryFits(u), Same<Library>, rest);
    SameIsItems(es);
  }

  lemma NamespaceSized(u: Utf8, x: Namespace)
    requires u(x.name) && |x.digest| == HASH_BYTES && NamespaceText(x).Ok? && |NamespaceText(x).value| <= MAX_PAYLOAD_BYTES
    ensures NamespaceFits(u)(x)
  {
    hide BigEndian;
  }

  lemma NamespacesRead<V>(u: Utf8, m: Manifest<V>, rest: Bytes)
    requires Typed(u, m) && Unique(m.namespaces, NamespaceName)
    requires var s := Section(Sort(Keyed(m.namespaces, NamespaceName)), NamespaceText); s.Ok? && |s.value| <= MAX_PAYLOAD_BYTES
    ensures ReadItems(ReadNamespace(u), Section(Sort(Keyed(m.namespaces, NamespaceName)), NamespaceText).value + rest)
         == Outcome(|m.namespaces| <= MAX_ITEMS, Canonical(m).namespaces, rest)
  {
    var es := Sort(Keyed(m.namespaces, NamespaceName));
    ListSorted(m.namespaces, NamespaceName);
    SectionItemsFit(es, NamespaceText);
    hide Sort, Keyed, Unique, Section, Items, ReadItems, SameItems, Reads, NamespaceText, NamespaceFits;
    forall e | e in es ensures NamespaceFits(u)(e.1) {
      assert e.1 in m.namespaces;
      NamespaceSized(u, e.1);
    }
    hide SectionFits;
    NamespaceReads(u);
    SectionReads(es, ReadNamespace(u), NamespaceText, NamespaceFits(u), Same<Namespace>, rest);
    SameIsItems(es);
  }

  lemma EntrypointsRead<V>(u: Utf8, m: Manifest<V>, rest: Bytes)
    requires Typed(u, m)
    requires var s := Section(Arrange(Pairs(m.entrypoints)), PairText); s.Ok? && |s.value| <= MAX_PAYLOAD_BYTES
    ensures ReadMap(ReadEntrypoint(u), Section(Arrange(Pairs(m.entrypoints)), PairText).value + rest)
         == Outcome(|m.entrypoints| <= MAX_ITEMS, m.entrypoints, rest)
  {
    var es := Arrange(Pairs(m.entrypoints));
    PairsListed(m.entrypoints);
    SectionItemsFit(es, PairText);
    hide Arrange, Pairs, Section, ReadItems, Reads, Means, MapOf, PairText;
    forall e | e in es ensures EntrypointFits(u)(e.1) {
      assert e.1.0 in m.entrypoints;
      PairSized(e.1);
    }
    hide SectionFits;
    EntrypointReads(u);
    SectionReads(es, ReadEntrypoint(u), PairText, EntrypointFits(u), Same<(Bytes, Bytes)>, rest);
  }

  lemma StatesRead<V(!new)>(h: Host<V>, u: Utf8, decode: Bytes -> Option<V>, m: Manifest<V>, rest: Bytes)
    requires Typed(u, m) && Encodable(h, m)
    requires forall k :: k in m.initialState ==> decode(h.encode(m.initialState[k]).value) == Some(m.initialState[k])
    requires var s := Section(Arrange(Pairs(EncodedState(h, m.initialState))), PairText); s.Ok? && |s.value| <= MAX_PAYLOAD_BYTES
    ensures ReadMap(ReadState(u, decode), Section(Arrange(Pairs(EncodedState(h, m.initialState))), PairText).value + rest)
         == Outcome(|m.initialState| <= MAX_ITEMS, m.initialState, rest)
  {
    var state := m.initialState;
    var es := Arrange(Pairs(EncodedState(h, state)));
    if state == map[] {
      assert EncodedState(h, state) == map[] && Pairs(EncodedState(h, state)) == {};
      assert es == [];
      NothingReads(ReadState(u, decode), rest);
    } else {
      var k :| k in state;
      SomeStatesRead(h, u, decode, m, rest, state[k]);
    }
  }

  lemma NothingReads<V(!new)>(read: Bytes -> Read<(Bytes, V)>, rest: Bytes)
    ensures ReadMap(read, Section<(Bytes, Bytes)>([], PairText).value + rest) == Got(map[], rest)
  {
    hide BigEndian;
    var zero := BigEndian(0, 4);
    assert Section<(Bytes, Bytes)>([], PairText).value + rest == zero + rest by { assert zero + [] == zero; }
    CountReads(0, rest);
    assert ReadItems(read, zero + rest) == Got([], rest);
    assert MapOf<Bytes, V>([]) == map[];
  }

  lemma SomeStatesRead<V(!new)>(h: Host<V>, u: Utf8, decode: Bytes -> Option<V>, m: Manifest<V>, rest: Bytes, default: V)
    requires Typed(u, m) && Encodable(h, m)
    requires forall k :: k in m.initialState ==> decode(h.encode(m.initialState[k]).value) == Some(m.initialState[k])
    requires var s := Section(Arrange(Pairs(EncodedState(h, m.initialState))), PairText); s.Ok? && |s.value| <= MAX_PAYLOAD_BYTES
    ensures ReadMap(ReadState(u, decode), Section(Arrange(Pairs(EncodedState(h, m.initialState))), PairText).value + rest)
         == Outcome(|m.initialState| <= MAX_ITEMS, m.initialState, rest)
  {
    var es := Arrange(Pairs(EncodedState(h, m.initialState)));
    StateListed(h, m.initialState, decode, default);
    PairsInOrder(EncodedState(h, m.initialState));
    SectionItemsFit(es, PairText);
    hide Arrange, Pairs, Section, ReadItems, Reads, Means, MapOf, PairText;
    forall e | e in es ensures StateFits(u, decode)(e.1) {
      assert e.1.0 in m.initialState;
      PairSized(e.1);
    }
    hide SectionFits, StateFits, StateMeans;
    StateReads(u, decode, default);
    SectionReads(es, ReadState(u, decode), PairText, StateFits(u, decode), StateMeans(decode, default), rest);
  }

  lemma PairSized(x: (Bytes, Bytes))
    requires PairText(x).Ok? && |PairText(x).value| <= MAX_PAYLOAD_BYTES
    ensures Fits(x.0) && Fits(x.1)
  {
    hide BigEndian;
  }

  lemma CapabilitiesRead<V>(u: Utf8, m: Manifest<V>, rest: Bytes)
    requires Typed(u, m)
    requires var s := Section(Arrange(Singles(m.capabilities)), Block); s.Ok? && |s.value| <= MAX_PAYLOAD_BYTES
    ensures var r := ReadItems(ReadCapability(u), Section(Arrange(Singles(m.capabilities)), Block).value + rest);
            && (|m.capabilities| <= MAX_ITEMS ==> r.Got? && r.rest == rest && (set c | c in r.value) == m.capabilities)
            && (|m.capabilities| > MAX_ITEMS ==> r == Bad(TooMany))
  {
    var es := Arrange(Singles(m.capabilities));
    SinglesListed(m.capabilities);
    SectionItemsFit(es, Block);
    forall e | e in es ensures CapabilityFits(u)(e.1) { assert e.1 in m.capabilities; }
    hide Arrange, Singles, Section, ReadItems, SectionFits, Reads, Means;
    CapabilityReads(u);
    SectionReads(es, ReadCapability(u), Block, CapabilityFits(u), Same<Bytes>, rest);
  }

  lemma SecretSized(u: Utf8, x: Secret)
    requires u(x.id) && u(x.purpose) && (x.version.Some? ==> u(x.version.value))
    requires SecretText(x).Ok? && |SecretText(x).value| <= MAX_PAYLOAD_BYTES
    ensures SecretFits(u)(x)
  {
    hide BigEndian;
  }

  lemma SecretsRead<V>(u: Utf8, m: Manifest<V>, rest: Bytes)
    requires Typed(u, m) && Unique(m.secrets, SecretId)
    requires var s := Section(Sort(Keyed(m.secrets, SecretId)), SecretText); s.Ok? && |s.value| <= MAX_PAYLOAD_BYTES
    ensures ReadItems(ReadSecret(u), Section(Sort(Keyed(m.secrets, SecretId)), SecretText).value + rest)
         == Outcome(|m.secrets| <= MAX_ITEMS, Canonical(m).secrets, rest)
  {
    var es := Sort(Keyed(m.secrets, SecretId));
    ListSorted(m.secrets, SecretId);
    SectionItemsFit(es, SecretText);
    hide Sort, Keyed, Unique, Section, Items, ReadItems, SameItems, Reads, SecretText, SecretFits;
    forall e | e in es ensures SecretFits(u)(e.1) {
      assert e.1 in m.secrets;
      SecretSized(u, e.1);
    }
    hide SectionFits;
    SecretReads(u);
    SectionReads(es, ReadSecret(u), SecretText, SecretFits(u), Same<Secret>, rest);
    SameIsItems(es);
  }

  lemma AcceleratorSized(u: Utf8, x: Accelerator)
    requires u(x.runtime) && u(x.format) && u(x.version) && |x.digest| == HASH_BYTES
    requires AcceleratorText(x).Ok? && |AcceleratorText(x).value| <= MAX_PAYLOAD_BYTES
    ensures AcceleratorFits(u)(x)
  {
    hide BigEndian;
  }

  lemma AcceleratorsRead<V>(u: Utf8, m: Manifest<V>, rest: Bytes)
    requires Typed(u, m) && Unique(m.accelerators, AcceleratorId)
    requires var s := Section(Sort(KeyedAccelerators(m.accelerators)), AcceleratorText); s.Ok? && |s.value| <= MAX_PAYLOAD_BYTES
    ensures ReadItems(ReadAccelerator(u), Section(Sort(KeyedAccelerators(m.accelerators)), AcceleratorText).value + rest)
         == Outcome(|m.accelerators| <= MAX_ITEMS, Canonical(m).accelerators, rest)
  {
    var es := Sort(KeyedAccelerators(m.accelerators));
    AcceleratorsSorted(m.accelerators);
    SectionItemsFit(es, AcceleratorText);
    hide Sort, Keyed, KeyedAccelerators, Unique, Section, Items, ReadItems, SameItems, Reads, AcceleratorText, AcceleratorFits;
    forall e | e in es ensures AcceleratorFits(u)(e.1) {
      assert e.1 in m.accelerators;
      AcceleratorSized(u, e.1);
    }
    hide SectionFits;
    AcceleratorReads(u);
    SectionReads(es, ReadAccelerator(u), AcceleratorText, AcceleratorFits(u), Same<Accelerator>, rest);
    SameIsItems(es);
  }

  /** The values of the initial state are read back by `decode`. */
  ghost predicate Inverts<V>(h: Host<V>, decode: Bytes -> Option<V>, m: Manifest<V>) {
    forall k :: k in m.initialState && h.encode(m.initialState[k]).Some? ==>
      decode(h.encode(m.initialState[k]).value) == Some(m.initialState[k])
  }

  ghost predicate Lists<V>(m: Manifest<V>) { Listed(m) && Unique(m.accelerators, AcceleratorId) }

  lemma CodeParts<V>(m: Manifest<V>, t: Bytes)
    requires CodeText(m).Ok? && |CodeText(m).value| <= MAX_PAYLOAD_BYTES
    ensures var l, n := Section(Sort(Keyed(m.libraries, LibraryId)), LibraryText), Section(Sort(Keyed(m.namespaces, NamespaceName)), NamespaceText);
            && Block(m.languageVersion).Ok? && l.Ok? && n.Ok?
            && Fits(m.languageVersion) && |l.value| <= MAX_PAYLOAD_BYTES && |n.value| <= MAX_PAYLOAD_BYTES
            && CodeText(m).value + t == Block(m.languageVersion).value + (m.lock + (l.value + (n.value + t)))
  {
    var l, n := Section(Sort(Keyed(m.libraries, LibraryId)), LibraryText), Section(Sort(Keyed(m.namespaces, NamespaceName)), NamespaceText);
    hide Sort, Keyed, Section, BigEndian;
    JoinedFive(Block(m.languageVersion).value, m.lock, l.value, n.value, t);
  }

  lemma SettingsParts<V>(h: Host<V>, m: Manifest<V>, t: Bytes)
    requires Encodable(h, m) && SettingsText(h, m).Ok? && |SettingsText(h, m).value| <= MAX_PAYLOAD_BYTES
    ensures var e, s := Section(Arrange(Pairs(m.entrypoints)), PairText), Section(Arrange(Pairs(EncodedState(h, m.initialState))), PairText);
            var c, x := Section(Arrange(Singles(m.capabilities)), Block), Section(Sort(Keyed(m.secrets, SecretId)), SecretText);
            && e.Ok? && s.Ok? && c.Ok? && x.Ok? && |e.value| <= MAX_PAYLOAD_BYTES && |s.value| <= MAX_PAYLOAD_BYTES
            && |c.value| <= MAX_PAYLOAD_BYTES && |x.value| <= MAX_PAYLOAD_BYTES
            && SettingsText(h, m).value + t == e.value + (s.value + (c.value + (x.value + t)))
  {
    var e, s := Section(Arrange(Pairs(m.entrypoints)), PairText), Section(Arrange(Pairs(EncodedState(h, m.initialState))), PairText);
    var c, x := Section(Arrange(Singles(m.capabilities)), Block), Section(Sort(Keyed(m.secrets, SecretId)), SecretText);
    hide Sort, Keyed, Arrange, Pairs, Singles, EncodedState, Section, Block;
    JoinedFive(e.value, s.value, c.value, x.value, t);
  }

  /** A manifest's text is read back with its lists in order, unless one of them is longer than the reader accepts. */
  lemma ManifestReads<V(!new)>(h: Host<V>, u: Utf8, decode: Bytes -> Option<V>, m: Manifest<V>, acc: Bytes, rest: Bytes)
    requires Typed(u, m) && Encodable(h, m) && Inverts(h, decode, m) && Lists(m)
    requires CodeText(m).Ok? && |CodeText(m).value| <= MAX_PAYLOAD_BYTES
    requires SettingsText(h, m).Ok? && |SettingsText(h, m).value| <= MAX_PAYLOAD_BYTES
    requires Section(Sort(KeyedAccelerators(m.accelerators)), AcceleratorText) == Ok(acc) && |acc| <= MAX_PAYLOAD_BYTES
    ensures ReadManifest(u, decode, CodeText(m).value + (SettingsText(h, m).value + (acc + rest)))
         == Outcome(FewItems(m), Canonical(m), rest)
  {
    hide CodeText, SettingsText, Sort, Keyed, KeyedAccelerators, Arrange, Pairs, Singles, EncodedState, Section, Block, Unique, Items;
    hide ReadItems, ReadMap, ReadText, ReadDigest;
    var t8 := acc + rest;
    SettingsParts(h, m, t8);
    var t7 := Section(Sort(Keyed(m.secrets, SecretId)), SecretText).value + t8;
    var t6 := Section(Arrange(Singles(m.capabilities)), Block).value + t7;
    var t5 := Section(Arrange(Pairs(EncodedState(h, m.initialState))), PairText).value + t6;
    var t4 := SettingsText(h, m).value + t8;
    CodeParts(m, t4);
    var t3 := Section(Sort(Keyed(m.namespaces, NamespaceName)), NamespaceText).value + t4;
    var t2 := Section(Sort(Keyed(m.libraries, LibraryId)), LibraryText).value + t3;
    TextReads(u, m.languageVersion, m.lock + t2);
    DigestReads(m.lock, t2);
    LibrariesRead(u, m, t3);
    NamespacesRead(u, m, t4);
    EntrypointsRead(u, m, t5);
    StatesRead(h, u, decode, m, t6);
    CapabilitiesRead(u, m, t7);
    SecretsRead(u, m, t8);
    AcceleratorsRead(u, m, rest);
    hide Typed, Encodable, Inverts, Listed;
  }

  lemma DigestReads(d: Bytes, rest: Bytes)
    requires |d| == HASH_BYTES
    ensures ReadDigest(d + rest) == Got(d, rest)
  {
    TakeReads(d, rest);
  }

  lemma PayloadReads<V(!new)>(h: Host<V>, u: Utf8, decode: Bytes -> Option<V>, a: Artifact<V>)
    requires Valid(h, a.manifest, a.base.Some?) && Encodable(h, a.manifest) && Payload(h, a).Ok?
    requires |Payload(h, a).value| <= MAX_PAYLOAD_BYTES
    requires Typed(u, a.manifest) && Inverts(h, decode, a.manifest) && (a.base.Some? ==> |a.base.value| == HASH_BYTES)
    ensures ReadPayload(h, u, decode, Payload(h, a).value)
         == Outcome(FewItems(a.manifest), Artifact(a.base, Canonical(a.manifest)), [])
  {
    var m := a.manifest;
    assert Lists(m);
    CanonicalIsValid(h, m, a.base.Some?);
    hide Fault, CodeText, SettingsText, Section, Sort, KeyedAccelerators, ReadManifest, Typed, Inverts, Lists, Encodable, Canonical, FewItems;
    var code, settings := CodeText(m).value, SettingsText(h, m).value;
    var acc := Section(Sort(KeyedAccelerators(m.accelerators)), AcceleratorText).value;
    ManifestReads(h, u, decode, m, acc, []);
    assert acc + [] == acc;
    OptionalDigestReads(a.base, code + (settings + acc));
  }

  lemma VersionReads(rest: Bytes)
    ensures ReadNumber(BigEndian(FORMAT_VERSION, 2) + rest, 2) == Got(FORMAT_VERSION, rest)
  {
    assert Power256(2) == 0x1_0000;
    TakeReads(BigEndian(FORMAT_VERSION, 2), rest);
    BigEndianRoundTrip(FORMAT_VERSION, 2);
  }

  /** A frame around a payload is taken off again. */
  lemma FrameReads<V>(h: Host<V>, u: Utf8, decode: Bytes -> Option<V>, payload: Bytes)
    requires |payload| <= MAX_PAYLOAD_BYTES && |h.sha(payload)| == HASH_BYTES
    ensures Decode(h, u, decode, Framed(h, payload)) == ReadPayload(h, u, decode, payload)
  {
    hide BigEndian, ReadPayload, ReadNumber, ReadDigest;
    var sum := h.sha(payload);
    var t3 := sum + payload;
    var t2 := BigEndian(|payload|, 4) + t3;
    TakeReads(MAGIC, BigEndian(FORMAT_VERSION, 2) + t2);
    VersionReads(t2);
    CountReads(|payload|, t3);
    DigestReads(sum, payload);
    TakeReads(payload, []);
    assert payload + [] == payload;
  }

  /**
   The round trip of artifacts: what is encoded is decoded to the artifact with its lists in order,
   exactly when no list, map or set is longer than the reader accepts; the writer has no such limit.
   */
  lemma ArtifactRoundTrip<V(!new)>(h: Host<V>, u: Utf8, decode: Bytes -> Option<V>, a: Artifact<V>)
    requires Encode(h, a).Ok? && Typed(u, a.manifest) && Inverts(h, decode, a.manifest)
    requires (a.base.Some? ==> |a.base.value| == HASH_BYTES) && forall s :: |h.sha(s)| == HASH_BYTES
    ensures Decode(h, u, decode, Encode(h, a).value)
         == if FewItems(a.manifest) then Got(Artifact(a.base, Canonical(a.manifest)), []) else Bad(TooMany)
  {
    ValidState(h, a.manifest, a.base.Some?);
    hide Fault, Payload, Typed, Inverts, FewItems, Canonical, Decode, Framed;
    PayloadReads(h, u, decode, a);
    FrameReads(h, u, decode, Payload(h, a).value);
  }

  lemma PayloadAlike<V>(h: Host<V>, a: Artifact<V>)
    requires Lists(a.manifest) && Encodable(h, a.manifest)
    ensures Encodable(h, Canonical(a.manifest)) && Payload(h, Artifact(a.base, Canonical(a.manifest))) == Payload(h, a)
  {
    var m, c := a.manifest, Canonical(a.manifest);
    hide Canonical, Section, Sort, Keyed, KeyedAccelerators, Arrange, Pairs, Singles, EncodedState, Block, Lists;
    SortsAlike(m);
    assert CodeText(c) == CodeText(m);
    hide CodeText;
    assert SettingsText(h, c) == SettingsText(h, m);
    hide SettingsText;
  }

  /** Encoding does not depend on the order of any list: the artifact read back is encoded alike. */
  lemma CanonicalEncodes<V>(h: Host<V>, a: Artifact<V>)
    requires Encode(h, a).Ok?
    ensures Encode(h, Artifact(a.base, Canonical(a.manifest))) == Encode(h, a)
  {
    var m := a.manifest;
    ValidState(h, m, a.base.Some?);
    assert Lists(m);
    hide Fault, Canonical, Payload, Framed, Lists;
    CanonicalIsValid(h, m, a.base.Some?);
    PayloadAlike(h, a);
  }

  lemma SortsAlike<V>(m: Manifest<V>)
    requires Lists(m)
    ensures var c := Canonical(m);
            && Sort(Keyed(c.libraries, LibraryId)) == Sort(Keyed(m.libraries, LibraryId))
            && Sort(Keyed(c.namespaces, NamespaceName)) == Sort(Keyed(m.namespaces, NamespaceName))
            && Sort(Keyed(c.secrets, SecretId)) == Sort(Keyed(m.secrets, SecretId))
            && Sort(KeyedAccelerators(c.accelerators)) == Sort(KeyedAccelerators(m.accelerators))
            && c.languageVersion == m.languageVersion && c.lock == m.lock && c.entrypoints == m.entrypoints
            && c.initialState == m.initialState && c.capabilities == m.capabilities
  {
    hide Sort, Keyed, Unique, Items, SameItems, KeyedAccelerators;
    ListSorted(m.libraries, LibraryId);
    ListSorted(m.namespaces, NamespaceName);
    ListSorted(m.secrets, SecretId);
    AcceleratorsSorted(m.accelerators);
    var c := Canonical(m);
    SortIgnoresOrder(c.libraries, m.libraries, LibraryId);
    SortIgnoresOrder(c.namespaces, m.namespaces, NamespaceName);
    SortIgnoresOrder(c.secrets, m.secrets, SecretId);
    AcceleratorsIgnoreOrder(c.accelerators, m.accelerators);
  }

  lemma AcceleratorsIgnoreOrder(a: seq<Accelerator>, b: seq<Accelerator>)
    requires Unique(a, AcceleratorId) && Unique(b, AcceleratorId) && SameItems(a, b)
    ensures Sort(KeyedAccelerators(a)) == Sort(KeyedAccelerators(b))
  {
    hide Sort, Arrange, PairKey;
    AcceleratorKeys(a);
    AcceleratorKeys(b);
    SortIsArrange(KeyedAccelerators(a));
    SortIsArrange(KeyedAccelerators(b));
    forall e ensures e in Entries(KeyedAccelerators(a)) <==> e in Entries(KeyedAccelerators(b)) {
      AcceleratorEntry(a, e);
      AcceleratorEntry(b, e);
    }
    assert Entries(KeyedAccelerators(a)) == Entries(KeyedAccelerators(b));
  }

  lemma AcceleratorEntry(a: seq<Accelerator>, e: (Key, Accelerator))
    ensures e in Entries(KeyedAccelerators(a)) <==> e.1 in a && e.0 == PairKey(e.1.runtime, e.1.format)
  {
    hide PairKey;
    if e.1 in a && e.0 == PairKey(e.1.runtime, e.1.format) {
      var i :| 0 <= i < |a| && a[i] == e.1;
      assert KeyedAccelerators(a)[i] == e;
    }
  }

  // ----- an artifact that is encoded but not decoded -----

  /** Three ASCII characters for each number. */
  function Label(i: nat): Bytes { [i / 0x4000 % 0x80, i / 0x80 % 0x80, i % 0x80] }

  function Labels(n: nat): set<Bytes> { if n == 0 then {} else Labels(n - 1) + {Label(n - 1)} }

  ghost predicate IsLabel(d: Bytes, n: nat) { exists i: nat :: i < n && d == Label(i) }

  lemma {:induction false} LabelsAre(n: nat)
    requires n <= 0x20_0000
    ensures |Labels(n)| == n && forall d :: d in Labels(n) ==> IsLabel(d, n)
    decreases n
  {
    hide Label;
    if n > 0 {
      LabelsAre(n - 1);
      var last := Label(n - 1);
      if last in Labels(n - 1) {
        var i: nat :| i < n - 1 && last == Label(i);
        LabelInjective(i, n - 1);
      }
      forall d | d in Labels(n) ensures IsLabel(d, n) { assert d == last || IsLabel(d, n - 1); }
    }
  }

  lemma LabelIsAscii(d: Bytes, n: nat)
    requires IsLabel(d, n)
    ensures |d| == 3 && Ascii(d)
  {
  }

  lemma Split(i: nat)
    requires i < 0x20_0000
    ensures i == 0x4000 * (i / 0x4000 % 0x80) + 0x80 * (i / 0x80 % 0x80) + i % 0x80
  {
    var q := i / 0x80;
    assert i == 0x80 * q + i % 0x80 && q == 0x80 * (q / 0x80) + q % 0x80;
    assert q / 0x80 == i / 0x4000 && i / 0x4000 < 0x80;
  }

  lemma LabelInjective(i: nat, j: nat)
    requires i < 0x20_0000 && j < 0x20_0000 && Label(i) == Label(j)
    ensures i == j
  {
    var a, b := Label(i), Label(j);
    assert a[0] == b[0] && a[1] == b[1] && a[2] == b[2];
    Split(i);
    Split(j);
  }

  predicate Ascii(d: Bytes) { forall i :: 0 <= i < |d| ==> d[i] < 0x80 }

  /** A valid manifest with one capability more than the reader accepts. */
  function Crowded<V>(lock: Bytes): Manifest<V> {
    Manifest([118], lock, [], [], map[], map[], Labels(MAX_ITEMS + 1), [], [])
  }

  lemma {:induction false} ShortTexts(es: seq<(Key, Bytes)>)
    requires forall e :: e in es ==> |e.1| == 3
    ensures Texts(es, Block).Ok? && |Texts(es, Block).value| == 7 * |es|
    decreases |es|
  {
    if es != [] {
      assert es[|es| - 1] in es && forall e :: e in es[..|es| - 1] ==> e in es;
      ShortTexts(es[..|es| - 1]);
    }
  }

  lemma CapabilitiesSized(n: nat)
    requires n <= 0x20_0000
    ensures var s := Section(Arrange(Singles(Labels(n))), Block); s.Ok? && |s.value| == 4 + 7 * n
  {
    hide Arrange, Texts, Label, IsLabel, Labels;
    LabelsAre(n);
    SinglesListed(Labels(n));
    forall e | e in Arrange(Singles(Labels(n))) ensures |e.1| == 3 { LabelIsAscii(e.1, n); }
    ShortTexts(Arrange(Singles(Labels(n))));
  }

  lemma EmptySections()
    ensures Section<(Bytes, Bytes)>(Arrange(Pairs<Bytes>(map[])), PairText) == Ok(BigEndian(0, 4) + [])
    ensures Section(Sort(Keyed([], LibraryId)), LibraryText) == Ok(BigEndian(0, 4) + [])
    ensures Section(Sort(Keyed([], NamespaceName)), NamespaceText) == Ok(BigEndian(0, 4) + [])
    ensures Section(Sort(Keyed([], SecretId)), SecretText) == Ok(BigEndian(0, 4) + [])
    ensures Section(Sort(KeyedAccelerators([])), AcceleratorText) == Ok(BigEndian(0, 4) + [])
  {
    assert Pairs<Bytes>(map[]) == {};
    assert Keyed([], LibraryId) == [] && Keyed([], NamespaceName) == [] && Keyed([], SecretId) == [];
    assert KeyedAccelerators([]) == [];
  }

  lemma CrowdedPayload<V>(h: Host<V>, lock: Bytes)
    requires |lock| == HASH_BYTES
    ensures var a := Artifact(None, Crowded<V>(lock));
            Encodable(h, a.manifest) && Payload(h, a).Ok? && |Payload(h, a).value| <= MAX_PAYLOAD_BYTES
  {
    var a := Artifact(None, Crowded<V>(lock));
    EmptySections();
    CapabilitiesSized(MAX_ITEMS + 1);
    assert EncodedState(h, a.manifest.initialState) == map[];
    hide Section, Sort, Keyed, KeyedAccelerators, Arrange, Pairs, Singles, EncodedState, Labels;
    assert CodeText(a.manifest).Ok? && |CodeText(a.manifest).value| < 100;
    hide CodeText;
    assert SettingsText(h, a.manifest).Ok? && |SettingsText(h, a.manifest).value| < 100 + 7 * (MAX_ITEMS + 1);
  }

  lemma CrowdedIsValid<V>(h: Host<V>, lock: Bytes)
    ensures Valid(h, Crowded<V>(lock), false)
  {
    hide Labels;
    var m := Crowded<V>(lock);
    assert Pairs(m.initialState) == {};
    assert Arrange(Pairs(m.initialState)) == [];
  }

  lemma CrowdedIsTyped<V>(u: Utf8, lock: Bytes)
    requires (forall d :: Ascii(d) ==> u(d)) && |lock| == HASH_BYTES
    ensures Typed(u, Crowded<V>(lock)) && !FewItems(Crowded<V>(lock))
  {
    hide Labels, Label, IsLabel;
    LabelsAre(MAX_ITEMS + 1);
    forall d | d in Labels(MAX_ITEMS + 1) ensures u(d) { LabelIsAscii(d, MAX_ITEMS + 1); }
    assert Ascii([118]);
  }

  /** It is encoded, and its bytes are refused. */
  lemma CrowdedRefused<V(!new)>(h: Host<V>, u: Utf8, decode: Bytes -> Option<V>, lock: Bytes)
    requires (forall d :: Ascii(d) ==> u(d)) && (forall s :: |h.sha(s)| == HASH_BYTES) && |lock| == HASH_BYTES
    ensures var a := Artifact(None, Crowded<V>(lock));
            Encode(h, a).Ok? && Decode(h, u, decode, Encode(h, a).value) == Bad(TooMany)
  {
    var a := Artifact(None, Crowded<V>(lock));
    assert Inverts(h, decode, a.manifest);
    hide Fault, Payload, Typed, Inverts, FewItems, Decode, Crowded, Framed;
    CrowdedIsValid(h, lock);
    CrowdedIsTyped<V>(u, lock);
    CrowdedPayload(h, lock);
    ArtifactRoundTrip(h, u, decode, a);
  }
}
