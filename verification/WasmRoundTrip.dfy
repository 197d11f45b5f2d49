/** Reading a module's binary form tells exactly what its sections tell. */
module WasmRoundTrip {
  import opened Optional
  import opened Results
  import opened ByteStrings
  import opened Powers
  import opened Ordering
  import opened Wasm

  lemma Pow2Width()
    ensures Pow2(32) == U32
  {
    Pow2Seven(25);
    Pow2Seven(18);
    Pow2Seven(11);
    Pow2Seven(4);
    assert Pow2(4) == 16;
  }

  lemma Below(n: nat, k: nat)
    requires n < 128 * k
    ensures n / 128 < k
  {
  }

  /** An encoded integer is read back, in any width it fits. */
  lemma {:induction false} LebReads(n: nat, bits: nat, rest: Bytes)
    requires bits > 0 && n < Pow2(bits)
    ensures ReadU(Leb(n) + rest, bits) == Got(n, rest)
    decreases n
  {
    var s := Leb(n) + rest;
    if n < 128 {
      assert s[1..] == rest;
    } else {
      SmallWidths(n, bits);
      Pow2Seven(bits - 7);
      Below(n, Pow2(bits - 7));
      LebReads(n / 128, bits - 7, rest);
      assert s[1..] == Leb(n / 128) + rest;
      assert n == 128 * (n / 128) + n % 128;
    }
  }

  lemma {:induction false} SmallWidths(n: nat, bits: nat)
    requires n >= 128 && n < Pow2(bits)
    ensures bits > 7
  {
    if bits <= 7 {
      assert Pow2(7) == 128 by { Pow2Seven(0); }
      Pow2Grows(bits, 7);
    }
  }

  /** What the grammar reads depends on the bytes it uses only. */
  lemma {:induction false} ReadMore(s: Bytes, bits: nat, rest: Bytes)
    requires bits > 0 && ReadU(s, bits).Got? && ReadU(s, bits).rest == []
    ensures ReadU(s + rest, bits) == Got(ReadU(s, bits).value, rest)
    decreases bits
  {
    var t := s + rest;
    assert t[0] == s[0] && t[1..] == s[1..] + rest;
    if s[0] < 128 && s[0] < Pow2(bits) {
      assert s[1..] + rest == rest;
    } else {
      ReadMore(s[1..], bits - 7, rest);
    }
  }

  lemma UReads(c: Coder, n: nat, rest: Bytes)
    requires Proper(c) && n < U32
    ensures ReadU(UBytes(c, n, rest), 32) == Got(n, rest)
  {
    hide ReadU;
    ReadMore(c(n, rest), 32, rest);
  }

  function Shortest(n: nat, rest: Bytes): Bytes { Leb(n) }

  /** The shortest form is one a coder may always pick. */
  lemma ShortestIsProper()
    ensures Proper(Shortest)
  {
    hide ReadU, Leb;
    Pow2Width();
    forall n: nat, rest: Bytes | n < U32 ensures ReadU(Shortest(n, rest), 32) == Got(n, []) {
      LebReads(n, 32, []);
      assert Leb(n) + [] == Leb(n);
    }
  }

  lemma After(a: Bytes, b: Bytes)
    ensures (a + b)[|a|..] == b && (a + b)[..|a|] == a
  {
  }

  lemma OneByte(a: byte, rest: Bytes)
    ensures ([a] + rest)[0] == a && ([a] + rest)[1..] == rest
  {
  }

  lemma TwoBytes(a: byte, b: byte, rest: Bytes)
    ensures var s := [a, b] + rest; s[0] == a && s[1..] != [] && s[1..][0] == b && s[1..][1..] == rest
  {
  }

  lemma NameReads(u: Utf8, c: Coder, d: Bytes, rest: Bytes)
    requires Proper(c) && NameOk(u, d)
    ensures ReadName(u, NameBytes(c, d, rest)) == Got(d, rest)
  {
    hide ReadU, UBytes, Proper;
    UReads(c, |d|, d + rest);
    After(d, rest);
  }

  lemma ValTypeReads(t: ValType, rest: Bytes)
    ensures ReadValType([ValTypeByte(t)] + rest) == Got(t, rest)
  {
    OneByte(ValTypeByte(t), rest);
  }

  lemma {:induction false} ValTypesRead(ts: seq<ValType>, rest: Bytes, acc: seq<ValType>)
    ensures ReadValTypes(ValTypeBytes(ts, rest), |ts|, acc) == Got(acc + ts, rest)
    decreases |ts|
  {
    if ts == [] {
      assert acc + ts == acc;
    } else {
      ValTypeReads(ts[0], ValTypeBytes(ts[1..], rest));
      hide ValTypeByte, ReadValType;
      ValTypesRead(ts[1..], rest, acc + [ts[0]]);
      assert acc + [ts[0]] + ts[1..] == acc + ts;
    }
  }

  lemma VecReads(c: Coder, ts: seq<ValType>, rest: Bytes)
    requires Proper(c) && |ts| < U32
    ensures ReadValTypeVec(VecBytes(c, ts, rest)) == Got(ts, rest)
  {
    hide ReadU, UBytes, Proper, ReadValTypes;
    UReads(c, |ts|, ValTypeBytes(ts, rest));
    ValTypesRead(ts, rest, []);
    assert [] + ts == ts;
  }

  lemma SignatureReads(c: Coder, t: Signature, rest: Bytes)
    requires Proper(c) && |t.arguments| < U32
    ensures ReadSignature(SignatureBytes(c, t, rest)) == Got(t, rest)
  {
    hide Proper, VecBytes, ReadValTypeVec;
    var tail := VecBytes(c, ResultTypes(t), rest);
    VecReads(c, t.arguments, tail);
    VecReads(c, ResultTypes(t), rest);
    OneByte(0x60, VecBytes(c, t.arguments, tail));
  }

  lemma LimitsRead(c: Coder, l: Limits, rest: Bytes)
    requires Proper(c) && LimitsOk(l)
    ensures ReadLimits(LimitsBytes(c, l, rest)) == Got(l, rest)
  {
    hide ReadU, UBytes, Proper;
    var flags: nat := (if l.maximum.Some? then 1 else 0) + (if l.shared then 2 else 0);
    var high := if l.maximum.Some? then UBytes(c, l.maximum.value, rest) else rest;
    UReads(c, flags, UBytes(c, l.minimum, high));
    UReads(c, l.minimum, high);
    if l.maximum.Some? { UReads(c, l.maximum.value, rest); }
  }

  /** A description is read back, unless it names a type that is not there. */
  function Checked(d: Extern, types: nat, rest: Bytes): Read<Extern> {
    if d.FunctionImport? && d.typeIndex >= types then Bad(BadImportType)
    else if d.TagImport? && d.typeIndex >= types then Bad(BadTagType)
    else Got(d, rest)
  }

  lemma ExternReads(c: Coder, d: Extern, types: nat, rest: Bytes)
    requires Proper(c) && ExternOk(d)
    ensures ReadExtern(ExternBytes(c, d, rest), types) == Checked(d, types, rest)
  {
    hide ReadU, UBytes, Proper, ReadLimits, LimitsBytes;
    match d
    case FunctionImport(t) =>
      OneByte(0, UBytes(c, t, rest));
      UReads(c, t, rest);
    case TableImport(e, l) =>
      TwoBytes(1, e, LimitsBytes(c, l, rest));
      LimitsRead(c, l, rest);
    case MemoryImport(l) =>
      OneByte(2, LimitsBytes(c, l, rest));
      LimitsRead(c, l, rest);
    case GlobalImport(t, m) =>
      assert [3, t, m] + rest == [3, t] + ([m] + rest);
      TwoBytes(3, t, [m] + rest);
      OneByte(m, rest);
    case TagImport(t) =>
      TwoBytes(4, 0, UBytes(c, t, rest));
      UReads(c, t, rest);
  }

  lemma ImportReads(u: Utf8, c: Coder, i: Import, f: Found, rest: Bytes)
    requires Proper(c) && ImportOk(u, i)
    ensures ReadImport(u, ImportBytes(c, i, rest), f) == Lifted(LearnImport(i, f), rest)
  {
    hide ReadName, NameBytes, ReadExtern, ExternBytes, Proper;
    var tail := ExternBytes(c, i.desc, rest);
    NameReads(u, c, i.origin, NameBytes(c, i.name, tail));
    NameReads(u, c, i.name, tail);
    ExternReads(c, i.desc, |f.types|, rest);
  }

  lemma ExportReads(u: Utf8, c: Coder, e: Export, f: Found, rest: Bytes)
    requires Proper(c) && ExportOk(u, e)
    ensures ReadExport(u, ExportBytes(c, e, rest), f) == Lifted(LearnExport(e, f), rest)
  {
    hide ReadName, NameBytes, ReadU, UBytes, Proper;
    var tail := UBytes(c, e.index, rest);
    NameReads(u, c, e.name, [e.kind] + tail);
    OneByte(e.kind, tail);
    UReads(c, e.index, rest);
  }

  // ----- vectors -----

  lemma {:induction false} TypesRead(c: Coder, ts: seq<Signature>, f: Found, rest: Bytes)
    requires Proper(c) && forall t :: t in ts ==> |t.arguments| < U32
    ensures ReadTypes(TypesBytes(c, ts, rest), |ts|, f) == Got(f.(types := f.types + ts), rest)
    decreases |ts|
  {
    hide ReadSignature, SignatureBytes, Proper;
    if ts == [] {
      assert f.types + ts == f.types;
    } else {
      assert ts[0] in ts && forall t :: t in ts[1..] ==> t in ts;
      SignatureReads(c, ts[0], TypesBytes(c, ts[1..], rest));
      TypesRead(c, ts[1..], f.(types := f.types + [ts[0]]), rest);
      assert f.types + [ts[0]] + ts[1..] == f.types + ts;
    }
  }

  lemma {:induction false} ImportsRead(u: Utf8, c: Coder, imps: seq<Import>, f: Found, rest: Bytes)
    requires Proper(c) && forall i :: i in imps ==> ImportOk(u, i)
    ensures ReadImports(u, ImportsBytes(c, imps, rest), |imps|, f) == Lifted(LearnImports(imps, f), rest)
    decreases |imps|
  {
    hide ReadImport, ImportBytes, LearnImport, Proper;
    if imps != [] {
      assert imps[0] in imps && forall i :: i in imps[1..] ==> i in imps;
      ImportReads(u, c, imps[0], f, ImportsBytes(c, imps[1..], rest));
      var g := LearnImport(imps[0], f);
      if g.Ok? { ImportsRead(u, c, imps[1..], g.value, rest); }
    }
  }

  lemma {:induction false} FunctionsRead(c: Coder, fs: seq<nat>, f: Found, rest: Bytes)
    requires Proper(c) && forall i :: i in fs ==> i < U32
    ensures ReadFunctions(FunctionsBytes(c, fs, rest), |fs|, f) == Got(f.(functions := f.functions + fs), rest)
    decreases |fs|
  {
    hide ReadU, UBytes, Proper;
    if fs == [] {
      assert f.functions + fs == f.functions;
    } else {
      assert fs[0] in fs && forall i :: i in fs[1..] ==> i in fs;
      UReads(c, fs[0], FunctionsBytes(c, fs[1..], rest));
      FunctionsRead(c, fs[1..], f.(functions := f.functions + [fs[0]]), rest);
      assert f.functions + [fs[0]] + fs[1..] == f.functions + fs;
    }
  }

  lemma {:induction false} MemoriesRead(c: Coder, ms: seq<Limits>, f: Found, rest: Bytes)
    requires Proper(c) && forall l :: l in ms ==> LimitsOk(l)
    ensures ReadMemories(MemoriesBytes(c, ms, rest), |ms|, f) == Got(f.(memories := f.memories + Defined(ms)), rest)
    decreases |ms|
  {
    hide ReadLimits, LimitsBytes, Proper;
    if ms == [] {
      assert f.memories + Defined(ms) == f.memories;
    } else {
      assert ms[0] in ms && forall l :: l in ms[1..] ==> l in ms;
      var report := MemoryReport(false, ms[0], []);
      LimitsRead(c, ms[0], MemoriesBytes(c, ms[1..], rest));
      MemoriesRead(c, ms[1..], f.(memories := f.memories + [report]), rest);
      assert Defined(ms) == [report] + Defined(ms[1..]);
      assert f.memories + [report] + Defined(ms[1..]) == f.memories + Defined(ms);
    }
  }

  lemma {:induction false} ExportsRead(u: Utf8, c: Coder, es: seq<Export>, f: Found, rest: Bytes)
    requires Proper(c) && forall e :: e in es ==> ExportOk(u, e)
    ensures ReadExports(u, ExportsBytes(c, es, rest), |es|, f) == Lifted(LearnExports(es, f), rest)
    decreases |es|
  {
    hide ReadExport, ExportBytes, LearnExport, Proper;
    if es != [] {
      assert es[0] in es && forall e :: e in es[1..] ==> e in es;
      ExportReads(u, c, es[0], f, ExportsBytes(c, es[1..], rest));
      var g := LearnExport(es[0], f);
      if g.Ok? { ExportsRead(u, c, es[1..], g.value, rest); }
    }
  }

  // ----- sections -----

  lemma TypeBody(u: Utf8, k: Coding, s: Section, f: Found)
    requires ProperCoding(k) && SectionOk(u, k, s) && s.TypeSection?
    ensures ReadBody(u, SectionId(s), Payload(k, s), f) == Lifted(Learn(s, f), [])
  {
    var c := k.insides(SectionId(s));
    assert Proper(c);
    hide ReadU, UBytes, Proper, ReadTypes, TypesBytes;
    UReads(c, |s.types|, TypesBytes(c, s.types, []));
    TypesRead(c, s.types, f, []);
  }

  lemma ImportBody(u: Utf8, k: Coding, s: Section, f: Found)
    requires ProperCoding(k) && SectionOk(u, k, s) && s.ImportSection?
    ensures ReadBody(u, SectionId(s), Payload(k, s), f) == Lifted(Learn(s, f), [])
  {
    var c := k.insides(SectionId(s));
    assert Proper(c);
    hide ReadU, UBytes, Proper, ReadImports, ImportsBytes, LearnImports;
    UReads(c, |s.imports|, ImportsBytes(c, s.imports, []));
    ImportsRead(u, c, s.imports, f, []);
  }

  lemma FunctionBody(u: Utf8, k: Coding, s: Section, f: Found)
    requires ProperCoding(k) && SectionOk(u, k, s) && s.FunctionSection?
    ensures ReadBody(u, SectionId(s), Payload(k, s), f) == Lifted(Learn(s, f), [])
  {
    var c := k.insides(SectionId(s));
    assert Proper(c);
    hide ReadU, UBytes, Proper, ReadFunctions, FunctionsBytes;
    UReads(c, |s.functions|, FunctionsBytes(c, s.functions, []));
    FunctionsRead(c, s.functions, f, []);
  }

  lemma MemoryBody(u: Utf8, k: Coding, s: Section, f: Found)
    requires ProperCoding(k) && SectionOk(u, k, s) && s.MemorySection?
    ensures ReadBody(u, SectionId(s), Payload(k, s), f) == Lifted(Learn(s, f), [])
  {
    var c := k.insides(SectionId(s));
    assert Proper(c);
    hide ReadU, UBytes, Proper, ReadMemories, MemoriesBytes, Defined;
    UReads(c, |s.memories|, MemoriesBytes(c, s.memories, []));
    MemoriesRead(c, s.memories, f, []);
  }

  lemma ExportBody(u: Utf8, k: Coding, s: Section, f: Found)
    requires ProperCoding(k) && SectionOk(u, k, s) && s.ExportSection?
    ensures ReadBody(u, SectionId(s), Payload(k, s), f) == Lifted(Learn(s, f), [])
  {
    var c := k.insides(SectionId(s));
    assert Proper(c);
    hide ReadU, UBytes, Proper, ReadExports, ExportsBytes, LearnExports;
    UReads(c, |s.exports|, ExportsBytes(c, s.exports, []));
    ExportsRead(u, c, s.exports, f, []);
  }

  /** A section's payload is used up and tells what the section tells. */
  lemma BodyReads(u: Utf8, k: Coding, s: Section, f: Found)
    requires ProperCoding(k) && SectionOk(u, k, s)
    ensures ReadBody(u, SectionId(s), Payload(k, s), f) == Lifted(Learn(s, f), [])
  {
    match s
    case TypeSection(_) => TypeBody(u, k, s, f);
    case ImportSection(_) => ImportBody(u, k, s, f);
    case FunctionSection(_) => FunctionBody(u, k, s, f);
    case MemorySection(_) => MemoryBody(u, k, s, f);
    case ExportSection(_) => ExportBody(u, k, s, f);
    case StartSection(i) =>
      hide ReadU, UBytes;
      UReads(k.insides(SectionId(s)), i, []);
    case OtherSection(_, _) =>
  }

  lemma SectionReads(u: Utf8, k: Coding, s: Section, f: Found, rest: Bytes)
    requires ProperCoding(k) && SectionOk(u, k, s)
    ensures ReadSection(u, SectionBytes(k, s, rest), f) == Lifted(Learn(s, f), rest)
  {
    BodyReads(u, k, s, f);
    hide ReadU, UBytes, Proper, ReadBody, Learn, Payload, SectionId;
    var p := Payload(k, s);
    OneByte(SectionId(s), UBytes(k.sizes, |p|, p + rest));
    UReads(k.sizes, |p|, p + rest);
    After(p, rest);
  }

  lemma {:induction false} SectionsRead(u: Utf8, k: Coding, ms: seq<Section>, f: Found)
    requires ProperCoding(k) && forall s :: s in ms ==> SectionOk(u, k, s)
    ensures ReadSections(u, SectionsBytes(k, ms), f) == LearnAll(ms, f)
    decreases |ms|
  {
    hide ReadSection, SectionBytes, Learn, SectionOk, ProperCoding;
    if ms != [] {
      assert ms[0] in ms && forall s :: s in ms[1..] ==> s in ms;
      var rest := SectionsBytes(k, ms[1..]);
      SectionReads(u, k, ms[0], f, rest);
      SectionNotEmpty(k, ms[0], rest);
      var g := Learn(ms[0], f);
      if g.Ok? { SectionsRead(u, k, ms[1..], g.value); }
    }
  }

  lemma SectionNotEmpty(k: Coding, s: Section, rest: Bytes)
    ensures SectionBytes(k, s, rest) != []
  {
  }

  /**
   Inspecting a binary form of any sections, in any order and with integers in any form,
   concludes what they tell, errors included.
   */
  lemma InspectsSections(u: Utf8, k: Coding, ms: seq<Section>)
    requires ProperCoding(k) && forall s :: s in ms ==> SectionOk(u, k, s)
    ensures Inspect(u, ModuleBytes(k, ms)) ==
            var found := LearnAll(ms, NOTHING);
            if found.Err? then Err(found.error) else Conclude(found.value)
  {
    hide ReadSections, SectionsBytes, LearnAll, Conclude, SectionOk, ProperCoding;
    var b := ModuleBytes(k, ms);
    assert b[8..] == SectionsBytes(k, ms) && HEADER <= b;
    SectionsRead(u, k, ms, NOTHING);
  }
}
