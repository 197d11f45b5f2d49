/**
 WebAssembly module structure as the direct inspector sees it (core/rust/src/direct_wasm.rs):
 syntax trees, their binary form (chapter 5 of the WebAssembly Core Specification) and the
 reading of that form over the remaining bytes.
 */
module Wasm {
  import opened Optional
  import opened Results
  import opened ByteStrings
  import opened Powers
  import opened Ordering

  datatype WasmError =
    | BadHeader | UnexpectedEnd | IntegerOverflow | SectionExceedsModule | TrailingBytes
    | NotAFunctionType | MultipleResults | UnsupportedType | NameExceedsSection | NameNotUtf8
    | BadImportType | UnknownKind | WideLimits | SharedNeedsMaximum | MaximumBelowMinimum
    | BadMutability | BadTagAttribute | BadTagType | DuplicateExport | BadFunctionExport
    | BadExportType | BadMemoryExport

  type Res<+T> = Result<T, WasmError>

  // ----- syntax -----

  datatype ValType = I32 | I64 | F32 | F64
  datatype Signature = Signature(arguments: seq<ValType>, result: Option<ValType>)
  datatype Limits = Limits(minimum: nat, maximum: Option<nat>, shared: bool)
  datatype Extern =
    | FunctionImport(typeIndex: nat)
    | TableImport(element: byte, size: Limits)
    | MemoryImport(size: Limits)
    | GlobalImport(valueType: byte, mutability: byte)
    | TagImport(typeIndex: nat)
  datatype Import = Import(origin: Bytes, name: Bytes, desc: Extern)
  datatype Export = Export(name: Bytes, kind: byte, index: nat)

  datatype Section =
    | TypeSection(types: seq<Signature>)
    | ImportSection(imports: seq<Import>)
    | FunctionSection(functions: seq<nat>)
    | MemorySection(memories: seq<Limits>)
    | ExportSection(exports: seq<Export>)
    | StartSection(index: nat)
    | OtherSection(id: byte, payload: Bytes)

  // ----- what the inspector reports -----

  datatype ImportKind = FunctionKind | TableKind | MemoryKind | GlobalKind | TagKind
  datatype ImportReport = ImportReport(origin: Bytes, name: Bytes, kind: ImportKind, signature: Option<Signature>)
  datatype MemoryReport = MemoryReport(imported: bool, size: Limits, exportNames: seq<Bytes>)
  datatype FunctionReport = FunctionReport(name: Bytes, signature: Signature, imported: bool)
  datatype Inspection = Inspection(imports: seq<ImportReport>, memories: seq<MemoryReport>,
                                   exports: seq<FunctionReport>, start: Option<nat>)

  /** What has been found in the sections read so far. */
  datatype Found = Found(types: seq<Signature>, importedFunctions: seq<nat>, functions: seq<nat>,
                         imports: seq<ImportReport>, memories: seq<MemoryReport>, exportNames: set<Bytes>,
                         functionExports: seq<(Bytes, nat)>, memoryExports: seq<(Bytes, nat)>, start: Option<nat>)

  const NOTHING := Found([], [], [], [], [], {}, [], [], None)

  // ----- binary form -----

  /** Unsigned LEB128, shortest form: one of the coders. */
  function Leb(n: nat): Bytes {
    if n < 128 then [n] else [128 + n % 128] + Leb(n / 128)
  }

  /**
   How integers are written.  Chapter 5 allows several forms of the same integer, so the form may
   differ from place to place: a coder is given the integer and all that follows it.
   */
  type Coder = (nat, Bytes) -> Bytes

  /** Every form a coder picks is one the grammar reads as that integer. */
  ghost predicate Proper(c: Coder) { forall n: nat, rest: Bytes :: n < U32 ==> ReadU(c(n, rest), 32) == Got(n, []) }

  // Each part is written in front of the bytes that follow it.

  function UBytes(c: Coder, n: nat, rest: Bytes): Bytes { c(n, rest) + rest }

  function NameBytes(c: Coder, d: Bytes, rest: Bytes): Bytes { UBytes(c, |d|, d + rest) }

  function ValTypeByte(t: ValType): byte { match t case I32 => 0x7f case I64 => 0x7e case F32 => 0x7d case F64 => 0x7c }

  function ValTypeBytes(ts: seq<ValType>, rest: Bytes): Bytes {
    if ts == [] then rest else [ValTypeByte(ts[0])] + ValTypeBytes(ts[1..], rest)
  }

  function VecBytes(c: Coder, ts: seq<ValType>, rest: Bytes): Bytes { UBytes(c, |ts|, ValTypeBytes(ts, rest)) }

  function ResultTypes(s: Signature): seq<ValType> { if s.result.Some? then [s.result.value] else [] }

  function SignatureBytes(c: Coder, s: Signature, rest: Bytes): Bytes {
    [0x60] + VecBytes(c, s.arguments, VecBytes(c, ResultTypes(s), rest))
  }

  function LimitsBytes(c: Coder, l: Limits, rest: Bytes): Bytes {
    UBytes(c, (if l.maximum.Some? then 1 else 0) + (if l.shared then 2 else 0),
           UBytes(c, l.minimum, if l.maximum.Some? then UBytes(c, l.maximum.value, rest) else rest))
  }

  function ExternBytes(c: Coder, d: Extern, rest: Bytes): Bytes {
    match d
    case FunctionImport(t) => [0] + UBytes(c, t, rest)
    case TableImport(e, l) => [1, e] + LimitsBytes(c, l, rest)
    case MemoryImport(l) => [2] + LimitsBytes(c, l, rest)
    case GlobalImport(t, m) => [3, t, m] + rest
    case TagImport(t) => [4, 0] + UBytes(c, t, rest)
  }

  function ImportBytes(c: Coder, i: Import, rest: Bytes): Bytes {
    NameBytes(c, i.origin, NameBytes(c, i.name, ExternBytes(c, i.desc, rest)))
  }

  function ExportBytes(c: Coder, e: Export, rest: Bytes): Bytes {
    NameBytes(c, e.name, [e.kind] + UBytes(c, e.index, rest))
  }

  function TypesBytes(c: Coder, ts: seq<Signature>, rest: Bytes): Bytes {
    if ts == [] then rest else SignatureBytes(c, ts[0], TypesBytes(c, ts[1..], rest))
  }
  function ImportsBytes(c: Coder, imps: seq<Import>, rest: Bytes): Bytes {
    if imps == [] then rest else ImportBytes(c, imps[0], ImportsBytes(c, imps[1..], rest))
  }
  function FunctionsBytes(c: Coder, fs: seq<nat>, rest: Bytes): Bytes {
    if fs == [] then rest else UBytes(c, fs[0], FunctionsBytes(c, fs[1..], rest))
  }
  function MemoriesBytes(c: Coder, ms: seq<Limits>, rest: Bytes): Bytes {
    if ms == [] then rest else LimitsBytes(c, ms[0], MemoriesBytes(c, ms[1..], rest))
  }
  function ExportsBytes(c: Coder, es: seq<Export>, rest: Bytes): Bytes {
    if es == [] then rest else ExportBytes(c, es[0], ExportsBytes(c, es[1..], rest))
  }

  function SectionId(s: Section): byte {
    match s
    case TypeSection(_) => 1
    case ImportSection(_) => 2
    case FunctionSection(_) => 3
    case MemorySection(_) => 5
    case ExportSection(_) => 7
    case StartSection(_) => 8
    case OtherSection(id, _) => id
  }

  /** One coder for the sizes of sections, and one for the insides of each kind of section. */
  datatype Coding = Coding(sizes: Coder, insides: byte -> Coder)

  ghost predicate ProperCoding(k: Coding) { Proper(k.sizes) && forall id :: Proper(k.insides(id)) }

  function Payload(k: Coding, s: Section): Bytes {
    var c := k.insides(SectionId(s));
    match s
    case TypeSection(ts) => UBytes(c, |ts|, TypesBytes(c, ts, []))
    case ImportSection(imps) => UBytes(c, |imps|, ImportsBytes(c, imps, []))
    case FunctionSection(fs) => UBytes(c, |fs|, FunctionsBytes(c, fs, []))
    case MemorySection(ms) => UBytes(c, |ms|, MemoriesBytes(c, ms, []))
    case ExportSection(es) => UBytes(c, |es|, ExportsBytes(c, es, []))
    case StartSection(f) => UBytes(c, f, [])
    case OtherSection(_, payload) => payload
  }

  function SectionBytes(k: Coding, s: Section, rest: Bytes): Bytes {
    [SectionId(s)] + UBytes(k.sizes, |Payload(k, s)|, Payload(k, s) + rest)
  }

  function SectionsBytes(k: Coding, ms: seq<Section>): Bytes {
    if ms == [] then [] else SectionBytes(k, ms[0], SectionsBytes(k, ms[1..]))
  }

  const HEADER: Bytes := [0, 97, 115, 109, 1, 0, 0, 0]

  function ModuleBytes(k: Coding, ms: seq<Section>): Bytes { HEADER + SectionsBytes(k, ms) }

  // ----- what can be written that way -----

  predicate Inspected(id: byte) { id == 1 || id == 2 || id == 3 || id == 5 || id == 7 || id == 8 }

  predicate NameOk(u: Utf8, d: Bytes) { |d| < U32 && u(d) }

  predicate LimitsOk(l: Limits) {
    && l.minimum < U32
    && (l.maximum.Some? ==> l.minimum <= l.maximum.value < U32)
    && (l.shared ==> l.maximum.Some?)
  }

  predicate ReferenceType(b: byte) { b == 0x70 || b == 0x6f }
  predicate GlobalType(b: byte) { 0x7b <= b <= 0x7f || ReferenceType(b) }

  predicate ExternOk(d: Extern) {
    match d
    case FunctionImport(t) => t < U32
    case TableImport(e, l) => ReferenceType(e) && LimitsOk(l)
    case MemoryImport(l) => LimitsOk(l)
    case GlobalImport(t, m) => GlobalType(t) && m <= 1
    case TagImport(t) => t < U32
  }

  predicate ImportOk(u: Utf8, i: Import) { NameOk(u, i.origin) && NameOk(u, i.name) && ExternOk(i.desc) }
  predicate ExportOk(u: Utf8, e: Export) { NameOk(u, e.name) && e.kind <= 4 && e.index < U32 }

  predicate SectionOk(u: Utf8, k: Coding, s: Section) {
    && |Payload(k, s)| < U32
    && match s
       case TypeSection(ts) => |ts| < U32 && forall t :: t in ts ==> |t.arguments| < U32
       case ImportSection(imps) => |imps| < U32 && forall i :: i in imps ==> ImportOk(u, i)
       case FunctionSection(fs) => |fs| < U32 && forall f :: f in fs ==> f < U32
       case MemorySection(ms) => |ms| < U32 && forall l :: l in ms ==> LimitsOk(l)
       case ExportSection(es) => |es| < U32 && forall e :: e in es ==> ExportOk(u, e)
       case StartSection(f) => f < U32
       case OtherSection(id, _) => !Inspected(id)
  }

  // ----- what a section tells -----

  function LearnImport(i: Import, f: Found): Res<Found> {
    match i.desc
    case FunctionImport(t) =>
      if t >= |f.types| then Err(BadImportType)
      else Ok(f.(importedFunctions := f.importedFunctions + [t],
                 imports := f.imports + [ImportReport(i.origin, i.name, FunctionKind, Some(f.types[t]))]))
    case TableImport(_, _) => Ok(f.(imports := f.imports + [ImportReport(i.origin, i.name, TableKind, None)]))
    case MemoryImport(l) =>
      Ok(f.(imports := f.imports + [ImportReport(i.origin, i.name, MemoryKind, None)],
            memories := f.memories + [MemoryReport(true, l, [])]))
    case GlobalImport(_, _) => Ok(f.(imports := f.imports + [ImportReport(i.origin, i.name, GlobalKind, None)]))
    case TagImport(t) =>
      if t >= |f.types| then Err(BadTagType)
      else Ok(f.(imports := f.imports + [ImportReport(i.origin, i.name, TagKind, None)]))
  }

  function LearnImports(imps: seq<Import>, f: Found): Res<Found> {
    if imps == [] then Ok(f)
    else
      var g :- LearnImport(imps[0], f);
      LearnImports(imps[1..], g)
  }

  function LearnExport(e: Export, f: Found): Res<Found> {
    if e.name in f.exportNames then Err(DuplicateExport)
    else
      var g := f.(exportNames := f.exportNames + {e.name});
      Ok(if e.kind == 0 then g.(functionExports := g.functionExports + [(e.name, e.index)])
         else if e.kind == 2 then g.(memoryExports := g.memoryExports + [(e.name, e.index)])
         else g)
  }

  function LearnExports(es: seq<Export>, f: Found): Res<Found> {
    if es == [] then Ok(f)
    else
      var g :- LearnExport(es[0], f);
      LearnExports(es[1..], g)
  }

  function Defined(ms: seq<Limits>): seq<MemoryReport> {
    seq(|ms|, i requires 0 <= i < |ms| => MemoryReport(false, ms[i], []))
  }

  function Learn(s: Section, f: Found): Res<Found> {
    match s
    case TypeSection(ts) => Ok(f.(types := f.types + ts))
    case ImportSection(imps) => LearnImports(imps, f)
    case FunctionSection(fs) => Ok(f.(functions := f.functions + fs))
    case MemorySection(ms) => Ok(f.(memories := f.memories + Defined(ms)))
    case ExportSection(es) => LearnExports(es, f)
    case StartSection(n) => Ok(f.(start := Some(n)))
    case OtherSection(_, _) => Ok(f)
  }

  function LearnAll(ms: seq<Section>, f: Found): Res<Found> {
    if ms == [] then Ok(f)
    else
      var g :- Learn(ms[0], f);
      LearnAll(ms[1..], g)
  }

  // ----- reading -----

  type Read<+T> = Reading<T, WasmError>

  function Lifted(r: Res<Found>, rest: Bytes): Read<Found> {
    match r case Ok(f) => Got(f, rest) case Err(e) => Bad(e)
  }

  /** The grammar of unsigned integers of `bits` bits (section 5.2.2). */
  function ReadU(s: Bytes, bits: nat): (r: Read<nat>)
    requires bits > 0
    ensures r.Got? ==> r.value < Pow2(bits) && |r.rest| < |s|
    decreases bits
  {
    if s == [] then Bad(UnexpectedEnd)
    else if s[0] < 128 && s[0] < Pow2(bits) then Got(s[0], s[1..])
    else if s[0] >= 128 && bits > 7 then
      var (m, rest) :- ReadU(s[1..], bits - 7);
      Pow2Seven(bits - 7);
      Got(128 * m + (s[0] - 128), rest)
    else Bad(IntegerOverflow)
  }

  function ReadByte(s: Bytes): Read<byte> { if s == [] then Bad(UnexpectedEnd) else Got(s[0], s[1..]) }

  function ReadName(u: Utf8, s: Bytes): Read<Bytes> {
    var (n, t) :- ReadU(s, 32);
    if n > |t| then Bad(NameExceedsSection)
    else if !u(t[..n]) then Bad(NameNotUtf8)
    else Got(t[..n], t[n..])
  }

  function ReadValType(s: Bytes): Read<ValType> {
    var (b, t) :- ReadByte(s);
    if b == 0x7f then Got(I32, t)
    else if b == 0x7e then Got(I64, t)
    else if b == 0x7d then Got(F32, t)
    else if b == 0x7c then Got(F64, t)
    else Bad(UnsupportedType)
  }

  function ReadValTypes(s: Bytes, n: nat, acc: seq<ValType>): Read<seq<ValType>>
    decreases n
  {
    if n == 0 then Got(acc, s)
    else
      var (t, rest) :- ReadValType(s);
      ReadValTypes(rest, n - 1, acc + [t])
  }

  function ReadValTypeVec(s: Bytes): Read<seq<ValType>> {
    var (n, t) :- ReadU(s, 32);
    ReadValTypes(t, n, [])
  }

  function ReadSignature(s: Bytes): Read<Signature> {
    var (b, t) :- ReadByte(s);
    if b != 0x60 then Bad(NotAFunctionType)
    else
      var (arguments, t1) :- ReadValTypeVec(t);
      var (results, t2) :- ReadValTypeVec(t1);
      if |results| > 1 then Bad(MultipleResults)
      else Got(Signature(arguments, if results == [] then None else Some(results[0])), t2)
  }

  function ReadLimits(s: Bytes): Read<Limits> {
    var (flags, t) :- ReadU(s, 32);
    if flags > 3 then Bad(WideLimits)
    else
      var (minimum, t1) :- ReadU(t, 32);
      var maximum := if flags % 2 == 1 then ReadU(t1, 32) else Got(0, t1);
      if maximum.Bad? then Bad(maximum.error)
      else if flags / 2 == 1 && flags % 2 == 0 then Bad(SharedNeedsMaximum)
      else if flags % 2 == 1 && maximum.value < minimum then Bad(MaximumBelowMinimum)
      else Got(Limits(minimum, if flags % 2 == 1 then Some(maximum.value) else None, flags / 2 == 1), maximum.rest)
  }

  /** The description of an import; the index checks come with what it tells. */
  function ReadExtern(s: Bytes, types: nat): Read<Extern> {
    var (kind, t) :- ReadByte(s);
    if kind == 0 then
      var (i, t1) :- ReadU(t, 32);
      if i >= types then Bad(BadImportType) else Got(FunctionImport(i), t1)
    else if kind == 1 then
      var (e, t1) :- ReadByte(t);
      if !ReferenceType(e) then Bad(UnsupportedType)
      else
        var (l, t2) :- ReadLimits(t1);
        Got(TableImport(e, l), t2)
    else if kind == 2 then
      var (l, t1) :- ReadLimits(t);
      Got(MemoryImport(l), t1)
    else if kind == 3 then
      var (v, t1) :- ReadByte(t);
      if !GlobalType(v) then Bad(UnsupportedType)
      else
        var (m, t2) :- ReadByte(t1);
        if m > 1 then Bad(BadMutability) else Got(GlobalImport(v, m), t2)
    else if kind == 4 then
      var (a, t1) :- ReadByte(t);
      if a != 0 then Bad(BadTagAttribute)
      else
        var (i, t2) :- ReadU(t1, 32);
        if i >= types then Bad(BadTagType) else Got(TagImport(i), t2)
    else Bad(UnknownKind)
  }

  function ReadTypes(s: Bytes, n: nat, f: Found): Read<Found>
    decreases n
  {
    if n == 0 then Got(f, s)
    else
      var (t, rest) :- ReadSignature(s);
      ReadTypes(rest, n - 1, f.(types := f.types + [t]))
  }

  function ReadImport(u: Utf8, s: Bytes, f: Found): Read<Found> {
    var (origin, t) :- ReadName(u, s);
    var (name, t1) :- ReadName(u, t);
    var (desc, t2) :- ReadExtern(t1, |f.types|);
    Lifted(LearnImport(Import(origin, name, desc), f), t2)
  }

  function ReadImports(u: Utf8, s: Bytes, n: nat, f: Found): Read<Found>
    decreases n
  {
    if n == 0 then Got(f, s)
    else
      var (g, rest) :- ReadImport(u, s, f);
      ReadImports(u, rest, n - 1, g)
  }

  function ReadFunctions(s: Bytes, n: nat, f: Found): Read<Found>
    decreases n
  {
    if n == 0 then Got(f, s)
    else
      var (i, rest) :- ReadU(s, 32);
      ReadFunctions(rest, n - 1, f.(functions := f.functions + [i]))
  }

  function ReadMemories(s: Bytes, n: nat, f: Found): Read<Found>
    decreases n
  {
    if n == 0 then Got(f, s)
    else
      var (l, rest) :- ReadLimits(s);
      ReadMemories(rest, n - 1, f.(memories := f.memories + [MemoryReport(false, l, [])]))
  }

  function ReadExport(u: Utf8, s: Bytes, f: Found): Read<Found> {
    var (name, t) :- ReadName(u, s);
    if name in f.exportNames then Bad(DuplicateExport)
    else
      var (kind, t1) :- ReadByte(t);
      var (index, t2) :- ReadU(t1, 32);
      if kind > 4 then Bad(UnknownKind) else Lifted(LearnExport(Export(name, kind, index), f), t2)
  }

  function ReadExports(u: Utf8, s: Bytes, n: nat, f: Found): Read<Found>
    decreases n
  {
    if n == 0 then Got(f, s)
    else
      var (g, rest) :- ReadExport(u, s, f);
      ReadExports(u, rest, n - 1, g)
  }

  function ReadBody(u: Utf8, id: byte, s: Bytes, f: Found): Read<Found> {
    if !Inspected(id) then Got(f, [])
    else
      var (n, t) :- ReadU(s, 32);
      if id == 1 then ReadTypes(t, n, f)
      else if id == 2 then ReadImports(u, t, n, f)
      else if id == 3 then ReadFunctions(t, n, f)
      else if id == 5 then ReadMemories(t, n, f)
      else if id == 7 then ReadExports(u, t, n, f)
      else Got(f.(start := Some(n)), t)
  }

  function ReadSection(u: Utf8, s: Bytes, f: Found): (r: Read<Found>)
    ensures r.Got? ==> |r.rest| < |s|
  {
    var (id, t) :- ReadByte(s);
    var (size, t1) :- ReadU(t, 32);
    if size > |t1| then Bad(SectionExceedsModule)
    else
      var (g, left) :- ReadBody(u, id, t1[..size], f);
      if left != [] then Bad(TrailingBytes) else Got(g, t1[size..])
  }

  function ReadSections(u: Utf8, s: Bytes, f: Found): Res<Found>
    decreases |s|
  {
    if s == [] then Ok(f)
    else
      match ReadSection(u, s, f)
      case Bad(e) => Err(e)
      case Got(g, rest) => ReadSections(u, rest, g)
  }

  // ----- resolving exports -----

  function ResolveFunction(e: (Bytes, nat), f: Found): Res<FunctionReport> {
    var imported := e.1 < |f.importedFunctions|;
    if !imported && e.1 - |f.importedFunctions| >= |f.functions| then Err(BadFunctionExport)
    else
      var t := if imported then f.importedFunctions[e.1] else f.functions[e.1 - |f.importedFunctions|];
      if t >= |f.types| then Err(BadExportType) else Ok(FunctionReport(e.0, f.types[t], imported))
  }

  function ResolveFunctions(es: seq<(Bytes, nat)>, f: Found): Res<seq<FunctionReport>> {
    if es == [] then Ok([])
    else
      var front :- ResolveFunctions(es[..|es| - 1], f);
      var last :- ResolveFunction(es[|es| - 1], f);
      Ok(front + [last])
  }

  function NameMemories(es: seq<(Bytes, nat)>, memories: seq<MemoryReport>): Res<seq<MemoryReport>> {
    if es == [] then Ok(memories)
    else
      var (name, i) := es[0];
      if i >= |memories| then Err(BadMemoryExport)
      else NameMemories(es[1..], memories[i := memories[i].(exportNames := memories[i].exportNames + [name])])
  }

  function KeyedName(n: Bytes): (Key, Bytes) { (n, n) }

  function KeyedNames(names: seq<Bytes>): seq<(Key, Bytes)> {
    seq(|names|, i requires 0 <= i < |names| => KeyedName(names[i]))
  }

  function PlainNames(es: seq<(Key, Bytes)>): seq<Bytes> {
    seq(|es|, i requires 0 <= i < |es| => es[i].1)
  }

  function SortNames(names: seq<Bytes>): seq<Bytes> { PlainNames(Sort(KeyedNames(names))) }

  function SortAll(memories: seq<MemoryReport>): seq<MemoryReport> {
    seq(|memories|, i requires 0 <= i < |memories| => memories[i].(exportNames := SortNames(memories[i].exportNames)))
  }

  function Conclude(f: Found): Res<Inspection> {
    var exports :- ResolveFunctions(f.functionExports, f);
    var memories :- NameMemories(f.memoryExports, f.memories);
    Ok(Inspection(f.imports, SortAll(memories), exports, f.start))
  }

  function Inspect(u: Utf8, bytes: Bytes): Res<Inspection> {
    if !(HEADER <= bytes) then Err(BadHeader)
    else
      var f :- ReadSections(u, bytes[8..], NOTHING);
      Conclude(f)
  }
}
