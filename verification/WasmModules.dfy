/**
 What inspection reports of a whole module, said in terms of its index spaces: imports come
 first in the spaces of functions and memories, exports are resolved through them.
 */
module WasmModules {
  import opened Optional
  import opened Results
  import opened ByteStrings
  import opened Powers
  import opened Sequences
  import opened Ordering
  import opened Wasm
  import opened WasmRoundTrip

  /** The inspected sections come once each, in the order of section 5.5; others may stand anywhere. */
  ghost predicate Ordered(ms: seq<Section>) {
    forall i, j :: 0 <= i < j < |ms| && Inspected(SectionId(ms[i])) && Inspected(SectionId(ms[j])) ==>
      SectionId(ms[i]) < SectionId(ms[j])
  }

  // ----- the parts of a module -----

  function TypesIn(s: Section): seq<Signature> { if s.TypeSection? then s.types else [] }
  function ImportsIn(s: Section): seq<Import> { if s.ImportSection? then s.imports else [] }
  function FunctionsIn(s: Section): seq<nat> { if s.FunctionSection? then s.functions else [] }
  function MemoriesIn(s: Section): seq<Limits> { if s.MemorySection? then s.memories else [] }
  function ExportsIn(s: Section): seq<Export> { if s.ExportSection? then s.exports else [] }

  function TypesOf(ms: seq<Section>): seq<Signature> { if ms == [] then [] else TypesIn(ms[0]) + TypesOf(ms[1..]) }
  function ImportsOf(ms: seq<Section>): seq<Import> { if ms == [] then [] else ImportsIn(ms[0]) + ImportsOf(ms[1..]) }
  function FunctionsOf(ms: seq<Section>): seq<nat> { if ms == [] then [] else FunctionsIn(ms[0]) + FunctionsOf(ms[1..]) }
  function MemoriesOf(ms: seq<Section>): seq<Limits> { if ms == [] then [] else MemoriesIn(ms[0]) + MemoriesOf(ms[1..]) }
  function ExportsOf(ms: seq<Section>): seq<Export> { if ms == [] then [] else ExportsIn(ms[0]) + ExportsOf(ms[1..]) }

  function StartOf(ms: seq<Section>, before: Option<nat>): Option<nat> {
    if ms == [] then before else StartOf(ms[1..], if ms[0].StartSection? then Some(ms[0].index) else before)
  }

  // ----- index spaces -----

  function FunctionTypes(imps: seq<Import>): seq<nat> {
    if imps == [] then []
    else (if imps[0].desc.FunctionImport? then [imps[0].desc.typeIndex] else []) + FunctionTypes(imps[1..])
  }

  function ImportedMemories(imps: seq<Import>): seq<MemoryReport> {
    if imps == [] then []
    else (if imps[0].desc.MemoryImport? then [MemoryReport(true, imps[0].desc.size, [])] else [])
         + ImportedMemories(imps[1..])
  }

  /** The type index of every function: imported ones first. */
  function FunctionSpace(ms: seq<Section>): seq<nat> { FunctionTypes(ImportsOf(ms)) + FunctionsOf(ms) }

  function MemorySpace(ms: seq<Section>): seq<MemoryReport> { ImportedMemories(ImportsOf(ms)) + Defined(MemoriesOf(ms)) }

  predicate TypeThere(d: Extern, types: nat) { d.FunctionImport? || d.TagImport? ==> d.typeIndex < types }

  function KindOf(d: Extern): ImportKind {
    match d
    case FunctionImport(_) => FunctionKind
    case TableImport(_, _) => TableKind
    case MemoryImport(_) => MemoryKind
    case GlobalImport(_, _) => GlobalKind
    case TagImport(_) => TagKind
  }

  function ReportOf(i: Import, types: seq<Signature>): ImportReport
    requires TypeThere(i.desc, |types|)
  {
    ImportReport(i.origin, i.name, KindOf(i.desc),
                 if i.desc.FunctionImport? then Some(types[i.desc.typeIndex]) else None)
  }

  function Reports(imps: seq<Import>, types: seq<Signature>): seq<ImportReport>
    requires forall i :: i in imps ==> TypeThere(i.desc, |types|)
  {
    seq(|imps|, k requires 0 <= k < |imps| => assert imps[k] in imps; ReportOf(imps[k], types))
  }

  /** The exports of one kind, in order. */
  function Named(es: seq<Export>, kind: byte): seq<(Bytes, nat)> {
    if es == [] then [] else (if es[0].kind == kind then [(es[0].name, es[0].index)] else []) + Named(es[1..], kind)
  }

  ghost predicate DistinctNames(es: seq<Export>) { forall i, j :: 0 <= i < j < |es| ==> es[i].name != es[j].name }

  /** Every index points at something, and no two exports share a name. */
  ghost predicate Valid(ms: seq<Section>) {
    && (forall i :: i in ImportsOf(ms) ==> TypeThere(i.desc, |TypesOf(ms)|))
    && DistinctNames(ExportsOf(ms))
    && (forall e :: e in Named(ExportsOf(ms), 0) ==>
          e.1 < |FunctionSpace(ms)| && FunctionSpace(ms)[e.1] < |TypesOf(ms)|)
    && (forall e :: e in Named(ExportsOf(ms), 2) ==> e.1 < |MemorySpace(ms)|)
  }

  // ----- the description -----

  function FunctionReported(e: (Bytes, nat), types: seq<Signature>, space: seq<nat>, imported: nat): FunctionReport
    requires e.1 < |space| && space[e.1] < |types|
  {
    FunctionReport(e.0, types[space[e.1]], e.1 < imported)
  }

  /** The names under which memory `k` is exported. */
  ghost function NamesOfMemory(es: seq<(Bytes, nat)>, k: nat): set<(Key, Bytes)> {
    set e | e in es && e.1 == k :: KeyedName(e.0)
  }

  ghost function DescribedMemories(ms: seq<Section>): seq<MemoryReport> {
    var space, exports := MemorySpace(ms), Named(ExportsOf(ms), 2);
    seq(|space|, k requires 0 <= k < |space| =>
      space[k].(exportNames := PlainNames(Arrange(NamesOfMemory(exports, k)))))
  }

  ghost function DescribedExports(ms: seq<Section>): seq<FunctionReport>
    requires Valid(ms)
  {
    var exports := Named(ExportsOf(ms), 0);
    seq(|exports|, k requires 0 <= k < |exports| =>
      assert exports[k] in exports;
      FunctionReported(exports[k], TypesOf(ms), FunctionSpace(ms), |FunctionTypes(ImportsOf(ms))|))
  }

  ghost function Described(ms: seq<Section>): Inspection
    requires Valid(ms)
  {
    Inspection(Reports(ImportsOf(ms), TypesOf(ms)), DescribedMemories(ms), DescribedExports(ms), StartOf(ms, None))
  }

  // ----- sections in order -----

  lemma {:induction false} ImportsLearned(imps: seq<Import>, f: Found)
    requires forall i :: i in imps ==> TypeThere(i.desc, |f.types|)
    ensures LearnImports(imps, f) == Ok(f.(importedFunctions := f.importedFunctions + FunctionTypes(imps),
                                           imports := f.imports + Reports(imps, f.types),
                                           memories := f.memories + ImportedMemories(imps)))
    decreases |imps|
  {
    if imps == [] {
      assert f.imports + Reports(imps, f.types) == f.imports;
      assert f.memories + [] == f.memories && f.importedFunctions + [] == f.importedFunctions;
    } else {
      assert imps[0] in imps && forall i :: i in imps[1..] ==> i in imps;
      var g := LearnImport(imps[0], f).value;
      ImportsLearned(imps[1..], g);
      ImportStep(imps, f);
      var more := imps[1..];
      Joined(f.importedFunctions, if imps[0].desc.FunctionImport? then [imps[0].desc.typeIndex] else [], FunctionTypes(more));
      Joined(f.memories, if imps[0].desc.MemoryImport? then [MemoryReport(true, imps[0].desc.size, [])] else [], ImportedMemories(more));
      Joined(f.imports, [ReportOf(imps[0], f.types)], Reports(more, f.types));
    }
  }

  lemma ImportStep(imps: seq<Import>, f: Found)
    requires imps != [] && forall i :: i in imps ==> TypeThere(i.desc, |f.types|)
    ensures imps[0] in imps && LearnImport(imps[0], f).Ok?
    ensures LearnImport(imps[0], f).value ==
            f.(importedFunctions := f.importedFunctions + (if imps[0].desc.FunctionImport? then [imps[0].desc.typeIndex] else []),
               imports := f.imports + [ReportOf(imps[0], f.types)],
               memories := f.memories + (if imps[0].desc.MemoryImport? then [MemoryReport(true, imps[0].desc.size, [])] else []))
    ensures (forall i :: i in imps[1..] ==> i in imps) && Reports(imps, f.types) == [ReportOf(imps[0], f.types)] + Reports(imps[1..], f.types)
  {
    assert imps[0] in imps;
    assert f.importedFunctions + [] == f.importedFunctions && f.memories + [] == f.memories;
  }

  lemma {:induction false} ExportsLearned(es: seq<Export>, f: Found)
    requires DistinctNames(es) && forall e :: e in es ==> e.name !in f.exportNames
    ensures LearnExports(es, f) == Ok(f.(exportNames := f.exportNames + (set e | e in es :: e.name),
                                         functionExports := f.functionExports + Named(es, 0),
                                         memoryExports := f.memoryExports + Named(es, 2)))
    decreases |es|
  {
    if es == [] {
      assert f.exportNames + (set e | e in es :: e.name) == f.exportNames;
      assert f.functionExports + [] == f.functionExports && f.memoryExports + [] == f.memoryExports;
    } else {
      var x, more := es[0], es[1..];
      assert x in es && forall e :: e in more ==> e in es;
      var g := LearnExport(x, f).value;
      forall e | e in more ensures e.name !in g.exportNames {
        var j :| 0 <= j < |more| && more[j] == e;
        assert es[j + 1] == e;
      }
      ExportsLearned(more, g);
      ExportStep(es, f);
      assert LearnExports(es, f) == LearnExports(more, g);
      hide LearnExport, LearnExports, Named, DistinctNames;
      assert f.exportNames + {x.name} + (set e | e in more :: e.name) == f.exportNames + (set e | e in es :: e.name);
      Joined(f.functionExports, Named([x], 0), Named(more, 0));
      Joined(f.memoryExports, Named([x], 2), Named(more, 2));
    }
  }

  lemma OneNamed(x: Export, kind: byte)
    ensures Named([x], kind) == if x.kind == kind then [(x.name, x.index)] else []
  {
    assert Named([x], kind) == (if x.kind == kind then [(x.name, x.index)] else []) + Named([x][1..], kind);
  }

  lemma ExportStep(es: seq<Export>, f: Found)
    requires es != [] && es[0].name !in f.exportNames
    ensures LearnExport(es[0], f) == Ok(f.(exportNames := f.exportNames + {es[0].name},
                                           functionExports := f.functionExports + Named([es[0]], 0),
                                           memoryExports := f.memoryExports + Named([es[0]], 2)))
    ensures Named(es, 0) == Named([es[0]], 0) + Named(es[1..], 0) && Named(es, 2) == Named([es[0]], 2) + Named(es[1..], 2)
    ensures (set e | e in es :: e.name) == {es[0].name} + (set e | e in es[1..] :: e.name)
  {
    var x := es[0];
    OneNamed(x, 0);
    OneNamed(x, 2);
    assert f.functionExports + [] == f.functionExports && f.memoryExports + [] == f.memoryExports;
    assert forall e :: e in es <==> e == x || e in es[1..];
  }

  lemma {:induction false} Absent(ms: seq<Section>, k: nat)
    requires forall s :: s in ms && Inspected(SectionId(s)) ==> SectionId(s) > k
    ensures k >= 1 ==> TypesOf(ms) == []
    ensures k >= 2 ==> ImportsOf(ms) == []
    ensures k >= 7 ==> ExportsOf(ms) == []
    decreases |ms|
  {
    if ms != [] {
      assert ms[0] in ms && forall s :: s in ms[1..] ==> s in ms;
      Absent(ms[1..], k);
    }
  }

  lemma LaterSections(ms: seq<Section>)
    requires ms != [] && Ordered(ms)
    ensures Ordered(ms[1..])
    ensures Inspected(SectionId(ms[0])) ==>
              forall s :: s in ms[1..] && Inspected(SectionId(s)) ==> SectionId(s) > SectionId(ms[0])
  {
    forall s | s in ms[1..] && Inspected(SectionId(s)) && Inspected(SectionId(ms[0])) ensures SectionId(s) > SectionId(ms[0]) {
      var j :| 0 <= j < |ms[1..]| && ms[1..][j] == s;
      assert ms[j + 1] == s;
    }
  }

  ghost predicate Fits(ms: seq<Section>, f: Found) {
    && (forall i :: i in ImportsOf(ms) ==> TypeThere(i.desc, |f.types + TypesOf(ms)|))
    && DistinctNames(ExportsOf(ms))
    && (forall e :: e in ExportsOf(ms) ==> e.name !in f.exportNames)
  }

  /** `f` with everything in `ms` added. */
  ghost function Gathered(ms: seq<Section>, f: Found): Found
    requires Fits(ms, f)
  {
    Found(f.types + TypesOf(ms),
          f.importedFunctions + FunctionTypes(ImportsOf(ms)),
          f.functions + FunctionsOf(ms),
          f.imports + Reports(ImportsOf(ms), f.types + TypesOf(ms)),
          f.memories + MemorySpace(ms),
          f.exportNames + (set e | e in ExportsOf(ms) :: e.name),
          f.functionExports + Named(ExportsOf(ms), 0),
          f.memoryExports + Named(ExportsOf(ms), 2),
          StartOf(ms, f.start))
  }

  /** Sections in order tell all there is in the module. */
  lemma {:induction false} Learned(ms: seq<Section>, f: Found)
    requires Ordered(ms) && Fits(ms, f)
    ensures LearnAll(ms, f) == Ok(Gathered(ms, f))
    decreases |ms|
  {
    if ms == [] {
      NothingToLearn(f);
    } else {
      LaterSections(ms);
      SectionLearned(ms, f);
      Learned(ms[1..], Learn(ms[0], f).value);
    }
  }

  lemma NothingToLearn(f: Found)
    requires Fits([], f)
    ensures Gathered([], f) == f
  {
    assert Reports(ImportsOf([]), f.types + TypesOf([])) == [] && MemorySpace([]) == [];
    assert (set e | e in ExportsOf([]) :: e.name) == {};
  }

  lemma SectionLearned(ms: seq<Section>, f: Found)
    requires ms != [] && Ordered(ms) && Fits(ms, f)
    ensures Learn(ms[0], f).Ok?
    ensures Fits(ms[1..], Learn(ms[0], f).value) && Gathered(ms[1..], Learn(ms[0], f).value) == Gathered(ms, f)
  {
    hide Ordered, Fits, Gathered, Learn;
    LaterSections(ms);
    match ms[0]
    case TypeSection(_) => AfterTypes(ms, f);
    case ImportSection(_) => Absent(ms[1..], 2); AfterImports(ms, f);
    case MemorySection(_) => Absent(ms[1..], 5); AfterMemories(ms, f);
    case ExportSection(_) => Absent(ms[1..], 7); AfterExports(ms, f);
    case FunctionSection(_) => AfterFunctions(ms, f);
    case _ => AfterOthers(ms, f);
  }

  lemma AfterTypes(ms: seq<Section>, f: Found)
    requires ms != [] && ms[0].TypeSection? && Fits(ms, f)
    ensures Learn(ms[0], f).Ok?
    ensures Fits(ms[1..], Learn(ms[0], f).value) && Gathered(ms[1..], Learn(ms[0], f).value) == Gathered(ms, f)
  {
    Joined(f.types, ms[0].types, TypesOf(ms[1..]));
    assert ImportsOf(ms) == ImportsOf(ms[1..]) && FunctionsOf(ms) == FunctionsOf(ms[1..]);
    assert MemoriesOf(ms) == MemoriesOf(ms[1..]) && ExportsOf(ms) == ExportsOf(ms[1..]);
  }

  lemma AfterImports(ms: seq<Section>, f: Found)
    requires ms != [] && ms[0].ImportSection? && Fits(ms, f) && TypesOf(ms[1..]) == [] && ImportsOf(ms[1..]) == []
    ensures Learn(ms[0], f).Ok?
    ensures Fits(ms[1..], Learn(ms[0], f).value) && Gathered(ms[1..], Learn(ms[0], f).value) == Gathered(ms, f)
  {
    var imps := ms[0].imports;
    assert ImportsOf(ms) == imps && TypesOf(ms) == [] && f.types + TypesOf(ms) == f.types;
    assert FunctionsOf(ms) == FunctionsOf(ms[1..]);
    assert MemoriesOf(ms) == MemoriesOf(ms[1..]) && ExportsOf(ms) == ExportsOf(ms[1..]);
    ImportsLearned(imps, f);
    var g := LearnImports(imps, f).value;
    hide LearnImports;
    assert g.types + TypesOf(ms[1..]) == f.types;
    assert g.imports + Reports([], g.types) == g.imports;
    Joined(f.memories, ImportedMemories(imps), Defined(MemoriesOf(ms)));
    assert MemorySpace(ms[1..]) == Defined(MemoriesOf(ms));
    assert g.importedFunctions + FunctionTypes([]) == g.importedFunctions;
  }

  lemma DefinedJoin(a: seq<Limits>, b: seq<Limits>)
    ensures Defined(a + b) == Defined(a) + Defined(b)
  {
  }

  lemma AfterMemories(ms: seq<Section>, f: Found)
    requires ms != [] && ms[0].MemorySection? && Fits(ms, f) && ImportsOf(ms[1..]) == []
    ensures Learn(ms[0], f).Ok?
    ensures Fits(ms[1..], Learn(ms[0], f).value) && Gathered(ms[1..], Learn(ms[0], f).value) == Gathered(ms, f)
  {
    var here, later := ms[0].memories, MemoriesOf(ms[1..]);
    assert TypesOf(ms) == TypesOf(ms[1..]) && FunctionsOf(ms) == FunctionsOf(ms[1..]);
    assert ImportsOf(ms) == [] && ExportsOf(ms) == ExportsOf(ms[1..]);
    DefinedJoin(here, later);
    assert MemorySpace(ms) == Defined(here) + Defined(later) && MemorySpace(ms[1..]) == Defined(later);
    assert StartOf(ms, f.start) == StartOf(ms[1..], f.start);
    hide StartOf, Reports, TypesOf, ImportsOf, MemoriesOf, ExportsOf, FunctionsOf, Named, FunctionTypes, MemorySpace, Defined;
    Joined(f.memories, Defined(here), Defined(later));
  }

  lemma AfterExports(ms: seq<Section>, f: Found)
    requires ms != [] && ms[0].ExportSection? && Fits(ms, f) && ExportsOf(ms[1..]) == []
    ensures Learn(ms[0], f).Ok?
    ensures Fits(ms[1..], Learn(ms[0], f).value) && Gathered(ms[1..], Learn(ms[0], f).value) == Gathered(ms, f)
  {
    var es := ms[0].exports;
    assert ExportsOf(ms) == es;
    assert TypesOf(ms) == TypesOf(ms[1..]) && FunctionsOf(ms) == FunctionsOf(ms[1..]);
    assert ImportsOf(ms) == ImportsOf(ms[1..]) && MemoriesOf(ms) == MemoriesOf(ms[1..]);
    ExportsLearned(es, f);
    var g := LearnExports(es, f).value;
    assert StartOf(ms, f.start) == StartOf(ms[1..], f.start);
    hide LearnExports, TypesOf, ImportsOf, MemoriesOf, FunctionsOf, StartOf, FunctionTypes, MemorySpace, Reports, DistinctNames;
    assert (set e | e in ExportsOf(ms[1..]) :: e.name) == {};
    assert g.functionExports + Named([], 0) == g.functionExports && g.memoryExports + Named([], 2) == g.memoryExports;
  }

  lemma AfterFunctions(ms: seq<Section>, f: Found)
    requires ms != [] && ms[0].FunctionSection? && Fits(ms, f)
    ensures Learn(ms[0], f).Ok?
    ensures Fits(ms[1..], Learn(ms[0], f).value) && Gathered(ms[1..], Learn(ms[0], f).value) == Gathered(ms, f)
  {
    assert TypesOf(ms) == TypesOf(ms[1..]) && ImportsOf(ms) == ImportsOf(ms[1..]);
    assert MemoriesOf(ms) == MemoriesOf(ms[1..]) && ExportsOf(ms) == ExportsOf(ms[1..]);
    assert FunctionsOf(ms) == ms[0].functions + FunctionsOf(ms[1..]);
    assert StartOf(ms, f.start) == StartOf(ms[1..], f.start);
    hide TypesOf, ImportsOf, MemoriesOf, ExportsOf, FunctionsOf, StartOf, Named, FunctionTypes, ImportedMemories, Defined;
    Joined(f.functions, ms[0].functions, FunctionsOf(ms[1..]));
  }

  lemma AfterOthers(ms: seq<Section>, f: Found)
    requires ms != [] && (ms[0].StartSection? || ms[0].OtherSection?) && Fits(ms, f)
    ensures Learn(ms[0], f).Ok?
    ensures Fits(ms[1..], Learn(ms[0], f).value) && Gathered(ms[1..], Learn(ms[0], f).value) == Gathered(ms, f)
  {
    assert TypesOf(ms) == TypesOf(ms[1..]) && ImportsOf(ms) == ImportsOf(ms[1..]) && FunctionsOf(ms) == FunctionsOf(ms[1..]);
    assert MemoriesOf(ms) == MemoriesOf(ms[1..]) && ExportsOf(ms) == ExportsOf(ms[1..]);
    assert StartOf(ms, f.start) == StartOf(ms[1..], Learn(ms[0], f).value.start);
    hide TypesOf, ImportsOf, MemoriesOf, ExportsOf, FunctionsOf, StartOf, Named, FunctionTypes, ImportedMemories, Defined;
  }

  // ----- exports -----

  lemma {:induction false} FunctionsResolved(es: seq<(Bytes, nat)>, f: Found, space: seq<nat>)
    requires space == f.importedFunctions + f.functions
    requires forall e :: e in es ==> e.1 < |space| && space[e.1] < |f.types|
    ensures var r := ResolveFunctions(es, f);
            && r.Ok? && |r.value| == |es|
            && forall k :: 0 <= k < |es| ==> es[k] in es && r.value[k] == FunctionReported(es[k], f.types, space, |f.importedFunctions|)
    decreases |es|
  {
    if es != [] {
      var front := es[..|es| - 1];
      assert forall e :: e in front ==> e in es;
      FunctionsResolved(front, f, space);
      assert es[|es| - 1] in es;
    }
  }

  /** The names a memory collects, in the order of its exports. */
  function Collected(es: seq<(Bytes, nat)>, k: nat): seq<Bytes> {
    if es == [] then [] else (if es[0].1 == k then [es[0].0] else []) + Collected(es[1..], k)
  }

  lemma {:induction false} MemoriesNamed(es: seq<(Bytes, nat)>, ms: seq<MemoryReport>)
    requires forall e :: e in es ==> e.1 < |ms|
    ensures var r := NameMemories(es, ms);
            && r.Ok? && |r.value| == |ms|
            && forall k :: 0 <= k < |ms| ==> r.value[k] == ms[k].(exportNames := ms[k].exportNames + Collected(es, k))
    decreases |es|
  {
    if es == [] {
      forall k | 0 <= k < |ms| ensures ms[k] == ms[k].(exportNames := ms[k].exportNames + Collected(es, k)) {
        assert ms[k].exportNames + [] == ms[k].exportNames;
      }
    } else {
      assert es[0] in es && forall e :: e in es[1..] ==> e in es;
      var (name, i) := es[0];
      var next := ms[i := ms[i].(exportNames := ms[i].exportNames + [name])];
      MemoriesNamed(es[1..], next);
      forall k | 0 <= k < |ms|
        ensures next[k].exportNames + Collected(es[1..], k) == ms[k].exportNames + Collected(es, k)
      {
        if k == i { Joined(ms[k].exportNames, [name], Collected(es[1..], k)); }
      }
    }
  }

  lemma {:induction false} NamedNames(es: seq<Export>, kind: byte)
    requires DistinctNames(es)
    ensures DistinctFirsts(Named(es, kind))
    ensures forall e :: e in Named(es, kind) ==> exists x :: x in es && x.name == e.0
    decreases |es|
  {
    if es != [] {
      var x, more := es[0], es[1..];
      assert forall y :: y in more ==> y in es;
      assert x in es;
      NamedNames(more, kind);
      forall e | e in Named(more, kind) ensures e.0 != x.name {
        var y :| y in more && y.name == e.0;
        var j :| 0 <= j < |more| && more[j] == y;
        assert es[j + 1] == y;
      }
      forall e | e in Named(es, kind) ensures exists y :: y in es && y.name == e.0 {
        if e in Named(more, kind) {
          var y :| y in more && y.name == e.0;
          assert y in es;
        } else {
          assert x.name == e.0;
        }
      }
    }
  }

  lemma {:induction false} CollectedNames(es: seq<(Bytes, nat)>, k: nat)
    requires DistinctFirsts(es)
    ensures forall n :: n in Collected(es, k) <==> exists e :: e in es && e.1 == k && e.0 == n
    ensures forall i, j :: 0 <= i < j < |Collected(es, k)| ==> Collected(es, k)[i] != Collected(es, k)[j]
    decreases |es|
  {
    if es != [] {
      var x, more := es[0], es[1..];
      assert forall e :: e in es <==> e == x || e in more;
      CollectedNames(more, k);
      forall e | e in more ensures e.0 != x.0 {
        var j :| 0 <= j < |more| && more[j] == e;
        assert es[j + 1] == e;
      }
      var rest := Collected(more, k);
      forall j | 0 <= j < |rest| ensures rest[j] != x.0 {
        assert rest[j] in rest;
      }
    }
  }

  lemma SortedCollection(es: seq<(Bytes, nat)>, k: nat)
    requires DistinctFirsts(es)
    ensures SortNames(Collected(es, k)) == PlainNames(Arrange(NamesOfMemory(es, k)))
  {
    hide Sort, Arrange, Collected;
    var names := Collected(es, k);
    CollectedNames(es, k);
    var keyed := KeyedNames(names);
    SortIsArrange(keyed);
    forall c ensures c in Entries(keyed) <==> c in NamesOfMemory(es, k) {
      if c in keyed { var i :| 0 <= i < |keyed| && keyed[i] == c; assert names[i] in names; }
      if c in NamesOfMemory(es, k) {
        var e :| e in es && e.1 == k && c == KeyedName(e.0);
        assert e.0 in names;
        var i :| 0 <= i < |names| && names[i] == e.0;
        assert keyed[i] == c;
      }
    }
    assert Entries(keyed) == NamesOfMemory(es, k);
  }

  lemma {:induction false} NoNamesYet(imps: seq<Import>)
    ensures forall m :: m in ImportedMemories(imps) ==> m.exportNames == []
    decreases |imps|
  {
    if imps != [] { NoNamesYet(imps[1..]); }
  }

  // ----- main result -----

  lemma Concluded(ms: seq<Section>)
    requires Valid(ms) && Fits(ms, NOTHING)
    ensures Conclude(Gathered(ms, NOTHING)) == Ok(Described(ms))
  {
    FromNothing(ms);
    ExportsConcluded(ms, Gathered(ms, NOTHING));
    MemoriesDescribed(ms);
    hide Gathered, Fits, Valid, NameMemories, ResolveFunctions, SortAll, MemorySpace, Reports, DescribedMemories, DescribedExports;
  }

  lemma ExportsConcluded(ms: seq<Section>, f: Found)
    requires Valid(ms) && f.types == TypesOf(ms)
    requires f.importedFunctions == FunctionTypes(ImportsOf(ms)) && f.functions == FunctionsOf(ms)
    ensures ResolveFunctions(Named(ExportsOf(ms), 0), f) == Ok(DescribedExports(ms))
  {
    var es := Named(ExportsOf(ms), 0);
    hide ResolveFunctions, TypesOf, FunctionTypes, ImportsOf, FunctionsOf, ExportsOf, Named, MemorySpace;
    FunctionsResolved(es, f, FunctionSpace(ms));
    assert ResolveFunctions(es, f).value == DescribedExports(ms);
  }

  lemma MemoriesDescribed(ms: seq<Section>)
    requires Valid(ms)
    ensures var named := NameMemories(Named(ExportsOf(ms), 2), MemorySpace(ms));
            named.Ok? && SortAll(named.value) == DescribedMemories(ms)
  {
    NamedNames(ExportsOf(ms), 2);
    NoNamesYet(ImportsOf(ms));
    assert forall k :: 0 <= k < |MemorySpace(ms)| ==> MemorySpace(ms)[k].exportNames == [];
    hide NameMemories, SortAll, MemorySpace, DistinctFirsts, Named, ExportsOf, ImportsOf;
    MemoriesConcluded(Named(ExportsOf(ms), 2), MemorySpace(ms));
  }

  lemma MemoriesConcluded(es: seq<(Bytes, nat)>, space: seq<MemoryReport>)
    requires (forall e :: e in es ==> e.1 < |space|) && DistinctFirsts(es)
    requires forall k :: 0 <= k < |space| ==> space[k].exportNames == []
    ensures NameMemories(es, space).Ok?
    ensures SortAll(NameMemories(es, space).value) ==
            seq(|space|, k requires 0 <= k < |space| =>
              space[k].(exportNames := PlainNames(Arrange(NamesOfMemory(es, k)))))
  {
    hide NameMemories, SortNames, Arrange, PlainNames, NamesOfMemory, Collected, DistinctFirsts;
    MemoriesNamed(es, space);
    forall k | 0 <= k < |space|
      ensures SortNames(NameMemories(es, space).value[k].exportNames) == PlainNames(Arrange(NamesOfMemory(es, k)))
    {
      assert [] + Collected(es, k) == Collected(es, k);
      SortedCollection(es, k);
    }
  }

  lemma FromNothing(ms: seq<Section>)
    requires Valid(ms) && Fits(ms, NOTHING)
    ensures Gathered(ms, NOTHING) == Found(TypesOf(ms), FunctionTypes(ImportsOf(ms)), FunctionsOf(ms),
                                           Reports(ImportsOf(ms), TypesOf(ms)), MemorySpace(ms),
                                           (set e | e in ExportsOf(ms) :: e.name),
                                           Named(ExportsOf(ms), 0), Named(ExportsOf(ms), 2), StartOf(ms, None))
  {
    assert [] + TypesOf(ms) == TypesOf(ms);
    assert [] + MemorySpace(ms) == MemorySpace(ms);
  }

  // ----- only valid modules -----

  lemma {:induction false} LearnedImportsFit(imps: seq<Import>, f: Found)
    requires LearnImports(imps, f).Ok?
    ensures forall i :: i in imps ==> TypeThere(i.desc, |f.types|)
    decreases |imps|
  {
    if imps != [] {
      LearnedImportsFit(imps[1..], LearnImport(imps[0], f).value);
      assert forall i :: i in imps <==> i == imps[0] || i in imps[1..];
    }
  }

  lemma {:induction false} LearnedExportsFit(es: seq<Export>, f: Found)
    requires LearnExports(es, f).Ok?
    ensures DistinctNames(es) && forall e :: e in es ==> e.name !in f.exportNames
    decreases |es|
  {
    if es != [] {
      var x, more := es[0], es[1..];
      LearnedExportsFit(more, LearnExport(x, f).value);
      forall j | 0 <= j < |more| ensures more[j].name != x.name { assert more[j] in more; }
      assert forall e :: e in es <==> e == x || e in more;
    }
  }

  /** Sections that can be learned fit together. */
  lemma {:induction false} LearnedFits(ms: seq<Section>, f: Found)
    requires Ordered(ms) && LearnAll(ms, f).Ok?
    ensures Fits(ms, f)
    decreases |ms|
  {
    if ms != [] {
      LaterSections(ms);
      var g := Learn(ms[0], f).value;
      LearnedFits(ms[1..], g);
      if ms[0].ImportSection? { Absent(ms[1..], 2); }
      if ms[0].ExportSection? { Absent(ms[1..], 7); }
      SectionFits(ms, f, g);
    }
  }

  lemma SectionFits(ms: seq<Section>, f: Found, g: Found)
    requires ms != [] && Learn(ms[0], f) == Ok(g) && Fits(ms[1..], g)
    requires ms[0].ImportSection? ==> TypesOf(ms[1..]) == [] && ImportsOf(ms[1..]) == []
    requires ms[0].ExportSection? ==> ExportsOf(ms[1..]) == []
    ensures Fits(ms, f)
  {
    assert TypesOf(ms) == TypesIn(ms[0]) + TypesOf(ms[1..]) && ImportsOf(ms) == ImportsIn(ms[0]) + ImportsOf(ms[1..]);
    assert ExportsOf(ms) == ExportsIn(ms[0]) + ExportsOf(ms[1..]);
    hide TypesOf, ImportsOf, ExportsOf, LearnImports, LearnExports, DistinctNames;
    match ms[0]
    case TypeSection(ts) => Joined(f.types, ts, TypesOf(ms[1..]));
    case ImportSection(imps) =>
      LearnedImportsFit(imps, f);
      ImportsLearned(imps, f);
      assert ImportsOf(ms) == imps && f.types + TypesOf(ms) == f.types;
    case ExportSection(es) =>
      LearnedExportsFit(es, f);
      ExportsLearned(es, f);
      assert ExportsOf(ms) == es;
    case _ =>
  }

  lemma {:induction false} ResolvedFunctionsFit(es: seq<(Bytes, nat)>, f: Found, space: seq<nat>)
    requires space == f.importedFunctions + f.functions && ResolveFunctions(es, f).Ok?
    ensures forall e :: e in es ==> e.1 < |space| && space[e.1] < |f.types|
    decreases |es|
  {
    if es != [] {
      var front, last := es[..|es| - 1], es[|es| - 1];
      ResolvedFunctionsFit(front, f, space);
      assert es == front + [last];
    }
  }

  lemma {:induction false} NamedMemoriesFit(es: seq<(Bytes, nat)>, ms: seq<MemoryReport>)
    requires NameMemories(es, ms).Ok?
    ensures forall e :: e in es ==> e.1 < |ms|
    decreases |es|
  {
    if es != [] {
      var (name, i) := es[0];
      NamedMemoriesFit(es[1..], ms[i := ms[i].(exportNames := ms[i].exportNames + [name])]);
      assert forall e :: e in es <==> e == es[0] || e in es[1..];
    }
  }

  lemma ConcludedIsValid(ms: seq<Section>)
    requires Fits(ms, NOTHING) && Conclude(Gathered(ms, NOTHING)).Ok?
    ensures Valid(ms)
  {
    assert [] + TypesOf(ms) == TypesOf(ms) && [] + MemorySpace(ms) == MemorySpace(ms);
    assert [] + Named(ExportsOf(ms), 0) == Named(ExportsOf(ms), 0) && [] + Named(ExportsOf(ms), 2) == Named(ExportsOf(ms), 2);
    var f := Gathered(ms, NOTHING);
    assert f.importedFunctions + f.functions == FunctionSpace(ms);
    hide ResolveFunctions, NameMemories, MemorySpace, Named, ExportsOf, ImportsOf, TypesOf, FunctionsOf, FunctionTypes, DistinctNames;
    ResolvedFunctionsFit(Named(ExportsOf(ms), 0), f, FunctionSpace(ms));
    NamedMemoriesFit(Named(ExportsOf(ms), 2), MemorySpace(ms));
  }

  /**
   Inspecting any binary form of a module reports exactly its imports with their signatures,
   its memories with the sorted names of their exports, its function exports resolved through
   the imports-first index space, and its start function; it succeeds on valid modules only.
   */
  lemma InspectsModule(u: Utf8, k: Coding, ms: seq<Section>)
    requires ProperCoding(k) && Ordered(ms) && forall s :: s in ms ==> SectionOk(u, k, s)
    ensures Inspect(u, ModuleBytes(k, ms)).Ok? <==> Valid(ms)
    ensures Valid(ms) ==> Inspect(u, ModuleBytes(k, ms)) == Ok(Described(ms))
  {
    InspectsSections(u, k, ms);
    if Valid(ms) {
      ValidInspects(u, k, ms);
    } else if LearnAll(ms, NOTHING).Ok? {
      LearnedFits(ms, NOTHING);
      Learned(ms, NOTHING);
      hide Valid, Fits, Conclude, LearnAll, Inspect, Gathered, Ordered, SectionOk;
      if Conclude(Gathered(ms, NOTHING)).Ok? { ConcludedIsValid(ms); }
    }
  }

  lemma ValidInspects(u: Utf8, k: Coding, ms: seq<Section>)
    requires ProperCoding(k) && Ordered(ms) && Valid(ms) && forall s :: s in ms ==> SectionOk(u, k, s)
    ensures Inspect(u, ModuleBytes(k, ms)) == Ok(Described(ms))
  {
    assert Fits(ms, NOTHING) by { assert NOTHING.types + TypesOf(ms) == TypesOf(ms); }
    hide Ordered, Valid, Fits, Described, Gathered, Conclude, LearnAll, Inspect, ProperCoding, SectionOk;
    InspectsSections(u, k, ms);
    Learned(ms, NOTHING);
    Concluded(ms);
  }
}
