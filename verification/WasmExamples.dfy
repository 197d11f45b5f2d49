/** A small module, byte for byte, and what the inspector reports of it. */
module WasmExamples {
  import opened Optional
  import opened Results
  import opened ByteStrings
  import opened Ordering
  import opened Wasm
  import opened WasmRoundTrip

  function Short(): Coding { Coding(Shortest, (id: byte) => Shortest) }

  lemma ShortIsProper()
    ensures ProperCoding(Short())
  {
    hide Proper;
    ShortestIsProper();
  }

  lemma Small(n: byte, rest: Bytes)
    requires n < 128
    ensures UBytes(Shortest, n, rest) == [n] + rest
  {
  }

  /** A section of at most 127 bytes: its id, its size and its payload. */
  lemma SmallSection(s: Section, payload: Bytes, rest: Bytes)
    requires Payload(Short(), s) == payload && |payload| < 128
    ensures SectionBytes(Short(), s, rest) == [SectionId(s), |payload|] + payload + rest
  {
    hide Payload;
    Small(|payload|, payload + rest);
  }

  lemma OneSection(s: Section, ms: seq<Section>)
    ensures SectionsBytes(Short(), [s] + ms) == SectionBytes(Short(), s, SectionsBytes(Short(), ms))
  {
    assert ([s] + ms)[1..] == ms;
  }

  lemma LearnOne(s: Section, ms: seq<Section>, f: Found)
    requires Learn(s, f).Ok?
    ensures LearnAll([s] + ms, f) == LearnAll(ms, Learn(s, f).value)
  {
    hide Learn;
    assert ([s] + ms)[1..] == ms;
  }

  // ----- a module that exports an addition of 64-bit integers -----

  const ADD_NAME: Bytes := [97, 100, 100]
  const ADD_TYPE := Signature([I64, I64], Some(I64))
  const ADD_CODE: Bytes := [1, 7, 0, 0x20, 0, 0x20, 1, 0x7c, 0x0b]
  const ADD: seq<Section> :=
    [TypeSection([ADD_TYPE]), FunctionSection([0]), ExportSection([Export(ADD_NAME, 0, 0)]), OtherSection(10, ADD_CODE)]

  lemma AddTypes()
    ensures Payload(Short(), TypeSection([ADD_TYPE])) == [1, 0x60, 2, 0x7e, 0x7e, 1, 0x7e]
  {
    var t := ADD_TYPE;
    Small(1, [0x7e]);
    Small(2, [0x7e, 0x7e, 1, 0x7e]);
    assert ResultTypes(t) == [I64];
    assert ValTypeBytes([I64], []) == [0x7e] by { assert [I64][1..] == []; assert ValTypeBytes([], []) == []; }
    assert VecBytes(Shortest, ResultTypes(t), []) == [1, 0x7e];
    assert ValTypeBytes([I64, I64], [1, 0x7e]) == [0x7e, 0x7e, 1, 0x7e] by {
      assert [I64, I64][1..] == [I64] && [I64][1..] == [];
      assert ValTypeBytes([], [1, 0x7e]) == [1, 0x7e];
      assert ValTypeBytes([I64], [1, 0x7e]) == [0x7e] + [1, 0x7e];
    }
    assert SignatureBytes(Shortest, t, []) == [0x60, 2, 0x7e, 0x7e, 1, 0x7e];
    assert [t][1..] == [];
    assert TypesBytes(Shortest, [], []) == [];
    assert TypesBytes(Shortest, [t], []) == SignatureBytes(Shortest, t, []);
    Small(1, [0x60, 2, 0x7e, 0x7e, 1, 0x7e]);
  }

  lemma AddFunctions()
    ensures Payload(Short(), FunctionSection([0])) == [1, 0]
  {
    assert [0][1..] == [];
    assert FunctionsBytes(Shortest, [], []) == [];
    Small(0, []);
    assert FunctionsBytes(Shortest, [0], []) == [0];
    Small(1, [0]);
  }

  lemma AddExports()
    ensures Payload(Short(), ExportSection([Export(ADD_NAME, 0, 0)])) == [1, 3, 97, 100, 100, 0, 0]
  {
    var e := Export(ADD_NAME, 0, 0);
    Small(0, []);
    Small(3, ADD_NAME + [0, 0]);
    assert ExportBytes(Shortest, e, []) == [3, 97, 100, 100, 0, 0];
    assert [e][1..] == [];
    assert ExportsBytes(Shortest, [], []) == [];
    assert ExportsBytes(Shortest, [e], []) == ExportBytes(Shortest, e, []);
    Small(1, [3, 97, 100, 100, 0, 0]);
  }

  const ADD_TAIL: Bytes := [7, 7] + [1, 3, 97, 100, 100, 0, 0] + ([10, 9] + ADD_CODE + [])

  lemma AddTail()
    ensures SectionsBytes(Short(), [ADD[2], ADD[3]]) == ADD_TAIL
  {
    var c, d := ADD[2], ADD[3];
    assert Payload(Short(), d) == ADD_CODE && SectionsBytes(Short(), []) == [];
    hide SectionBytes, SectionsBytes, Payload;
    assert [c, d] == [c] + [d] && [d] == [d] + [];
    OneSection(d, []);
    OneSection(c, [d]);
    AddExports();
    SmallSection(d, ADD_CODE, []);
    SmallSection(c, [1, 3, 97, 100, 100, 0, 0], SectionsBytes(Short(), [d]));
  }

  /** The bytes of the module. */
  lemma AddBytes()
    ensures ModuleBytes(Short(), ADD) ==
            [0, 97, 115, 109, 1, 0, 0, 0] + ([1, 7] + [1, 0x60, 2, 0x7e, 0x7e, 1, 0x7e] + ([3, 2] + [1, 0] + ADD_TAIL))
  {
    hide SectionBytes, SectionsBytes, Payload;
    var a, b, c, d := ADD[0], ADD[1], ADD[2], ADD[3];
    assert ADD == [a] + [b, c, d] && [b, c, d] == [b] + [c, d];
    OneSection(b, [c, d]);
    OneSection(a, [b, c, d]);
    AddTypes();
    AddFunctions();
    AddTail();
    SmallSection(b, [1, 0], ADD_TAIL);
    SmallSection(a, [1, 0x60, 2, 0x7e, 0x7e, 1, 0x7e], SectionsBytes(Short(), [b, c, d]));
  }

  lemma AddSectionsOk(u: Utf8)
    requires u(ADD_NAME)
    ensures forall s :: s in ADD ==> SectionOk(u, Short(), s)
  {
    AddTypes();
    AddFunctions();
    AddExports();
    assert Payload(Short(), ADD[3]) == ADD_CODE;
    hide Payload;
    assert SectionOk(u, Short(), ADD[0]);
    assert SectionOk(u, Short(), ADD[1]);
    assert SectionOk(u, Short(), ADD[2]);
    assert SectionOk(u, Short(), ADD[3]);
  }

  const ADD_FOUND :=
    NOTHING.(types := [ADD_TYPE], functions := [0], exportNames := {ADD_NAME}, functionExports := [(ADD_NAME, 0)])

  lemma AddLearned()
    ensures LearnAll(ADD, NOTHING) == Ok(ADD_FOUND)
  {
    var a, b, c, d := ADD[0], ADD[1], ADD[2], ADD[3];
    var f1 := NOTHING.(types := [ADD_TYPE]);
    var f2 := f1.(functions := [0]);
    var f3 := ADD_FOUND;
    assert NOTHING.types + [ADD_TYPE] == [ADD_TYPE] && NOTHING.functions + [0] == [0];
    assert NOTHING.exportNames + {ADD_NAME} == {ADD_NAME} && NOTHING.functionExports + [(ADD_NAME, 0)] == [(ADD_NAME, 0)];
    assert Learn(a, NOTHING) == Ok(f1) && Learn(b, f1) == Ok(f2) && Learn(d, f3) == Ok(f3);
    var e := Export(ADD_NAME, 0, 0);
    assert LearnExport(e, f2) == Ok(f3);
    assert [e][1..] == [] && LearnExports([], f3) == Ok(f3);
    assert Learn(c, f2) == Ok(f3);
    assert LearnAll([], f3) == Ok(f3);
    hide Learn, LearnAll;
    assert ADD == [a] + [b, c, d] && [b, c, d] == [b] + [c, d] && [c, d] == [c] + [d] && [d] == [d] + [];
    LearnOne(d, [], f3);
    LearnOne(c, [d], f2);
    LearnOne(b, [c, d], f1);
    LearnOne(a, [b, c, d], NOTHING);
  }

  lemma AddConcluded()
    ensures Conclude(ADD_FOUND) == Ok(Inspection([], [], [FunctionReport(ADD_NAME, ADD_TYPE, false)], None))
  {
    var e: (Bytes, nat) := (ADD_NAME, 0);
    var none: seq<(Bytes, nat)> := [];
    var es := [e];
    assert es[..|es| - 1] == none && es[|es| - 1] == e && ResolveFunctions(none, ADD_FOUND) == Ok([]);
    var r := FunctionReport(ADD_NAME, ADD_TYPE, false);
    assert ResolveFunction(e, ADD_FOUND) == Ok(r);
    assert ResolveFunctions(none, ADD_FOUND).value + [r] == [r];
    assert ResolveFunctions(es, ADD_FOUND) == Ok([FunctionReport(ADD_NAME, ADD_TYPE, false)]);
    assert SortAll([]) == [];
  }

  /** Inspecting them reports one export of two 64-bit arguments and a 64-bit result, and nothing else. */
  lemma AddReport(u: Utf8)
    requires u(ADD_NAME)
    ensures Inspect(u, ModuleBytes(Short(), ADD)) == Ok(Inspection([], [], [FunctionReport(ADD_NAME, ADD_TYPE, false)], None))
  {
    hide *;
    AddSectionsOk(u);
    ShortIsProper();
    InspectsSections(u, Short(), ADD);
    AddLearned();
    AddConcluded();
  }
}
