/**
 The inspector as it runs (core/rust/src/direct_wasm.rs): a cursor over the bytes of the module
 and one over each section, and lists that grow as entries are read.
 */
module WasmInspector {
  import opened Optional
  import opened Results
  import opened ByteStrings
  import opened Powers
  import opened Ordering
  import opened Wasm
  import opened WasmRoundTrip
  import opened WasmModules

  /** A result agrees with a reading: the same value and the same bytes left, or the same error. */
  ghost predicate Agrees<T>(r: Res<T>, spec: Read<T>, rest: Bytes) {
    match spec
    case Got(v, left) => r == Ok(v) && rest == left
    case Bad(e) => r == Err(e)
  }

  /** The value read so far and the rest of the same integer. */
  ghost function Continued(r: Read<nat>, value: nat, shift: nat): Read<nat> {
    match r case Got(m, rest) => Got(value + Pow2(shift) * m, rest) case Bad(e) => Bad(e)
  }

  /** The seven bits of a byte, in place. */
  function Group(b: byte, shift: nat): nat { b % 128 * Pow2(shift) }

  lemma NextGroup(value: nat, shift: nat, m: nat, b: byte)
    requires b >= 128
    ensures value + Pow2(shift) * (128 * m + (b - 128)) == value + Group(b, shift) + Pow2(shift + 7) * m
  {
    Pow2Seven(shift);
    hide Pow2;
    assert b % 128 == b - 128;
    Distribute(Pow2(shift), m, b - 128);
  }

  lemma Distribute(p: nat, m: nat, low: nat)
    ensures p * (128 * m + low) == low * p + 128 * p * m
  {
  }

  lemma LastGroup(b: byte, shift: nat)
    requires b < 128
    ensures Pow2(shift) * b == Group(b, shift)
  {
    hide Pow2;
    assert b % 128 == b;
  }

  /** What is read in all when `g` bytes of an integer have given `value` and `s` is left. */
  ghost function Pending(s: Bytes, value: nat, g: nat): Read<nat>
    requires g <= 4
  {
    Continued(ReadU(s, 32 - 7 * g), value, 7 * g)
  }

  /** Byte number `g` of an integer: the last one, one with too many bits, or seven bits and the rest. */
  lemma GroupRead(s: Bytes, value: nat, g: nat)
    requires g <= 4
    ensures if s == [] then Pending(s, value, g) == Bad(UnexpectedEnd)
            else if g == 4 && s[0] >= 16 then Pending(s, value, g) == Bad(IntegerOverflow)
            else if s[0] < 128 then Pending(s, value, g) == Got(value + Group(s[0], 7 * g), s[1..])
            else g < 4 && Pending(s, value, g) == Pending(s[1..], value + Group(s[0], 7 * g), g + 1)
  {
    if s != [] {
      var b, shift := s[0], 7 * g;
      assert Pow2(4) == 16;
      hide Pow2, Group;
      if !(g == 4 && b >= 16) {
        GroupFits(b, g);
        if b < 128 {
          LastGroup(b, shift);
        } else {
          var next := ReadU(s[1..], 25 - shift);
          if next.Got? { NextGroup(value, shift, next.value, b); }
        }
      }
    }
  }

  lemma PendingAll(s: Bytes)
    ensures Pending(s, 0, 0) == ReadU(s, 32)
  {
    hide ReadU;
  }

  class Cursor {
    const bytes: Bytes
    var at: nat

    constructor (bytes: Bytes)
      ensures this.bytes == bytes && at == 0
    {
      this.bytes := bytes;
      at := 0;
    }

    ghost predicate Valid()
      reads this
    {
      at <= |bytes|
    }

    ghost function Rest(): Bytes
      requires Valid()
      reads this
    {
      bytes[at..]
    }

    method Byte() returns (r: Res<byte>)
      requires Valid()
      modifies this
      ensures Valid() && Agrees(r, ReadByte(old(Rest())), Rest())
    {
      if at >= |bytes| { return Err(UnexpectedEnd); }
      r := Ok(bytes[at]);
      at := at + 1;
      assert bytes[at..] == bytes[at - 1..][1..];
    }

    /** Seven bits a byte, least significant first; the fifth byte may hold only four. */
    method Unsigned() returns (r: Res<nat>)
      requires Valid()
      modifies this
      ensures Valid() && Agrees(r, ReadU(old(Rest()), 32), Rest())
    {
      hide ReadU, Group, Pow2, Pending;
      var value: nat := 0;
      var g: nat := 0;
      ghost var whole := ReadU(Rest(), 32);
      PendingAll(Rest());
      while true
        invariant Valid() && g <= 4 && Pending(Rest(), value, g) == whole
        decreases 5 - g
      {
        GroupRead(Rest(), value, g);
        var b :- Byte();
        if g == 4 && b >= 16 { return Err(IntegerOverflow); }
        value := value + Group(b, 7 * g);
        if b < 128 { return Ok(value); }
        g := g + 1;
      }
    }

    method Name(u: Utf8) returns (r: Res<Bytes>)
      requires Valid()
      modifies this
      ensures Valid() && Agrees(r, ReadName(u, old(Rest())), Rest())
    {
      hide ReadU;
      var size :- Unsigned();
      if at + size > |bytes| { return Err(NameExceedsSection); }
      var text := bytes[at..at + size];
      assert text == Rest()[..size] && bytes[at + size..] == Rest()[size..];
      if !u(text) { return Err(NameNotUtf8); }
      at := at + size;
      r := Ok(text);
    }

    method ValueTypes() returns (r: Res<seq<ValType>>)
      requires Valid()
      modifies this
      ensures Valid() && Agrees(r, ReadValTypeVec(old(Rest())), Rest())
    {
      hide ReadU;
      var n :- Unsigned();
      var types: seq<ValType> := [];
      var i := 0;
      while i < n
        invariant 0 <= i <= n && Valid()
        invariant ReadValTypes(Rest(), n - i, types) == ReadValTypeVec(old(Rest()))
      {
        var b :- Byte();
        if b < 0x7c || b > 0x7f { return Err(UnsupportedType); }
        types := types + [if b == 0x7f then I32 else if b == 0x7e then I64 else if b == 0x7d then F32 else F64];
        i := i + 1;
      }
      r := Ok(types);
    }

    method FunctionType() returns (r: Res<Signature>)
      requires Valid()
      modifies this
      ensures Valid() && Agrees(r, ReadSignature(old(Rest())), Rest())
    {
      hide ReadValTypeVec;
      var b :- Byte();
      if b != 0x60 { return Err(NotAFunctionType); }
      var arguments :- ValueTypes();
      var results :- ValueTypes();
      if |results| > 1 { return Err(MultipleResults); }
      r := Ok(Signature(arguments, if results == [] then None else Some(results[0])));
    }

    method LimitsOf() returns (r: Res<Limits>)
      requires Valid()
      modifies this
      ensures Valid() && Agrees(r, ReadLimits(old(Rest())), Rest())
    {
      hide ReadU;
      var flags :- Unsigned();
      if flags > 3 { return Err(WideLimits); }
      var minimum :- Unsigned();
      var maximum: Option<nat> := None;
      if flags % 2 == 1 {
        var m :- Unsigned();
        maximum := Some(m);
      }
      var shared := flags / 2 == 1;
      if shared && maximum.None? { return Err(SharedNeedsMaximum); }
      if maximum.Some? && maximum.value < minimum { return Err(MaximumBelowMinimum); }
      r := Ok(Limits(minimum, maximum, shared));
    }

    /** What an import declares; type indices are checked against the types read so far. */
    method Descriptor(types: nat) returns (r: Res<Extern>)
      requires Valid()
      modifies this
      ensures Valid() && Agrees(r, ReadExtern(old(Rest()), types), Rest())
    {
      hide ReadU, ReadLimits;
      var kind :- Byte();
      match kind
      case 0 =>
        var i :- Unsigned();
        if i >= types { return Err(BadImportType); }
        r := Ok(FunctionImport(i));
      case 1 =>
        var e :- Byte();
        if !ReferenceType(e) { return Err(UnsupportedType); }
        var l :- LimitsOf();
        r := Ok(TableImport(e, l));
      case 2 =>
        var l :- LimitsOf();
        r := Ok(MemoryImport(l));
      case 3 =>
        var t :- Byte();
        if !GlobalType(t) { return Err(UnsupportedType); }
        var m :- Byte();
        if m > 1 { return Err(BadMutability); }
        r := Ok(GlobalImport(t, m));
      case 4 =>
        var a :- Byte();
        if a != 0 { return Err(BadTagAttribute); }
        var i :- Unsigned();
        if i >= types { return Err(BadTagType); }
        r := Ok(TagImport(i));
      case _ => r := Err(UnknownKind);
    }

    // ----- sections -----

    method Types(f: Found, n: nat) returns (r: Res<Found>)
      requires Valid()
      modifies this
      ensures Valid() && Agrees(r, ReadTypes(old(Rest()), n, f), Rest())
    {
      hide ReadSignature;
      var found, i := f, 0;
      while i < n
        invariant 0 <= i <= n && Valid() && ReadTypes(Rest(), n - i, found) == ReadTypes(old(Rest()), n, f)
      {
        var t :- FunctionType();
        found := found.(types := found.types + [t]);
        i := i + 1;
      }
      r := Ok(found);
    }

    method Imports(u: Utf8, f: Found, n: nat) returns (r: Res<Found>)
      requires Valid()
      modifies this
      ensures Valid() && Agrees(r, ReadImports(u, old(Rest()), n, f), Rest())
    {
      hide ReadName, ReadExtern;
      var found, i := f, 0;
      while i < n
        invariant 0 <= i <= n && Valid() && ReadImports(u, Rest(), n - i, found) == ReadImports(u, old(Rest()), n, f)
      {
        var origin :- Name(u);
        var name :- Name(u);
        var desc :- Descriptor(|found.types|);
        found :- LearnImport(Import(origin, name, desc), found);
        i := i + 1;
      }
      r := Ok(found);
    }

    method Functions(f: Found, n: nat) returns (r: Res<Found>)
      requires Valid()
      modifies this
      ensures Valid() && Agrees(r, ReadFunctions(old(Rest()), n, f), Rest())
    {
      hide ReadU;
      var found, i := f, 0;
      while i < n
        invariant 0 <= i <= n && Valid() && ReadFunctions(Rest(), n - i, found) == ReadFunctions(old(Rest()), n, f)
      {
        var t :- Unsigned();
        found := found.(functions := found.functions + [t]);
        i := i + 1;
      }
      r := Ok(found);
    }

    method Memories(f: Found, n: nat) returns (r: Res<Found>)
      requires Valid()
      modifies this
      ensures Valid() && Agrees(r, ReadMemories(old(Rest()), n, f), Rest())
    {
      hide ReadLimits;
      var found, i := f, 0;
      while i < n
        invariant 0 <= i <= n && Valid() && ReadMemories(Rest(), n - i, found) == ReadMemories(old(Rest()), n, f)
      {
        var l :- LimitsOf();
        found := found.(memories := found.memories + [MemoryReport(false, l, [])]);
        i := i + 1;
      }
      r := Ok(found);
    }

    method Exports(u: Utf8, f: Found, n: nat) returns (r: Res<Found>)
      requires Valid()
      modifies this
      ensures Valid() && Agrees(r, ReadExports(u, old(Rest()), n, f), Rest())
    {
      hide ReadName, ReadU;
      var found, i := f, 0;
      while i < n
        invariant 0 <= i <= n && Valid() && ReadExports(u, Rest(), n - i, found) == ReadExports(u, old(Rest()), n, f)
      {
        var name :- Name(u);
        if name in found.exportNames { return Err(DuplicateExport); }
        found := found.(exportNames := found.exportNames + {name});
        var kind :- Byte();
        var index :- Unsigned();
        if kind == 0 { found := found.(functionExports := found.functionExports + [(name, index)]); }
        else if kind == 2 { found := found.(memoryExports := found.memoryExports + [(name, index)]); }
        else if kind > 4 { return Err(UnknownKind); }
        i := i + 1;
      }
      r := Ok(found);
    }

    /** Reads the next section of the module through a cursor of its own. */
    method NextSection(u: Utf8, f: Found) returns (r: Res<Found>)
      requires Valid()
      modifies this
      ensures Valid() && Agrees(r, ReadSection(u, old(Rest()), f), Rest())
    {
      hide ReadU, ReadBody;
      var id :- Byte();
      var size :- Unsigned();
      if at + size > |bytes| { return Err(SectionExceedsModule); }
      var section := new Cursor(bytes[at..at + size]);
      assert section.Rest() == Rest()[..size] && bytes[at + size..] == Rest()[size..];
      r := section.Section(u, id, f);
      at := at + size;
    }

    /** Reads one whole section; anything left over is an error. */
    method Section(u: Utf8, id: byte, f: Found) returns (r: Res<Found>)
      requires Valid()
      modifies this
      ensures Valid()
      ensures var spec := ReadBody(u, id, old(Rest()), f);
              match spec
              case Bad(e) => r == Err(e)
              case Got(g, left) => r == if left != [] then Err(TrailingBytes) else Ok(g)
    {
      hide ReadU, ReadTypes, ReadImports, ReadFunctions, ReadMemories, ReadExports;
      if !Inspected(id) { return Ok(f); }
      var n :- Unsigned();
      var g := f;
      if id == 1 { g :- Types(f, n); }
      else if id == 2 { g :- Imports(u, f, n); }
      else if id == 3 { g :- Functions(f, n); }
      else if id == 5 { g :- Memories(f, n); }
      else if id == 7 { g :- Exports(u, f, n); }
      else { g := f.(start := Some(n)); }
      if at != |bytes| { return Err(TrailingBytes); }
      r := Ok(g);
    }
  }

  lemma GroupFits(b: byte, g: nat)
    requires g <= 4 && (g == 4 ==> b < 16)
    ensures b < 128 ==> b < Pow2(32 - 7 * g)
    ensures b >= 128 ==> g < 4
  {
    assert Pow2(4) == 16;
    if g < 4 {
      assert Pow2(7) == 128 by { Pow2Seven(0); }
      Pow2Grows(7, 32 - 7 * g);
    }
  }

  // ----- the module -----

  method ReadModule(u: Utf8, bytes: Bytes) returns (r: Res<Found>)
    requires HEADER <= bytes
    ensures r == ReadSections(u, bytes[8..], NOTHING)
  {
    hide ReadSection;
    var cursor := new Cursor(bytes);
    cursor.at := 8;
    var found := NOTHING;
    ghost var whole := ReadSections(u, bytes[8..], NOTHING);
    while cursor.at < |bytes|
      invariant cursor.Valid() && ReadSections(u, cursor.Rest(), found) == whole
      decreases |bytes| - cursor.at
    {
      found :- cursor.NextSection(u, found);
    }
    r := Ok(found);
  }

  method ResolveExports(f: Found) returns (r: Res<seq<FunctionReport>>)
    ensures r == ResolveFunctions(f.functionExports, f)
  {
    var es := f.functionExports;
    var reports: seq<FunctionReport> := [];
    var i := 0;
    while i < |es|
      invariant 0 <= i <= |es| && ResolveFunctions(es[..i], f) == Ok(reports)
    {
      assert es[..i + 1][..i] == es[..i];
      var report := ResolveFunction(es[i], f);
      if report.Err? {
        ResolutionStops(es, f, i + 1);
        return Err(report.error);
      }
      reports := reports + [report.value];
      i := i + 1;
    }
    assert es[..i] == es;
    r := Ok(reports);
  }

  lemma {:induction false} ResolutionStops(es: seq<(Bytes, nat)>, f: Found, i: nat)
    requires i <= |es| && ResolveFunctions(es[..i], f).Err?
    ensures ResolveFunctions(es, f) == ResolveFunctions(es[..i], f)
    decreases |es|
  {
    if i == |es| {
      assert es[..i] == es;
    } else {
      var front := es[..|es| - 1];
      assert front[..i] == es[..i];
      ResolutionStops(front, f, i);
    }
  }

  method NameExported(f: Found) returns (r: Res<seq<MemoryReport>>)
    ensures r == NameMemories(f.memoryExports, f.memories)
  {
    var es, memories := f.memoryExports, f.memories;
    var i := 0;
    assert es[0..] == es;
    while i < |es|
      invariant 0 <= i <= |es| && NameMemories(es[i..], memories) == NameMemories(f.memoryExports, f.memories)
    {
      assert es[i..][1..] == es[i + 1..];
      var (name, k) := es[i];
      if k >= |memories| { return Err(BadMemoryExport); }
      memories := memories[k := memories[k].(exportNames := memories[k].exportNames + [name])];
      i := i + 1;
    }
    r := Ok(memories);
  }

  /** The whole inspection; on the binary form of a valid module it reports its description. */
  method InspectModule(u: Utf8, bytes: Bytes, ghost k: Coding, ghost ms: seq<Wasm.Section>) returns (r: Res<Inspection>)
    ensures r == Inspect(u, bytes)
    ensures ProperCoding(k) && bytes == ModuleBytes(k, ms) && Ordered(ms) && (forall s :: s in ms ==> SectionOk(u, k, s)) ==>
              && (r.Ok? <==> WasmModules.Valid(ms))
              && (r.Ok? ==> r.value == Described(ms))
  {
    hide Inspect, ReadSections, ResolveFunctions, NameMemories, SortAll, Described, ModuleBytes, Ordered, WasmModules.Valid, SectionOk, ProperCoding;
    Unfolded(u, bytes);
    if ProperCoding(k) && bytes == ModuleBytes(k, ms) && Ordered(ms) && forall s :: s in ms ==> SectionOk(u, k, s) {
      InspectsModule(u, k, ms);
    }
    if !(HEADER <= bytes) { return Err(BadHeader); }
    var found :- ReadModule(u, bytes);
    var exports :- ResolveExports(found);
    var memories :- NameExported(found);
    r := Ok(Inspection(found.imports, SortAll(memories), exports, found.start));
  }

  lemma Unfolded(u: Utf8, bytes: Bytes)
    ensures Inspect(u, bytes) ==
            if !(HEADER <= bytes) then Err(BadHeader)
            else
              var f := ReadSections(u, bytes[8..], NOTHING);
              if f.Err? then Err(f.error)
              else
                var exports := ResolveFunctions(f.value.functionExports, f.value);
                if exports.Err? then Err(exports.error)
                else
                  var memories := NameMemories(f.value.memoryExports, f.value.memories);
                  if memories.Err? then Err(memories.error)
                  else Ok(Inspection(f.value.imports, SortAll(memories.value), exports.value, f.value.start))
  {
    hide ReadSections, ResolveFunctions, NameMemories, SortAll;
  }
}
