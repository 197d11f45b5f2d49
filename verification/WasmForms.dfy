/**
 Everything the inspector accepts is a module: the bytes are the header and some sections in a
 binary form the standard allows, each used up exactly.
 */
module WasmForms {
  import opened Optional
  import opened Results
  import opened ByteStrings
  import opened Sequences
  import opened Wasm
  import opened WasmRoundTrip
  import WasmModules

  // ----- coders that agree -----

  /** Both coders write the same in front of fewer than `n` bytes. */
  ghost predicate Agree(c: Coder, d: Coder, n: nat) {
    forall k: nat, rest: Bytes :: |rest| < n ==> c(k, rest) == d(k, rest)
  }

  function With(c: Coder, n: nat, rest: Bytes, code: Bytes): Coder {
    (k: nat, r: Bytes) => if k == n && r == rest then code else c(k, r)
  }

  lemma CodeNotEmpty(c: Coder, n: nat, rest: Bytes)
    requires Proper(c) && n < U32
    ensures |rest| < |UBytes(c, n, rest)|
  {
    assert ReadU(c(n, rest), 32) == Got(n, []);
  }

  /** What is read is a form of the integer in front of the bytes left. */
  lemma {:induction false} CodeRead(s: Bytes, bits: nat) returns (code: Bytes)
    requires bits > 0 && ReadU(s, bits).Got?
    ensures s == code + ReadU(s, bits).rest && ReadU(code, bits) == Got(ReadU(s, bits).value, [])
    decreases bits
  {
    if s[0] < 128 {
      code := [s[0]];
      assert s == [s[0]] + s[1..];
    } else {
      var more := CodeRead(s[1..], bits - 7);
      code := [s[0]] + more;
      assert code[1..] == more;
    }
  }

  lemma UForm(s: Bytes, c: Coder) returns (d: Coder)
    requires Proper(c) && ReadU(s, 32).Got?
    ensures var Got(n, rest) := ReadU(s, 32); n < U32 && Proper(d) && s == UBytes(d, n, rest) && Agree(d, c, |rest|)
  {
    var Got(n, rest) := ReadU(s, 32);
    var code := CodeRead(s, 32);
    Pow2Width();
    hide ReadU;
    d := With(c, n, rest, code);
  }

  lemma UAgrees(c: Coder, d: Coder, n: nat, rest: Bytes, m: nat)
    requires Agree(d, c, m) && |rest| < m
    ensures UBytes(d, n, rest) == UBytes(c, n, rest)
  {
  }

  lemma AgreeLess(c: Coder, d: Coder, m: nat, n: nat)
    requires Agree(d, c, m) && n <= m
    ensures Agree(d, c, n)
  {
  }

  /** Changed twice, each time in front of at least `n` bytes. */
  lemma AgreeTwice(c: Coder, d: Coder, e: Coder, m: nat, n: nat)
    requires Agree(d, c, n) && Agree(e, d, m) && n <= m
    ensures Agree(e, c, n)
  {
  }

  // ----- names and types -----

  lemma NameAgrees(c: Coder, d: Coder, name: Bytes, rest: Bytes, m: nat)
    requires Proper(c) && Agree(d, c, m) && |name| < U32 && |NameBytes(c, name, rest)| <= m
    ensures NameBytes(d, name, rest) == NameBytes(c, name, rest)
    ensures |rest| < |NameBytes(c, name, rest)|
  {
    hide Proper, Agree, UBytes;
    CodeNotEmpty(c, |name|, name + rest);
    UAgrees(c, d, |name|, name + rest, m);
  }

  lemma NameForm(u: Utf8, s: Bytes, c: Coder) returns (d: Coder)
    requires Proper(c) && ReadName(u, s).Got?
    ensures var Got(name, rest) := ReadName(u, s);
            Proper(d) && NameOk(u, name) && s == NameBytes(d, name, rest) && Agree(d, c, |rest|)
  {
    hide Proper, ReadU, UBytes;
    d := UForm(s, c);
    var Got(n, t) := ReadU(s, 32);
    assert t == t[..n] + t[n..];
  }

  lemma {:induction false} ValTypesForm(s: Bytes, n: nat, acc: seq<ValType>) returns (ts: seq<ValType>)
    requires ReadValTypes(s, n, acc).Got?
    ensures var Got(all, rest) := ReadValTypes(s, n, acc);
            all == acc + ts && |ts| == n && s == ValTypeBytes(ts, rest) && |rest| <= |s|
    decreases n
  {
    if n == 0 {
      ts := [];
      assert acc + [] == acc;
    } else {
      var Got(t, rest) := ReadValType(s);
      var more := ValTypesForm(rest, n - 1, acc + [t]);
      ts := [t] + more;
      assert ts[1..] == more && acc + [t] + more == acc + ts;
      assert s == [s[0]] + s[1..];
    }
  }

  lemma {:induction false} ValTypesLonger(ts: seq<ValType>, rest: Bytes)
    ensures |ValTypeBytes(ts, rest)| >= |rest|
    decreases |ts|
  {
    if ts != [] { ValTypesLonger(ts[1..], rest); }
  }

  lemma VecAgrees(c: Coder, d: Coder, ts: seq<ValType>, rest: Bytes, m: nat)
    requires Proper(c) && Agree(d, c, m) && |ts| < U32 && |VecBytes(c, ts, rest)| <= m
    ensures VecBytes(d, ts, rest) == VecBytes(c, ts, rest) && |rest| < |VecBytes(c, ts, rest)|
  {
    hide Proper, Agree, UBytes;
    ValTypesLonger(ts, rest);
    CodeNotEmpty(c, |ts|, ValTypeBytes(ts, rest));
    UAgrees(c, d, |ts|, ValTypeBytes(ts, rest), m);
  }

  lemma VecForm(s: Bytes, c: Coder) returns (d: Coder)
    requires Proper(c) && ReadValTypeVec(s).Got?
    ensures var Got(ts, rest) := ReadValTypeVec(s);
            Proper(d) && |ts| < U32 && s == VecBytes(d, ts, rest) && Agree(d, c, |rest|)
  {
    hide Proper, ReadU, UBytes, ReadValTypes;
    d := UForm(s, c);
    var Got(n, t) := ReadU(s, 32);
    var ts := ValTypesForm(t, n, []);
    assert [] + ts == ts;
    AgreeLess(c, d, |t|, |ReadValTypeVec(s).rest|);
  }

  lemma SignatureAgrees(c: Coder, d: Coder, t: Signature, rest: Bytes, m: nat)
    requires Proper(c) && Agree(d, c, m) && |t.arguments| < U32 && |SignatureBytes(c, t, rest)| <= m
    ensures SignatureBytes(d, t, rest) == SignatureBytes(c, t, rest) && |rest| < |SignatureBytes(c, t, rest)|
  {
    hide Proper, Agree, VecBytes;
    var tail := VecBytes(c, ResultTypes(t), rest);
    VecAgrees(c, d, t.arguments, tail, m);
    VecAgrees(c, d, ResultTypes(t), rest, m);
  }

  lemma SignatureForm(s: Bytes, c: Coder) returns (d: Coder)
    requires Proper(c) && ReadSignature(s).Got?
    ensures var Got(t, rest) := ReadSignature(s);
            Proper(d) && |t.arguments| < U32 && s == SignatureBytes(d, t, rest) && Agree(d, c, |rest|)
  {
    hide Proper, Agree, VecBytes, ReadValTypeVec;
    var Got(arguments, t1) := ReadValTypeVec(s[1..]);
    var Got(results, t2) := ReadValTypeVec(t1);
    var d1 := VecForm(t1, c);
    d := VecForm(s[1..], d1);
    VecAgrees(d1, d, results, t2, |t1|);
    AgreeTwice(c, d1, d, |t1|, |t2|);
    assert ResultTypes(ReadSignature(s).value) == results;
    assert s == [s[0]] + s[1..];
  }

  // ----- limits -----

  function Flags(l: Limits): nat { (if l.maximum.Some? then 1 else 0) + (if l.shared then 2 else 0) }

  lemma LimitsAgree(c: Coder, d: Coder, l: Limits, rest: Bytes, m: nat)
    requires Proper(c) && Agree(d, c, m) && LimitsOk(l) && |LimitsBytes(c, l, rest)| <= m
    ensures LimitsBytes(d, l, rest) == LimitsBytes(c, l, rest) && |rest| < |LimitsBytes(c, l, rest)|
  {
    hide Proper, Agree, UBytes;
    var high := if l.maximum.Some? then UBytes(c, l.maximum.value, rest) else rest;
    if l.maximum.Some? { CodeNotEmpty(c, l.maximum.value, rest); }
    CodeNotEmpty(c, l.minimum, high);
    CodeNotEmpty(c, Flags(l), UBytes(c, l.minimum, high));
    UAgrees(c, d, Flags(l), UBytes(c, l.minimum, high), m);
    UAgrees(c, d, l.minimum, high, m);
    if l.maximum.Some? { UAgrees(c, d, l.maximum.value, rest, m); }
  }

  lemma LimitsForm(s: Bytes, c: Coder) returns (d: Coder)
    requires Proper(c) && ReadLimits(s).Got?
    ensures var Got(l, rest) := ReadLimits(s);
            Proper(d) && LimitsOk(l) && s == LimitsBytes(d, l, rest) && Agree(d, c, |rest|)
  {
    hide Proper, Agree, UBytes, ReadU;
    var Got(flags, t) := ReadU(s, 32);
    var Got(minimum, t1) := ReadU(t, 32);
    var rest := ReadLimits(s).rest;
    var l := ReadLimits(s).value;
    assert flags == Flags(l);
    var d1 := c;
    if l.maximum.Some? { d1 := UForm(t1, c); }
    var d2 := UForm(t, d1);
    d := UForm(s, d2);
    if l.maximum.Some? {
      UAgrees(d1, d2, l.maximum.value, rest, |t1|);
      UAgrees(d2, d, l.maximum.value, rest, |t|);
      AgreeTwice(c, d1, d2, |t1|, |rest|);
    }
    UAgrees(d2, d, minimum, t1, |t|);
    AgreeTwice(c, d2, d, |t|, |rest|);
  }

  // ----- imports and exports -----

  lemma ExternAgrees(c: Coder, d: Coder, x: Extern, rest: Bytes, m: nat)
    requires Proper(c) && Agree(d, c, m) && ExternOk(x) && |ExternBytes(c, x, rest)| <= m
    ensures ExternBytes(d, x, rest) == ExternBytes(c, x, rest) && |rest| < |ExternBytes(c, x, rest)|
  {
    hide Proper, Agree, UBytes, LimitsBytes, LimitsOk;
    match x
    case FunctionImport(t) => CodeNotEmpty(c, t, rest); UAgrees(c, d, t, rest, m);
    case TagImport(t) => CodeNotEmpty(c, t, rest); UAgrees(c, d, t, rest, m);
    case TableImport(_, l) => LimitsAgree(c, d, l, rest, m);
    case MemoryImport(l) => LimitsAgree(c, d, l, rest, m);
    case GlobalImport(_, _) =>
  }

  lemma ExternForm(s: Bytes, types: nat, c: Coder) returns (d: Coder)
    requires Proper(c) && ReadExtern(s, types).Got?
    ensures var Got(x, rest) := ReadExtern(s, types);
            Proper(d) && ExternOk(x) && s == ExternBytes(d, x, rest) && Agree(d, c, |rest|)
  {
    hide Proper, UBytes, LimitsBytes, LimitsOk, ReadU, ReadLimits, Agree;
    var t := s[1..];
    assert s == [s[0]] + t;
    if s[0] == 0 {
      d := UForm(t, c);
    } else if s[0] == 2 {
      d := LimitsForm(t, c);
    } else {
      d := LongExternForm(s, types, c);
    }
  }

  /** The descriptions that begin with a second byte. */
  lemma LongExternForm(s: Bytes, types: nat, c: Coder) returns (d: Coder)
    requires Proper(c) && ReadExtern(s, types).Got? && s[0] != 0 && s[0] != 2
    ensures var Got(x, rest) := ReadExtern(s, types);
            Proper(d) && ExternOk(x) && s == ExternBytes(d, x, rest) && Agree(d, c, |rest|)
  {
    var t := s[1..];
    var t1 := t[1..];
    assert s == [s[0], t[0]] + t1;
    if s[0] == 3 {
      assert s == [s[0], t[0], t1[0]] + t1[1..];
      d := c;
    } else if s[0] == 1 {
      hide Proper, UBytes, LimitsBytes, LimitsOk, ReadU, ReadLimits, Agree;
      d := LimitsForm(t1, c);
    } else {
      hide Proper, UBytes, LimitsBytes, LimitsOk, ReadU, ReadLimits, Agree;
      d := UForm(t1, c);
    }
  }

  lemma ImportAgrees(u: Utf8, c: Coder, d: Coder, i: Import, rest: Bytes, m: nat)
    requires Proper(c) && Agree(d, c, m) && ImportOk(u, i) && |ImportBytes(c, i, rest)| <= m
    ensures ImportBytes(d, i, rest) == ImportBytes(c, i, rest) && |rest| < |ImportBytes(c, i, rest)|
  {
    hide Proper, Agree, NameBytes, ExternBytes, ExternOk;
    var t1 := ExternBytes(c, i.desc, rest);
    var t := NameBytes(c, i.name, t1);
    NameAgrees(c, d, i.origin, t, m);
    NameAgrees(c, d, i.name, t1, m);
    ExternAgrees(c, d, i.desc, rest, m);
  }

  lemma ImportForm(u: Utf8, s: Bytes, f: Found, c: Coder) returns (d: Coder, i: Import)
    requires Proper(c) && ReadImport(u, s, f).Got?
    ensures var Got(g, rest) := ReadImport(u, s, f);
            && Proper(d) && ImportOk(u, i) && LearnImport(i, f) == Ok(g)
            && s == ImportBytes(d, i, rest) && Agree(d, c, |rest|)
  {
    hide Proper, Agree, NameBytes, ReadName, ReadExtern, ExternBytes, LearnImport, ExternOk;
    var Got(origin, t) := ReadName(u, s);
    var Got(name, t1) := ReadName(u, t);
    var Got(desc, rest) := ReadExtern(t1, |f.types|);
    i := Import(origin, name, desc);
    var d1 := ExternForm(t1, |f.types|, c);
    var d2 := NameForm(u, t, d1);
    d := NameForm(u, s, d2);
    NameAgrees(d2, d, name, t1, |t|);
    ExternAgrees(d1, d2, desc, rest, |t1|);
    AgreeTwice(c, d1, d2, |t1|, |rest|);
    AgreeTwice(c, d2, d, |t|, |rest|);
    ExternAgrees(d2, d, desc, rest, |t|);
  }

  lemma ExportAgrees(u: Utf8, c: Coder, d: Coder, e: Export, rest: Bytes, m: nat)
    requires Proper(c) && Agree(d, c, m) && ExportOk(u, e) && |ExportBytes(c, e, rest)| <= m
    ensures ExportBytes(d, e, rest) == ExportBytes(c, e, rest) && |rest| < |ExportBytes(c, e, rest)|
  {
    hide Proper, Agree, NameBytes, UBytes;
    var t := UBytes(c, e.index, rest);
    NameAgrees(c, d, e.name, [e.kind] + t, m);
    CodeNotEmpty(c, e.index, rest);
    UAgrees(c, d, e.index, rest, m);
  }

  lemma ExportForm(u: Utf8, s: Bytes, f: Found, c: Coder) returns (d: Coder, e: Export)
    requires Proper(c) && ReadExport(u, s, f).Got?
    ensures var Got(g, rest) := ReadExport(u, s, f);
            && Proper(d) && ExportOk(u, e) && LearnExport(e, f) == Ok(g)
            && s == ExportBytes(d, e, rest) && Agree(d, c, |rest|)
  {
    hide Proper, Agree, NameBytes, ReadName, UBytes, ReadU, LearnExport;
    var Got(name, t) := ReadName(u, s);
    var Got(index, rest) := ReadU(t[1..], 32);
    assert t == [t[0]] + t[1..];
    e := Export(name, t[0], index);
    var d1 := UForm(t[1..], c);
    d := NameForm(u, s, d1);
    UAgrees(d1, d, index, rest, |t|);
    AgreeTwice(c, d1, d, |t|, |rest|);
  }

  // ----- vectors -----

  lemma {:induction false} TypesAgree(c: Coder, d: Coder, ts: seq<Signature>, rest: Bytes, m: nat)
    requires Proper(c) && Agree(d, c, m) && (forall t :: t in ts ==> |t.arguments| < U32) && |TypesBytes(c, ts, rest)| <= m
    ensures TypesBytes(d, ts, rest) == TypesBytes(c, ts, rest)
    decreases |ts|
  {
    hide Proper, Agree, SignatureBytes;
    if ts != [] {
      SignatureAgrees(c, d, ts[0], TypesBytes(c, ts[1..], rest), m);
      TypesAgree(c, d, ts[1..], rest, m);
    }
  }

  /** One more type in front of others already written. */
  lemma TypesStep(c: Coder, d: Coder, t: Signature, more: seq<Signature>, rest: Bytes, end: Bytes)
    requires Proper(c) && Agree(d, c, |rest|) && |t.arguments| < U32 && (forall x :: x in more ==> |x.arguments| < U32)
    requires rest == TypesBytes(c, more, end)
    ensures TypesBytes(d, [t] + more, end) == SignatureBytes(d, t, rest) && forall x :: x in [t] + more ==> |x.arguments| < U32
  {
    hide Proper, Agree, SignatureBytes;
    TypesAgree(c, d, more, end, |rest|);
    assert ([t] + more)[1..] == more;
  }

  lemma {:induction false} TypesForm(s: Bytes, n: nat, f: Found) returns (d: Coder, ts: seq<Signature>)
    requires ReadTypes(s, n, f).Got?
    ensures var Got(g, rest) := ReadTypes(s, n, f);
            && Proper(d) && |ts| == n && (forall t :: t in ts ==> |t.arguments| < U32)
            && g == f.(types := f.types + ts) && s == TypesBytes(d, ts, rest)
    decreases n
  {
    hide Proper, Agree, SignatureBytes, ReadSignature;
    if n == 0 {
      d, ts := Shortest, [];
      ShortestIsProper();
      assert f.types + [] == f.types;
    } else {
      hide TypesBytes;
      var Got(t, rest) := ReadSignature(s);
      var c, more := TypesForm(rest, n - 1, f.(types := f.types + [t]));
      d := SignatureForm(s, c);
      TypesStep(c, d, t, more, rest, ReadTypes(s, n, f).rest);
      ts := [t] + more;
      Joined(f.types, [t], more);
    }
  }

  lemma {:induction false} ImportsAgree(u: Utf8, c: Coder, d: Coder, imps: seq<Import>, rest: Bytes, m: nat)
    requires Proper(c) && Agree(d, c, m) && (forall i :: i in imps ==> ImportOk(u, i)) && |ImportsBytes(c, imps, rest)| <= m
    ensures ImportsBytes(d, imps, rest) == ImportsBytes(c, imps, rest)
    decreases |imps|
  {
    hide Proper, Agree, ImportBytes, ImportOk;
    if imps != [] {
      ImportAgrees(u, c, d, imps[0], ImportsBytes(c, imps[1..], rest), m);
      ImportsAgree(u, c, d, imps[1..], rest, m);
    }
  }

  /** One more import in front of others already written. */
  lemma ImportsStep(u: Utf8, c: Coder, d: Coder, i: Import, more: seq<Import>, rest: Bytes, end: Bytes)
    requires Proper(c) && Agree(d, c, |rest|) && ImportOk(u, i) && (forall x :: x in more ==> ImportOk(u, x))
    requires rest == ImportsBytes(c, more, end)
    ensures ImportsBytes(d, [i] + more, end) == ImportBytes(d, i, rest) && forall x :: x in [i] + more ==> ImportOk(u, x)
  {
    hide Proper, Agree, ImportBytes, ImportOk;
    ImportsAgree(u, c, d, more, end, |rest|);
    assert ([i] + more)[1..] == more;
  }

  lemma {:induction false} ImportsForm(u: Utf8, s: Bytes, n: nat, f: Found) returns (d: Coder, imps: seq<Import>)
    requires ReadImports(u, s, n, f).Got?
    ensures var Got(g, rest) := ReadImports(u, s, n, f);
            && Proper(d) && |imps| == n && (forall i :: i in imps ==> ImportOk(u, i))
            && LearnImports(imps, f) == Ok(g) && s == ImportsBytes(d, imps, rest)
    decreases n
  {
    hide Proper, Agree, ImportBytes, ReadImport, ImportOk, LearnImport;
    if n == 0 {
      d, imps := Shortest, [];
      ShortestIsProper();
    } else {
      hide ImportsBytes;
      var Got(g, rest) := ReadImport(u, s, f);
      var c, more := ImportsForm(u, rest, n - 1, g);
      var i;
      d, i := ImportForm(u, s, f, c);
      ImportsStep(u, c, d, i, more, rest, ReadImports(u, s, n, f).rest);
      imps := [i] + more;
      assert imps[1..] == more;
    }
  }

  lemma {:induction false} FunctionsAgree(c: Coder, d: Coder, fs: seq<nat>, rest: Bytes, m: nat)
    requires Proper(c) && Agree(d, c, m) && (forall i :: i in fs ==> i < U32) && |FunctionsBytes(c, fs, rest)| <= m
    ensures FunctionsBytes(d, fs, rest) == FunctionsBytes(c, fs, rest)
    decreases |fs|
  {
    hide Proper, Agree, UBytes;
    if fs != [] {
      assert fs[0] in fs && forall i :: i in fs[1..] ==> i in fs;
      CodeNotEmpty(c, fs[0], FunctionsBytes(c, fs[1..], rest));
      UAgrees(c, d, fs[0], FunctionsBytes(c, fs[1..], rest), m);
      FunctionsAgree(c, d, fs[1..], rest, m);
    }
  }

  /** One more function in front of others already written. */
  lemma FunctionsStep(c: Coder, d: Coder, i: nat, more: seq<nat>, rest: Bytes, end: Bytes)
    requires Proper(c) && Agree(d, c, |rest|) && i < U32 && (forall x :: x in more ==> x < U32)
    requires rest == FunctionsBytes(c, more, end)
    ensures FunctionsBytes(d, [i] + more, end) == UBytes(d, i, rest) && forall x :: x in [i] + more ==> x < U32
  {
    hide Proper, Agree, UBytes;
    FunctionsAgree(c, d, more, end, |rest|);
    assert ([i] + more)[1..] == more;
  }

  lemma {:induction false} FunctionsForm(s: Bytes, n: nat, f: Found) returns (d: Coder, fs: seq<nat>)
    requires ReadFunctions(s, n, f).Got?
    ensures var Got(g, rest) := ReadFunctions(s, n, f);
            && Proper(d) && |fs| == n && (forall i :: i in fs ==> i < U32)
            && g == f.(functions := f.functions + fs) && s == FunctionsBytes(d, fs, rest)
    decreases n
  {
    hide Proper, Agree, UBytes, ReadU;
    if n == 0 {
      d, fs := Shortest, [];
      ShortestIsProper();
      assert f.functions + [] == f.functions;
    } else {
      hide FunctionsBytes;
      var Got(i, rest) := ReadU(s, 32);
      var c, more := FunctionsForm(rest, n - 1, f.(functions := f.functions + [i]));
      d := UForm(s, c);
      FunctionsStep(c, d, i, more, rest, ReadFunctions(s, n, f).rest);
      fs := [i] + more;
      Joined(f.functions, [i], more);
    }
  }

  lemma {:induction false} MemoriesAgree(c: Coder, d: Coder, ms: seq<Limits>, rest: Bytes, m: nat)
    requires Proper(c) && Agree(d, c, m) && (forall l :: l in ms ==> LimitsOk(l)) && |MemoriesBytes(c, ms, rest)| <= m
    ensures MemoriesBytes(d, ms, rest) == MemoriesBytes(c, ms, rest)
    decreases |ms|
  {
    hide Proper, Agree, LimitsBytes, LimitsOk;
    if ms != [] {
      LimitsAgree(c, d, ms[0], MemoriesBytes(c, ms[1..], rest), m);
      MemoriesAgree(c, d, ms[1..], rest, m);
    }
  }

  /** One more memory in front of others already written. */
  lemma MemoriesStep(c: Coder, d: Coder, l: Limits, more: seq<Limits>, rest: Bytes, end: Bytes)
    requires Proper(c) && Agree(d, c, |rest|) && LimitsOk(l) && (forall x :: x in more ==> LimitsOk(x))
    requires rest == MemoriesBytes(c, more, end)
    ensures MemoriesBytes(d, [l] + more, end) == LimitsBytes(d, l, rest) && forall x :: x in [l] + more ==> LimitsOk(x)
  {
    hide Proper, Agree, LimitsBytes, LimitsOk;
    MemoriesAgree(c, d, more, end, |rest|);
    assert ([l] + more)[1..] == more;
  }

  lemma {:induction false} MemoriesForm(s: Bytes, n: nat, f: Found) returns (d: Coder, ms: seq<Limits>)
    requires ReadMemories(s, n, f).Got?
    ensures var Got(g, rest) := ReadMemories(s, n, f);
            && Proper(d) && |ms| == n && (forall l :: l in ms ==> LimitsOk(l))
            && g == f.(memories := f.memories + Defined(ms)) && s == MemoriesBytes(d, ms, rest)
    decreases n
  {
    hide Proper, Agree, LimitsBytes, ReadLimits, LimitsOk;
    if n == 0 {
      d, ms := Shortest, [];
      ShortestIsProper();
      assert f.memories + Defined([]) == f.memories;
    } else {
      hide MemoriesBytes;
      var Got(l, rest) := ReadLimits(s);
      var report := MemoryReport(false, l, []);
      var c, more := MemoriesForm(rest, n - 1, f.(memories := f.memories + [report]));
      d := LimitsForm(s, c);
      MemoriesStep(c, d, l, more, rest, ReadMemories(s, n, f).rest);
      ms := [l] + more;
      assert Defined(ms) == [report] + Defined(more);
      Joined(f.memories, [report], Defined(more));
    }
  }

  lemma {:induction false} ExportsAgree(u: Utf8, c: Coder, d: Coder, es: seq<Export>, rest: Bytes, m: nat)
    requires Proper(c) && Agree(d, c, m) && (forall e :: e in es ==> ExportOk(u, e)) && |ExportsBytes(c, es, rest)| <= m
    ensures ExportsBytes(d, es, rest) == ExportsBytes(c, es, rest)
    decreases |es|
  {
    hide Proper, Agree, ExportBytes, ExportOk;
    if es != [] {
      ExportAgrees(u, c, d, es[0], ExportsBytes(c, es[1..], rest), m);
      ExportsAgree(u, c, d, es[1..], rest, m);
    }
  }

  /** One more export in front of others already written. */
  lemma ExportsStep(u: Utf8, c: Coder, d: Coder, e: Export, more: seq<Export>, rest: Bytes, end: Bytes)
    requires Proper(c) && Agree(d, c, |rest|) && ExportOk(u, e) && (forall x :: x in more ==> ExportOk(u, x))
    requires rest == ExportsBytes(c, more, end)
    ensures ExportsBytes(d, [e] + more, end) == ExportBytes(d, e, rest) && forall x :: x in [e] + more ==> ExportOk(u, x)
  {
    hide Proper, Agree, ExportBytes, ExportOk;
    ExportsAgree(u, c, d, more, end, |rest|);
    assert ([e] + more)[1..] == more;
  }

  lemma {:induction false} ExportsForm(u: Utf8, s: Bytes, n: nat, f: Found) returns (d: Coder, es: seq<Export>)
    requires ReadExports(u, s, n, f).Got?
    ensures var Got(g, rest) := ReadExports(u, s, n, f);
            && Proper(d) && |es| == n && (forall e :: e in es ==> ExportOk(u, e))
            && LearnExports(es, f) == Ok(g) && s == ExportsBytes(d, es, rest)
    decreases n
  {
    hide Proper, Agree, ExportBytes, ReadExport, ExportOk, LearnExport;
    if n == 0 {
      d, es := Shortest, [];
      ShortestIsProper();
    } else {
      hide ExportsBytes;
      var Got(g, rest) := ReadExport(u, s, f);
      var c, more := ExportsForm(u, rest, n - 1, g);
      var e;
      d, e := ExportForm(u, s, f, c);
      ExportsStep(u, c, d, e, more, rest, ReadExports(u, s, n, f).rest);
      es := [e] + more;
      assert es[1..] == more;
    }
  }

  // ----- sections -----

  /** A coding that writes the insides of every section with one coder. */
  function Inside(c: Coder): Coding { Coding(Shortest, (id: byte) => c) }

  /** The bytes after the count of a vector section are its items; the count goes in front of them. */
  lemma Counted(s: Bytes, c: Coder, body: Bytes) returns (d: Coder)
    requires Proper(c) && ReadU(s, 32).Got? && body == ReadU(s, 32).rest
    ensures var n := ReadU(s, 32).value; n < U32 && Proper(d) && s == UBytes(d, n, body) && Agree(d, c, |body|)
  {
    d := UForm(s, c);
  }

  /** What the payload of a section is a form of. */
  lemma BodyForm(u: Utf8, id: byte, s: Bytes, f: Found) returns (c: Coder, x: Section)
    requires ReadBody(u, id, s, f).Got? && ReadBody(u, id, s, f).rest == [] && |s| < U32
    ensures Proper(c) && SectionId(x) == id && Payload(Inside(c), x) == s
    ensures SectionOk(u, Inside(c), x) && Learn(x, f) == Ok(ReadBody(u, id, s, f).value)
  {
    hide Proper, Agree, UBytes, ReadU, ReadTypes, ReadImports, ReadFunctions, ReadMemories, ReadExports;
    hide TypesBytes, ImportsBytes, FunctionsBytes, MemoriesBytes, ExportsBytes, ImportOk, ExportOk, LimitsOk, LearnImports, LearnExports;
    if !Inspected(id) {
      c, x := Shortest, OtherSection(id, s);
      ShortestIsProper();
      return;
    }
    var Got(n, t) := ReadU(s, 32);
    if id == 1 {
      var d, ts := TypesForm(t, n, f);
      c := Counted(s, d, t);
      TypesAgree(d, c, ts, [], |t|);
      x := TypeSection(ts);
    } else if id == 2 {
      var d, imps := ImportsForm(u, t, n, f);
      c := Counted(s, d, t);
      ImportsAgree(u, d, c, imps, [], |t|);
      x := ImportSection(imps);
    } else if id == 3 {
      var d, fs := FunctionsForm(t, n, f);
      c := Counted(s, d, t);
      FunctionsAgree(d, c, fs, [], |t|);
      x := FunctionSection(fs);
    } else if id == 5 {
      var d, ms := MemoriesForm(t, n, f);
      c := Counted(s, d, t);
      MemoriesAgree(d, c, ms, [], |t|);
      x := MemorySection(ms);
    } else if id == 7 {
      var d, es := ExportsForm(u, t, n, f);
      c := Counted(s, d, t);
      ExportsAgree(u, d, c, es, [], |t|);
      x := ExportSection(es);
    } else {
      ShortestIsProper();
      c := Counted(s, Shortest, t);
      x := StartSection(n);
    }
  }

  /** A section and the forms its integers have. */
  datatype Part = Part(coding: Coding, section: Section)

  ghost predicate PartOk(u: Utf8, p: Part) { ProperCoding(p.coding) && SectionOk(u, p.coding, p.section) }

  lemma SectionForm(u: Utf8, s: Bytes, f: Found) returns (p: Part)
    requires ReadSection(u, s, f).Got?
    ensures var Got(g, rest) := ReadSection(u, s, f);
            PartOk(u, p) && Learn(p.section, f) == Ok(g) && s == SectionBytes(p.coding, p.section, rest)
  {
    var t := s[1..];
    var Got(size, t1) := ReadU(t, 32);
    hide ReadU, ReadBody, Proper, UBytes, Learn, Agree;
    ShortestIsProper();
    var sizes := UForm(t, Shortest);
    var c, x := BodyForm(u, s[0], t1[..size], f);
    hide Payload;
    p := Part(Coding(sizes, Inside(c).insides), x);
    assert Payload(p.coding, x) == t1[..size] by { SameInsides(p.coding, Inside(c), x); }
    assert t1 == t1[..size] + t1[size..] && s == [s[0]] + t;
    assert SectionOk(u, p.coding, x);
  }

  lemma SameInsides(k: Coding, l: Coding, x: Section)
    requires k.insides == l.insides
    ensures Payload(k, x) == Payload(l, x)
  {
  }

  function PartsBytes(ps: seq<Part>): Bytes {
    if ps == [] then [] else SectionBytes(ps[0].coding, ps[0].section, PartsBytes(ps[1..]))
  }

  function SectionsOf(ps: seq<Part>): seq<Section> { seq(|ps|, i requires 0 <= i < |ps| => ps[i].section) }

  ghost predicate PartsOk(u: Utf8, ps: seq<Part>) { forall i :: 0 <= i < |ps| ==> PartOk(u, ps[i]) }

  lemma {:induction false} PartsForm(u: Utf8, s: Bytes, f: Found) returns (ps: seq<Part>)
    requires ReadSections(u, s, f).Ok?
    ensures PartsOk(u, ps) && s == PartsBytes(ps) && LearnAll(SectionsOf(ps), f) == ReadSections(u, s, f)
    decreases |s|
  {
    hide ReadSection, SectionBytes, Learn, PartOk;
    if s == [] {
      ps := [];
    } else {
      var p := SectionForm(u, s, f);
      var Got(g, rest) := ReadSection(u, s, f);
      var more := PartsForm(u, rest, g);
      ps := [p] + more;
      assert ps[1..] == more && SectionsOf(ps) == [p.section] + SectionsOf(more) && SectionsOf(ps)[1..] == SectionsOf(more);
    }
  }

  lemma {:induction false} PartsRead(u: Utf8, ps: seq<Part>, f: Found)
    requires PartsOk(u, ps)
    ensures ReadSections(u, PartsBytes(ps), f) == LearnAll(SectionsOf(ps), f)
    decreases |ps|
  {
    hide ReadSection, SectionBytes, Learn, SectionOk, ProperCoding;
    if ps != [] {
      var p, rest := ps[0], PartsBytes(ps[1..]);
      SectionReads(u, p.coding, p.section, f, rest);
      SectionNotEmpty(p.coding, p.section, rest);
      assert SectionsOf(ps)[0] == p.section && SectionsOf(ps)[1..] == SectionsOf(ps[1..]);
      var g := Learn(p.section, f);
      if g.Ok? { PartsRead(u, ps[1..], g.value); }
    }
  }

  /** The bytes are a binary form of sections that tell what `r` reports. */
  ghost predicate Tells(u: Utf8, bytes: Bytes, ps: seq<Part>, r: Inspection) {
    && PartsOk(u, ps) && bytes == HEADER + PartsBytes(ps)
    && var found := LearnAll(SectionsOf(ps), NOTHING); found.Ok? && Conclude(found.value) == Ok(r)
  }

  /** Bytes are accepted exactly when they are a binary form of sections that can be concluded from. */
  lemma AcceptedIffForm(u: Utf8, bytes: Bytes, r: Inspection)
    ensures Inspect(u, bytes) == Ok(r) <==> exists ps :: Tells(u, bytes, ps, r)
  {
    hide ReadSections, LearnAll, Conclude, PartsOk, PartsBytes, SectionsOf;
    if Inspect(u, bytes) == Ok(r) {
      var ps := PartsForm(u, bytes[8..], NOTHING);
      assert bytes == HEADER + bytes[8..];
      assert Tells(u, bytes, ps, r);
    }
    if ps :| Tells(u, bytes, ps, r) {
      PartsRead(u, ps, NOTHING);
      assert bytes[8..] == PartsBytes(ps);
    }
  }

  /** Accepted bytes whose sections stand in the order of the standard are a valid module, and it is reported. */
  lemma AcceptedIsValid(u: Utf8, bytes: Bytes, ps: seq<Part>, r: Inspection)
    requires Tells(u, bytes, ps, r) && WasmModules.Ordered(SectionsOf(ps))
    ensures WasmModules.Valid(SectionsOf(ps)) && r == WasmModules.Described(SectionsOf(ps))
  {
    var ms := SectionsOf(ps);
    assert LearnAll(ms, NOTHING).Ok? && Conclude(LearnAll(ms, NOTHING).value) == Ok(r);
    hide *;
    WasmModules.LearnedFits(ms, NOTHING);
    WasmModules.Learned(ms, NOTHING);
    WasmModules.ConcludedIsValid(ms);
    WasmModules.Concluded(ms);
  }
}
