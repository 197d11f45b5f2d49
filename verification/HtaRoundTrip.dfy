/**
 What an HTA0 encoding says is what the decoder reads back: encodings delimit themselves, are
 injective, and survive decoding exactly when the decoder's depth limit allows them.
 */
module HtaRoundTrip {
  import opened ByteStrings
  import opened Sequences
  import opened Words
  import opened Ordering
  import opened HtaValues
  import Decimal

  ghost function ReadBack(u: Utf8, bounded: bool, v: Value, depth: nat, suffix: Bytes): Read<Value> {
    ReadValue(u, bounded, Encoding(v) + suffix, depth)
  }

  /** Followed by anything, the encoding of `v` reads as `v` and leaves exactly what follows. */
  ghost predicate SelfDelimiting(u: Utf8, bounded: bool, v: Value, depth: nat) {
    forall suffix :: ReadBack(u, bounded, v, depth, suffix) == Got(v, suffix)
  }

  // ----- leaves -----

  lemma TakePrefix(a: Bytes, b: Bytes)
    ensures Take(a + b, |a|) == Got(a, b)
  {
    assert (a + b)[..|a|] == a && (a + b)[|a|..] == b;
  }

  lemma NumberReads(n: nat, width: nat, suffix: Bytes)
    requires n < Power256(width)
    ensures ReadNumber(BigEndian(n, width) + suffix, width) == Got(n, suffix)
  {
    TakePrefix(BigEndian(n, width), suffix);
    BigEndianRoundTrip(n, width);
  }

  lemma LengthReads(n: nat, suffix: Bytes)
    requires n < U32
    ensures ReadNumber(BigEndian(n, 4) + suffix, 4) == Got(n, suffix)
  {
    FixedWidths();
    NumberReads(n, 4, suffix);
  }

  lemma DataReads(d: Bytes, suffix: Bytes)
    requires |d| < U32
    ensures ReadData(Data(d) + suffix) == Got(d, suffix)
  {
    LengthReads(|d|, d + suffix);
    assert Data(d) + suffix == BigEndian(|d|, 4) + (d + suffix);
    TakePrefix(d, suffix);
  }

  lemma {:induction false} PlainDigitsOf(ds: seq<int>)
    requires forall d :: d in ds ==> Decimal.Digit(d)
    ensures PlainDigits(AsciiDigits(ds)) == ds
    decreases |ds|
  {
    if ds != [] {
      assert ds[0] in ds;
      assert forall d :: d in ds[1..] ==> d in ds;
      PlainDigitsOf(ds[1..]);
      assert ds == [ds[0]] + ds[1..];
    }
  }

  lemma {:induction false} AsciiRange(ds: seq<int>)
    requires forall d :: d in ds ==> Decimal.Digit(d)
    ensures |AsciiDigits(ds)| == |ds| && forall c :: c in AsciiDigits(ds) ==> 48 <= c <= 57
    decreases |ds|
  {
    if ds != [] {
      assert ds[0] in ds;
      assert forall d :: d in ds[1..] ==> d in ds;
      AsciiRange(ds[1..]);
    }
  }

  lemma DecimalReads(n: int)
    ensures ParseInteger(DecimalText(n)) == Got(n, [])
  {
    var m: nat := if n < 0 then -n else n;
    var ds := Decimal.Digits(m);
    var t := AsciiDigits(ds);
    AsciiRange(ds);
    assert t[0] in t;
    assert DecimalText(n) == if n < 0 then [45] + t else t;
    PlainDigitsOf(ds);
    Decimal.DigitsRoundTrip(m);
    hide Decimal.Digits, Decimal.FromDigits, AsciiDigits, PlainDigits, DecimalText;
    DigitsParse(t);
  }

  /** Digits, with or without a minus sign, are taken as they stand. */
  lemma DigitsParse(t: Bytes)
    requires t != [] && forall c :: c in t ==> 48 <= c <= 57
    ensures ParseInteger(t) == Got(Decimal.FromDigits(PlainDigits(t)), [])
    ensures ParseInteger([45] + t) == Got(-Decimal.FromDigits(PlainDigits(t)), [])
  {
    hide Decimal.FromDigits, PlainDigits;
    assert t[0] in t;
    assert ([45] + t)[1..] == t && ([45] + t)[1] == t[0];
  }

  // ----- sequences -----

  lemma {:induction false} FlattenLength(ss: seq<Bytes>, least: nat)
    requires forall i :: 0 <= i < |ss| ==> |ss[i]| >= least
    ensures |Flatten(ss)| >= least * |ss|
    decreases |ss|
  {
    if ss != [] {
      FlattenLength(ss[1..], least);
      assert least * |ss| == least + least * |ss[1..]|;
    }
  }

  ghost function Each(items: seq<Value>): seq<Bytes> {
    seq(|items|, i requires 0 <= i < |items| => Encoding(items[i]))
  }

  ghost function EachPair(entries: seq<(Value, Value)>): seq<Bytes> {
    seq(|entries|, i requires 0 <= i < |entries| => Encoding(entries[i].0) + Encoding(entries[i].1))
  }

  lemma {:induction false} ValuesRead(u: Utf8, bounded: bool, items: seq<Value>, depth: nat, suffix: Bytes)
    requires forall x :: x in items ==> SelfDelimiting(u, bounded, x, depth)
    ensures ReadValues(u, bounded, Flatten(Each(items)) + suffix, |items|, depth) == Got(items, suffix)
    decreases |items|
  {
    hide ReadValue, Encoding;
    if items == [] {
      assert Flatten(Each(items)) + suffix == suffix;
    } else {
      var x, more := items[0], items[1..];
      assert x in items;
      assert Each(items)[1..] == Each(more);
      var tail := Flatten(Each(more)) + suffix;
      assert Flatten(Each(items)) + suffix == Encoding(x) + tail;
      assert ReadBack(u, bounded, x, depth, tail) == Got(x, tail);
      assert forall y :: y in more ==> y in items;
      ValuesRead(u, bounded, more, depth, suffix);
      assert items == [x] + more;
    }
  }

  lemma {:induction false} PairsRead(u: Utf8, bounded: bool, named: bool, entries: seq<(Value, Value)>, depth: nat, suffix: Bytes)
    requires forall e :: e in entries ==> SelfDelimiting(u, bounded, e.0, depth) && SelfDelimiting(u, bounded, e.1, depth)
    requires named ==> forall e :: e in entries ==> IsString(e.0)
    ensures ReadPairs(u, bounded, named, Flatten(EachPair(entries)) + suffix, |entries|, depth) == Got(entries, suffix)
    decreases |entries|
  {
    hide ReadValue, Encoding;
    if entries == [] {
      assert Flatten(EachPair(entries)) + suffix == suffix;
    } else {
      var e, more := entries[0], entries[1..];
      assert e in entries;
      assert EachPair(entries)[1..] == EachPair(more);
      var tail := Flatten(EachPair(more)) + suffix;
      var tail1 := Encoding(e.1) + tail;
      assert Flatten(EachPair(entries)) + suffix == Encoding(e.0) + tail1;
      assert ReadBack(u, bounded, e.0, depth, tail1) == Got(e.0, tail1);
      assert ReadBack(u, bounded, e.1, depth, tail) == Got(e.1, tail);
      assert forall y :: y in more ==> y in entries;
      PairsRead(u, bounded, named, more, depth, suffix);
      assert entries == [e] + more;
    }
  }

  /** A counted sequence of encodings reads back; its length is never taken for impossible. */
  lemma SequenceReads(u: Utf8, bounded: bool, items: seq<Value>, depth: nat, suffix: Bytes)
    requires |items| < U32 && forall x :: x in items ==> SelfDelimiting(u, bounded, x, depth + 1)
    ensures ReadSequence(u, bounded, BigEndian(|items|, 4) + Flatten(Each(items)) + suffix, depth) == Got(items, suffix)
  {
    var body := Flatten(Each(items)) + suffix;
    assert BigEndian(|items|, 4) + Flatten(Each(items)) + suffix == BigEndian(|items|, 4) + body;
    LengthReads(|items|, body);
    FlattenLength(Each(items), 1);
    ValuesRead(u, bounded, items, depth + 1, suffix);
  }

  lemma EntriesRead(u: Utf8, bounded: bool, named: bool, entries: seq<(Value, Value)>, depth: nat, suffix: Bytes)
    requires |entries| < U32
    requires forall e :: e in entries ==> SelfDelimiting(u, bounded, e.0, depth + 1) && SelfDelimiting(u, bounded, e.1, depth + 1)
    requires named ==> forall e :: e in entries ==> IsString(e.0)
    ensures ReadEntries(u, bounded, named, BigEndian(|entries|, 4) + Flatten(EachPair(entries)) + suffix, depth) == Got(entries, suffix)
  {
    var body := Flatten(EachPair(entries)) + suffix;
    assert BigEndian(|entries|, 4) + Flatten(EachPair(entries)) + suffix == BigEndian(|entries|, 4) + body;
    LengthReads(|entries|, body);
    FlattenLength(EachPair(entries), 2);
    PairsRead(u, bounded, named, entries, depth + 1, suffix);
  }

  // ----- sets and maps -----

  ghost predicate Injective(vs: set<Value>) {
    forall x, y :: x in vs && y in vs && Encoding(x) == Encoding(y) ==> x == y
  }

  /** Values that read back have different encodings when they differ. */
  lemma ReadableInjective(u: Utf8, bounded: bool, vs: set<Value>, depth: nat)
    requires forall x :: x in vs ==> SelfDelimiting(u, bounded, x, depth)
    ensures Injective(vs)
  {
    forall x, y | x in vs && y in vs && Encoding(x) == Encoding(y) ensures x == y {
      assert ReadBack(u, bounded, x, depth, []) == Got(x, []);
      assert ReadBack(u, bounded, y, depth, []) == Got(y, []);
    }
  }

  lemma {:induction false} DistinctCount<T>(s: seq<T>, es: set<T>)
    requires forall i, j :: 0 <= i < j < |s| ==> s[i] != s[j]
    requires forall x :: x in s <==> x in es
    ensures |s| == |es|
    decreases |s|
  {
    if s != [] {
      var x := s[0];
      forall y ensures y in s[1..] <==> y in es - {x} {
        assert y in s <==> y == x || y in s[1..];
      }
      DistinctCount(s[1..], es - {x});
    }
  }

  ghost predicate Writes(t: (Key, Bytes), x: Value) { t.0 == Encoding(x) && t.1 == Encoding(x) }

  ghost predicate WritesPair(t: (Key, Bytes), e: (Value, Value)) {
    t.0 == Encoding(e.0) && t.1 == Encoding(e.0) + Encoding(e.1)
  }

  lemma {:induction false} SetOrigins(t: seq<(Key, Bytes)>, elems: set<Value>) returns (xs: seq<Value>)
    requires forall e :: e in t ==> exists x :: x in elems && Writes(e, x)
    ensures |xs| == |t| && forall i :: 0 <= i < |t| ==> xs[i] in elems && Writes(t[i], xs[i])
    decreases |t|
  {
    hide Writes;
    if t == [] {
      xs := [];
    } else {
      assert t[0] in t;
      var x :| x in elems && Writes(t[0], x);
      assert forall e :: e in t[1..] ==> e in t;
      var more := SetOrigins(t[1..], elems);
      xs := [x] + more;
    }
  }

  lemma {:induction false} MapOrigins(t: seq<(Key, Bytes)>, m: map<Value, Value>) returns (es: seq<(Value, Value)>)
    requires forall c :: c in t ==> exists k :: k in m && WritesPair(c, (k, m[k]))
    ensures |es| == |t|
    ensures forall i :: 0 <= i < |t| ==> es[i].0 in m && es[i].1 == m[es[i].0] && WritesPair(t[i], es[i])
    decreases |t|
  {
    hide WritesPair;
    if t == [] {
      es := [];
    } else {
      assert t[0] in t;
      var k :| k in m && WritesPair(t[0], (k, m[k]));
      assert forall c :: c in t[1..] ==> c in t;
      var more := MapOrigins(t[1..], m);
      es := [(k, m[k])] + more;
    }
  }

  /** In dictionary order of their encodings. */
  ghost predicate InWireOrder(xs: seq<Value>) {
    forall i, j :: 0 <= i < j < |xs| ==> Precedes(Encoding(xs[i]), Encoding(xs[j]))
  }

  /** The members of a set in the order they are written. */
  lemma SetOrder(elems: set<Value>) returns (xs: seq<Value>)
    requires Injective(elems)
    ensures (set x | x in xs) == elems && |xs| == |elems|
    ensures Sorted(SetCells(Set(elems))) == Flatten(Each(xs))
    ensures InWireOrder(xs)
  {
    hide Encoding, Arrange, Flatten, Less, Precedes;
    var t := Arrange(SetCells(Set(elems)));
    ArrangeEntries(SetCells(Set(elems)));
    ArrangeAscends(SetCells(Set(elems)));
    forall e | e in t ensures exists x :: x in elems && Writes(e, x) {
      assert e in Ordering.Entries(t);
    }
    xs := SetOrigins(t, elems);
    assert Payloads(t) == Each(xs);
    OrderCoversSet(t, elems, xs);
    AscendingMeans(t);
    forall i, j | 0 <= i < j < |xs| ensures Precedes(Encoding(xs[i]), Encoding(xs[j])) { assert Precedes(t[i].0, t[j].0); }
    AscendingDistinct(t, xs);
    DistinctCount(xs, elems);
  }

  lemma OrderCoversSet(t: seq<(Key, Bytes)>, elems: set<Value>, xs: seq<Value>)
    requires Injective(elems) && Ordering.Entries(t) == SetCells(Set(elems))
    requires |xs| == |t| && forall i :: 0 <= i < |t| ==> xs[i] in elems && Writes(t[i], xs[i])
    ensures forall x :: x in xs <==> x in elems
  {
    forall x | x in elems ensures x in xs {
      assert (Encoding(x), Encoding(x)) in Ordering.Entries(t);
      var i :| 0 <= i < |t| && t[i] == (Encoding(x), Encoding(x));
      assert xs[i] == x;
    }
  }

  lemma AscendingDistinct(t: seq<(Key, Bytes)>, xs: seq<Value>)
    requires Ascending(t) && |xs| == |t| && forall i :: 0 <= i < |t| ==> t[i].0 == Encoding(xs[i])
    ensures Distinct(xs)
  {
    forall i, j | 0 <= i < j < |xs| ensures xs[i] != xs[j] {
      assert Less(t[i].0, t[j].0);
      LessIrreflexive(t[i].0);
    }
  }

  ghost function Firsts(es: seq<(Value, Value)>): seq<Value> {
    seq(|es|, i requires 0 <= i < |es| => es[i].0)
  }

  lemma MapCellsDistinct(m: map<Value, Value>)
    requires Injective(m.Keys)
    ensures DistinctKeys(MapCells(Map(m)))
  {
    hide Encoding;
  }

  lemma MapCellWritten(m: map<Value, Value>, c: (Key, Bytes))
    requires c in MapCells(Map(m))
    ensures exists k :: k in m && WritesPair(c, (k, m[k]))
  {
    hide Encoding;
    var k :| k in m && c == (Encoding(k), Encoding(k) + Encoding(m[k]));
    assert WritesPair(c, (k, m[k]));
  }

  lemma PairPayloads(t: seq<(Key, Bytes)>, es: seq<(Value, Value)>)
    requires Ascending(t) && |es| == |t| && forall i :: 0 <= i < |t| ==> WritesPair(t[i], es[i])
    ensures Payloads(t) == EachPair(es)
    ensures DistinctFirsts(es) && Distinct(Firsts(es))
  {
    hide Encoding, Less;
    AscendingDistinct(t, Firsts(es));
    forall i, j | 0 <= i < j < |es| ensures es[i].0 != es[j].0 {
      assert Firsts(es)[i] != Firsts(es)[j];
    }
  }

  /** The entries of a map in the order they are written. */
  lemma MapOrder(m: map<Value, Value>) returns (es: seq<(Value, Value)>)
    requires Injective(m.Keys)
    ensures |es| == |m| && DistinctFirsts(es)
    ensures forall e :: e in es ==> e.0 in m && m[e.0] == e.1
    ensures forall k :: k in m ==> (k, m[k]) in es
    ensures Sorted(MapCells(Map(m))) == Flatten(EachPair(es))
    ensures InWireOrder(Firsts(es))
  {
    hide Encoding, Arrange, Flatten, Less, MapCells, WritesPair, Payloads, EachPair, InWireOrder;
    var t := Arrange(MapCells(Map(m)));
    ArrangeEntries(MapCells(Map(m)));
    MapCellsDistinct(m);
    ArrangeAscends(MapCells(Map(m)));
    forall c | c in t ensures exists k :: k in m && WritesPair(c, (k, m[k])) {
      assert c in Ordering.Entries(t);
      MapCellWritten(m, c);
    }
    es := MapOrigins(t, m);
    PairPayloads(t, es);
    PairsInOrder(t, es);
    OrderCoversMap(t, m, es);
    DistinctCount(Firsts(es), m.Keys);
  }

  lemma PairsInOrder(t: seq<(Key, Bytes)>, es: seq<(Value, Value)>)
    requires Ascending(t) && |es| == |t| && forall i :: 0 <= i < |t| ==> WritesPair(t[i], es[i])
    ensures InWireOrder(Firsts(es))
  {
    hide Encoding, Less, Precedes;
    AscendingMeans(t);
    var xs := Firsts(es);
    forall i, j | 0 <= i < j < |xs| ensures Precedes(Encoding(xs[i]), Encoding(xs[j])) { assert Precedes(t[i].0, t[j].0); }
  }

  lemma OrderCoversMap(t: seq<(Key, Bytes)>, m: map<Value, Value>, es: seq<(Value, Value)>)
    requires Injective(m.Keys) && Ordering.Entries(t) == MapCells(Map(m))
    requires |es| == |t|
    requires forall i :: 0 <= i < |t| ==> es[i].0 in m && es[i].1 == m[es[i].0] && WritesPair(t[i], es[i])
    ensures forall k :: k in m ==> (k, m[k]) in es
    ensures forall k :: k in Firsts(es) <==> k in m.Keys
  {
    forall k | k in m ensures (k, m[k]) in es && k in Firsts(es) {
      var cell := (Encoding(k), Encoding(k) + Encoding(m[k]));
      assert cell in MapCells(Map(m));
      assert cell in Ordering.Entries(t);
      var i :| 0 <= i < |t| && t[i] == cell;
      assert Encoding(es[i].0) == Encoding(k);
      assert es[i] == (k, m[k]);
      assert Firsts(es)[i] == k;
    }
  }

  lemma {:induction false} MapOfAt(es: seq<(Value, Value)>, i: nat)
    requires DistinctFirsts(es) && i < |es|
    ensures es[i].0 in MapOf(es) && MapOf(es)[es[i].0] == es[i].1
    decreases |es|
  {
    if i < |es| - 1 { MapOfAt(es[..|es| - 1], i); }
  }

  lemma {:induction false} MapOfKeys(es: seq<(Value, Value)>, k: Value)
    requires k in MapOf(es)
    ensures exists i :: 0 <= i < |es| && es[i].0 == k
    decreases |es|
  {
    var front := es[..|es| - 1];
    if es[|es| - 1].0 != k {
      MapOfKeys(front, k);
      var i :| 0 <= i < |front| && front[i].0 == k;
      assert es[i].0 == k;
    }
  }

  lemma MapRebuilt(m: map<Value, Value>, es: seq<(Value, Value)>)
    requires DistinctFirsts(es)
    requires forall e :: e in es ==> e.0 in m && m[e.0] == e.1
    requires forall k :: k in m ==> (k, m[k]) in es
    ensures MapOf(es) == m
  {
    hide MapOf;
    forall k | k in m ensures k in MapOf(es) && MapOf(es)[k] == m[k] {
      var i :| 0 <= i < |es| && es[i] == (k, m[k]);
      MapOfAt(es, i);
    }
    forall k | k in MapOf(es) ensures k in m {
      MapOfKeys(es, k);
      var i :| 0 <= i < |es| && es[i].0 == k;
      assert es[i] in es;
    }
  }

  lemma {:induction false} FirstOnlyDistinct(items: seq<Value>)
    requires Distinct(items)
    ensures FirstOnly(items) == items
    decreases |items|
  {
    if items != [] {
      var front, x := items[..|items| - 1], items[|items| - 1];
      FirstOnlyDistinct(front);
      assert forall i :: 0 <= i < |front| ==> front[i] == items[i] && front[i] != x;
      assert items == front + [x];
    }
  }

  lemma {:induction false} OverwriteNew(entries: seq<(Value, Value)>, e: (Value, Value))
    requires forall i :: 0 <= i < |entries| ==> entries[i].0 != e.0
    ensures Overwrite(entries, e) == entries + [e]
    decreases |entries|
  {
    if entries != [] {
      OverwriteNew(entries[1..], e);
      assert entries == [entries[0]] + entries[1..];
    }
  }

  lemma {:induction false} LastWinsDistinct(entries: seq<(Value, Value)>)
    requires DistinctFirsts(entries)
    ensures LastWins(entries) == entries
    decreases |entries|
  {
    if entries != [] {
      var front, e := entries[..|entries| - 1], entries[|entries| - 1];
      LastWinsDistinct(front);
      OverwriteNew(front, e);
      assert entries == front + [e];
    }
  }

  // ----- one value -----

  ghost predicate AcceptsAscii(u: Utf8) {
    forall d: Bytes :: (forall c :: c in d ==> c < 128) ==> u(d)
  }

  lemma LeafReads(u: Utf8, bounded: bool, v: Value, depth: nat, suffix: Bytes)
    requires v.Nil? || v.Bool? || v.Int? || v.Float? || v.Char? || v.Text? || v.Handle?
    requires AcceptsAscii(u) && WellFormed(u, v) && Sized(v) && !TooDeepAt(bounded, depth)
    ensures ReadBack(u, bounded, v, depth, suffix) == Got(v, suffix)
  {
    hide ReadTagged, ReadStruct, ReadPointer, ReadContainer, ReadLeaf, BigEndian, Data;
    var s := Encoding(v) + suffix;
    assert ReadValue(u, bounded, s, depth) == ReadLeaf(u, s[0], s[1..]);
    if v.Int? && FitsLong(v.n) {
      assert s[1..] == BigEndian(ToUnsigned(v.n), 8) + suffix;
      IntReads(u, v.n, suffix);
    } else if v.Int? {
      assert s[1..] == Data(DecimalText(v.n)) + suffix;
      BigIntReads(u, v.n, suffix);
    } else if v.Float? {
      assert s[1..] == BigEndian(v.bits, 8) + suffix;
      FloatCharReads(u, v, suffix);
    } else if v.Char? {
      assert s[1..] == BigEndian(v.scalar, 4) + suffix;
      FloatCharReads(u, v, suffix);
    } else if v.Text? {
      assert s[1..] == Data(v.data) + suffix;
      TextReads(u, v.text, v.data, suffix);
    } else if v.Handle? {
      assert s[1..] == Data(v.provider) + (Data(v.typeName) + (BigEndian(v.id, 8) + suffix));
      HandleReads(u, v, suffix);
    } else {
      assert s[1..] == suffix;
      NilBoolReads(u, v, suffix);
    }
  }

  lemma NilBoolReads(u: Utf8, v: Value, suffix: Bytes)
    requires v.Nil? || v.Bool?
    ensures ReadLeaf(u, Encoding(v)[0], suffix) == Got(v, suffix)
  {
  }

  lemma IntReads(u: Utf8, n: int, suffix: Bytes)
    requires FitsLong(n)
    ensures ReadLeaf(u, 3, BigEndian(ToUnsigned(n), 8) + suffix) == Got(Int(n), suffix)
  {
    hide ReadNumber, BigEndian, Power256;
    FixedWidths();
    NumberReads(ToUnsigned(n), 8, suffix);
  }

  lemma BigIntReads(u: Utf8, n: int, suffix: Bytes)
    requires AcceptsAscii(u) && |DecimalText(n)| < U32
    ensures ReadLeaf(u, 20, Data(DecimalText(n)) + suffix) == Got(Int(n), suffix)
  {
    hide ReadData, Data, DecimalText, ParseInteger;
    DataReads(DecimalText(n), suffix);
    AsciiDecimal(n);
    DecimalReads(n);
  }

  lemma FloatCharReads(u: Utf8, v: Value, suffix: Bytes)
    requires v.Float? || v.Char?
    requires WellFormed(u, v) && Sized(v)
    ensures v.Float? ==> ReadLeaf(u, 15, BigEndian(v.bits, 8) + suffix) == Got(v, suffix)
    ensures v.Char? ==> ReadLeaf(u, 19, BigEndian(v.scalar, 4) + suffix) == Got(v, suffix)
  {
    hide ReadNumber, BigEndian, Power256, Finite;
    FixedWidths();
    if v.Float? { NumberReads(v.bits, 8, suffix); } else { NumberReads(v.scalar, 4, suffix); }
  }

  lemma TextReads(u: Utf8, k: TextKind, d: Bytes, suffix: Bytes)
    requires (k == BYTES || u(d)) && |d| < U32
    ensures ReadLeaf(u, TextTag(k), Data(d) + suffix) == Got(Text(k, d), suffix)
  {
    hide ReadData, Data;
    DataReads(d, suffix);
  }

  lemma HandleReads(u: Utf8, v: Value, suffix: Bytes)
    requires v.Handle? && WellFormed(u, v) && Sized(v)
    ensures ReadLeaf(u, 12, Data(v.provider) + (Data(v.typeName) + (BigEndian(v.id, 8) + suffix))) == Got(v, suffix)
  {
    hide ReadData, ReadNumber, Data, BigEndian, Power256;
    FixedWidths();
    var t2 := BigEndian(v.id, 8) + suffix;
    DataReads(v.provider, Data(v.typeName) + t2);
    DataReads(v.typeName, t2);
    NumberReads(v.id, 8, suffix);
  }

  lemma AsciiDecimal(n: int)
    ensures forall c :: c in DecimalText(n) ==> c < 128
  {
    AsciiRange(Decimal.Digits(if n < 0 then -n else n));
  }

  lemma SeqText(v: Value, suffix: Bytes)
    requires v.Seq?
    ensures var s := Encoding(v) + suffix;
            s != [] && s[0] == SeqTag(v.kind) && s[1..] == BigEndian(|v.items|, 4) + Flatten(Each(v.items)) + suffix
  {
    hide BigEndian, Flatten;
    assert Each(v.items) == seq(|v.items|, i requires 0 <= i < |v.items| => Encoding(v.items[i]));
  }

  lemma SeqReads(u: Utf8, bounded: bool, v: Value, depth: nat, suffix: Bytes)
    requires v.Seq? && WellFormed(u, v) && |v.items| < U32 && !TooDeepAt(bounded, depth)
    requires forall x :: x in v.items ==> SelfDelimiting(u, bounded, x, depth + 1)
    ensures ReadBack(u, bounded, v, depth, suffix) == Got(v, suffix)
  {
    SequenceKept(u, v, suffix);
    hide ReadTagged, ReadStruct, ReadPointer, ReadLeaf, ReadSequence, ReadEntries, BigEndian, MapOf, SequenceOf, LastWins;
    hide Encoding, Flatten, Each, WellFormed, SelfDelimiting;
    SeqText(v, suffix);
    SequenceReads(u, bounded, v.items, depth, suffix);
    var s := Encoding(v) + suffix;
    assert ReadValue(u, bounded, s, depth) == ReadContainer(u, bounded, s[0], s[1..], depth);
  }

  /** The items of a well-formed sequence make that sequence again. */
  lemma SequenceKept(u: Utf8, v: Value, rest: Bytes)
    requires v.Seq? && WellFormed(u, v)
    ensures SequenceOf(SeqKindOf(SeqTag(v.kind)), v.items, rest) == Got(v, rest)
  {
    if v.kind == ORDERED_SET { FirstOnlyDistinct(v.items); }
  }

  lemma SetText(v: Value, xs: seq<Value>, suffix: Bytes)
    requires v.Set? && |xs| == |v.elems| && Sorted(SetCells(Set(v.elems))) == Flatten(Each(xs))
    ensures var s := Encoding(v) + suffix;
            s != [] && s[0] == 10 && s[1..] == BigEndian(|xs|, 4) + Flatten(Each(xs)) + suffix
  {
    hide BigEndian, Sorted, Flatten, Each, SetCells;
    assert Set(v.elems) == v;
    assert Encoding(v) == [10] + BigEndian(|v.elems|, 4) + Sorted(SetCells(v));
  }

  lemma SetReads(u: Utf8, bounded: bool, v: Value, depth: nat, suffix: Bytes)
    requires v.Set? && |v.elems| < U32 && !TooDeepAt(bounded, depth)
    requires forall x :: x in v.elems ==> SelfDelimiting(u, bounded, x, depth + 1)
    ensures ReadBack(u, bounded, v, depth, suffix) == Got(v, suffix)
  {
    hide ReadTagged, ReadStruct, ReadPointer, ReadLeaf, ReadSequence, ReadEntries, BigEndian, Sorted, MapOf;
    ReadableInjective(u, bounded, v.elems, depth + 1);
    hide InWireOrder;
    var xs := SetOrder(v.elems);
    forall x | x in xs ensures SelfDelimiting(u, bounded, x, depth + 1) {
      assert x in (set y | y in xs);
    }
    SetText(v, xs, suffix);
    hide Encoding, Flatten, Each, SelfDelimiting;
    var s := Encoding(v) + suffix;
    assert ReadValue(u, bounded, s, depth) == ReadContainer(u, bounded, s[0], s[1..], depth);
    SequenceReads(u, bounded, xs, depth, suffix);
  }

  /** The counted, sorted entries of a map read back as that map. */
  lemma MapBodyReads(u: Utf8, bounded: bool, m: map<Value, Value>, depth: nat, suffix: Bytes) returns (es: seq<(Value, Value)>)
    requires |m| < U32
    requires forall k :: k in m ==> SelfDelimiting(u, bounded, k, depth + 1) && SelfDelimiting(u, bounded, m[k], depth + 1)
    ensures ReadEntries(u, bounded, false, BigEndian(|m|, 4) + Sorted(MapCells(Map(m))) + suffix, depth) == Got(es, suffix)
    ensures MapOf(es) == m
  {
    hide ReadEntries, BigEndian, Sorted, MapCells, MapOf;
    ReadableInjective(u, bounded, m.Keys, depth + 1);
    hide InWireOrder;
    es := MapOrder(m);
    EntriesRead(u, bounded, false, es, depth, suffix);
    MapRebuilt(m, es);
  }

  lemma MapReads(u: Utf8, bounded: bool, v: Value, depth: nat, suffix: Bytes)
    requires v.Map? && |v.pairs| < U32 && !TooDeepAt(bounded, depth)
    requires forall k :: k in v.pairs ==>
               SelfDelimiting(u, bounded, k, depth + 1) && SelfDelimiting(u, bounded, v.pairs[k], depth + 1)
    ensures ReadBack(u, bounded, v, depth, suffix) == Got(v, suffix)
  {
    hide ReadTagged, ReadStruct, ReadPointer, ReadLeaf, ReadSequence, ReadEntries, BigEndian, Sorted, MapOf;
    var m := v.pairs;
    var es := MapBodyReads(u, bounded, m, depth, suffix);
    var s := Encoding(v) + suffix;
    assert ReadValue(u, bounded, s, depth) == ReadContainer(u, bounded, s[0], s[1..], depth);
    assert s[1..] == BigEndian(|m|, 4) + Sorted(MapCells(Map(m))) + suffix;
  }

  lemma EntriesValueReads(u: Utf8, bounded: bool, v: Value, depth: nat, suffix: Bytes)
    requires v.Entries? && WellFormed(u, v) && |v.entries| < U32 && !TooDeepAt(bounded, depth)
    requires forall e :: e in v.entries ==>
               SelfDelimiting(u, bounded, e.0, depth + 1) && SelfDelimiting(u, bounded, e.1, depth + 1)
    ensures ReadBack(u, bounded, v, depth, suffix) == Got(v, suffix)
  {
    hide ReadTagged, ReadStruct, ReadPointer, ReadLeaf, ReadContainer, BigEndian, WellFormed;
    var es := v.entries;
    var s := Encoding(v) + suffix;
    assert ReadValue(u, bounded, s, depth) == ReadContainer(u, bounded, s[0], s[1..], depth);
    assert EachPair(es) == seq(|es|, i requires 0 <= i < |es| => Encoding(es[i].0) + Encoding(es[i].1));
    assert s[1..] == BigEndian(|es|, 4) + Flatten(EachPair(es)) + suffix;
    KeysOfObject(u, v);
    EntriesRead(u, bounded, v.layout == OBJECT, es, depth, suffix);
    EntriesRebuilt(u, bounded, v, s[1..], depth, suffix);
  }

  lemma KeysOfObject(u: Utf8, v: Value)
    requires v.Entries? && WellFormed(u, v)
    ensures v.layout == OBJECT ==> forall e :: e in v.entries ==> IsString(e.0)
  {
  }

  lemma EntriesRebuilt(u: Utf8, bounded: bool, v: Value, t: Bytes, depth: nat, suffix: Bytes)
    requires v.Entries? && WellFormed(u, v)
    requires ReadEntries(u, bounded, v.layout == OBJECT, t, depth) == Got(v.entries, suffix)
    ensures ReadContainer(u, bounded, EntriesTag(v.layout), t, depth) == Got(v, suffix)
  {
    hide ReadEntries, LastWins;
    if v.layout == ORDERED_MAP { LastWinsDistinct(v.entries); }
  }

  lemma TaggedReads(u: Utf8, bounded: bool, v: Value, depth: nat, suffix: Bytes)
    requires v.Tagged? && !TooDeepAt(bounded, depth)
    requires SelfDelimiting(u, bounded, Text(SYMBOL, v.tag), depth + 1) && SelfDelimiting(u, bounded, v.form, depth + 1)
    ensures ReadBack(u, bounded, v, depth, suffix) == Got(v, suffix)
  {
    hide ReadStruct, ReadPointer, ReadLeaf, ReadContainer, BigEndian, Sorted;
    var s := Encoding(v) + suffix;
    assert ReadValue(u, bounded, s, depth) == ReadTagged(u, bounded, s[1..], depth);
    var t1 := Encoding(v.form) + suffix;
    assert s[1..] == Encoding(Text(SYMBOL, v.tag)) + t1;
    assert ReadBack(u, bounded, Text(SYMBOL, v.tag), depth + 1, t1) == Got(Text(SYMBOL, v.tag), t1);
    assert ReadBack(u, bounded, v.form, depth + 1, suffix) == Got(v.form, suffix);
  }

  lemma PointerReads(u: Utf8, bounded: bool, v: Value, depth: nat, suffix: Bytes)
    requires v.Pointer? && !TooDeepAt(bounded, depth)
    requires SelfDelimiting(u, bounded, Text(KEYWORD, v.context), depth + 1)
    requires SelfDelimiting(u, bounded, Map(v.attributes), depth + 1)
    ensures ReadBack(u, bounded, v, depth, suffix) == Got(v, suffix)
  {
    hide ReadStruct, ReadTagged, ReadLeaf, ReadContainer, BigEndian, Sorted;
    var s := Encoding(v) + suffix;
    assert ReadValue(u, bounded, s, depth) == ReadPointer(u, bounded, s[1..], depth);
    var t1 := Encoding(Map(v.attributes)) + suffix;
    assert MapCells(v) == MapCells(Map(v.attributes));
    assert s[1..] == Encoding(Text(KEYWORD, v.context)) + t1;
    assert ReadBack(u, bounded, Text(KEYWORD, v.context), depth + 1, t1) == Got(Text(KEYWORD, v.context), t1);
    assert ReadBack(u, bounded, Map(v.attributes), depth + 1, suffix) == Got(Map(v.attributes), suffix);
  }

  function Strings(fields: seq<Bytes>): seq<Value> {
    seq(|fields|, i requires 0 <= i < |fields| => Text(STRING, fields[i]))
  }

  lemma {:induction false} StringsEncoding(fields: seq<Bytes>)
    ensures Flatten(Each(Strings(fields))) == TextsBytes(fields)
    decreases |fields|
  {
    hide BigEndian;
    if fields != [] {
      StringsEncoding(fields[1..]);
      assert Each(Strings(fields))[1..] == Each(Strings(fields[1..]));
    }
  }

  lemma StructEncoding(v: Value)
    requires v.Struct?
    ensures Encoding(v) == [33] + Encoding(Text(STRING, v.name)) + Encoding(Seq(VECTOR, Strings(v.fields)))
                           + Encoding(Seq(VECTOR, v.values))
  {
    hide BigEndian;
    StringsEncoding(v.fields);
    var fs := Strings(v.fields);
    assert Each(fs) == seq(|fs|, i requires 0 <= i < |fs| => Encoding(fs[i]));
  }

  lemma StructReads(u: Utf8, bounded: bool, v: Value, depth: nat, suffix: Bytes)
    requires v.Struct? && WellFormed(u, v) && !TooDeepAt(bounded, depth)
    requires SelfDelimiting(u, bounded, Text(STRING, v.name), depth + 1)
    requires SelfDelimiting(u, bounded, Seq(VECTOR, Strings(v.fields)), depth + 1)
    requires SelfDelimiting(u, bounded, Seq(VECTOR, v.values), depth + 1)
    ensures ReadBack(u, bounded, v, depth, suffix) == Got(v, suffix)
  {
    hide ReadTagged, ReadPointer, ReadLeaf, ReadContainer, ReadStruct, Encoding, WellFormed, StructOf, Strings;
    StructEncoding(v);
    var s := Encoding(v) + suffix;
    assert ReadValue(u, bounded, s, depth) == ReadStruct(u, bounded, s[1..], depth);
    var fields, values := Seq(VECTOR, Strings(v.fields)), Seq(VECTOR, v.values);
    var t2 := Encoding(values) + suffix;
    var t1 := Encoding(fields) + t2;
    assert s[0] == 33 && s[1..] == Encoding(Text(STRING, v.name)) + t1;
    assert ReadBack(u, bounded, Text(STRING, v.name), depth + 1, t1) == Got(Text(STRING, v.name), t1);
    assert ReadBack(u, bounded, fields, depth + 1, t2) == Got(fields, t2);
    assert ReadBack(u, bounded, values, depth + 1, suffix) == Got(values, suffix);
    StructRebuilt(u, v, suffix);
    StructAssembled(u, bounded, v, s[1..], t1, t2, depth, suffix);
  }

  lemma StructAssembled(u: Utf8, bounded: bool, v: Value, t: Bytes, t1: Bytes, t2: Bytes, depth: nat, suffix: Bytes)
    requires v.Struct?
    requires ReadValue(u, bounded, t, depth + 1) == Got(Text(STRING, v.name), t1)
    requires ReadValue(u, bounded, t1, depth + 1) == Got(Seq(VECTOR, Strings(v.fields)), t2)
    requires ReadValue(u, bounded, t2, depth + 1) == Got(Seq(VECTOR, v.values), suffix)
    requires AllStrings(Strings(v.fields)) && StructOf(v.name, Strings(v.fields), v.values, suffix) == Got(v, suffix)
    ensures ReadStruct(u, bounded, t, depth) == Got(v, suffix)
  {
    hide ReadValue, StructOf, Strings;
  }

  lemma StructRebuilt(u: Utf8, v: Value, suffix: Bytes)
    requires v.Struct? && WellFormed(u, v)
    ensures AllStrings(Strings(v.fields)) && StructOf(v.name, Strings(v.fields), v.values, suffix) == Got(v, suffix)
  {
    var fs := Strings(v.fields);
    assert AllStrings(fs);
    assert seq(|fs|, i requires 0 <= i < |fs| => assert fs[i] in fs; fs[i].data) == v.fields;
    forall i | 0 <= i < |v.fields| ensures FieldValue(v.fields, v.values, v.fields[i]) == v.values[i] {
      FieldValueAt(v.fields, v.values, i);
    }
    assert ByField(v.fields, v.values) == v.values;
  }

  lemma {:induction false} FieldValueAt(names: seq<Bytes>, values: seq<Value>, i: nat)
    requires |names| == |values| && OneValuePerField(names, values) && i < |names|
    ensures FieldValue(names, values, names[i]) == values[i]
    decreases |names|
  {
    var last := |names| - 1;
    if names[last] != names[i] { FieldValueAt(names[..last], values[..last], i); }
  }

  /**
   Self-delimitation.  Whatever follows it, the encoding of a value within the decoder's depth
   limit reads back as that value, and the reader stops exactly at its end.
   */
  lemma {:induction false} Decodes(u: Utf8, bounded: bool, v: Value, depth: nat)
    requires AcceptsAscii(u) && WellFormed(u, v) && Sized(v)
    requires bounded ==> Shallow(v, depth)
    ensures SelfDelimiting(u, bounded, v, depth)
    decreases v, 1
  {
    hide ReadValue, Encoding, ReadBack;
    match v
    case Seq(_, items) =>
      forall x | x in items ensures SelfDelimiting(u, bounded, x, depth + 1) { Decodes(u, bounded, x, depth + 1); }
      forall suffix ensures ReadBack(u, bounded, v, depth, suffix) == Got(v, suffix) {
        SeqReads(u, bounded, v, depth, suffix);
      }
    case Set(elems) =>
      forall x | x in elems ensures SelfDelimiting(u, bounded, x, depth + 1) { Decodes(u, bounded, x, depth + 1); }
      forall suffix ensures ReadBack(u, bounded, v, depth, suffix) == Got(v, suffix) {
        SetReads(u, bounded, v, depth, suffix);
      }
    case Map(pairs) => MapDecodes(u, bounded, v, pairs, depth);
    case Entries(_, entries) =>
      forall e | e in entries
        ensures SelfDelimiting(u, bounded, e.0, depth + 1) && SelfDelimiting(u, bounded, e.1, depth + 1)
      {
        Decodes(u, bounded, e.0, depth + 1);
        Decodes(u, bounded, e.1, depth + 1);
      }
      forall suffix ensures ReadBack(u, bounded, v, depth, suffix) == Got(v, suffix) {
        EntriesValueReads(u, bounded, v, depth, suffix);
      }
    case Tagged(tag, form) =>
      TextDecodes(u, bounded, SYMBOL, tag, depth + 1);
      Decodes(u, bounded, form, depth + 1);
      forall suffix ensures ReadBack(u, bounded, v, depth, suffix) == Got(v, suffix) {
        TaggedReads(u, bounded, v, depth, suffix);
      }
    case Struct(name, fields, values) => StructDecodes(u, bounded, v, depth);
    case Pointer(context, attributes) =>
      TextDecodes(u, bounded, KEYWORD, context, depth + 1);
      MapDecodes(u, bounded, v, attributes, depth + 1);
      forall suffix ensures ReadBack(u, bounded, v, depth, suffix) == Got(v, suffix) {
        PointerReads(u, bounded, v, depth, suffix);
      }
    case _ =>
      forall suffix ensures ReadBack(u, bounded, v, depth, suffix) == Got(v, suffix) {
        LeafReads(u, bounded, v, depth, suffix);
      }
  }

  lemma TextDecodes(u: Utf8, bounded: bool, k: TextKind, d: Bytes, depth: nat)
    requires AcceptsAscii(u) && (k == BYTES || u(d)) && |d| < U32 && !TooDeepAt(bounded, depth)
    ensures SelfDelimiting(u, bounded, Text(k, d), depth)
  {
    hide ReadValue, Encoding, ReadBack;
    forall suffix ensures ReadBack(u, bounded, Text(k, d), depth, suffix) == Got(Text(k, d), suffix) {
      LeafReads(u, bounded, Text(k, d), depth, suffix);
    }
  }

  lemma {:induction false} MapDecodes(u: Utf8, bounded: bool, v: Value, m: map<Value, Value>, depth: nat)
    requires (v.Map? && m == v.pairs) || (v.Pointer? && m == v.attributes)
    requires AcceptsAscii(u) && !TooDeepAt(bounded, depth) && |m| < U32
    requires forall k :: k in m ==> WellFormed(u, k) && WellFormed(u, m[k]) && Sized(k) && Sized(m[k])
    requires bounded ==> forall k :: k in m ==> Shallow(k, depth + 1) && Shallow(m[k], depth + 1)
    ensures SelfDelimiting(u, bounded, Map(m), depth)
    decreases v, 0
  {
    hide ReadValue, Encoding, ReadBack, WellFormed, Sized, Shallow;
    forall k | k in m
      ensures SelfDelimiting(u, bounded, k, depth + 1) && SelfDelimiting(u, bounded, m[k], depth + 1)
    {
      Decodes(u, bounded, k, depth + 1);
      Decodes(u, bounded, m[k], depth + 1);
    }
    forall suffix ensures ReadBack(u, bounded, Map(m), depth, suffix) == Got(Map(m), suffix) {
      MapReads(u, bounded, Map(m), depth, suffix);
    }
  }

  lemma {:induction false} StructDecodes(u: Utf8, bounded: bool, v: Value, depth: nat)
    requires v.Struct? && AcceptsAscii(u) && WellFormed(u, v) && Sized(v)
    requires bounded ==> Shallow(v, depth)
    ensures SelfDelimiting(u, bounded, v, depth)
    decreases v, 0
  {
    hide ReadValue, Encoding, ReadBack;
    var fields, values := Seq(VECTOR, Strings(v.fields)), Seq(VECTOR, v.values);
    TextDecodes(u, bounded, STRING, v.name, depth + 1);
    forall x | x in fields.items ensures SelfDelimiting(u, bounded, x, depth + 2) {
      var i :| 0 <= i < |v.fields| && x == Text(STRING, v.fields[i]);
      assert v.fields[i] in v.fields;
      TextDecodes(u, bounded, STRING, v.fields[i], depth + 2);
    }
    forall x | x in v.values ensures SelfDelimiting(u, bounded, x, depth + 2) { Decodes(u, bounded, x, depth + 2); }
    forall suffix ensures ReadBack(u, bounded, fields, depth + 1, suffix) == Got(fields, suffix) {
      FieldsWellFormed(u, v);
      SeqReads(u, bounded, fields, depth + 1, suffix);
    }
    forall suffix ensures ReadBack(u, bounded, values, depth + 1, suffix) == Got(values, suffix) {
      SeqReads(u, bounded, values, depth + 1, suffix);
    }
    forall suffix ensures ReadBack(u, bounded, v, depth, suffix) == Got(v, suffix) {
      StructReads(u, bounded, v, depth, suffix);
    }
  }

  lemma FieldsWellFormed(u: Utf8, v: Value)
    requires v.Struct? && WellFormed(u, v)
    ensures WellFormed(u, Seq(VECTOR, Strings(v.fields)))
  {
    forall x | x in Strings(v.fields) ensures WellFormed(u, x) {
      var i :| 0 <= i < |v.fields| && x == Text(STRING, v.fields[i]);
      assert v.fields[i] in v.fields;
    }
  }

  /** Different values are written differently, at any depth. */
  lemma EncodingInjective(u: Utf8, a: Value, b: Value)
    requires AcceptsAscii(u) && WellFormed(u, a) && Sized(a) && WellFormed(u, b) && Sized(b)
    requires Encoding(a) == Encoding(b)
    ensures a == b
  {
    hide ReadValue, Encoding;
    Decodes(u, false, a, 0);
    Decodes(u, false, b, 0);
    assert ReadBack(u, false, a, 0, []) == Got(a, []);
    assert ReadBack(u, false, b, 0, []) == Got(b, []);
  }
}
