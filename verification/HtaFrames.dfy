/**
 Whole HTA0 frames: which ones decode, that accepted frames are prefix-free, and that what
 `encode` emits is canonical.
 */
module HtaFrames {
  import opened ByteStrings
  import opened Sequences
  import opened Words
  import opened Ordering
  import opened HtaValues
  import opened HtaRoundTrip

  // ----- a read depends only on the bytes it consumes -----

  lemma TakeMore(s: Bytes, n: nat, t: Bytes)
    requires n <= |s|
    ensures Take(s + t, n) == Got(s[..n], s[n..] + t)
  {
    assert (s + t)[..n] == s[..n] && (s + t)[n..] == s[n..] + t;
  }

  lemma NumberMore(s: Bytes, width: nat, t: Bytes)
    requires ReadNumber(s, width).Got?
    ensures ReadNumber(s + t, width) == Got(ReadNumber(s, width).value, ReadNumber(s, width).rest + t)
  {
    TakeMore(s, width, t);
  }

  lemma DataMore(s: Bytes, t: Bytes)
    requires ReadData(s).Got?
    ensures ReadData(s + t) == Got(ReadData(s).value, ReadData(s).rest + t)
  {
    hide FromBigEndian;
    NumberMore(s, 4, t);
    var r := ReadNumber(s, 4);
    TakeMore(r.rest, r.value, t);
  }

  lemma LeafMore(u: Utf8, tag: byte, s: Bytes, t: Bytes)
    requires ReadLeaf(u, tag, s).Got?
    ensures ReadLeaf(u, tag, s + t) == Got(ReadLeaf(u, tag, s).value, ReadLeaf(u, tag, s).rest + t)
  {
    hide ReadNumber, ReadData, ParseInteger, Finite, Scalar;
    if tag in {3, 15} { NumberMore(s, 8, t); }
    else if tag == 19 { NumberMore(s, 4, t); }
    else if tag in {4, 5, 6, 7, 20, 22} { DataMore(s, t); }
    else if tag == 12 {
      DataMore(s, t);
      var t1 := ReadData(s).rest;
      DataMore(t1, t);
      NumberMore(ReadData(t1).rest, 8, t);
    }
  }

  /** What a successful read sees is a prefix: more input changes nothing but the remainder. */
  lemma {:induction false} ValueMore(u: Utf8, b: bool, s: Bytes, depth: nat, t: Bytes)
    requires ReadValue(u, b, s, depth).Got?
    ensures ReadValue(u, b, s + t, depth) == Got(ReadValue(u, b, s, depth).value, ReadValue(u, b, s, depth).rest + t)
    decreases |s|, 0
  {
    hide ReadLeaf, ReadTagged, ReadStruct, ReadPointer, ReadContainer;
    var tag, s1 := s[0], s[1..];
    assert (s + t)[0] == tag && (s + t)[1..] == s1 + t;
    if tag <= 7 || tag in {12, 15, 19, 20, 22} { LeafMore(u, tag, s1, t); }
    else if tag == 31 { TaggedMore(u, b, s1, depth, t); }
    else if tag == 33 { StructMore(u, b, s1, depth, t); }
    else if tag == 34 { PointerMore(u, b, s1, depth, t); }
    else { ContainerMore(u, b, tag, s1, depth, t); }
  }

  lemma {:induction false} TaggedMore(u: Utf8, b: bool, s: Bytes, depth: nat, t: Bytes)
    requires ReadTagged(u, b, s, depth).Got?
    ensures ReadTagged(u, b, s + t, depth) == Got(ReadTagged(u, b, s, depth).value, ReadTagged(u, b, s, depth).rest + t)
    decreases |s|, 1
  {
    hide ReadValue;
    ValueMore(u, b, s, depth + 1, t);
    ValueMore(u, b, ReadValue(u, b, s, depth + 1).rest, depth + 1, t);
  }

  lemma {:induction false} PointerMore(u: Utf8, b: bool, s: Bytes, depth: nat, t: Bytes)
    requires ReadPointer(u, b, s, depth).Got?
    ensures ReadPointer(u, b, s + t, depth) == Got(ReadPointer(u, b, s, depth).value, ReadPointer(u, b, s, depth).rest + t)
    decreases |s|, 1
  {
    hide ReadValue;
    ValueMore(u, b, s, depth + 1, t);
    ValueMore(u, b, ReadValue(u, b, s, depth + 1).rest, depth + 1, t);
  }

  lemma {:induction false} StructMore(u: Utf8, b: bool, s: Bytes, depth: nat, t: Bytes)
    requires ReadStruct(u, b, s, depth).Got?
    ensures ReadStruct(u, b, s + t, depth) == Got(ReadStruct(u, b, s, depth).value, ReadStruct(u, b, s, depth).rest + t)
    decreases |s|, 1
  {
    hide ReadValue;
    ValueMore(u, b, s, depth + 1, t);
    var s1 := ReadValue(u, b, s, depth + 1).rest;
    ValueMore(u, b, s1, depth + 1, t);
    ValueMore(u, b, ReadValue(u, b, s1, depth + 1).rest, depth + 1, t);
  }

  lemma {:induction false} ContainerMore(u: Utf8, b: bool, tag: byte, s: Bytes, depth: nat, t: Bytes)
    requires ReadContainer(u, b, tag, s, depth).Got?
    ensures ReadContainer(u, b, tag, s + t, depth)
            == Got(ReadContainer(u, b, tag, s, depth).value, ReadContainer(u, b, tag, s, depth).rest + t)
    decreases |s|, 3
  {
    hide ReadSequence, ReadEntries, MapOf, LastWins, FirstOnly;
    if tag in {8, 9, 10, 17, 24, 25, 29, 36, 38} { SequenceMore(u, b, s, depth, t); }
    else { EntriesMore(u, b, tag == 18, s, depth, t); }
  }

  /** The impossible-length check only weakens as input grows. */
  lemma {:induction false} SequenceMore(u: Utf8, b: bool, s: Bytes, depth: nat, t: Bytes)
    requires ReadSequence(u, b, s, depth).Got?
    ensures ReadSequence(u, b, s + t, depth) == Got(ReadSequence(u, b, s, depth).value, ReadSequence(u, b, s, depth).rest + t)
    decreases |s|, 2
  {
    hide ReadNumber, ReadValues;
    NumberMore(s, 4, t);
    var r := ReadNumber(s, 4);
    NumberShrinks(s, 4);
    ValuesMore(u, b, r.rest, r.value, depth + 1, t);
  }

  lemma NumberShrinks(s: Bytes, width: nat)
    requires ReadNumber(s, width).Got?
    ensures |ReadNumber(s, width).rest| == |s| - width
  {
  }

  lemma {:induction false} EntriesMore(u: Utf8, b: bool, named: bool, s: Bytes, depth: nat, t: Bytes)
    requires ReadEntries(u, b, named, s, depth).Got?
    ensures ReadEntries(u, b, named, s + t, depth) == Got(ReadEntries(u, b, named, s, depth).value, ReadEntries(u, b, named, s, depth).rest + t)
    decreases |s|, 2
  {
    hide ReadNumber, ReadPairs;
    NumberMore(s, 4, t);
    var r := ReadNumber(s, 4);
    NumberShrinks(s, 4);
    PairsMore(u, b, named, r.rest, r.value, depth + 1, t);
  }

  lemma {:induction false} ValuesMore(u: Utf8, b: bool, s: Bytes, n: nat, depth: nat, t: Bytes)
    requires ReadValues(u, b, s, n, depth).Got?
    ensures ReadValues(u, b, s + t, n, depth) == Got(ReadValues(u, b, s, n, depth).value, ReadValues(u, b, s, n, depth).rest + t)
    decreases |s|, 1
  {
    hide ReadValue;
    if n > 0 {
      ValueMore(u, b, s, depth, t);
      ValuesMore(u, b, ReadValue(u, b, s, depth).rest, n - 1, depth, t);
    }
  }

  lemma {:induction false} PairsMore(u: Utf8, b: bool, named: bool, s: Bytes, n: nat, depth: nat, t: Bytes)
    requires ReadPairs(u, b, named, s, n, depth).Got?
    ensures ReadPairs(u, b, named, s + t, n, depth) == Got(ReadPairs(u, b, named, s, n, depth).value, ReadPairs(u, b, named, s, n, depth).rest + t)
    decreases |s|, 1
  {
    hide ReadValue;
    if n > 0 {
      ValueMore(u, b, s, depth, t);
      var s1 := ReadValue(u, b, s, depth).rest;
      ValueMore(u, b, s1, depth, t);
      PairsMore(u, b, named, ReadValue(u, b, s1, depth).rest, n - 1, depth, t);
    }
  }

  /** Accepted frames are prefix-free: no accepted frame is a strict prefix of another. */
  lemma PrefixFree(u: Utf8, a: Bytes, b: Bytes)
    requires Decode(u, a).Got? && Decode(u, b).Got? && a <= b
    ensures a == b
  {
    hide ReadValue;
    var t := b[|a|..];
    assert b[4..] == a[4..] + t;
    ValueMore(u, true, a[4..], 0, t);
    assert ReadValue(u, true, b[4..], 0).rest == [] + t;
    assert b == a + t;
  }

  // ----- what the decoder accepts is well formed -----

  lemma {:induction false} BigEndianBound(s: Bytes)
    ensures FromBigEndian(s) < Power256(|s|)
    decreases |s|
  {
    if s != [] { BigEndianBound(s[..|s| - 1]); }
  }

  lemma LeafAccepted(u: Utf8, tag: byte, s: Bytes)
    requires ReadLeaf(u, tag, s).Got?
    ensures WellFormed(u, ReadLeaf(u, tag, s).value)
  {
    hide ParseInteger, FromBigEndian, Power256;
    FixedWidths();
    if tag == 15 { BigEndianBound(s[..8]); }
    if tag == 12 {
      var t2 := ReadText(u, ReadText(u, s).rest).rest;
      BigEndianBound(t2[..8]);
    }
  }

  lemma {:induction false} ValueAccepted(u: Utf8, b: bool, s: Bytes, depth: nat)
    requires ReadValue(u, b, s, depth).Got?
    ensures WellFormed(u, ReadValue(u, b, s, depth).value)
    decreases |s|, 0
  {
    hide ReadLeaf, ReadTagged, ReadStruct, ReadPointer, ReadContainer;
    var tag, s1 := s[0], s[1..];
    if tag <= 7 || tag in {12, 15, 19, 20, 22} { LeafAccepted(u, tag, s1); }
    else if tag == 31 { TaggedAccepted(u, b, s1, depth); }
    else if tag == 33 { StructAccepted(u, b, s1, depth); }
    else if tag == 34 { PointerAccepted(u, b, s1, depth); }
    else { ContainerAccepted(u, b, tag, s1, depth); }
  }

  lemma {:induction false} TaggedAccepted(u: Utf8, b: bool, s: Bytes, depth: nat)
    requires ReadTagged(u, b, s, depth).Got?
    ensures WellFormed(u, ReadTagged(u, b, s, depth).value)
    decreases |s|, 1
  {
    hide ReadValue;
    ValueAccepted(u, b, s, depth + 1);
    ValueAccepted(u, b, ReadValue(u, b, s, depth + 1).rest, depth + 1);
  }

  lemma {:induction false} PointerAccepted(u: Utf8, b: bool, s: Bytes, depth: nat)
    requires ReadPointer(u, b, s, depth).Got?
    ensures WellFormed(u, ReadPointer(u, b, s, depth).value)
    decreases |s|, 1
  {
    hide ReadValue;
    ValueAccepted(u, b, s, depth + 1);
    ValueAccepted(u, b, ReadValue(u, b, s, depth + 1).rest, depth + 1);
  }

  lemma {:induction false} StructAccepted(u: Utf8, b: bool, s: Bytes, depth: nat)
    requires ReadStruct(u, b, s, depth).Got?
    ensures WellFormed(u, ReadStruct(u, b, s, depth).value)
    decreases |s|, 1
  {
    hide ReadValue, StructOf;
    ValueAccepted(u, b, s, depth + 1);
    var r1 := ReadValue(u, b, s, depth + 1);
    ValueAccepted(u, b, r1.rest, depth + 1);
    var r2 := ReadValue(u, b, r1.rest, depth + 1);
    ValueAccepted(u, b, r2.rest, depth + 1);
    var r3 := ReadValue(u, b, r2.rest, depth + 1);
    AssembledStruct(u, r1.value.data, r2.value.items, r3.value.items, r3.rest);
  }

  lemma AssembledStruct(u: Utf8, name: Bytes, fields: seq<Value>, values: seq<Value>, rest: Bytes)
    requires AllStrings(fields) && StructOf(name, fields, values, rest).Got? && u(name)
    requires forall f :: f in fields ==> WellFormed(u, f)
    requires forall x :: x in values ==> WellFormed(u, x)
    ensures WellFormed(u, StructOf(name, fields, values, rest).value)
  {
    var v := StructOf(name, fields, values, rest).value;
    assert forall i :: 0 <= i < |fields| ==> fields[i] in fields && v.fields[i] == fields[i].data;
    forall i | 0 <= i < |v.values| ensures v.values[i] in values {
      FieldValueFrom(v.fields, values, v.fields[i]);
    }
  }

  lemma {:induction false} FieldValueFrom(names: seq<Bytes>, values: seq<Value>, field: Bytes)
    requires |names| == |values| && field in names
    ensures FieldValue(names, values, field) in values
    decreases |names|
  {
    var last := |names| - 1;
    if names[last] != field { FieldValueFrom(names[..last], values[..last], field); }
  }

  lemma {:induction false} ContainerAccepted(u: Utf8, b: bool, tag: byte, s: Bytes, depth: nat)
    requires ReadContainer(u, b, tag, s, depth).Got?
    ensures WellFormed(u, ReadContainer(u, b, tag, s, depth).value)
    decreases |s|, 3
  {
    hide ReadSequence, ReadEntries, MapOf, LastWins, FirstOnly;
    if tag in {8, 9, 10, 17, 24, 25, 29, 36, 38} {
      SequenceAccepted(u, b, s, depth);
      FirstOnlyAccepted(u, ReadSequence(u, b, s, depth).value);
    } else {
      EntriesAccepted(u, b, tag == 18, s, depth);
      var es := ReadEntries(u, b, tag == 18, s, depth).value;
      LastWinsAccepted(u, es);
      forall k | k in MapOf(es) ensures WellFormed(u, k) && WellFormed(u, MapOf(es)[k]) { MapOfAccepted(u, es, k); }
    }
  }

  lemma {:induction false} FirstOnlyAccepted(u: Utf8, items: seq<Value>)
    requires forall x :: x in items ==> WellFormed(u, x)
    ensures Distinct(FirstOnly(items)) && forall x :: x in FirstOnly(items) ==> WellFormed(u, x)
    decreases |items|
  {
    hide WellFormed;
    if items != [] {
      assert items[|items| - 1] in items;
      assert forall x :: x in items[..|items| - 1] ==> x in items;
      FirstOnlyAccepted(u, items[..|items| - 1]);
    }
  }

  lemma {:induction false} OverwriteAccepted(u: Utf8, es: seq<(Value, Value)>, e: (Value, Value))
    requires DistinctFirsts(es)
    requires forall x :: x in es + [e] ==> WellFormed(u, x.0) && WellFormed(u, x.1)
    ensures DistinctFirsts(Overwrite(es, e))
    ensures forall x :: x in Overwrite(es, e) ==> WellFormed(u, x.0) && WellFormed(u, x.1)
    ensures forall x :: x in Overwrite(es, e) ==> x == e || x in es
    decreases |es|
  {
    hide WellFormed;
    assert e in es + [e];
    assert forall x :: x in es ==> x in es + [e];
    if es != [] && es[0].0 != e.0 {
      assert es[0] in es;
      assert forall x :: x in es[1..] + [e] ==> x in es + [e];
      OverwriteAccepted(u, es[1..], e);
      var t := Overwrite(es[1..], e);
      forall j | 0 <= j < |t| ensures es[0].0 != t[j].0 {
        assert t[j] in t;
        if t[j] != e { var i :| 0 <= i < |es[1..]| && es[1..][i] == t[j]; assert es[i + 1] == t[j]; }
      }
    } else if es != [] {
      assert Overwrite(es, e) == [e] + es[1..];
      assert forall j :: 0 < j < |es| ==> es[j].0 != es[0].0;
    }
  }

  lemma {:induction false} LastWinsAccepted(u: Utf8, es: seq<(Value, Value)>)
    requires forall x :: x in es ==> WellFormed(u, x.0) && WellFormed(u, x.1)
    ensures DistinctFirsts(LastWins(es))
    ensures forall x :: x in LastWins(es) ==> WellFormed(u, x.0) && WellFormed(u, x.1)
    decreases |es|
  {
    hide WellFormed;
    if es != [] {
      assert es[|es| - 1] in es;
      assert forall x :: x in es[..|es| - 1] ==> x in es;
      LastWinsAccepted(u, es[..|es| - 1]);
      OverwriteAccepted(u, LastWins(es[..|es| - 1]), es[|es| - 1]);
    }
  }

  lemma {:induction false} MapOfAccepted(u: Utf8, es: seq<(Value, Value)>, k: Value)
    requires forall x :: x in es ==> WellFormed(u, x.0) && WellFormed(u, x.1)
    requires k in MapOf(es)
    ensures WellFormed(u, k) && WellFormed(u, MapOf(es)[k])
    decreases |es|
  {
    hide WellFormed;
    var front, last := es[..|es| - 1], es[|es| - 1];
    assert last in es;
    assert forall x :: x in front ==> x in es;
    if last.0 != k { MapOfAccepted(u, front, k); }
  }

  lemma {:induction false} SequenceAccepted(u: Utf8, b: bool, s: Bytes, depth: nat)
    requires ReadSequence(u, b, s, depth).Got?
    ensures forall x :: x in ReadSequence(u, b, s, depth).value ==> WellFormed(u, x)
    decreases |s|, 2
  {
    hide ReadNumber, ReadValues, WellFormed;
    var r := ReadNumber(s, 4);
    NumberShrinks(s, 4);
    ValuesAccepted(u, b, r.rest, r.value, depth + 1);
  }

  lemma {:induction false} EntriesAccepted(u: Utf8, b: bool, named: bool, s: Bytes, depth: nat)
    requires ReadEntries(u, b, named, s, depth).Got?
    ensures forall e :: e in ReadEntries(u, b, named, s, depth).value ==>
              WellFormed(u, e.0) && WellFormed(u, e.1) && (named ==> IsString(e.0))
    decreases |s|, 2
  {
    hide ReadNumber, ReadPairs, WellFormed;
    var r := ReadNumber(s, 4);
    NumberShrinks(s, 4);
    PairsAccepted(u, b, named, r.rest, r.value, depth + 1);
  }

  lemma {:induction false} ValuesAccepted(u: Utf8, b: bool, s: Bytes, n: nat, depth: nat)
    requires ReadValues(u, b, s, n, depth).Got?
    ensures forall x :: x in ReadValues(u, b, s, n, depth).value ==> WellFormed(u, x)
    decreases |s|, 1
  {
    hide ReadValue, WellFormed;
    if n > 0 {
      ValueAccepted(u, b, s, depth);
      ValuesAccepted(u, b, ReadValue(u, b, s, depth).rest, n - 1, depth);
    }
  }

  lemma {:induction false} PairsAccepted(u: Utf8, b: bool, named: bool, s: Bytes, n: nat, depth: nat)
    requires ReadPairs(u, b, named, s, n, depth).Got?
    ensures forall e :: e in ReadPairs(u, b, named, s, n, depth).value ==>
              WellFormed(u, e.0) && WellFormed(u, e.1) && (named ==> IsString(e.0))
    decreases |s|, 1
  {
    hide ReadValue, WellFormed;
    if n > 0 {
      ValueAccepted(u, b, s, depth);
      var s1 := ReadValue(u, b, s, depth).rest;
      ValueAccepted(u, b, s1, depth);
      PairsAccepted(u, b, named, ReadValue(u, b, s1, depth).rest, n - 1, depth);
    }
  }

  /** Every value the decoder returns is well formed, whatever bytes it was given. */
  lemma DecodedIsWellFormed(u: Utf8, frame: Bytes)
    requires Decode(u, frame).Got?
    ensures WellFormed(u, Decode(u, frame).value)
  {
    hide ReadValue, WellFormed;
    ValueAccepted(u, true, frame[4..], 0);
  }

  // ----- beyond the decoder's depth -----

  /** Whatever follows it, the encoding of `v` is refused for its depth. */
  ghost predicate Refused(u: Utf8, v: Value, depth: nat) {
    forall suffix :: ReadBack(u, true, v, depth, suffix) == Bad(TooDeep)
  }

  ghost predicate Settled(u: Utf8, v: Value, depth: nat) {
    SelfDelimiting(u, true, v, depth) || Refused(u, v, depth)
  }

  lemma BelowLimit(u: Utf8, v: Value, depth: nat)
    requires depth > MAX_NESTING_DEPTH
    ensures Refused(u, v, depth)
  {
    hide Encoding, ReadLeaf, ReadTagged, ReadStruct, ReadPointer, ReadContainer;
  }

  lemma {:induction false} ValuesRefused(u: Utf8, items: seq<Value>, depth: nat, suffix: Bytes)
    requires forall x :: x in items ==> Settled(u, x, depth)
    requires exists x :: x in items && Refused(u, x, depth)
    ensures ReadValues(u, true, Flatten(Each(items)) + suffix, |items|, depth) == Bad(TooDeep)
    decreases |items|
  {
    hide ReadValue, Encoding;
    var x, more := items[0], items[1..];
    assert x in items;
    assert Each(items)[1..] == Each(more);
    var tail := Flatten(Each(more)) + suffix;
    assert Flatten(Each(items)) + suffix == Encoding(x) + tail;
    if Refused(u, x, depth) {
      assert ReadBack(u, true, x, depth, tail) == Bad(TooDeep);
    } else {
      assert ReadBack(u, true, x, depth, tail) == Got(x, tail);
      assert forall y :: y in more ==> y in items;
      var y :| y in items && Refused(u, y, depth);
      assert y in more;
      ValuesRefused(u, more, depth, suffix);
    }
  }

  lemma {:induction false} PairsRefused(u: Utf8, named: bool, es: seq<(Value, Value)>, depth: nat, suffix: Bytes)
    requires forall e :: e in es ==> Settled(u, e.0, depth) && Settled(u, e.1, depth)
    requires exists e :: e in es && (Refused(u, e.0, depth) || Refused(u, e.1, depth))
    requires named ==> forall e :: e in es ==> IsString(e.0)
    ensures ReadPairs(u, true, named, Flatten(EachPair(es)) + suffix, |es|, depth) == Bad(TooDeep)
    decreases |es|
  {
    hide ReadValue, Encoding;
    var e, more := es[0], es[1..];
    assert e in es;
    assert EachPair(es)[1..] == EachPair(more);
    var tail := Flatten(EachPair(more)) + suffix;
    var tail1 := Encoding(e.1) + tail;
    assert Flatten(EachPair(es)) + suffix == Encoding(e.0) + tail1;
    if Refused(u, e.0, depth) {
      assert ReadBack(u, true, e.0, depth, tail1) == Bad(TooDeep);
    } else {
      assert ReadBack(u, true, e.0, depth, tail1) == Got(e.0, tail1);
      if Refused(u, e.1, depth) {
        assert ReadBack(u, true, e.1, depth, tail) == Bad(TooDeep);
      } else {
        assert ReadBack(u, true, e.1, depth, tail) == Got(e.1, tail);
        assert forall y :: y in more ==> y in es;
        var y :| y in es && (Refused(u, y.0, depth) || Refused(u, y.1, depth));
        assert y in more;
        PairsRefused(u, named, more, depth, suffix);
      }
    }
  }

  lemma SequenceRefused(u: Utf8, items: seq<Value>, depth: nat, suffix: Bytes)
    requires |items| < U32 && forall x :: x in items ==> Settled(u, x, depth + 1)
    requires exists x :: x in items && Refused(u, x, depth + 1)
    ensures ReadSequence(u, true, BigEndian(|items|, 4) + Flatten(Each(items)) + suffix, depth) == Bad(TooDeep)
  {
    hide ReadValue, Encoding, BigEndian, ReadNumber;
    var body := Flatten(Each(items)) + suffix;
    assert BigEndian(|items|, 4) + Flatten(Each(items)) + suffix == BigEndian(|items|, 4) + body;
    LengthReads(|items|, body);
    FlattenLength(Each(items), 1);
    ValuesRefused(u, items, depth + 1, suffix);
  }

  lemma EntriesRefused(u: Utf8, named: bool, es: seq<(Value, Value)>, depth: nat, suffix: Bytes)
    requires |es| < U32 && forall e :: e in es ==> Settled(u, e.0, depth + 1) && Settled(u, e.1, depth + 1)
    requires exists e :: e in es && (Refused(u, e.0, depth + 1) || Refused(u, e.1, depth + 1))
    requires named ==> forall e :: e in es ==> IsString(e.0)
    ensures ReadEntries(u, true, named, BigEndian(|es|, 4) + Flatten(EachPair(es)) + suffix, depth) == Bad(TooDeep)
  {
    hide ReadValue, Encoding, BigEndian, ReadNumber;
    var body := Flatten(EachPair(es)) + suffix;
    assert BigEndian(|es|, 4) + Flatten(EachPair(es)) + suffix == BigEndian(|es|, 4) + body;
    LengthReads(|es|, body);
    FlattenLength(EachPair(es), 2);
    PairsRefused(u, named, es, depth + 1, suffix);
  }

  lemma SeqRefused(u: Utf8, v: Value, depth: nat)
    requires v.Seq? && |v.items| < U32 && depth <= MAX_NESTING_DEPTH
    requires forall x :: x in v.items ==> Settled(u, x, depth + 1)
    requires exists x :: x in v.items && Refused(u, x, depth + 1)
    ensures Refused(u, v, depth)
  {
    hide ReadTagged, ReadStruct, ReadPointer, ReadLeaf, ReadSequence, ReadEntries, BigEndian;
    forall suffix ensures ReadBack(u, true, v, depth, suffix) == Bad(TooDeep) {
      var s := Encoding(v) + suffix;
      assert ReadValue(u, true, s, depth) == ReadContainer(u, true, s[0], s[1..], depth);
      assert Each(v.items) == seq(|v.items|, i requires 0 <= i < |v.items| => Encoding(v.items[i]));
      assert s[1..] == BigEndian(|v.items|, 4) + Flatten(Each(v.items)) + suffix;
      SequenceRefused(u, v.items, depth, suffix);
    }
  }

  lemma SetRefused(u: Utf8, v: Value, depth: nat)
    requires v.Set? && |v.elems| < U32 && depth <= MAX_NESTING_DEPTH && Injective(v.elems)
    requires forall x :: x in v.elems ==> Settled(u, x, depth + 1)
    requires exists x :: x in v.elems && Refused(u, x, depth + 1)
    ensures Refused(u, v, depth)
  {
    hide ReadTagged, ReadStruct, ReadPointer, ReadLeaf, ReadSequence, ReadEntries, BigEndian, Sorted;
    hide InWireOrder;
    var xs := SetOrder(v.elems);
    forall x ensures x in xs <==> x in v.elems { assert x in xs <==> x in (set y | y in xs); }
    forall suffix ensures ReadBack(u, true, v, depth, suffix) == Bad(TooDeep) {
      var s := Encoding(v) + suffix;
      assert ReadValue(u, true, s, depth) == ReadContainer(u, true, s[0], s[1..], depth);
      assert s[1..] == BigEndian(|xs|, 4) + Flatten(Each(xs)) + suffix;
      SequenceRefused(u, xs, depth, suffix);
    }
  }

  lemma MapRefused(u: Utf8, m: map<Value, Value>, depth: nat)
    requires |m| < U32 && depth <= MAX_NESTING_DEPTH && Injective(m.Keys)
    requires forall k :: k in m ==> Settled(u, k, depth + 1) && Settled(u, m[k], depth + 1)
    requires exists k :: k in m && (Refused(u, k, depth + 1) || Refused(u, m[k], depth + 1))
    ensures Refused(u, Map(m), depth)
  {
    hide ReadTagged, ReadStruct, ReadPointer, ReadLeaf, ReadSequence, ReadEntries, BigEndian, Sorted, MapOf;
    hide InWireOrder;
    var es := MapOrder(m);
    assert exists e :: e in es && (Refused(u, e.0, depth + 1) || Refused(u, e.1, depth + 1)) by {
      var k :| k in m && (Refused(u, k, depth + 1) || Refused(u, m[k], depth + 1));
      assert (k, m[k]) in es;
    }
    forall suffix ensures ReadBack(u, true, Map(m), depth, suffix) == Bad(TooDeep) {
      MapText(m, es, suffix);
      hide Encoding, Refused, Flatten, EachPair;
      var s := Encoding(Map(m)) + suffix;
      assert ReadValue(u, true, s, depth) == ReadContainer(u, true, s[0], s[1..], depth);
      EntriesRefused(u, false, es, depth, suffix);
    }
  }

  lemma MapText(m: map<Value, Value>, es: seq<(Value, Value)>, suffix: Bytes)
    requires |es| == |m| && Sorted(MapCells(Map(m))) == Flatten(EachPair(es))
    ensures var s := Encoding(Map(m)) + suffix;
            s != [] && s[0] == 11 && s[1..] == BigEndian(|es|, 4) + Flatten(EachPair(es)) + suffix
  {
    hide BigEndian, Sorted, Flatten, EachPair, MapCells;
    assert Encoding(Map(m)) == [11] + BigEndian(|m|, 4) + Sorted(MapCells(Map(m)));
  }

  lemma EntriesValueRefused(u: Utf8, v: Value, depth: nat)
    requires v.Entries? && |v.entries| < U32 && depth <= MAX_NESTING_DEPTH
    requires forall e :: e in v.entries ==> Settled(u, e.0, depth + 1) && Settled(u, e.1, depth + 1)
    requires exists e :: e in v.entries && (Refused(u, e.0, depth + 1) || Refused(u, e.1, depth + 1))
    requires v.layout == OBJECT ==> forall e :: e in v.entries ==> IsString(e.0)
    ensures Refused(u, v, depth)
  {
    hide ReadTagged, ReadStruct, ReadPointer, ReadLeaf, ReadSequence, ReadEntries, BigEndian, LastWins, Encoding, Flatten, EachPair;
    var es := v.entries;
    forall suffix ensures ReadBack(u, true, v, depth, suffix) == Bad(TooDeep) {
      EntriesText(v, suffix);
      var s := Encoding(v) + suffix;
      assert ReadValue(u, true, s, depth) == ReadContainer(u, true, s[0], s[1..], depth);
      EntriesRefused(u, v.layout == OBJECT, es, depth, suffix);
    }
  }

  lemma EntriesText(v: Value, suffix: Bytes)
    requires v.Entries?
    ensures var s := Encoding(v) + suffix;
            && s != [] && s[0] == EntriesTag(v.layout)
            && s[1..] == BigEndian(|v.entries|, 4) + Flatten(EachPair(v.entries)) + suffix
  {
    hide BigEndian, Flatten;
    var es := v.entries;
    assert EachPair(es) == seq(|es|, i requires 0 <= i < |es| => Encoding(es[i].0) + Encoding(es[i].1));
  }

  /** `a` followed by `b`: the read goes wrong in whichever part is refused. */
  lemma TaggedRefused(u: Utf8, v: Value, depth: nat)
    requires v.Tagged? && depth <= MAX_NESTING_DEPTH
    requires Refused(u, Text(SYMBOL, v.tag), depth + 1)
             || (SelfDelimiting(u, true, Text(SYMBOL, v.tag), depth + 1) && Refused(u, v.form, depth + 1))
    ensures Refused(u, v, depth)
  {
    hide ReadStruct, ReadPointer, ReadLeaf, ReadContainer, BigEndian;
    var name := Text(SYMBOL, v.tag);
    forall suffix ensures ReadBack(u, true, v, depth, suffix) == Bad(TooDeep) {
      var s, t1 := Encoding(v) + suffix, Encoding(v.form) + suffix;
      assert ReadValue(u, true, s, depth) == ReadTagged(u, true, s[1..], depth);
      assert s[1..] == Encoding(name) + t1;
      assert ReadBack(u, true, name, depth + 1, t1) in {Bad(TooDeep), Got(name, t1)};
      assert ReadBack(u, true, name, depth + 1, t1).Got? ==> ReadBack(u, true, v.form, depth + 1, suffix) == Bad(TooDeep);
    }
  }

  lemma PointerRefused(u: Utf8, v: Value, depth: nat)
    requires v.Pointer? && depth <= MAX_NESTING_DEPTH
    requires Refused(u, Text(KEYWORD, v.context), depth + 1)
             || (SelfDelimiting(u, true, Text(KEYWORD, v.context), depth + 1) && Refused(u, Map(v.attributes), depth + 1))
    ensures Refused(u, v, depth)
  {
    hide ReadStruct, ReadTagged, ReadLeaf, ReadContainer, BigEndian, Sorted;
    var name := Text(KEYWORD, v.context);
    assert MapCells(v) == MapCells(Map(v.attributes));
    forall suffix ensures ReadBack(u, true, v, depth, suffix) == Bad(TooDeep) {
      var s, t1 := Encoding(v) + suffix, Encoding(Map(v.attributes)) + suffix;
      assert ReadValue(u, true, s, depth) == ReadPointer(u, true, s[1..], depth);
      assert s[1..] == Encoding(name) + t1;
      assert ReadBack(u, true, name, depth + 1, t1) in {Bad(TooDeep), Got(name, t1)};
      assert ReadBack(u, true, name, depth + 1, t1).Got? ==>
               ReadBack(u, true, Map(v.attributes), depth + 1, suffix) == Bad(TooDeep);
    }
  }

  lemma StructRefused(u: Utf8, v: Value, depth: nat)
    requires v.Struct? && depth <= MAX_NESTING_DEPTH
    requires Settled(u, Text(STRING, v.name), depth + 1)
    requires Settled(u, Seq(VECTOR, Strings(v.fields)), depth + 1)
    requires Refused(u, Text(STRING, v.name), depth + 1) || Refused(u, Seq(VECTOR, Strings(v.fields)), depth + 1)
             || Refused(u, Seq(VECTOR, v.values), depth + 1)
    ensures Refused(u, v, depth)
  {
    hide ReadPointer, ReadTagged, ReadLeaf, ReadContainer, BigEndian, Encoding, StructOf;
    var name, fields, values := Text(STRING, v.name), Seq(VECTOR, Strings(v.fields)), Seq(VECTOR, v.values);
    StructEncoding(v);
    forall suffix ensures ReadBack(u, true, v, depth, suffix) == Bad(TooDeep) {
      var s := Encoding(v) + suffix;
      var t2 := Encoding(values) + suffix;
      var t1 := Encoding(fields) + t2;
      assert s[0] == 33 && s[1..] == Encoding(name) + t1;
      assert ReadValue(u, true, s, depth) == ReadStruct(u, true, s[1..], depth);
      assert ReadBack(u, true, name, depth + 1, t1) in {Bad(TooDeep), Got(name, t1)};
      assert ReadBack(u, true, fields, depth + 1, t2) in {Bad(TooDeep), Got(fields, t2)};
      assert ReadBack(u, true, name, depth + 1, t1).Got? && ReadBack(u, true, fields, depth + 1, t2).Got? ==>
               ReadBack(u, true, values, depth + 1, suffix) == Bad(TooDeep);
    }
  }

  lemma WellFormedInjective(u: Utf8, vs: set<Value>)
    requires AcceptsAscii(u) && forall x :: x in vs ==> WellFormed(u, x) && Sized(x)
    ensures Injective(vs)
  {
    hide WellFormed, Sized, Encoding;
    forall x, y | x in vs && y in vs && Encoding(x) == Encoding(y) ensures x == y {
      EncodingInjective(u, x, y);
    }
  }

  /** Reading `v` is decided: it succeeds, or it is refused because `v` is too deep. */
  ghost predicate Decided(u: Utf8, v: Value, depth: nat) {
    Settled(u, v, depth) && (!Shallow(v, depth) ==> Refused(u, v, depth))
  }

  lemma DeepSequence(u: Utf8, v: Value, depth: nat)
    requires v.Seq? && |v.items| < U32 && depth <= MAX_NESTING_DEPTH && !Shallow(v, depth)
    requires forall x :: x in v.items ==> Decided(u, x, depth + 1)
    ensures Refused(u, v, depth)
  {
    hide ReadBack, SelfDelimiting;
    var x :| x in v.items && !Shallow(x, depth + 1);
    assert Decided(u, x, depth + 1);
    SeqRefused(u, v, depth);
  }

  lemma DeepSet(u: Utf8, v: Value, depth: nat)
    requires v.Set? && |v.elems| < U32 && depth <= MAX_NESTING_DEPTH && !Shallow(v, depth) && Injective(v.elems)
    requires forall x :: x in v.elems ==> Decided(u, x, depth + 1)
    ensures Refused(u, v, depth)
  {
    hide ReadBack, SelfDelimiting;
    var x :| x in v.elems && !Shallow(x, depth + 1);
    assert Decided(u, x, depth + 1);
    SetRefused(u, v, depth);
  }

  lemma DeepMap(u: Utf8, m: map<Value, Value>, depth: nat)
    requires |m| < U32 && depth <= MAX_NESTING_DEPTH && !Shallow(Map(m), depth) && Injective(m.Keys)
    requires forall k :: k in m ==> Decided(u, k, depth + 1) && Decided(u, m[k], depth + 1)
    ensures Refused(u, Map(m), depth)
  {
    hide ReadBack, SelfDelimiting;
    var k :| k in m && !(Shallow(k, depth + 1) && Shallow(m[k], depth + 1));
    assert Decided(u, k, depth + 1) && Decided(u, m[k], depth + 1);
    MapRefused(u, m, depth);
  }

  lemma DeepEntries(u: Utf8, v: Value, depth: nat)
    requires v.Entries? && |v.entries| < U32 && depth <= MAX_NESTING_DEPTH && !Shallow(v, depth)
    requires forall e :: e in v.entries ==> Decided(u, e.0, depth + 1) && Decided(u, e.1, depth + 1)
    requires v.layout == OBJECT ==> forall e :: e in v.entries ==> IsString(e.0)
    ensures Refused(u, v, depth)
  {
    hide ReadBack, SelfDelimiting;
    var e :| e in v.entries && !(Shallow(e.0, depth + 1) && Shallow(e.1, depth + 1));
    assert Decided(u, e.0, depth + 1) && Decided(u, e.1, depth + 1);
    EntriesValueRefused(u, v, depth);
  }

  lemma DeepTagged(u: Utf8, v: Value, depth: nat)
    requires v.Tagged? && AcceptsAscii(u) && WellFormed(u, v) && Sized(v)
    requires depth <= MAX_NESTING_DEPTH && !Shallow(v, depth) && Decided(u, v.form, depth + 1)
    ensures Refused(u, v, depth)
  {
    hide ReadBack, SelfDelimiting;
    if depth + 1 > MAX_NESTING_DEPTH { BelowLimit(u, Text(SYMBOL, v.tag), depth + 1); }
    else { TextDecodes(u, true, SYMBOL, v.tag, depth + 1); }
    TaggedRefused(u, v, depth);
  }

  lemma PointerShallow(v: Value, depth: nat)
    requires v.Pointer? && depth + 1 <= MAX_NESTING_DEPTH
    ensures Shallow(v, depth) <==> Shallow(Map(v.attributes), depth + 1)
  {
    hide Encoding, ReadValue, WellFormed, Sized;
  }

  lemma PointerParts(u: Utf8, v: Value)
    requires v.Pointer? && WellFormed(u, v) && Sized(v)
    ensures u(v.context) && |v.context| < U32 && |v.attributes| < U32
  {
  }

  lemma PointerUnfolds(u: Utf8, v: Value, depth: nat)
    requires v.Pointer? && AcceptsAscii(u) && WellFormed(u, v) && Sized(v) && depth + 1 <= MAX_NESTING_DEPTH
    ensures |v.attributes| < U32 && SelfDelimiting(u, true, Text(KEYWORD, v.context), depth + 1)
    ensures Shallow(v, depth) <==> Shallow(Map(v.attributes), depth + 1)
  {
    hide SelfDelimiting, Encoding, ReadValue, WellFormed, Sized, Shallow;
    PointerParts(u, v);
    PointerShallow(v, depth);
    TextDecodes(u, true, KEYWORD, v.context, depth + 1);
  }

  lemma DeepPointer(u: Utf8, v: Value, depth: nat)
    requires v.Pointer? && AcceptsAscii(u) && WellFormed(u, v) && Sized(v)
    requires depth <= MAX_NESTING_DEPTH && !Shallow(v, depth) && Injective(v.attributes.Keys)
    requires forall k :: k in v.attributes ==> Decided(u, k, depth + 2) && Decided(u, v.attributes[k], depth + 2)
    ensures Refused(u, v, depth)
  {
    hide *;
    if depth + 1 > MAX_NESTING_DEPTH {
      BelowLimit(u, Text(KEYWORD, v.context), depth + 1);
    } else {
      PointerUnfolds(u, v, depth);
      DeepMap(u, v.attributes, depth + 1);
    }
    PointerRefused(u, v, depth);
  }

  lemma StructUnfolds(v: Value, depth: nat)
    requires v.Struct?
    ensures depth + 1 <= MAX_NESTING_DEPTH && (v.fields != [] ==> depth + 2 <= MAX_NESTING_DEPTH) ==>
              (Shallow(v, depth) <==> Shallow(Seq(VECTOR, v.values), depth + 1))
  {
  }

  /** The fields of a struct are refused one level too deep, and otherwise its values are. */
  lemma DeepInside(u: Utf8, v: Value, depth: nat)
    requires v.Struct? && AcceptsAscii(u) && WellFormed(u, v) && Sized(v)
    requires depth + 1 <= MAX_NESTING_DEPTH && !Shallow(v, depth)
    requires forall x :: x in v.values ==> Decided(u, x, depth + 2)
    ensures var fields, values := Seq(VECTOR, Strings(v.fields)), Seq(VECTOR, v.values);
            Refused(u, fields, depth + 1) || (SelfDelimiting(u, true, fields, depth + 1) && Refused(u, values, depth + 1))
  {
    StructUnfolds(v, depth);
    hide ReadBack, SelfDelimiting, Encoding, Refused, ReadValue, TextBytes;
    var fields := Seq(VECTOR, Strings(v.fields));
    FieldsWellFormed(u, v);
    FieldsSized(v);
    if v.fields != [] && depth + 2 > MAX_NESTING_DEPTH {
      forall x | x in fields.items ensures Decided(u, x, depth + 2) { BelowLimit(u, x, depth + 2); }
      assert fields.items[0] in fields.items;
      DeepSequence(u, fields, depth + 1);
    } else {
      assert Shallow(fields, depth + 1);
      Decodes(u, true, fields, depth + 1);
      DeepSequence(u, Seq(VECTOR, v.values), depth + 1);
    }
  }

  lemma DeepStruct(u: Utf8, v: Value, depth: nat)
    requires v.Struct? && AcceptsAscii(u) && WellFormed(u, v) && Sized(v)
    requires depth <= MAX_NESTING_DEPTH && !Shallow(v, depth)
    requires forall x :: x in v.values ==> Decided(u, x, depth + 2)
    ensures Refused(u, v, depth)
  {
    hide ReadBack, SelfDelimiting, Encoding, Refused, ReadValue, TextBytes, Shallow, Decided;
    if depth + 1 > MAX_NESTING_DEPTH {
      BelowLimit(u, Text(STRING, v.name), depth + 1);
      BelowLimit(u, Seq(VECTOR, Strings(v.fields)), depth + 1);
    } else {
      TextDecodes(u, true, STRING, v.name, depth + 1);
      DeepInside(u, v, depth);
    }
    StructRefused(u, v, depth);
  }

  /** The encoding of a value beyond the decoder's depth limit is refused, whatever follows it. */
  lemma {:induction false} DeepRefused(u: Utf8, v: Value, depth: nat)
    requires AcceptsAscii(u) && WellFormed(u, v) && Sized(v)
    ensures Decided(u, v, depth)
    decreases v
  {
    if Shallow(v, depth) {
      Decodes(u, true, v, depth);
    } else {
      DeepCases(u, v, depth);
    }
  }

  lemma {:induction false} DeepCases(u: Utf8, v: Value, depth: nat)
    requires AcceptsAscii(u) && WellFormed(u, v) && Sized(v) && !Shallow(v, depth)
    ensures Refused(u, v, depth)
    decreases v, 0
  {
    hide Decided, Refused, Shallow;
    if depth > MAX_NESTING_DEPTH {
      BelowLimit(u, v, depth);
    } else {
      DeepMembers(u, v, depth);
      match v
      case Seq(_, items) => DeepSequence(u, v, depth);
      case Set(elems) => WellFormedInjective(u, elems); DeepSet(u, v, depth);
      case Map(pairs) => WellFormedInjective(u, pairs.Keys); DeepMap(u, pairs, depth);
      case Entries(_, entries) => DeepEntries(u, v, depth);
      case Tagged(_, form) => DeepTagged(u, v, depth);
      case Struct(_, _, values) => DeepStruct(u, v, depth);
      case Pointer(_, attributes) => WellFormedInjective(u, attributes.Keys); DeepPointer(u, v, depth);
      case _ => LeavesAreShallow(v, depth);
    }
  }

  lemma LeavesAreShallow(v: Value, depth: nat)
    requires v.Nil? || v.Bool? || v.Int? || v.Float? || v.Char? || v.Text? || v.Handle?
    ensures Shallow(v, depth) <==> depth <= MAX_NESTING_DEPTH
  {
  }

  /** Everything `v` is made of is decided at the depth the decoder reads it at. */
  lemma {:induction false} DeepMembers(u: Utf8, v: Value, depth: nat)
    requires AcceptsAscii(u) && WellFormed(u, v) && Sized(v)
    ensures v.Seq? ==> forall x :: x in v.items ==> Decided(u, x, depth + 1)
    ensures v.Set? ==> forall x :: x in v.elems ==> Decided(u, x, depth + 1)
    ensures v.Map? ==> forall k :: k in v.pairs ==> Decided(u, k, depth + 1) && Decided(u, v.pairs[k], depth + 1)
    ensures v.Entries? ==> forall e :: e in v.entries ==> Decided(u, e.0, depth + 1) && Decided(u, e.1, depth + 1)
    ensures v.Tagged? ==> Decided(u, v.form, depth + 1)
    ensures v.Struct? ==> forall x :: x in v.values ==> Decided(u, x, depth + 2)
    ensures v.Pointer? ==>
              forall k :: k in v.attributes ==> Decided(u, k, depth + 2) && Decided(u, v.attributes[k], depth + 2)
    decreases v, 0, 0
  {
    hide Decided;
    match v
    case Seq(_, items) => forall x | x in items ensures Decided(u, x, depth + 1) { DeepRefused(u, x, depth + 1); }
    case Set(elems) => forall x | x in elems ensures Decided(u, x, depth + 1) { DeepRefused(u, x, depth + 1); }
    case Map(pairs) =>
      forall k | k in pairs ensures Decided(u, k, depth + 1) && Decided(u, pairs[k], depth + 1) {
        DeepRefused(u, k, depth + 1);
        DeepRefused(u, pairs[k], depth + 1);
      }
    case Entries(_, entries) =>
      forall e | e in entries ensures Decided(u, e.0, depth + 1) && Decided(u, e.1, depth + 1) {
        DeepRefused(u, e.0, depth + 1);
        DeepRefused(u, e.1, depth + 1);
      }
    case Tagged(_, form) => DeepRefused(u, form, depth + 1);
    case Struct(_, _, values) => forall x | x in values ensures Decided(u, x, depth + 2) { DeepRefused(u, x, depth + 2); }
    case Pointer(_, attributes) =>
      forall k | k in attributes ensures Decided(u, k, depth + 2) && Decided(u, attributes[k], depth + 2) {
        DeepRefused(u, k, depth + 2);
        DeepRefused(u, attributes[k], depth + 2);
      }
    case _ =>
  }

  lemma FieldsSized(v: Value)
    requires v.Struct? && Sized(v)
    ensures Sized(Seq(VECTOR, Strings(v.fields)))
  {
    forall x | x in Strings(v.fields) ensures Sized(x) {
      var i :| 0 <= i < |v.fields| && x == Text(STRING, v.fields[i]);
      assert v.fields[i] in v.fields;
    }
  }

  // ----- frames -----

  /**
   The round trip.  A frame that `encode` emits decodes to the value it was made from exactly
   when the value is within the decoder's count of levels; otherwise it is refused as too deep.
   */
  lemma FrameRoundTrip(u: Utf8, v: Value)
    requires AcceptsAscii(u) && WellFormed(u, v) && Frame(v).Got?
    ensures Decode(u, Frame(v).value) == if Shallow(v, 0) then Got(v, []) else Bad(TooDeep)
  {
    hide ReadValue, Encoding, WellFormed, Sized, Shallow, Writable;
    var frame := Frame(v).value;
    assert frame[4..] == Encoding(v) + [];
    if Shallow(v, 0) {
      Decodes(u, true, v, 0);
      assert ReadBack(u, true, v, 0, []) == Got(v, []);
    } else {
      DeepRefused(u, v, 0);
      assert ReadBack(u, true, v, 0, []) == Bad(TooDeep);
    }
  }

  /** Within the decoder's limits every emitted frame is canonical, and re-encodes to itself. */
  lemma EmittedIsCanonical(u: Utf8, v: Value)
    requires AcceptsAscii(u) && WellFormed(u, v) && Frame(v).Got? && Shallow(v, 0)
    ensures DecodeCanonical(u, Frame(v).value) == Got(v, [])
    ensures Frame(DecodeCanonical(u, Frame(v).value).value) == Frame(v)
  {
    hide Frame, Decode, WellFormed, Shallow;
    FrameRoundTrip(u, v);
  }

  /** Equal frames come from equal values. */
  lemma FramesInjective(u: Utf8, a: Value, b: Value)
    requires AcceptsAscii(u) && WellFormed(u, a) && WellFormed(u, b)
    requires Frame(a).Got? && Frame(a) == Frame(b)
    ensures a == b
  {
    hide Encoding, WellFormed, Writable;
    assert Frame(a).value[4..] == Encoding(a) && Frame(b).value[4..] == Encoding(b);
    EncodingInjective(u, a, b);
  }

  // ----- a value the encoder accepts and the decoder refuses -----

  /** A one-field struct inside `n` lists. */
  function Deep(n: nat): Value {
    if n == 0 then Struct([97], [[98]], [Nil]) else Seq(LIST, [Deep(n - 1)])
  }

  lemma {:induction false} DeepFacts(u: Utf8, n: nat, depth: nat)
    requires AcceptsAscii(u)
    ensures WellFormed(u, Deep(n)) && Sized(Deep(n))
    ensures Writable(Deep(n), depth) <==> depth + n + 1 <= MAX_NESTING_DEPTH
    ensures Shallow(Deep(n), depth) <==> depth + n + 2 <= MAX_NESTING_DEPTH
    ensures |Encoding(Deep(n))| <= 5 * n + 40
    decreases n
  {
    if n == 0 {
      DeepBase(u, depth);
    } else {
      DeepFacts(u, n - 1, depth + 1);
      DeepStep(u, Deep(n - 1), depth);
    }
  }

  /** A list of one value: one level and five bytes more. */
  lemma DeepStep(u: Utf8, x: Value, depth: nat)
    requires AcceptsAscii(u) && WellFormed(u, x) && Sized(x)
    ensures var v := Seq(LIST, [x]);
            && WellFormed(u, v) && Sized(v) && |Encoding(v)| == |Encoding(x)| + 5
            && (Writable(v, depth) <==> depth <= MAX_NESTING_DEPTH && Writable(x, depth + 1))
            && (Shallow(v, depth) <==> depth <= MAX_NESTING_DEPTH && Shallow(x, depth + 1))
  {
    hide BigEndian;
    assert x in [x];
    var ss := seq(1, i requires 0 <= i < 1 => Encoding([x][i]));
    assert ss == [Encoding(x)];
    assert Flatten(ss) == Encoding(x) + Flatten(ss[1..]);
  }

  lemma DeepBase(u: Utf8, depth: nat)
    requires AcceptsAscii(u)
    ensures WellFormed(u, Deep(0)) && Sized(Deep(0))
    ensures Writable(Deep(0), depth) <==> depth + 1 <= MAX_NESTING_DEPTH
    ensures Shallow(Deep(0), depth) <==> depth + 2 <= MAX_NESTING_DEPTH
    ensures |Encoding(Deep(0))| <= 40
  {
    hide BigEndian;
    var fields: seq<Bytes> := [[98]];
    assert u([97]) && u([98]);
    assert RESULT_NAME != [97] by { assert |RESULT_NAME| == 17; }
    assert Nil in [Nil];
    assert TextsBytes(fields) == TextBytes(STRING, [98]) + TextsBytes(fields[1..]);
    var ss := seq(1, i requires 0 <= i < 1 => Encoding([Nil][i]));
    assert ss == [Encoding(Nil)];
    assert Flatten(ss) == Encoding(Nil) + Flatten(ss[1..]);
  }

  /** So the round trip is false of some encodable values: the encoder counts one level fewer. */
  lemma EncodedButRefused(u: Utf8)
    requires AcceptsAscii(u)
    ensures Frame(Deep(255)).Got? && Decode(u, Frame(Deep(255)).value) == Bad(TooDeep)
  {
    hide Encoding, Decode;
    DeepFacts(u, 255, 0);
    FrameRoundTrip(u, Deep(255));
  }
}
