/**
 The codec as it runs: an encoder that appends to one output buffer and sorts what it
 collected, and a reader that advances a cursor over the frame.
 */
module HtaCodec {
  import opened Results
  import opened ByteStrings
  import opened Words
  import opened Sequences
  import opened Ordering
  import opened HtaValues
  import opened HtaRoundTrip
  import opened HtaFrames

  type Res<+T> = Result<T, Error>

  lemma {:induction false} FlattenSnoc(ss: seq<Bytes>, x: Bytes)
    ensures Flatten(ss + [x]) == Flatten(ss) + x
    decreases |ss|
  {
    if ss == [] {
      assert ss + [x] == [x];
      assert Flatten([x]) == x + Flatten([x][1..]);
    } else {
      assert (ss + [x])[1..] == ss[1..] + [x];
      FlattenSnoc(ss[1..], x);
    }
  }

  lemma EachSnoc(items: seq<Value>, i: nat)
    requires i < |items|
    ensures Flatten(Each(items[..i + 1])) == Flatten(Each(items[..i])) + Encoding(items[i])
  {
    hide Encoding, Flatten;
    assert Each(items[..i + 1]) == Each(items[..i]) + [Encoding(items[i])];
    FlattenSnoc(Each(items[..i]), Encoding(items[i]));
  }

  lemma NoneYet(items: seq<Value>)
    ensures Flatten(Each(items[..0])) == []
  {
  }

  lemma NoPairsYet(es: seq<(Value, Value)>)
    ensures Flatten(EachPair(es[..0])) == []
  {
  }

  lemma EachPairSnoc(es: seq<(Value, Value)>, i: nat)
    requires i < |es|
    ensures Flatten(EachPair(es[..i + 1])) == Flatten(EachPair(es[..i])) + Encoding(es[i].0) + Encoding(es[i].1)
  {
    hide Encoding, Flatten;
    assert EachPair(es[..i + 1]) == EachPair(es[..i]) + [Encoding(es[i].0) + Encoding(es[i].1)];
    FlattenSnoc(EachPair(es[..i]), Encoding(es[i].0) + Encoding(es[i].1));
  }

  lemma {:induction false} TextsSnoc(fields: seq<Bytes>, x: Bytes)
    ensures TextsBytes(fields + [x]) == TextsBytes(fields) + TextBytes(STRING, x)
    decreases |fields|
  {
    hide TextBytes;
    if fields == [] {
      assert fields + [x] == [x];
      assert TextsBytes([x]) == TextBytes(STRING, x) + TextsBytes([x][1..]);
    } else {
      assert (fields + [x])[1..] == fields[1..] + [x];
      TextsSnoc(fields[1..], x);
    }
  }

  // ----- encoder -----

  class Encoder {
    var output: Bytes

    constructor ()
      ensures output == []
    {
      output := [];
    }

    method Length(n: nat) returns (ok: bool)
      modifies this
      ensures ok <==> n < U32
      ensures ok ==> output == old(output) + BigEndian(n, 4)
    {
      if n >= U32 { return false; }
      output := output + BigEndian(n, 4);
      ok := true;
    }

    method Payload(d: Bytes) returns (ok: bool)
      modifies this
      ensures ok <==> |d| < U32
      ensures ok ==> output == old(output) + Data(d)
    {
      ok := Length(|d|);
      output := output + d;
    }

    /** Text nested in another value counts as one level more. */
    method NestedText(k: TextKind, d: Bytes, depth: nat) returns (ok: bool)
      modifies this
      ensures ok <==> depth <= MAX_NESTING_DEPTH && |d| < U32
      ensures ok ==> output == old(output) + TextBytes(k, d)
    {
      if depth > MAX_NESTING_DEPTH { return false; }
      output := output + [TextTag(k)];
      ok := Payload(d);
    }

    method Append(d: Bytes)
      modifies this
      ensures output == old(output) + d
    {
      output := output + d;
    }

    method TaggedPayload(tag: byte, d: Bytes) returns (ok: bool)
      modifies this
      ensures ok <==> |d| < U32
      ensures ok ==> output == old(output) + ([tag] + Data(d))
    {
      output := output + [tag];
      ok := Payload(d);
    }

    /** Writes a value; members of sets and maps are met in any order. */
    method Bare(v: Value, depth: nat, ghost u: Utf8) returns (ok: bool)
      requires AcceptsAscii(u) && WellFormed(u, v)
      modifies this
      ensures ok <==> Sized(v) && Writable(v, depth)
      ensures ok ==> output == old(output) + Encoding(v)
      decreases v, 3
    {
      hide Encoding, Sized, WellFormed;
      if depth > MAX_NESTING_DEPTH { return false; }
      if v.Seq? { ok := SeqBody(v, depth, u); }
      else if v.Set? { ok := SetBody(v, depth, u); }
      else if v.Map? { ok := MapValue(v, depth, u); }
      else if v.Entries? { ok := Pairs(v, depth, u); }
      else if v.Tagged? { ok := TaggedBody(v, depth, u); }
      else if v.Struct? { ok := StructBody(v, depth, u); }
      else if v.Pointer? { ok := PointerBody(v, depth, u); }
      else if v.Handle? { ok := HandleBody(v); }
      else { ok := Leaf(v); }
    }

    method Leaf(v: Value) returns (ok: bool)
      requires v.Nil? || v.Bool? || v.Int? || v.Float? || v.Char? || v.Text?
      modifies this
      ensures ok <==> Sized(v)
      ensures ok ==> output == old(output) + Encoding(v)
    {
      hide BigEndian, Data, DecimalText, Finite;
      ok := true;
      if v.Nil? { Append([0]); }
      else if v.Bool? { Append([if v.b then 2 else 1]); }
      else if v.Int? {
        if FitsLong(v.n) { Append([3] + BigEndian(ToUnsigned(v.n), 8)); }
        else { ok := TaggedPayload(20, DecimalText(v.n)); }
      } else if v.Float? {
        if !Finite(v.bits) { return false; }
        Append([15] + BigEndian(v.bits, 8));
      } else if v.Char? { Append([19] + BigEndian(v.scalar, 4)); }
      else { ok := TaggedPayload(TextTag(v.text), v.data); }
    }

    method HandleBody(v: Value) returns (ok: bool)
      requires v.Handle?
      modifies this
      ensures ok <==> Sized(v)
      ensures ok ==> output == old(output) + Encoding(v)
    {
      hide BigEndian, Data;
      ok := TaggedPayload(12, v.provider);
      if !ok { return; }
      ok := Payload(v.typeName);
      Append(BigEndian(v.id, 8));
    }

    method SeqBody(v: Value, depth: nat, ghost u: Utf8) returns (ok: bool)
      requires v.Seq? && AcceptsAscii(u) && WellFormed(u, v) && depth <= MAX_NESTING_DEPTH
      modifies this
      ensures ok <==> Sized(v) && Writable(v, depth)
      ensures ok ==> output == old(output) + Encoding(v)
      decreases v, 1
    {
      hide *;
      SeqLimits(u, v, depth);
      SeqEncoded(output, v);
      ok := Sequence(SeqTag(v.kind), v, v.items, depth, u);
    }

    method MapValue(v: Value, depth: nat, ghost u: Utf8) returns (ok: bool)
      requires v.Map? && AcceptsAscii(u) && WellFormed(u, v) && depth <= MAX_NESTING_DEPTH
      modifies this
      ensures ok <==> Sized(v) && Writable(v, depth)
      ensures ok ==> output == old(output) + Encoding(v)
      decreases v, 1
    {
      hide *;
      MapLimits(u, v, depth);
      MapEncoded(output, v);
      ok := MapBody(v, v.pairs, depth, u);
    }

    method PointerBody(v: Value, depth: nat, ghost u: Utf8) returns (ok: bool)
      requires v.Pointer? && AcceptsAscii(u) && WellFormed(u, v) && depth <= MAX_NESTING_DEPTH
      modifies this
      ensures ok <==> Sized(v) && Writable(v, depth)
      ensures ok ==> output == old(output) + Encoding(v)
      decreases v, 1
    {
      hide *;
      PointerLimits(u, v, depth);
      PointerEncoded(output, v);
      Append([34]);
      ok := NestedText(KEYWORD, v.context, depth + 1);
      if !ok { return; }
      ok := MapBody(v, v.attributes, depth + 1, u);
    }

    method TaggedBody(v: Value, depth: nat, ghost u: Utf8) returns (ok: bool)
      requires v.Tagged? && AcceptsAscii(u) && WellFormed(u, v) && depth <= MAX_NESTING_DEPTH
      modifies this
      ensures ok <==> Sized(v) && Writable(v, depth)
      ensures ok ==> output == old(output) + Encoding(v)
      decreases v, 1
    {
      hide *;
      TaggedLimits(u, v, depth);
      TaggedEncoded(output, v);
      Append([31]);
      ok := NestedText(SYMBOL, v.tag, depth + 1);
      if !ok { return; }
      ok := Bare(v.form, depth + 1, u);
    }

    method Sequence(tag: byte, v: Value, items: seq<Value>, depth: nat, ghost u: Utf8) returns (ok: bool)
      requires (v.Seq? && items == v.items) || (v.Struct? && items == v.values)
      requires AcceptsAscii(u) && forall x :: x in items ==> WellFormed(u, x)
      modifies this
      ensures ok <==> |items| < U32 && forall x :: x in items ==> Sized(x) && Writable(x, depth + 1)
      ensures ok ==> output == old(output) + [tag] + BigEndian(|items|, 4) + Flatten(Each(items))
      decreases v, 0
    {
      hide *;
      output := output + [tag];
      ok := Length(|items|);
      if !ok { return; }
      ghost var head := output;
      NoneYet(items);
      var i := 0;
      while i < |items|
        invariant 0 <= i <= |items|
        invariant forall j :: 0 <= j < i ==> Sized(items[j]) && Writable(items[j], depth + 1)
        invariant output == head + Flatten(Each(items[..i]))
      {
        EachSnoc(items, i);
        assert items[i] in items;
        ok := Bare(items[i], depth + 1, u);
        if !ok { return; }
        i := i + 1;
      }
      assert items[..i] == items;
      assert forall x :: x in items ==> exists j :: 0 <= j < |items| && items[j] == x;
    }

    method Pairs(v: Value, depth: nat, ghost u: Utf8) returns (ok: bool)
      requires v.Entries? && AcceptsAscii(u) && WellFormed(u, v) && depth <= MAX_NESTING_DEPTH
      modifies this
      ensures ok <==> Sized(v) && Writable(v, depth)
      ensures ok ==> output == old(output) + Encoding(v)
      decreases v, 1
    {
      hide *;
      EntriesLimits(u, v, depth);
      EntriesEncoded(output, v);
      ok := PairLoop(EntriesTag(v.layout), v, depth, u);
    }

    method PairLoop(tag: byte, v: Value, depth: nat, ghost u: Utf8) returns (ok: bool)
      requires v.Entries? && AcceptsAscii(u) && forall e :: e in v.entries ==> WellFormed(u, e.0) && WellFormed(u, e.1)
      modifies this
      ensures ok <==> |v.entries| < U32 && forall e :: e in v.entries ==>
                        Sized(e.0) && Sized(e.1) && Writable(e.0, depth + 1) && Writable(e.1, depth + 1)
      ensures ok ==> output == old(output) + [tag] + BigEndian(|v.entries|, 4) + Flatten(EachPair(v.entries))
      decreases v, 0
    {
      hide *;
      NoPairsYet(v.entries);
      var es := v.entries;
      output := output + [tag];
      ok := Length(|es|);
      if !ok { return; }
      ghost var head := output;
      var i := 0;
      while i < |es|
        invariant 0 <= i <= |es|
        invariant forall j :: 0 <= j < i ==> Sized(es[j].0) && Sized(es[j].1)
                                             && Writable(es[j].0, depth + 1) && Writable(es[j].1, depth + 1)
        invariant output == head + Flatten(EachPair(es[..i]))
      {
        EachPairSnoc(es, i);
        assert es[i] in es;
        ok := Bare(es[i].0, depth + 1, u);
        if !ok { return; }
        ok := Bare(es[i].1, depth + 1, u);
        if !ok { return; }
        i := i + 1;
      }
      assert es[..i] == es;
    }

    method StructBody(v: Value, depth: nat, ghost u: Utf8) returns (ok: bool)
      requires v.Struct? && AcceptsAscii(u) && WellFormed(u, v) && depth <= MAX_NESTING_DEPTH
      modifies this
      ensures ok <==> Sized(v) && Writable(v, depth)
      ensures ok ==> output == old(output) + Encoding(v)
      decreases v, 1
    {
      hide *;
      StructLimits(u, v, depth);
      StructEncoded(output, v);
      Append([33]);
      ok := NestedText(STRING, v.name, depth + 1);
      if !ok { return; }
      ok := FieldNames(v.fields, depth);
      if !ok { return; }
      ok := Sequence(9, v, v.values, depth, u);
    }

    method FieldNames(fields: seq<Bytes>, depth: nat) returns (ok: bool)
      requires depth + 1 <= MAX_NESTING_DEPTH
      modifies this
      ensures ok <==> |fields| < U32 && forall f :: f in fields ==> |f| < U32
      ensures ok ==> output == old(output) + ([9] + BigEndian(|fields|, 4) + TextsBytes(fields))
    {
      hide BigEndian, TextBytes;
      Append([9]);
      ok := Length(|fields|);
      if !ok { return; }
      ghost var head := output;
      var i := 0;
      while i < |fields|
        invariant 0 <= i <= |fields|
        invariant forall j :: 0 <= j < i ==> |fields[j]| < U32
        invariant output == head + TextsBytes(fields[..i])
      {
        TextsSnoc(fields[..i], fields[i]);
        assert fields[..i] + [fields[i]] == fields[..i + 1];
        assert fields[i] in fields;
        ok := NestedText(STRING, fields[i], depth + 1);
        if !ok { return; }
        i := i + 1;
      }
      assert fields[..i] == fields;
    }

    method SetBody(v: Value, depth: nat, ghost u: Utf8) returns (ok: bool)
      requires v.Set? && AcceptsAscii(u) && WellFormed(u, v) && depth <= MAX_NESTING_DEPTH
      modifies this
      ensures ok <==> Sized(v) && Writable(v, depth)
      ensures ok ==> output == old(output) + Encoding(v)
      decreases v, 0
    {
      hide *;
      SetLimits(u, v, depth);
      NothingDistinct();
      var encoded: seq<(Key, Bytes)> := [];
      ghost var done: seq<Value> := [];
      var rest := v.elems;
      while rest != {}
        invariant rest <= v.elems && (forall x :: x in done <==> x in v.elems - rest)
        invariant |encoded| == |done| && forall j :: 0 <= j < |done| ==> encoded[j] == (Encoding(done[j]), Encoding(done[j]))
        invariant forall x :: x in done ==> Sized(x) && Writable(x, depth + 1)
        invariant Distinct(done) && output == old(output)
        decreases |rest|
      {
        var x :| x in rest;
        var inner := new Encoder();
        ok := inner.Bare(x, depth + 1, u);
        if !ok { return; }
        assert inner.output == Encoding(x);
        DistinctSnoc(done, x);
        encoded := encoded + [(inner.output, inner.output)];
        done := done + [x];
        rest := rest - {x};
      }
      CollectedSet(u, v, done, encoded);
      output := output + [10];
      ok := Length(|encoded|);
      MemberCount(done, v.elems);
      if !ok { return; }
      Write(Sort(encoded));
      SetEncoding(v);
    }

    method MapBody(v: Value, m: map<Value, Value>, depth: nat, ghost u: Utf8) returns (ok: bool)
      requires (v.Map? && m == v.pairs) || (v.Pointer? && m == v.attributes)
      requires AcceptsAscii(u) && forall k :: k in m ==> WellFormed(u, k) && WellFormed(u, m[k])
      modifies this
      ensures ok <==> depth <= MAX_NESTING_DEPTH && |m| < U32
                      && forall k :: k in m ==> Sized(k) && Sized(m[k]) && Writable(k, depth + 1) && Writable(m[k], depth + 1)
      ensures ok ==> output == old(output) + [11] + BigEndian(|m|, 4) + Sorted(MapCells(Map(m)))
      decreases v, 0
    {
      hide Encoding, Sort, Arrange, Flatten, WellFormed, Sized, Writable;
      if depth > MAX_NESTING_DEPTH { return false; }
      var encoded: seq<(Key, Bytes)> := [];
      ghost var done: seq<Value> := [];
      var rest := m.Keys;
      while rest != {}
        invariant rest <= m.Keys && (forall k :: k in done <==> k in m.Keys - rest)
        invariant |encoded| == |done|
        invariant forall j :: 0 <= j < |done| ==>
                    done[j] in m && encoded[j] == (Encoding(done[j]), Encoding(done[j]) + Encoding(m[done[j]]))
        invariant forall k :: k in done ==> Sized(k) && Sized(m[k]) && Writable(k, depth + 1) && Writable(m[k], depth + 1)
        invariant Distinct(done) && output == old(output)
        decreases |rest|
      {
        var k :| k in rest;
        var key := new Encoder();
        ok := key.Bare(k, depth + 1, u);
        if !ok { return; }
        var val := new Encoder();
        ok := val.Bare(m[k], depth + 1, u);
        if !ok { return; }
        assert key.output == Encoding(k) && val.output == Encoding(m[k]);
        assert k !in done;
        encoded := encoded + [(key.output, key.output + val.output)];
        done := done + [k];
        rest := rest - {k};
      }
      CollectedMap(u, m, done, encoded);
      DistinctCount(done, m.Keys);
      output := output + [11];
      ok := Length(|encoded|);
      if !ok { return; }
      Write(Sort(encoded));
    }

    /** Appends the collected encodings in order. */
    method Write(cells: seq<(Key, Bytes)>)
      modifies this
      ensures output == old(output) + Flatten(Payloads(cells))
    {
      var i := 0;
      while i < |cells|
        invariant 0 <= i <= |cells|
        invariant output == old(output) + Flatten(Payloads(cells[..i]))
      {
        assert Payloads(cells[..i + 1]) == Payloads(cells[..i]) + [cells[i].1];
        FlattenSnoc(Payloads(cells[..i]), cells[i].1);
        output := output + cells[i].1;
        i := i + 1;
      }
      assert cells[..i] == cells;
    }
  }

  // What each kind of value adds to the output, and the limits it must meet.

  lemma SeqEncoded(out: Bytes, v: Value)
    requires v.Seq?
    ensures out + [SeqTag(v.kind)] + BigEndian(|v.items|, 4) + Flatten(Each(v.items)) == out + Encoding(v)
  {
    hide BigEndian, Flatten;
    assert Each(v.items) == seq(|v.items|, i requires 0 <= i < |v.items| => Encoding(v.items[i]));
  }

  lemma SeqLimits(u: Utf8, v: Value, depth: nat)
    requires v.Seq? && WellFormed(u, v)
    ensures forall x :: x in v.items ==> WellFormed(u, x)
    ensures depth <= MAX_NESTING_DEPTH ==>
              (Sized(v) && Writable(v, depth) <==>
                 |v.items| < U32 && forall x :: x in v.items ==> Sized(x) && Writable(x, depth + 1))
  {
  }

  lemma EntriesEncoded(out: Bytes, v: Value)
    requires v.Entries?
    ensures out + [EntriesTag(v.layout)] + BigEndian(|v.entries|, 4) + Flatten(EachPair(v.entries)) == out + Encoding(v)
  {
    hide BigEndian, Flatten;
    var es := v.entries;
    assert EachPair(es) == seq(|es|, i requires 0 <= i < |es| => Encoding(es[i].0) + Encoding(es[i].1));
  }

  lemma EntriesLimits(u: Utf8, v: Value, depth: nat)
    requires v.Entries? && WellFormed(u, v)
    ensures forall e :: e in v.entries ==> WellFormed(u, e.0) && WellFormed(u, e.1)
    ensures depth <= MAX_NESTING_DEPTH ==>
              (Sized(v) && Writable(v, depth) <==>
                 |v.entries| < U32 && forall e :: e in v.entries ==>
                   Sized(e.0) && Sized(e.1) && Writable(e.0, depth + 1) && Writable(e.1, depth + 1))
  {
  }

  lemma MemberCount(done: seq<Value>, elems: set<Value>)
    requires Distinct(done) && forall x :: x in done <==> x in elems
    ensures |done| == |elems|
  {
    DistinctCount(done, elems);
  }

  lemma NothingDistinct()
    ensures Distinct<Value>([])
  {
  }

  lemma DistinctSnoc(done: seq<Value>, x: Value)
    requires Distinct(done) && x !in done
    ensures Distinct(done + [x])
  {
  }

  lemma SetLimits(u: Utf8, v: Value, depth: nat)
    requires v.Set? && WellFormed(u, v)
    ensures forall x :: x in v.elems ==> WellFormed(u, x)
    ensures depth <= MAX_NESTING_DEPTH ==>
              (Sized(v) && Writable(v, depth) <==>
                 |v.elems| < U32 && forall x :: x in v.elems ==> Sized(x) && Writable(x, depth + 1))
  {
  }

  lemma MapEncoded(out: Bytes, v: Value)
    requires v.Map?
    ensures out + [11] + BigEndian(|v.pairs|, 4) + Sorted(MapCells(Map(v.pairs))) == out + Encoding(v)
  {
    hide BigEndian, Sorted, MapCells;
  }

  lemma MapLimits(u: Utf8, v: Value, depth: nat)
    requires v.Map? && WellFormed(u, v)
    ensures forall k :: k in v.pairs ==> WellFormed(u, k) && WellFormed(u, v.pairs[k])
    ensures Sized(v) && Writable(v, depth) <==>
              (depth <= MAX_NESTING_DEPTH && |v.pairs| < U32
               && forall k :: k in v.pairs ==>
                    Sized(k) && Sized(v.pairs[k]) && Writable(k, depth + 1) && Writable(v.pairs[k], depth + 1))
  {
  }

  lemma PointerEncoded(out: Bytes, v: Value)
    requires v.Pointer?
    ensures out + [34] + TextBytes(KEYWORD, v.context) + [11] + BigEndian(|v.attributes|, 4)
            + Sorted(MapCells(Map(v.attributes))) == out + Encoding(v)
  {
    assert MapCells(v) == MapCells(Map(v.attributes));
    var text, size, cells := TextBytes(KEYWORD, v.context), BigEndian(|v.attributes|, 4), Sorted(MapCells(v));
    assert Encoding(v) == [34] + text + ([11] + size + cells);
    hide BigEndian, Sorted, MapCells, TextBytes, Encoding;
    Joined(out, [34] + text, [11] + size + cells);
    Joined(out, [34], text);
    JoinedFour(out + [34] + text, [11], size, cells);
  }

  lemma PointerLimits(u: Utf8, v: Value, depth: nat)
    requires v.Pointer? && WellFormed(u, v)
    ensures forall k :: k in v.attributes ==> WellFormed(u, k) && WellFormed(u, v.attributes[k])
    ensures depth <= MAX_NESTING_DEPTH ==>
              (Sized(v) && Writable(v, depth) <==>
                 (depth + 1 <= MAX_NESTING_DEPTH && |v.context| < U32) && |v.attributes| < U32
                 && forall k :: k in v.attributes ==>
                      Sized(k) && Sized(v.attributes[k]) && Writable(k, depth + 1 + 1) && Writable(v.attributes[k], depth + 1 + 1))
  {
  }

  lemma TaggedEncoded(out: Bytes, v: Value)
    requires v.Tagged?
    ensures out + [31] + TextBytes(SYMBOL, v.tag) + Encoding(v.form) == out + Encoding(v)
  {
    hide BigEndian, TextBytes;
  }

  lemma TaggedLimits(u: Utf8, v: Value, depth: nat)
    requires v.Tagged? && WellFormed(u, v) && depth <= MAX_NESTING_DEPTH
    ensures WellFormed(u, v.form)
    ensures Sized(v) && Writable(v, depth) <==>
              depth + 1 <= MAX_NESTING_DEPTH && |v.tag| < U32 && Sized(v.form) && Writable(v.form, depth + 1)
  {
  }

  lemma StructEncoded(out: Bytes, v: Value)
    requires v.Struct?
    ensures out + [33] + TextBytes(STRING, v.name) + ([9] + BigEndian(|v.fields|, 4) + TextsBytes(v.fields))
            + [9] + BigEndian(|v.values|, 4) + Flatten(Each(v.values)) == out + Encoding(v)
  {
    hide BigEndian, TextBytes, TextsBytes, Flatten;
    var xs := v.values;
    assert Each(xs) == seq(|xs|, i requires 0 <= i < |xs| => Encoding(xs[i]));
    var names := [9] + BigEndian(|v.fields|, 4) + TextsBytes(v.fields);
    var values := [9] + BigEndian(|xs|, 4) + Flatten(Each(xs));
    assert Encoding(v) == [33] + TextBytes(STRING, v.name) + names + values;
  }

  lemma StructLimits(u: Utf8, v: Value, depth: nat)
    requires v.Struct? && WellFormed(u, v) && depth <= MAX_NESTING_DEPTH
    ensures forall x :: x in v.values ==> WellFormed(u, x)
    ensures Sized(v) && Writable(v, depth) <==>
              (depth + 1 <= MAX_NESTING_DEPTH && |v.name| < U32)
              && (|v.fields| < U32 && forall f :: f in v.fields ==> |f| < U32)
              && (|v.values| < U32 && forall x :: x in v.values ==> Sized(x) && Writable(x, depth + 1))
  {
  }

  /** Whatever order the members came in, sorting what was collected gives the written order. */
  lemma CollectedSet(u: Utf8, v: Value, done: seq<Value>, encoded: seq<(Key, Bytes)>)
    requires v.Set? && AcceptsAscii(u) && WellFormed(u, v) && Distinct(done)
    requires forall x :: x in done <==> x in v.elems
    requires forall x :: x in done ==> Sized(x)
    requires |encoded| == |done| && forall j :: 0 <= j < |done| ==> encoded[j] == (Encoding(done[j]), Encoding(done[j]))
    ensures Sort(encoded) == Arrange(SetCells(v))
  {
    hide Encoding, Sort, Arrange;
    forall i, j | 0 <= i < j < |encoded| ensures encoded[i].0 != encoded[j].0 {
      assert done[i] in done && done[j] in done;
      if Encoding(done[i]) == Encoding(done[j]) { EncodingInjective(u, done[i], done[j]); }
    }
    forall c ensures c in Ordering.Entries(encoded) <==> c in SetCells(v) {
      if c in SetCells(v) {
        var x :| x in v.elems && c == (Encoding(x), Encoding(x));
        assert x in done;
        var j :| 0 <= j < |done| && done[j] == x;
        assert encoded[j] == c;
      }
      if c in encoded {
        var j :| 0 <= j < |encoded| && encoded[j] == c;
        assert done[j] in done;
      }
    }
    assert Ordering.Entries(encoded) == SetCells(v);
    SortIsArrange(encoded);
  }

  lemma CollectedMap(u: Utf8, m: map<Value, Value>, done: seq<Value>, encoded: seq<(Key, Bytes)>)
    requires AcceptsAscii(u) && Distinct(done)
    requires forall k :: k in done <==> k in m.Keys
    requires forall k :: k in m ==> WellFormed(u, k) && Sized(k)
    requires |encoded| == |done|
    requires forall j :: 0 <= j < |done| ==> done[j] in m && encoded[j] == (Encoding(done[j]), Encoding(done[j]) + Encoding(m[done[j]]))
    ensures Sort(encoded) == Arrange(MapCells(Map(m)))
  {
    hide Encoding, Sort, Arrange, WellFormed, Sized;
    forall i, j | 0 <= i < j < |encoded| ensures encoded[i].0 != encoded[j].0 {
      if Encoding(done[i]) == Encoding(done[j]) { EncodingInjective(u, done[i], done[j]); }
    }
    forall c ensures c in Ordering.Entries(encoded) <==> c in MapCells(Map(m)) {
      if c in MapCells(Map(m)) {
        var k :| k in m && c == (Encoding(k), Encoding(k) + Encoding(m[k]));
        assert k in done;
        var j :| 0 <= j < |done| && done[j] == k;
        assert encoded[j] == c;
      }
      if c in encoded {
        var j :| 0 <= j < |encoded| && encoded[j] == c;
      }
    }
    assert Ordering.Entries(encoded) == MapCells(Map(m));
    SortIsArrange(encoded);
  }

  lemma SetEncoding(v: Value)
    requires v.Set?
    ensures Encoding(v) == [10] + BigEndian(|v.elems|, 4) + Flatten(Payloads(Arrange(SetCells(v))))
  {
  }

  method Encode(v: Value, ghost u: Utf8) returns (r: Res<Bytes>)
    requires AcceptsAscii(u) && WellFormed(u, v)
    ensures r == match Frame(v) case Got(frame, _) => Ok(frame) case Bad(e) => Err(e)
  {
    hide Encoding, WellFormed, Sized, Writable;
    var e := new Encoder();
    e.output := MAGIC;
    var ok := e.Bare(v, 0, u);
    if !ok { return Err(Unencodable); }
    if |e.output| > MAX_FRAME_BYTES { return Err(TooLarge); }
    r := Ok(e.output);
  }

  // ----- reader -----

  /** A method's result and cursor are what the specification of the read says. */
  ghost predicate Follows<T>(r: Res<T>, spec: Read<T>, left: Bytes) {
    match spec
    case Got(v, rest) => r == Ok(v) && left == rest
    case Bad(e) => r == Err(e)
  }

  class Reader {
    const bytes: Bytes
    const utf8: Utf8
    var cursor: nat

    constructor (bytes: Bytes, utf8: Utf8, cursor: nat)
      requires cursor <= |bytes|
      ensures Valid() && this.bytes == bytes && this.utf8 == utf8 && this.cursor == cursor
    {
      this.bytes, this.utf8, this.cursor := bytes, utf8, cursor;
    }

    ghost predicate Valid()
      reads this
    {
      cursor <= |bytes|
    }

    ghost function Left(): Bytes
      requires Valid()
      reads this
    {
      bytes[cursor..]
    }

    method TakeBytes(size: nat) returns (r: Res<Bytes>)
      requires Valid()
      modifies this
      ensures Valid() && cursor >= old(cursor) && Follows(r, Take(old(Left()), size), Left())
      ensures r.Ok? ==> cursor == old(cursor) + size
    {
      var end := cursor + size;
      if end > |bytes| { return Err(Truncated); }
      r := Ok(bytes[cursor..end]);
      assert bytes[cursor..][..size] == bytes[cursor..end];
      assert bytes[cursor..][size..] == bytes[end..];
      cursor := end;
    }

    method Number(width: nat) returns (r: Res<nat>)
      requires Valid()
      modifies this
      ensures Valid() && cursor >= old(cursor) && Follows(r, ReadNumber(old(Left()), width), Left())
      ensures r.Ok? ==> cursor == old(cursor) + width
    {
      var d := TakeBytes(width);
      r := match d case Ok(b) => Ok(FromBigEndian(b)) case Err(e) => Err(e);
    }

    method DataBytes() returns (r: Res<Bytes>)
      requires Valid()
      modifies this
      ensures Valid() && cursor >= old(cursor) && Follows(r, ReadData(old(Left())), Left())
    {
      var n := Number(4);
      if n.Err? { return Err(n.error); }
      r := TakeBytes(n.value);
    }

    method TextData() returns (r: Res<Bytes>)
      requires Valid()
      modifies this
      ensures Valid() && cursor >= old(cursor) && Follows(r, ReadText(utf8, old(Left())), Left())
    {
      r := DataBytes();
      if r.Ok? && !utf8(r.value) { r := Err(Malformed); }
    }

    method Value(depth: nat) returns (r: Res<Value>)
      requires Valid()
      modifies this
      ensures Valid() && Follows(r, ReadValue(utf8, true, old(Left()), depth), Left())
      ensures cursor >= old(cursor) && (r.Ok? ==> cursor > old(cursor))
      decreases |bytes| - cursor, 0
    {
      hide ReadLeaf, ReadTagged, ReadStruct, ReadPointer, ReadContainer;
      if depth > MAX_NESTING_DEPTH { return Err(TooDeep); }
      if cursor >= |bytes| { return Err(Truncated); }
      var tag := bytes[cursor];
      assert bytes[cursor..][1..] == bytes[cursor + 1..];
      cursor := cursor + 1;
      if tag <= 7 || tag in {12, 15, 19, 20, 22} { r := Leaf(tag); }
      else if tag == 31 { r := TaggedValue(depth); }
      else if tag == 33 { r := StructValue(depth); }
      else if tag == 34 { r := PointerValue(depth); }
      else { r := Container(tag, depth); }
    }

    method Leaf(tag: byte) returns (r: Res<Value>)
      requires Valid()
      modifies this
      ensures Valid() && cursor >= old(cursor) && Follows(r, ReadLeaf(utf8, tag, old(Left())), Left())
    {
      hide ReadNumber, ReadData, ReadText, ParseInteger, Finite;
      if tag == 0 { r := Ok(Nil); }
      else if tag == 1 { r := Ok(Bool(false)); }
      else if tag == 2 { r := Ok(Bool(true)); }
      else if tag == 3 || tag == 15 {
        var n := Number(8);
        if n.Err? { return Err(n.error); }
        if tag == 3 { r := Ok(Int(ToSigned(n.value))); }
        else if Finite(n.value) { r := Ok(Float(n.value)); }
        else { r := Err(NonFinite); }
      } else if tag == 19 {
        var n := Number(4);
        if n.Err? { return Err(n.error); }
        r := if Scalar(n.value) then Ok(Char(n.value)) else Err(Malformed);
      } else if tag == 12 {
        r := HandleValue();
      } else if tag == 5 {
        var d := DataBytes();
        r := match d case Ok(b) => Ok(Text(BYTES, b)) case Err(e) => Err(e);
      } else if tag in {4, 6, 7, 20, 22} {
        var d := TextData();
        if d.Err? { return Err(d.error); }
        if tag == 20 {
          var n := ParseInteger(d.value);
          r := if n.Got? then Ok(Int(n.value)) else Err(n.error);
        } else { r := Ok(Text(TextKindOf(tag), d.value)); }
      } else { r := Err(Malformed); }
    }

    method HandleValue() returns (r: Res<Value>)
      requires Valid()
      modifies this
      ensures Valid() && cursor >= old(cursor) && Follows(r, ReadLeaf(utf8, 12, old(Left())), Left())
    {
      hide ReadNumber, ReadData, ReadText, ParseInteger, Finite;
      var provider := TextData();
      if provider.Err? { return Err(provider.error); }
      var typeName := TextData();
      if typeName.Err? { return Err(typeName.error); }
      var id := Number(8);
      if id.Err? { return Err(id.error); }
      r := Ok(Handle(provider.value, typeName.value, id.value));
    }

    method Container(tag: byte, depth: nat) returns (r: Res<Value>)
      requires Valid()
      modifies this
      ensures Valid() && cursor >= old(cursor) && Follows(r, ReadContainer(utf8, true, tag, old(Left()), depth), Left())
      decreases |bytes| - cursor, 4
    {
      hide ReadSequence, ReadEntries, MapOf, LastWins, FirstOnly;
      if tag in {8, 9, 10, 17, 24, 25, 29, 36, 38} {
        var items := Sequence(depth);
        if items.Err? { return Err(items.error); }
        if tag == 10 { r := Ok(Set(set x | x in items.value)); }
        else {
          var s := SequenceOf(SeqKindOf(tag), items.value, []);
          r := if s.Got? then Ok(s.value) else Err(s.error);
        }
      } else if tag in {11, 18, 26} {
        var entries := EntryList(tag == 18, depth);
        if entries.Err? { return Err(entries.error); }
        if tag == 11 { r := Ok(Map(MapOf(entries.value))); }
        else if tag == 26 { r := Ok(Entries(ORDERED_MAP, LastWins(entries.value))); }
        else { r := Ok(Entries(OBJECT, entries.value)); }
      } else { r := Err(Malformed); }
    }

    method Sequence(depth: nat) returns (r: Res<seq<Value>>)
      requires Valid()
      modifies this
      ensures Valid() && cursor >= old(cursor) && Follows(r, ReadSequence(utf8, true, old(Left()), depth), Left())
      decreases |bytes| - cursor, 2
    {
      hide ReadValue, ReadNumber;
      var n := Number(4);
      if n.Err? { return Err(n.error); }
      if n.value > |bytes| - cursor { return Err(Malformed); }
      ghost var body := Left();
      var items: seq<Value> := [];
      AfterNone(ReadValues(utf8, true, body, n.value, depth + 1));
      while |items| < n.value
        invariant Valid() && cursor >= old(cursor) + 4 && |items| <= n.value
        invariant ReadValues(utf8, true, body, n.value, depth + 1)
               == After(items, ReadValues(utf8, true, Left(), n.value - |items|, depth + 1))
        decreases n.value - |items|
      {
        var v := Value(depth + 1);
        if v.Err? { return Err(v.error); }
        AfterOne(items, v.value, ReadValues(utf8, true, Left(), n.value - |items| - 1, depth + 1));
        items := items + [v.value];
      }
      assert items + [] == items;
      r := Ok(items);
    }

    method Pair(named: bool, depth: nat) returns (r: Res<(Value, Value)>)
      requires Valid()
      modifies this
      ensures Valid() && cursor >= old(cursor) && Follows(r, ReadPair(utf8, named, old(Left()), depth), Left())
      decreases |bytes| - cursor, 1
    {
      hide ReadValue;
      var k := Value(depth);
      if k.Err? { return Err(k.error); }
      if named && !IsString(k.value) { return Err(Malformed); }
      var v := Value(depth);
      if v.Err? { return Err(v.error); }
      r := Ok((k.value, v.value));
    }

    method EntryList(named: bool, depth: nat) returns (r: Res<seq<(Value, Value)>>)
      requires Valid()
      modifies this
      ensures Valid() && cursor >= old(cursor) && Follows(r, ReadEntries(utf8, true, named, old(Left()), depth), Left())
      decreases |bytes| - cursor, 3
    {
      hide ReadPairs, ReadNumber;
      var n := Number(4);
      if n.Err? { return Err(n.error); }
      if n.value > (|bytes| - cursor) / 2 { return Err(Malformed); }
      r := PairLoop(named, n.value, depth + 1);
    }

    method PairLoop(named: bool, n: nat, depth: nat) returns (r: Res<seq<(Value, Value)>>)
      requires Valid()
      modifies this
      ensures Valid() && cursor >= old(cursor) && Follows(r, ReadPairs(utf8, true, named, old(Left()), n, depth), Left())
      decreases |bytes| - cursor, 2, n
    {
      hide ReadPairs, ReadPair, After, ReadValue;
      var entries: seq<(Value, Value)> := [];
      ghost var whole := ReadPairs(utf8, true, named, Left(), n, depth);
      AfterNone(whole);
      var i := 0;
      while i < n
        invariant Valid() && cursor >= old(cursor) && i <= n
        invariant whole == After(entries, ReadPairs(utf8, true, named, Left(), n - i, depth))
      {
        PairsStep(utf8, named, Left(), n - i, depth, entries);
        var pair := Pair(named, depth);
        if pair.Err? { return Err(pair.error); }
        i := i + 1;
        AfterOne(entries, pair.value, ReadPairs(utf8, true, named, Left(), n - i, depth));
        entries := entries + [pair.value];
      }
      PairsDone(utf8, named, Left(), depth, entries);
      r := Ok(entries);
    }

    method TaggedValue(depth: nat) returns (r: Res<Value>)
      requires Valid()
      modifies this
      ensures Valid() && cursor >= old(cursor) && Follows(r, ReadTagged(utf8, true, old(Left()), depth), Left())
      decreases |bytes| - cursor, 1
    {
      hide ReadValue;
      var tag := Value(depth + 1);
      if tag.Err? { return Err(tag.error); }
      if !(tag.value.Text? && tag.value.text == SYMBOL) { return Err(Malformed); }
      var form := Value(depth + 1);
      if form.Err? { return Err(form.error); }
      r := Ok(Tagged(tag.value.data, form.value));
    }

    method PointerValue(depth: nat) returns (r: Res<Value>)
      requires Valid()
      modifies this
      ensures Valid() && cursor >= old(cursor) && Follows(r, ReadPointer(utf8, true, old(Left()), depth), Left())
      decreases |bytes| - cursor, 1
    {
      hide ReadValue;
      var context := Value(depth + 1);
      if context.Err? { return Err(context.error); }
      if !(context.value.Text? && context.value.text == KEYWORD) { return Err(Malformed); }
      var fields := Value(depth + 1);
      if fields.Err? { return Err(fields.error); }
      if !fields.value.Map? { return Err(Malformed); }
      r := Ok(Pointer(context.value.data, fields.value.pairs));
    }

    method StructValue(depth: nat) returns (r: Res<Value>)
      requires Valid()
      modifies this
      ensures Valid() && cursor >= old(cursor) && Follows(r, ReadStruct(utf8, true, old(Left()), depth), Left())
      decreases |bytes| - cursor, 1
    {
      hide ReadValue;
      var name := Value(depth + 1);
      if name.Err? { return Err(name.error); }
      if !IsString(name.value) { return Err(Malformed); }
      var fields := Value(depth + 1);
      if fields.Err? { return Err(fields.error); }
      if !(fields.value.Seq? && fields.value.kind == VECTOR && AllStrings(fields.value.items)) { return Err(Malformed); }
      var values := Value(depth + 1);
      if values.Err? { return Err(values.error); }
      if !(values.value.Seq? && values.value.kind == VECTOR) { return Err(Malformed); }
      var s := StructOf(name.value.data, fields.value.items, values.value.items, []);
      r := if s.Got? then Ok(s.value) else Err(s.error);
    }
  }

  /** Items already read, then what reading the rest gives. */
  function After<T>(items: seq<T>, rest: Read<seq<T>>): Read<seq<T>> {
    match rest
    case Got(more, left) => Got(items + more, left)
    case Bad(e) => Bad(e)
  }

  lemma AfterNone<T>(rest: Read<seq<T>>)
    ensures After([], rest) == rest
  {
    if rest.Got? { assert [] + rest.value == rest.value; }
  }

  lemma AfterOne<T>(items: seq<T>, x: T, rest: Read<seq<T>>)
    ensures After(items + [x], rest) == After(items, After([x], rest))
  {
    if rest.Got? { assert items + [x] + rest.value == items + ([x] + rest.value); }
  }

  function ReadPair(u: Utf8, named: bool, s: Bytes, depth: nat): Read<(Value, Value)> {
    var (k, s1) :- ReadValue(u, true, s, depth);
    if named && !IsString(k) then Bad(Malformed)
    else
      var (v, s2) :- ReadValue(u, true, s1, depth);
      Got((k, v), s2)
  }

  /** One more pair: a failed read ends it all, else the rest follows. */
  lemma PairsStep(u: Utf8, named: bool, s: Bytes, n: nat, depth: nat, entries: seq<(Value, Value)>)
    requires n > 0
    ensures var pair := ReadPair(u, named, s, depth);
            After(entries, ReadPairs(u, true, named, s, n, depth)) ==
            if pair.Bad? then Bad(pair.error)
            else After(entries, After([pair.value], ReadPairs(u, true, named, pair.rest, n - 1, depth)))
  {
    hide ReadValue;
  }

  lemma PairsDone(u: Utf8, named: bool, s: Bytes, depth: nat, entries: seq<(Value, Value)>)
    ensures After(entries, ReadPairs(u, true, named, s, 0, depth)) == Got(entries, s)
  {
    assert entries + [] == entries;
  }

  method DecodeFrame(bytes: Bytes, utf8: Utf8) returns (r: Res<Value>)
    ensures r == match Decode(utf8, bytes) case Got(v, _) => Ok(v) case Bad(e) => Err(e)
  {
    hide ReadValue;
    if |bytes| > MAX_FRAME_BYTES { return Err(TooLarge); }
    if !(MAGIC <= bytes) { return Err(Malformed); }
    var reader := new Reader(bytes, utf8, 4);
    r := reader.Value(0);
    if r.Ok? && reader.cursor != |bytes| { r := Err(Malformed); }
  }

  /** Decodes, re-encodes, and accepts only if the bytes come out the same. */
  method DecodeCanonicalFrame(bytes: Bytes, utf8: Utf8) returns (r: Res<Value>)
    requires AcceptsAscii(utf8)
    ensures r == match DecodeCanonical(utf8, bytes) case Got(v, _) => Ok(v) case Bad(e) => Err(e)
  {
    hide Decode, Frame, WellFormed;
    r := DecodeFrame(bytes, utf8);
    if r.Err? { return; }
    DecodedIsWellFormed(utf8, bytes);
    var canonical := Encode(r.value, utf8);
    if canonical.Err? { return Err(canonical.error); }
    if canonical.value != bytes { return Err(Malformed); }
  }
}
