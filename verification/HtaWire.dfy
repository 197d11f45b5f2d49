/** What HTA0 frames look like, and which of several values for one key a decoded value keeps. */
module HtaWire {
  import opened ByteStrings
  import opened Sequences
  import opened Words
  import opened HtaValues
  import opened HtaRoundTrip

  // ----- the first bytes -----

  /** The tag of the HTA0 inventory for each kind of value. */
  function WireTag(v: Value): byte {
    match v
    case Nil => 0
    case Bool(b) => if b then 2 else 1
    case Int(n) => if -0x8000_0000_0000_0000 <= n <= 0x7fff_ffff_ffff_ffff then 3 else 20
    case Text(STRING, _) => 4
    case Text(BYTES, _) => 5
    case Text(KEYWORD, _) => 6
    case Text(SYMBOL, _) => 7
    case Seq(LIST, _) => 8
    case Seq(VECTOR, _) => 9
    case Set(_) => 10
    case Map(_) => 11
    case Handle(_, _, _) => 12
    case Float(_) => 15
    case Seq(ARRAY, _) => 17
    case Entries(OBJECT, _) => 18
    case Char(_) => 19
    case Text(REGEX, _) => 22
    case Seq(CONS, _) => 24
    case Seq(QUEUE, _) => 25
    case Entries(ORDERED_MAP, _) => 26
    case Seq(ORDERED_SET, _) => 29
    case Tagged(_, _) => 31
    case Struct(_, _, _) => 33
    case Pointer(_, _) => 34
    case Seq(DEQUE, _) => 36
    case Seq(MAP_ENTRY, _) => 38
  }

  /** Every frame begins with the letters HTA0 and the tag of its value. */
  lemma FrameStarts(v: Value)
    requires Frame(v).Got?
    ensures |Frame(v).value| >= 5 && Frame(v).value[..5] == [0x48, 0x54, 0x41, 0x30, WireTag(v)]
  {
    EncodingStarts(v);
    hide Encoding, WireTag, Sized, Writable;
    var s := Encoding(v);
    assert (MAGIC + s)[..5] == MAGIC + [s[0]];
  }

  lemma EncodingStarts(v: Value)
    ensures Encoding(v)[0] == WireTag(v)
  {
    hide BigEndian, Sorted, Flatten, Data, DecimalText, TextsBytes;
  }

  /** The frames of the character U+03BB and of the regular expression `a+`, byte for byte. */
  lemma FrameExamples()
    ensures Frame(Char(0x3bb)) == Got([0x48, 0x54, 0x41, 0x30, 19, 0, 0, 3, 0xbb], [])
    ensures Frame(Text(REGEX, [97, 43])) == Got([0x48, 0x54, 0x41, 0x30, 22, 0, 0, 0, 2, 97, 43], [])
  {
    FourBytes(0x3bb);
    FourBytes(2);
    hide BigEndian;
    var c, r := Char(0x3bb), Text(REGEX, [97, 43]);
    assert MAGIC + Encoding(c) == [0x48, 0x54, 0x41, 0x30, 19, 0, 0, 3, 0xbb];
    assert MAGIC + Encoding(r) == [0x48, 0x54, 0x41, 0x30, 22, 0, 0, 0, 2, 97, 43];
    hide Encoding;
    assert Sized(c) && Sized(r) && Writable(c, 0) && Writable(r, 0);
  }

  /** An integer that fits is written as its 64-bit two's complement, most significant byte first. */
  lemma LongBytes(n: int)
    requires -0x8000_0000_0000_0000 <= n <= 0x7fff_ffff_ffff_ffff
    ensures var s := Encoding(Int(n));
            |s| == 9 && s[0] == 3 && FromBigEndian(s[1..]) == if n < 0 then n + 0x1_0000_0000_0000_0000 else n
  {
    FixedWidths();
    hide BigEndian, Power256;
    BigEndianRoundTrip(ToUnsigned(n), 8);
    assert Encoding(Int(n))[1..] == BigEndian(ToUnsigned(n), 8);
  }

  // ----- repeated keys -----

  /** Position `i` is the last that holds `k`. */
  ghost predicate LastAt<T>(keys: seq<T>, k: T, i: nat) {
    i < |keys| && keys[i] == k && forall j :: i < j < |keys| ==> keys[j] != k
  }

  ghost predicate FirstAt<T>(keys: seq<T>, k: T, i: nat) {
    i < |keys| && keys[i] == k && forall j :: 0 <= j < i ==> keys[j] != k
  }

  lemma LastOfFront<T>(keys: seq<T>, k: T, i: nat)
    requires LastAt(keys, k, i) && keys[|keys| - 1] != k
    ensures LastAt(keys[..|keys| - 1], k, i)
  {
  }

  /** A decoded map has the keys read, each with the last value read for it. */
  lemma {:induction false} MapKeepsLast(pairs: seq<(Value, Value)>, k: Value, i: nat)
    ensures k in MapOf(pairs) <==> k in Firsts(pairs)
    ensures LastAt(Firsts(pairs), k, i) ==> k in MapOf(pairs) && MapOf(pairs)[k] == pairs[i].1
    decreases |pairs|
  {
    if pairs != [] {
      var front, last := pairs[..|pairs| - 1], pairs[|pairs| - 1];
      assert Firsts(pairs) == Firsts(front) + [last.0] && Firsts(pairs)[|pairs| - 1] == last.0;
      MapKeepsLast(front, k, i);
      if LastAt(Firsts(pairs), k, i) && last.0 != k {
        LastOfFront(Firsts(pairs), k, i);
        assert Firsts(pairs)[..|pairs| - 1] == Firsts(front);
      }
    }
  }

  /** A decoded struct gives a field the last value read for it. */
  lemma {:induction false} FieldKeepsLast(names: seq<Bytes>, values: seq<Value>, field: Bytes, i: nat)
    requires |names| == |values| && LastAt(names, field, i)
    ensures field in names && FieldValue(names, values, field) == values[i]
    decreases |names|
  {
    assert names[i] in names;
    var last := |names| - 1;
    if names[last] != field {
      LastOfFront(names, field, i);
      FieldKeepsLast(names[..last], values[..last], field, i);
    }
  }

  ghost predicate InFirstOrder(items: seq<Value>, kept: seq<Value>) {
    forall i, j, a, b :: (0 <= i < j < |kept| && FirstAt(items, kept[i], a) && FirstAt(items, kept[j], b)) ==> a < b
  }

  /** An ordered set keeps every element once, in the order of their first places. */
  lemma {:induction false} OrderedSetKeepsFirst(items: seq<Value>)
    ensures Distinct(FirstOnly(items)) && forall x :: x in FirstOnly(items) <==> x in items
    ensures InFirstOrder(items, FirstOnly(items))
    decreases |items|
  {
    if items != [] {
      var front, x := items[..|items| - 1], items[|items| - 1];
      var r := FirstOnly(front);
      assert items == front + [x];
      OrderedSetKeepsFirst(front);
      forall i, j, a, b | 0 <= i < j < |FirstOnly(items)| && FirstAt(items, FirstOnly(items)[i], a)
                          && FirstAt(items, FirstOnly(items)[j], b)
        ensures a < b
      {
        assert r[i] in r;
        FirstInFront(items, r[i], a);
        if j < |r| {
          assert r[j] in r;
          FirstInFront(items, r[j], b);
        }
      }
    }
  }

  lemma FirstInFront(items: seq<Value>, x: Value, a: nat)
    requires items != [] && x in items[..|items| - 1] && FirstAt(items, x, a)
    ensures FirstAt(items[..|items| - 1], x, a)
  {
    var i :| 0 <= i < |items| - 1 && items[i] == x;
  }

  lemma {:induction false} OverwriteAt(entries: seq<(Value, Value)>, e: (Value, Value))
    ensures e.0 in Firsts(entries) ==> Firsts(Overwrite(entries, e)) == Firsts(entries)
    ensures e.0 !in Firsts(entries) ==> Overwrite(entries, e) == entries + [e]
    ensures DistinctFirsts(entries) ==> forall x :: x in Overwrite(entries, e) <==> x == e || (x in entries && x.0 != e.0)
    decreases |entries|
  {
    if entries != [] {
      var first, rest := entries[0], entries[1..];
      assert entries == [first] + rest && Firsts(entries) == [first.0] + Firsts(rest);
      OverwriteAt(rest, e);
      if first.0 == e.0 {
        assert Firsts([e] + rest) == [e.0] + Firsts(rest);
        if DistinctFirsts(entries) {
          forall x | x in rest ensures x.0 != e.0 { var i :| 0 <= i < |rest| && rest[i] == x; assert entries[i + 1] == x; }
        }
      } else {
        assert Firsts([first] + Overwrite(rest, e)) == [first.0] + Firsts(Overwrite(rest, e));
        assert DistinctFirsts(entries) ==> DistinctFirsts(rest);
      }
    }
  }

  /** A decoded ordered map keeps its keys in the order of their first places, each with the last value read for it. */
  lemma {:induction false} OrderedMapKeepsLast(entries: seq<(Value, Value)>)
    ensures Firsts(LastWins(entries)) == FirstOnly(Firsts(entries)) && DistinctFirsts(LastWins(entries))
    ensures forall i :: 0 <= i < |entries| && LastAt(Firsts(entries), entries[i].0, i) ==> entries[i] in LastWins(entries)
    decreases |entries|
  {
    if entries != [] {
      var front, e := entries[..|entries| - 1], entries[|entries| - 1];
      var before := LastWins(front);
      OrderedMapKeepsLast(front);
      assert entries == front + [e] && Firsts(entries) == Firsts(front) + [e.0];
      assert Firsts(entries)[..|entries| - 1] == Firsts(front);
      OverwriteAt(before, e);
      assert Firsts(before + [e]) == Firsts(before) + [e.0];
      OrderedSetKeepsFirst(Firsts(entries));
      FirstsDistinct(LastWins(entries));
      forall i | 0 <= i < |entries| && LastAt(Firsts(entries), entries[i].0, i) ensures entries[i] in LastWins(entries) {
        if i < |front| {
          LastOfFront(Firsts(entries), entries[i].0, i);
          assert entries[i] == front[i] && front[i] in before;
          assert Firsts(entries)[|entries| - 1] == e.0;
        }
      }
    }
  }

  lemma FirstsDistinct(entries: seq<(Value, Value)>)
    ensures Distinct(Firsts(entries)) <==> DistinctFirsts(entries)
  {
    if Distinct(Firsts(entries)) {
      forall i, j | 0 <= i < j < |entries| ensures entries[i].0 != entries[j].0 { assert Firsts(entries)[i] != Firsts(entries)[j]; }
    }
  }
}
