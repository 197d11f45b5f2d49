/**
 The values of the HTA0 codec (core/rust/src/hta.rs) and their wire format.

 Values are normalised: a small tuple is a vector, an integer that fits 64 bits is never a big
 integer, and nothing carries identity: arrays and objects stand for their contents.  Sets and
 maps are mathematical sets and maps, so they have no iteration order; whatever order the encoder
 meets their members in, it must produce the one encoding defined here.
 */
module HtaValues {
  import opened ByteStrings
  import opened Sequences
  import opened Words
  import opened Ordering
  import Decimal

  datatype TextKind = STRING | BYTES | KEYWORD | SYMBOL | REGEX
  datatype SeqKind = LIST | VECTOR | MAP_ENTRY | CONS | QUEUE | DEQUE | ORDERED_SET | ARRAY
  datatype EntriesKind = ORDERED_MAP | OBJECT

  datatype Value =
    | Nil
    | Bool(b: bool)
    | Int(n: int)
    | Float(bits: nat)
    | Char(scalar: nat)
    | Text(text: TextKind, data: Bytes)
    | Seq(kind: SeqKind, items: seq<Value>)
    | Set(elems: set<Value>)
    | Map(pairs: map<Value, Value>)
    | Entries(layout: EntriesKind, entries: seq<(Value, Value)>)
    | Handle(provider: Bytes, typeName: Bytes, id: nat)
    | Tagged(tag: Bytes, form: Value)
    | Struct(name: Bytes, fields: seq<Bytes>, values: seq<Value>)
    | Pointer(context: Bytes, attributes: map<Value, Value>)

  const MAX_FRAME_BYTES: nat := 64 * 1024 * 1024
  const MAX_NESTING_DEPTH: nat := 256
  const MAGIC: Bytes := [0x48, 0x54, 0x41, 0x30]
  const U64: nat := 0x1_0000_0000_0000_0000

  function TextTag(k: TextKind): byte {
    match k case STRING => 4 case BYTES => 5 case KEYWORD => 6 case SYMBOL => 7 case REGEX => 22
  }

  function SeqTag(k: SeqKind): byte {
    match k
    case LIST => 8 case VECTOR => 9 case ARRAY => 17 case CONS => 24 case QUEUE => 25
    case ORDERED_SET => 29 case DEQUE => 36 case MAP_ENTRY => 38
  }

  function EntriesTag(k: EntriesKind): byte {
    match k case OBJECT => 18 case ORDERED_MAP => 26
  }

  const RESULT_NAME: Bytes := AsciiBytes("std.native/Result")
  const RESULT_FIELDS: seq<Bytes> :=
    [AsciiBytes("status"), AsciiBytes("data"), AsciiBytes("error"), AsciiBytes("context")]

  function AsciiBytes(s: string): Bytes {
    seq(|s|, i requires 0 <= i < |s| => (s[i] as int) % 256)
  }

  /** A struct keeps its values by field name, so a repeated name has one value. */
  ghost predicate OneValuePerField(fields: seq<Bytes>, values: seq<Value>)
    requires |fields| == |values|
  {
    forall i, j :: 0 <= i < j < |fields| && fields[i] == fields[j] ==> values[i] == values[j]
  }

  /** What every in-memory value satisfies. */
  ghost predicate WellFormed(u: Utf8, v: Value) {
    match v
    case Float(bits) => bits < U64
    case Char(c) => Scalar(c)
    case Text(k, data) => k == BYTES || u(data)
    case Seq(k, items) =>
      && (forall x :: x in items ==> WellFormed(u, x))
      && (k == MAP_ENTRY ==> |items| == 2)
      && (k == CONS ==> items != [])
      && (k == ORDERED_SET ==> Distinct(items))
    case Set(elems) => forall x :: x in elems ==> WellFormed(u, x)
    case Map(pairs) => forall k :: k in pairs ==> WellFormed(u, k) && WellFormed(u, pairs[k])
    case Entries(k, entries) =>
      && (forall e :: e in entries ==> WellFormed(u, e.0) && WellFormed(u, e.1))
      && (k == OBJECT ==> forall e :: e in entries ==> e.0.Text? && e.0.text == STRING)
      && (k == ORDERED_MAP ==> DistinctFirsts(entries))
    case Handle(provider, typeName, id) => u(provider) && u(typeName) && id < U64
    case Tagged(tag, form) => u(tag) && WellFormed(u, form)
    case Struct(name, fields, values) =>
      && u(name) && (forall f :: f in fields ==> u(f))
      && |fields| == |values| && OneValuePerField(fields, values)
      && !(name == RESULT_NAME && fields == RESULT_FIELDS)
      && (forall x :: x in values ==> WellFormed(u, x))
    case Pointer(context, attributes) =>
      u(context) && forall k :: k in attributes ==> WellFormed(u, k) && WellFormed(u, attributes[k])
    case _ => true
  }

  /** What the format can write at all: finite floats and 32-bit lengths. */
  ghost predicate Sized(v: Value) {
    match v
    case Int(n) => FitsLong(n) || |DecimalText(n)| < U32
    case Float(bits) => Finite(bits)
    case Text(_, data) => |data| < U32
    case Seq(_, items) => |items| < U32 && forall x :: x in items ==> Sized(x)
    case Set(elems) => |elems| < U32 && forall x :: x in elems ==> Sized(x)
    case Map(pairs) => |pairs| < U32 && forall k :: k in pairs ==> Sized(k) && Sized(pairs[k])
    case Entries(_, entries) => |entries| < U32 && forall e :: e in entries ==> Sized(e.0) && Sized(e.1)
    case Handle(provider, typeName, _) => |provider| < U32 && |typeName| < U32
    case Tagged(tag, form) => |tag| < U32 && Sized(form)
    case Struct(name, fields, values) =>
      && |name| < U32 && |fields| < U32 && |values| < U32
      && (forall f :: f in fields ==> |f| < U32) && (forall x :: x in values ==> Sized(x))
    case Pointer(context, attributes) =>
      && |context| < U32 && |attributes| < U32
      && (forall k :: k in attributes ==> Sized(k) && Sized(attributes[k]))
    case _ => true
  }

  /** The encoder's count of levels: the members of a struct's vectors are one level down. */
  ghost predicate Writable(v: Value, depth: nat) {
    depth <= MAX_NESTING_DEPTH &&
    match v
    case Seq(_, items) => forall x :: x in items ==> Writable(x, depth + 1)
    case Set(elems) => forall x :: x in elems ==> Writable(x, depth + 1)
    case Map(pairs) => forall k :: k in pairs ==> Writable(k, depth + 1) && Writable(pairs[k], depth + 1)
    case Entries(_, entries) => forall e :: e in entries ==> Writable(e.0, depth + 1) && Writable(e.1, depth + 1)
    case Tagged(_, form) => depth + 1 <= MAX_NESTING_DEPTH && Writable(form, depth + 1)
    case Struct(_, _, values) =>
      depth + 1 <= MAX_NESTING_DEPTH && (forall x :: x in values ==> Writable(x, depth + 1))
    case Pointer(_, attributes) =>
      && depth + 1 <= MAX_NESTING_DEPTH
      && (forall k :: k in attributes ==> Writable(k, depth + 2) && Writable(attributes[k], depth + 2))
    case _ => true
  }

  /** The decoder's count of levels: the members of a struct's vectors are two levels down. */
  ghost predicate Shallow(v: Value, depth: nat) {
    depth <= MAX_NESTING_DEPTH &&
    match v
    case Seq(_, items) => forall x :: x in items ==> Shallow(x, depth + 1)
    case Set(elems) => forall x :: x in elems ==> Shallow(x, depth + 1)
    case Map(pairs) => forall k :: k in pairs ==> Shallow(k, depth + 1) && Shallow(pairs[k], depth + 1)
    case Entries(_, entries) => forall e :: e in entries ==> Shallow(e.0, depth + 1) && Shallow(e.1, depth + 1)
    case Tagged(_, form) => depth + 1 <= MAX_NESTING_DEPTH && Shallow(form, depth + 1)
    case Struct(_, fields, values) =>
      && depth + 1 <= MAX_NESTING_DEPTH
      && (fields != [] ==> depth + 2 <= MAX_NESTING_DEPTH)
      && (forall x :: x in values ==> Shallow(x, depth + 2))
    case Pointer(_, attributes) =>
      && depth + 1 <= MAX_NESTING_DEPTH
      && (forall k :: k in attributes ==> Shallow(k, depth + 2) && Shallow(attributes[k], depth + 2))
    case _ => true
  }

  // ----- numbers -----

  lemma FixedWidths()
    ensures Power256(4) == U32 && Power256(8) == U64
  {
    assert Power256(2) == 0x1_0000;
    assert Power256(4) == U32;
    assert Power256(6) == 0x1_0000_0000_0000;
  }

  function ToUnsigned(n: int): nat
    requires FitsLong(n)
  {
    if n < 0 then n + U64 else n
  }

  function ToSigned(n: nat): int { if !FitsLong(n) then n - U64 else n }

  function DecimalText(n: int): Bytes {
    if n < 0 then [45] + AsciiDigits(Decimal.Digits(-n)) else AsciiDigits(Decimal.Digits(n))
  }

  function AsciiDigits(ds: seq<int>): Bytes
    requires forall d :: d in ds ==> Decimal.Digit(d)
  {
    if ds == [] then [] else assert ds[0] in ds && Decimal.Digit(ds[0]); var b: byte := ds[0] + 48; [b] + AsciiDigits(ds[1..])
  }

  // ----- encoding -----

  function Data(d: Bytes): Bytes { BigEndian(|d|, 4) + d }

  function TextBytes(k: TextKind, d: Bytes): Bytes { [TextTag(k)] + Data(d) }

  function TextsBytes(texts: seq<Bytes>): Bytes {
    if texts == [] then [] else TextBytes(STRING, texts[0]) + TextsBytes(texts[1..])
  }

  function Flatten(ss: seq<Bytes>): Bytes {
    if ss == [] then [] else ss[0] + Flatten(ss[1..])
  }

  function Payloads(es: seq<(Key, Bytes)>): seq<Bytes> {
    seq(|es|, i requires 0 <= i < |es| => es[i].1)
  }

  /** Members sorted by the bytes of their encoded element or key, then written out. */
  ghost function Sorted(es: set<(Key, Bytes)>): Bytes { Flatten(Payloads(Arrange(es))) }

  /** The bytes a value is written as. */
  ghost function Encoding(v: Value): (s: Bytes)
    ensures |s| > 0
    decreases v, 1
  {
    match v
    case Nil => [0]
    case Bool(b) => [if b then 2 else 1]
    case Int(n) =>
      if FitsLong(n) then [3] + BigEndian(ToUnsigned(n), 8) else [20] + Data(DecimalText(n))
    case Float(bits) => [15] + BigEndian(bits, 8)
    case Char(c) => [19] + BigEndian(c, 4)
    case Text(k, data) => TextBytes(k, data)
    case Seq(k, items) =>
      [SeqTag(k)] + BigEndian(|items|, 4)
      + Flatten(seq(|items|, i requires 0 <= i < |items| => Encoding(items[i])))
    case Set(elems) =>
      [10] + BigEndian(|elems|, 4) + Sorted(SetCells(v))
    case Map(pairs) =>
      [11] + BigEndian(|pairs|, 4) + Sorted(MapCells(v))
    case Entries(k, entries) =>
      [EntriesTag(k)] + BigEndian(|entries|, 4)
      + Flatten(seq(|entries|, i requires 0 <= i < |entries| => Encoding(entries[i].0) + Encoding(entries[i].1)))
    case Handle(provider, typeName, id) => [12] + Data(provider) + Data(typeName) + BigEndian(id, 8)
    case Tagged(tag, form) => [31] + TextBytes(SYMBOL, tag) + Encoding(form)
    case Struct(name, fields, values) =>
      [33] + TextBytes(STRING, name) + ([9] + BigEndian(|fields|, 4) + TextsBytes(fields))
      + ([9] + BigEndian(|values|, 4)
         + Flatten(seq(|values|, i requires 0 <= i < |values| => Encoding(values[i]))))
    case Pointer(context, attributes) =>
      [34] + TextBytes(KEYWORD, context)
      + ([11] + BigEndian(|attributes|, 4) + Sorted(MapCells(v)))
  }

  ghost function SetCells(v: Value): set<(Key, Bytes)>
    requires v.Set?
    decreases v, 0
  {
    set x | x in v.elems :: (Encoding(x), Encoding(x))
  }

  ghost function MapCells(v: Value): set<(Key, Bytes)>
    requires v.Map? || v.Pointer?
    decreases v, 0
  {
    if v.Map? then set k | k in v.pairs :: (Encoding(k), Encoding(k) + Encoding(v.pairs[k]))
    else set k | k in v.attributes :: (Encoding(k), Encoding(k) + Encoding(v.attributes[k]))
  }

  // ----- decoding -----

  /** `Unencodable` stands for a value too deep, not finite or too long to write. */
  datatype Error = TooLarge | TooDeep | Truncated | Malformed | NonFinite | Unencodable

  /** A read leaves the bytes it has not consumed. */
  type Read<+T> = Reading<T, Error>

  function Take(s: Bytes, n: nat): Read<Bytes> { Front(s, n, Truncated) }

  function ReadNumber(s: Bytes, width: nat): Read<nat> {
    var (d, rest) :- Take(s, width);
    Got(FromBigEndian(d), rest)
  }

  function ReadData(s: Bytes): Read<Bytes> {
    var (n, rest) :- ReadNumber(s, 4);
    Take(rest, n)
  }

  function ReadText(u: Utf8, s: Bytes): Read<Bytes> {
    var (d, rest) :- ReadData(s);
    if u(d) then Got(d, rest) else Bad(Malformed)
  }

  /** The big-integer library: a sign, then digits which may be separated by underscores. */
  function ParseInteger(t: Bytes): Read<int> {
    var negative := t != [] && t[0] == 45;
    var t1 := if negative && !(|t| > 1 && t[1] == 43) then t[1..] else t;
    var t2 := if t1 != [] && t1[0] == 43 && !(|t1| > 1 && t1[1] == 43) then t1[1..] else t1;
    if t2 == [] || t2[0] == 95 || (exists c :: c in t2 && !(48 <= c <= 57 || c == 95)) then Bad(Malformed)
    else
      var n := Decimal.FromDigits(PlainDigits(t2));
      Got(if negative then -n else n, [])
  }

  function PlainDigits(t: Bytes): seq<int> {
    if t == [] then []
    else if t[0] == 95 then PlainDigits(t[1..])
    else [t[0] - 48] + PlainDigits(t[1..])
  }

  /** An ordered set keeps the first of equal elements. */
  function FirstOnly(items: seq<Value>): seq<Value> {
    if items == [] then []
    else
      var front, x := FirstOnly(items[..|items| - 1]), items[|items| - 1];
      if x in front then front else front + [x]
  }

  /** An ordered map keeps a repeated key where it first stood, with its last value. */
  function Overwrite(entries: seq<(Value, Value)>, e: (Value, Value)): seq<(Value, Value)> {
    if entries == [] then [e]
    else if entries[0].0 == e.0 then [e] + entries[1..]
    else [entries[0]] + Overwrite(entries[1..], e)
  }

  function LastWins(entries: seq<(Value, Value)>): seq<(Value, Value)> {
    if entries == [] then []
    else Overwrite(LastWins(entries[..|entries| - 1]), entries[|entries| - 1])
  }

  function TextKindOf(tag: byte): TextKind
    requires tag in {4, 5, 6, 7, 22}
  {
    if tag == 4 then STRING else if tag == 5 then BYTES else if tag == 6 then KEYWORD
    else if tag == 7 then SYMBOL else REGEX
  }

  function SeqKindOf(tag: byte): SeqKind
    requires tag in {8, 9, 17, 24, 25, 29, 36, 38}
  {
    if tag == 8 then LIST else if tag == 9 then VECTOR else if tag == 17 then ARRAY
    else if tag == 24 then CONS else if tag == 25 then QUEUE else if tag == 29 then ORDERED_SET
    else if tag == 36 then DEQUE else MAP_ENTRY
  }

  function SequenceOf(k: SeqKind, items: seq<Value>, rest: Bytes): Read<Value> {
    if (k == MAP_ENTRY && |items| != 2) || (k == CONS && items == []) then Bad(Malformed)
    else Got(Seq(k, if k == ORDERED_SET then FirstOnly(items) else items), rest)
  }

  predicate IsString(v: Value) { v.Text? && v.text == STRING }

  predicate AllStrings(vs: seq<Value>) { forall v :: v in vs ==> IsString(v) }

  function StructOf(name: Bytes, fields: seq<Value>, values: seq<Value>, rest: Bytes): Read<Value>
    requires AllStrings(fields)
  {
    var names := seq(|fields|, i requires 0 <= i < |fields| => assert fields[i] in fields; fields[i].data);
    if |fields| != |values| || (name == RESULT_NAME && names == RESULT_FIELDS) then Bad(Malformed)
    else Got(Struct(name, names, ByField(names, values)), rest)
  }

  /** The last value given for a field stands for the field. */
  function FieldValue(names: seq<Bytes>, values: seq<Value>, field: Bytes): Value
    requires |names| == |values| && field in names
  {
    var last := |names| - 1;
    if names[last] == field then values[last] else FieldValue(names[..last], values[..last], field)
  }

  function ByField(names: seq<Bytes>, values: seq<Value>): seq<Value>
    requires |names| == |values|
  {
    seq(|names|, i requires 0 <= i < |names| => FieldValue(names, values, names[i]))
  }

  predicate TooDeepAt(bounded: bool, depth: nat) { bounded && depth > MAX_NESTING_DEPTH }

  /**
   Reads one value.  The decoder always bounds the depth; `bounded` is false only to say what
   the bytes mean when depth is left out of account.
   */
  function ReadValue(u: Utf8, bounded: bool, s: Bytes, depth: nat): (r: Read<Value>)
    ensures r.Got? ==> |r.rest| < |s|
    decreases |s|, 0
  {
    if TooDeepAt(bounded, depth) then Bad(TooDeep)
    else if s == [] then Bad(Truncated)
    else
      var tag, t := s[0], s[1..];
      if tag <= 7 || tag in {12, 15, 19, 20, 22} then ReadLeaf(u, tag, t)
      else if tag == 31 then ReadTagged(u, bounded, t, depth)
      else if tag == 33 then ReadStruct(u, bounded, t, depth)
      else if tag == 34 then ReadPointer(u, bounded, t, depth)
      else ReadContainer(u, bounded, tag, t, depth)
  }

  function ReadLeaf(u: Utf8, tag: byte, t: Bytes): (r: Read<Value>)
    ensures r.Got? ==> |r.rest| <= |t|
  {
    if tag == 0 then Got(Nil, t)
    else if tag == 1 then Got(Bool(false), t)
    else if tag == 2 then Got(Bool(true), t)
    else if tag == 3 then
      var (n, rest) :- ReadNumber(t, 8);
      Got(Int(ToSigned(n)), rest)
    else if tag == 15 then
      var (n, rest) :- ReadNumber(t, 8);
      if Finite(n) then Got(Float(n), rest) else Bad(NonFinite)
    else if tag == 19 then
      var (n, rest) :- ReadNumber(t, 4);
      if Scalar(n) then Got(Char(n), rest) else Bad(Malformed)
    else if tag == 20 then
      var (d, rest) :- ReadText(u, t);
      var (n, _) :- ParseInteger(d);
      Got(Int(n), rest)
    else if tag == 5 then
      var (d, rest) :- ReadData(t);
      Got(Text(BYTES, d), rest)
    else if tag in {4, 6, 7, 22} then
      var (d, rest) :- ReadText(u, t);
      Got(Text(TextKindOf(tag), d), rest)
    else if tag == 12 then
      var (provider, t1) :- ReadText(u, t);
      var (typeName, t2) :- ReadText(u, t1);
      var (id, rest) :- ReadNumber(t2, 8);
      Got(Handle(provider, typeName, id), rest)
    else Bad(Malformed)
  }

  function ReadContainer(u: Utf8, bounded: bool, tag: byte, t: Bytes, depth: nat): (r: Read<Value>)
    ensures r.Got? ==> |r.rest| <= |t|
    decreases |t|, 3
  {
    if tag in {8, 9, 17, 24, 25, 29, 36, 38} then
      var (items, rest) :- ReadSequence(u, bounded, t, depth);
      SequenceOf(SeqKindOf(tag), items, rest)
    else if tag == 10 then
      var (items, rest) :- ReadSequence(u, bounded, t, depth);
      Got(Set(set x | x in items), rest)
    else if tag == 11 then
      var (pairs, rest) :- ReadEntries(u, bounded, false, t, depth);
      Got(Map(MapOf(pairs)), rest)
    else if tag == 26 then
      var (pairs, rest) :- ReadEntries(u, bounded, false, t, depth);
      Got(Entries(ORDERED_MAP, LastWins(pairs)), rest)
    else if tag == 18 then
      var (pairs, rest) :- ReadEntries(u, bounded, true, t, depth);
      Got(Entries(OBJECT, pairs), rest)
    else Bad(Malformed)
  }

  function ReadTagged(u: Utf8, bounded: bool, t: Bytes, depth: nat): (r: Read<Value>)
    ensures r.Got? ==> |r.rest| <= |t|
    decreases |t|, 1
  {
    var (name, t1) :- ReadValue(u, bounded, t, depth + 1);
    if !(name.Text? && name.text == SYMBOL) then Bad(Malformed)
    else
      var (form, rest) :- ReadValue(u, bounded, t1, depth + 1);
      Got(Tagged(name.data, form), rest)
  }

  function ReadPointer(u: Utf8, bounded: bool, t: Bytes, depth: nat): (r: Read<Value>)
    ensures r.Got? ==> |r.rest| <= |t|
    decreases |t|, 1
  {
    var (name, t1) :- ReadValue(u, bounded, t, depth + 1);
    if !(name.Text? && name.text == KEYWORD) then Bad(Malformed)
    else
      var (attributes, rest) :- ReadValue(u, bounded, t1, depth + 1);
      if !attributes.Map? then Bad(Malformed)
      else Got(Pointer(name.data, attributes.pairs), rest)
  }

  function ReadStruct(u: Utf8, bounded: bool, t: Bytes, depth: nat): (r: Read<Value>)
    ensures r.Got? ==> |r.rest| <= |t|
    decreases |t|, 1
  {
    var (name, t1) :- ReadValue(u, bounded, t, depth + 1);
    if !IsString(name) then Bad(Malformed)
    else
      var (fields, t2) :- ReadValue(u, bounded, t1, depth + 1);
      if !(fields.Seq? && fields.kind == VECTOR && AllStrings(fields.items)) then Bad(Malformed)
      else
        var (values, rest) :- ReadValue(u, bounded, t2, depth + 1);
        if !(values.Seq? && values.kind == VECTOR) then Bad(Malformed)
        else StructOf(name.data, fields.items, values.items, rest)
  }

  function ReadSequence(u: Utf8, bounded: bool, s: Bytes, depth: nat): (r: Read<seq<Value>>)
    ensures r.Got? ==> |r.rest| <= |s|
    decreases |s|, 2
  {
    var (n, rest) :- ReadNumber(s, 4);
    if n > |rest| then Bad(Malformed) else ReadValues(u, bounded, rest, n, depth + 1)
  }

  /** Counted entries; with `named` every key must be a string, and is checked as soon as it is read. */
  function ReadEntries(u: Utf8, bounded: bool, named: bool, s: Bytes, depth: nat): (r: Read<seq<(Value, Value)>>)
    ensures r.Got? ==> |r.rest| <= |s|
    decreases |s|, 2
  {
    var (n, rest) :- ReadNumber(s, 4);
    if n > |rest| / 2 then Bad(Malformed) else ReadPairs(u, bounded, named, rest, n, depth + 1)
  }

  function ReadValues(u: Utf8, bounded: bool, s: Bytes, n: nat, depth: nat): (r: Read<seq<Value>>)
    ensures r.Got? ==> |r.rest| <= |s| && |r.value| == n
    decreases |s|, 1
  {
    if n == 0 then Got([], s)
    else
      var (v, s1) :- ReadValue(u, bounded, s, depth);
      var (vs, rest) :- ReadValues(u, bounded, s1, n - 1, depth);
      Got([v] + vs, rest)
  }

  function ReadPairs(u: Utf8, bounded: bool, named: bool, s: Bytes, n: nat, depth: nat): (r: Read<seq<(Value, Value)>>)
    ensures r.Got? ==> |r.rest| <= |s| && |r.value| == n
    decreases |s|, 1
  {
    if n == 0 then Got([], s)
    else
      var (k, s1) :- ReadValue(u, bounded, s, depth);
      if named && !IsString(k) then Bad(Malformed)
      else
        var (v, s2) :- ReadValue(u, bounded, s1, depth);
        var (rest, s3) :- ReadPairs(u, bounded, named, s2, n - 1, depth);
        Got([(k, v)] + rest, s3)
  }

  // ----- frames -----

  /** The frame `encode` produces, if any. */
  ghost function Frame(v: Value): Read<Bytes> {
    if !Sized(v) || !Writable(v, 0) then Bad(Unencodable)
    else if |MAGIC + Encoding(v)| > MAX_FRAME_BYTES then Bad(TooLarge)
    else Got(MAGIC + Encoding(v), [])
  }

  function Decode(u: Utf8, frame: Bytes): Read<Value> {
    if |frame| > MAX_FRAME_BYTES then Bad(TooLarge)
    else if !(MAGIC <= frame) then Bad(Malformed)
    else
      var (v, rest) :- ReadValue(u, true, frame[4..], 0);
      if rest != [] then Bad(Malformed) else Got(v, [])
  }

  ghost function DecodeCanonical(u: Utf8, frame: Bytes): Read<Value> {
    var (v, _) :- Decode(u, frame);
    var (canonical, _) :- Frame(v);
    if canonical != frame then Bad(Malformed) else Got(v, [])
  }
}
