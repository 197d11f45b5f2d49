/**
 The printers and the parser as they run (core/rust/src/json.rs): text pushed onto one output
 string, and an offset that advances through the input.
 */
module JsonCodec {
  import opened Results
  import opened Words
  import opened Sequences
  import opened Decimal
  import opened Json
  import opened JsonRoundTrip

  // ----- printers -----

  class Printer {
    var out: string

    constructor ()
      ensures out == ""
    {
      out := "";
    }

    method Push(s: string)
      modifies this
      ensures out == old(out) + s
    {
      out := out + s;
    }

    method PushNewline(depth: nat)
      modifies this
      ensures out == old(out) + Newline(depth)
    {
      out := out + "\n";
      ghost var start := out;
      var i := 0;
      assert out + Spaces(depth - i) == start + Spaces(depth);
      while i < depth
        invariant 0 <= i <= depth && out + Spaces(depth - i) == start + Spaces(depth)
      {
        assert Spaces(depth - i) == "  " + Spaces(depth - i - 1);
        assert out + ("  " + Spaces(depth - i - 1)) == out + "  " + Spaces(depth - i - 1);
        out := out + "  ";
        i := i + 1;
      }
      assert out + "" == out;
      assert old(out) + "\n" + Spaces(depth) == old(out) + Newline(depth);
    }

    method PushString(text: string)
      modifies this
      ensures out == old(out) + Quoted(text)
    {
      out := out + "\"";
      ghost var start := out;
      var i := 0;
      assert text[0..] == text;
      hide Escape;
      while i < |text|
        invariant 0 <= i <= |text| && out + Escaped(text[i..]) == start + Escaped(text)
      {
        assert text[i..][1..] == text[i + 1..];
        var piece := Escape(text[i]);
        assert Escaped(text[i..]) == piece + Escaped(text[i + 1..]);
        Joined(out, piece, Escaped(text[i + 1..]));
        out := out + piece;
        i := i + 1;
      }
      assert out + "" == out;
      out := out + "\"";
      JoinedFour(old(out), "\"", Escaped(text), "\"");
    }

    /** Pushes the text of a value, unless some part of it has none. */
    method Encode(v: Value, depth: nat, pretty: bool) returns (ok: bool)
      modifies this
      ensures ok <==> Writable(v)
      ensures ok ==> out == old(out) + Print(v, depth, pretty)
      decreases v, 1, 0
    {
      match v
      case Nil => Push("null"); ok := true;
      case Bool(b) => Push(if b then "true" else "false"); ok := true;
      case Int(n) => Push(NumberText(n)); ok := true;
      case Text(s) => PushString(s); ok := true;
      case List(items) => ok := EncodeItems(v, depth, pretty);
      case Object(entries) => ok := EncodeMembers(v, depth, pretty);
      case Other => ok := false;
    }

    method PushLead(i: nat, depth: nat, pretty: bool)
      modifies this
      ensures out == old(out) + Lead(i, depth, pretty)
    {
      hide Newline;
      if i > 0 { out := out + ","; }
      if pretty { PushNewline(depth); }
      assert out == old(out) + (if i > 0 then "," else "") + (if pretty then Newline(depth) else "");
    }

    method PushClose(empty: bool, depth: nat, pretty: bool, c: char)
      modifies this
      ensures out == old(out) + Close(empty, depth, pretty, c)
    {
      hide Newline;
      if pretty && !empty { PushNewline(depth); }
      out := out + [c];
    }

    method EncodeItems(v: Value, depth: nat, pretty: bool) returns (ok: bool)
      requires v.List?
      modifies this
      ensures ok <==> Writable(v)
      ensures ok ==> out == old(out) + Print(v, depth, pretty)
      decreases v, 0, 0
    {
      hide Lead, Close, Print, ItemsFrom;
      out := out + "[";
      ghost var start := out;
      var i := 0;
      while i < |v.items|
        invariant 0 <= i <= |v.items| && forall k :: 0 <= k < i ==> Writable(v.items[k])
        invariant Writable(v) ==> out + ItemsFrom(v, i, depth + 1, pretty) == start + ItemsFrom(v, 0, depth + 1, pretty)
      {
        ghost var before := out;
        PushLead(i, depth + 1, pretty);
        ok := Encode(v.items[i], depth + 1, pretty);
        if !ok { return; }
        if Writable(v) { ItemPushed(v, i, depth + 1, pretty, before); }
        i := i + 1;
      }
      assert Writable(v);
      PushClose(v.items == [], depth, pretty, ']');
      ItemsPushed(v, depth, pretty, old(out));
      ok := true;
    }

    method EncodeMembers(v: Value, depth: nat, pretty: bool) returns (ok: bool)
      requires v.Object?
      modifies this
      ensures ok <==> Writable(v)
      ensures ok ==> out == old(out) + Print(v, depth, pretty)
      decreases v, 0, 0
    {
      hide Lead, Close, Colon, Quoted, Print, MembersFrom;
      out := out + "{";
      ghost var start := out;
      var i := 0;
      while i < |v.entries|
        invariant 0 <= i <= |v.entries| && forall k :: 0 <= k < i ==> v.entries[k].0.Text? && Writable(v.entries[k].1)
        invariant Writable(v) ==> out + MembersFrom(v, i, depth + 1, pretty) == start + MembersFrom(v, 0, depth + 1, pretty)
      {
        ghost var before := out;
        var (key, value) := v.entries[i];
        if !key.Text? { return false; }
        PushLead(i, depth + 1, pretty);
        PushString(key.chars);
        Push(Colon(pretty));
        ok := Encode(value, depth + 1, pretty);
        if !ok { return; }
        if Writable(v) { MemberPushed(v, i, depth + 1, pretty, before); }
        i := i + 1;
      }
      assert Writable(v);
      PushClose(v.entries == [], depth, pretty, '}');
      MembersPushed(v, depth, pretty, old(out));
      ok := true;
    }
  }

  lemma ItemPushed(v: Value, i: nat, depth: nat, pretty: bool, before: string)
    requires v.List? && Writable(v) && i < |v.items|
    ensures before + ItemsFrom(v, i, depth, pretty)
         == before + Lead(i, depth, pretty) + Print(v.items[i], depth, pretty) + ItemsFrom(v, i + 1, depth, pretty)
  {
    var lead, p, more := Lead(i, depth, pretty), Print(v.items[i], depth, pretty), ItemsFrom(v, i + 1, depth, pretty);
    assert ItemsFrom(v, i, depth, pretty) == lead + p + more;
    hide Print, ItemsFrom, Lead;
    JoinedFour(before, lead, p, more);
  }

  lemma ItemsPushed(v: Value, depth: nat, pretty: bool, before: string)
    requires v.List? && Writable(v)
    ensures ItemsFrom(v, |v.items|, depth + 1, pretty) == ""
    ensures before + "[" + ItemsFrom(v, 0, depth + 1, pretty) + Close(v.items == [], depth, pretty, ']')
         == before + Print(v, depth, pretty)
  {
    var items, close := ItemsFrom(v, 0, depth + 1, pretty), Close(v.items == [], depth, pretty, ']');
    assert Print(v, depth, pretty) == "[" + items + close;
    assert ItemsFrom(v, |v.items|, depth + 1, pretty) == "";
    hide Print, ItemsFrom, Close;
    JoinedFour(before, "[", items, close);
  }

  lemma MemberPushed(v: Value, i: nat, depth: nat, pretty: bool, before: string)
    requires v.Object? && Writable(v) && i < |v.entries|
    ensures before + MembersFrom(v, i, depth, pretty)
         == before + Lead(i, depth, pretty) + Quoted(v.entries[i].0.chars) + Colon(pretty)
            + Print(v.entries[i].1, depth, pretty) + MembersFrom(v, i + 1, depth, pretty)
  {
    var lead, k, c := Lead(i, depth, pretty), Quoted(v.entries[i].0.chars), Colon(pretty);
    var p, more := Print(v.entries[i].1, depth, pretty), MembersFrom(v, i + 1, depth, pretty);
    assert MembersFrom(v, i, depth, pretty) == lead + k + c + p + more;
    hide Print, MembersFrom, Lead, Quoted, Colon;
    JoinedFour(before, lead, k, c);
    JoinedFour(before, lead + k + c, p, more);
  }

  lemma MembersPushed(v: Value, depth: nat, pretty: bool, before: string)
    requires v.Object? && Writable(v)
    ensures MembersFrom(v, |v.entries|, depth + 1, pretty) == ""
    ensures before + "{" + MembersFrom(v, 0, depth + 1, pretty) + Close(v.entries == [], depth, pretty, '}')
         == before + Print(v, depth, pretty)
  {
    var members, close := MembersFrom(v, 0, depth + 1, pretty), Close(v.entries == [], depth, pretty, '}');
    assert Print(v, depth, pretty) == "{" + members + close;
    assert MembersFrom(v, |v.entries|, depth + 1, pretty) == "";
    hide Print, MembersFrom, Close;
    JoinedFour(before, "{", members, close);
  }

  /** `write` and `write_pretty`: the text reads back as the value, if it is not nested too deep. */
  method Write(v: Value, pretty: bool) returns (ok: bool, text: string)
    ensures ok <==> Writable(v)
    ensures ok ==> text == Print(v, 0, pretty)
    ensures ok && Unique(v) && Fits(true, v, 0) ==> Read(text) == Ok(v)
  {
    var printer := new Printer();
    ok := printer.Encode(v, 0, pretty);
    text := printer.out;
    assert ok ==> text == Print(v, 0, pretty);
    if ok && Unique(v) && Fits(true, v, 0) { PrintedReadsBack(v, pretty); }
  }

  // ----- parser -----

  class Parser {
    const input: string
    var offset: nat

    constructor (source: string)
      ensures input == source && offset == 0
    {
      input := source;
      offset := 0;
    }

    ghost predicate Valid()
      reads this
    {
      offset <= |input|
    }

    /** What is still to be read. */
    ghost function Rest(): string
      requires Valid()
      reads this
    {
      input[offset..]
    }

    predicate Peek(c: char)
      requires Valid()
      reads this
      ensures Peek(c) <==> At(Rest(), c)
    {
      offset < |input| && input[offset] == c
    }

    predicate PeekDigit()
      requires Valid()
      reads this
      ensures PeekDigit() <==> DigitAt(Rest())
    {
      offset < |input| && '0' <= input[offset] <= '9'
    }

    method Advance()
      requires Valid() && offset < |input|
      modifies this
      ensures Valid() && Rest() == old(Rest())[1..]
    {
      offset := offset + 1;
      assert input[offset..] == input[offset - 1..][1..];
    }

    method Expect(c: char) returns (r: Res<()>)
      requires Valid()
      modifies this
      ensures Valid()
      ensures if At(old(Rest()), c) then r == Ok(()) && Rest() == old(Rest())[1..] else r == Err(Expected(c))
    {
      var matches := Peek(c);
      if offset < |input| { Advance(); }
      r := if matches then Ok(()) else Err(Expected(c));
    }

    method Whitespace()
      requires Valid()
      modifies this
      ensures Valid() && Rest() == Skip(old(Rest()))
    {
      while offset < |input| && Blank(input[offset])
        invariant Valid() && Skip(Rest()) == Skip(old(Rest()))
        decreases |input| - offset
      {
        Advance();
      }
    }

    method ReadLiteral(text: string, v: Value) returns (r: Res<Value>)
      requires Valid()
      modifies this
      ensures Valid()
      ensures r.Ok? ==> Literal(old(Rest()), text, v) == Ok((r.value, Rest()))
      ensures r.Err? ==> Literal(old(Rest()), text, v) == Err(r.error)
    {
      var i := 0;
      while i < |text|
        invariant 0 <= i <= |text| && Valid() && text[..i] <= old(Rest()) && Rest() == old(Rest())[i..]
      {
        if !Peek(text[i]) {
          assert Rest() != [] ==> old(Rest())[i] == Rest()[0];
          return Err(InvalidToken);
        }
        assert Rest()[0] == old(Rest())[i];
        Advance();
        i := i + 1;
        assert text[..i] == text[..i - 1] + [text[i - 1]];
      }
      assert text[..i] == text;
      r := Ok(v);
    }

    /** Past a run of digits. */
    method SkipDigits()
      requires Valid()
      modifies this
      ensures Valid() && offset == old(offset) + Run(old(Rest()))
    {
      while PeekDigit()
        invariant Valid() && old(offset) <= offset && offset + Run(Rest()) == old(offset) + Run(old(Rest()))
        decreases |input| - offset
      {
        Advance();
      }
    }

    method ReadMagnitude() returns (r: Res<int>)
      requires Valid()
      modifies this
      ensures Valid()
      ensures r.Ok? ==> Magnitude(old(Rest())) == Ok((r.value, Rest()))
      ensures r.Err? ==> Magnitude(old(Rest())) == Err(r.error)
    {
      ghost var s := Rest();
      var start := offset;
      if !PeekDigit() { return Err(ExpectedValue); }
      if Peek('0') {
        Advance();
        if PeekDigit() { return Err(LeadingZero); }
      } else {
        SkipDigits();
      }
      assert Rest() == s[offset - start..];
      assert input[start..offset] == s[..offset - start];
      if Peek('.') || Peek('e') || Peek('E') { return Err(NotAnInteger); }
      r := Ok(FromDigits(DigitsOf(input[start..offset])));
    }

    method ReadNumber() returns (r: Res<Value>)
      requires Valid()
      modifies this
      ensures Valid()
      ensures r.Ok? ==> Number(old(Rest())) == Ok((r.value, Rest()))
      ensures r.Err? ==> Number(old(Rest())) == Err(r.error)
    {
      hide Magnitude;
      var negative := Peek('-');
      if negative { Advance(); }
      var n :- ReadMagnitude();
      r := Ok(Int(if negative then -n else n));
    }

    method UnicodeEscape() returns (r: Res<char>)
      requires Valid()
      modifies this
      ensures Valid()
      ensures var spec := Hex(old(Rest()), 4, 0);
              && (r.Ok? ==> spec.Ok? && Scalar(spec.value.0) && r.value == spec.value.0 as char && Rest() == spec.value.1)
              && (r.Err? ==> spec == Err(r.error) || (spec.Ok? && !Scalar(spec.value.0) && r.error == InvalidUnicode))
    {
      var value: nat := 0;
      var i := 0;
      while i < 4
        invariant 0 <= i <= 4 && Valid() && Hex(Rest(), 4 - i, value) == Hex(old(Rest()), 4, 0)
      {
        if offset == |input| { return Err(IncompleteUnicode); }
        var d :- HexValue(input[offset]);
        Advance();
        value := value * 16 + d;
        i := i + 1;
      }
      r := if Scalar(value) then Ok(value as char) else Err(InvalidUnicode);
    }

    /** What an escape stands for, after its backslash. */
    method ReadEscape() returns (r: Res<char>)
      requires Valid()
      modifies this
      ensures Valid()
      ensures r.Ok? ==> Unescape(old(Rest())) == Ok((r.value, Rest()))
      ensures r.Err? ==> Unescape(old(Rest())) == Err(r.error)
    {
      hide Hex;
      if offset == |input| { return Err(InvalidEscape); }
      var e := input[offset];
      Advance();
      if e == 'u' {
        r := UnicodeEscape();
      } else if e in "\"\\/bfnrt" {
        r := Ok(Unescaped(e));
      } else {
        r := Err(InvalidEscape);
      }
    }

    method ReadString() returns (r: Res<string>)
      requires Valid() && At(Rest(), '"')
      modifies this
      ensures Valid()
      ensures r.Ok? ==> Chars(old(Rest())[1..], "") == Ok((r.value, Rest()))
      ensures r.Err? ==> Chars(old(Rest())[1..], "") == Err(r.error)
    {
      hide Unescape;
      Advance();
      var out := "";
      ghost var whole := Chars(Rest(), "");
      while true
        invariant Valid() && Chars(Rest(), out) == whole
        decreases |input| - offset
      {
        if offset == |input| { return Err(Unterminated); }
        var c := input[offset];
        Advance();
        if c == '"' { return Ok(out); }
        if (c as int) < 0x20 { return Err(ControlCharacter); }
        if c == '\\' { c :- ReadEscape(); }
        out := out + [c];
      }
    }

    method ReadAny(depth: nat) returns (r: Res<Value>)
      requires Valid()
      modifies this
      ensures Valid()
      ensures r.Ok? ==> ReadValue(true, old(Rest()), depth) == Ok((r.value, Rest()))
      ensures r.Err? ==> ReadValue(true, old(Rest()), depth) == Err(r.error)
      decreases |input| - offset, 1
    {
      if depth > MAX_DEPTH { return Err(TooDeep); }
      hide Chars, Number, ReadArray, ReadObject;
      Whitespace();
      ghost var t := Rest();
      assert t == Skip(old(Rest())) && |t| <= |old(Rest())|;
      if offset == |input| { return Err(ExpectedValue); }
      assert t[0] == input[offset];
      match input[offset]
      case 'n' => r := ReadLiteral("null", Nil);
      case 't' => r := ReadLiteral("true", Bool(true));
      case 'f' => r := ReadLiteral("false", Bool(false));
      case '"' =>
        var text :- ReadString();
        r := Ok(Text(text));
      case '[' => r := ReadList(depth + 1);
      case '{' => r := ReadMap(depth + 1);
      case _ => r := ReadNumber();
    }

    method ReadList(depth: nat) returns (r: Res<Value>)
      requires Valid() && At(Rest(), '[')
      modifies this
      ensures Valid()
      ensures r.Ok? ==> ReadArray(true, old(Rest())[1..], depth) == Ok((r.value, Rest()))
      ensures r.Err? ==> ReadArray(true, old(Rest())[1..], depth) == Err(r.error)
      decreases |input| - offset, 0
    {
      hide ReadValue, Skip;
      Advance();
      ghost var whole := ReadArray(true, Rest(), depth);
      Whitespace();
      var values: seq<Value> := [];
      if Peek(']') {
        Advance();
        return Ok(List(values));
      }
      while true
        invariant Valid() && offset > old(offset) && ReadItems(true, Rest(), depth, values) == whole
        decreases |input| - offset
      {
        var v :- ReadAny(depth);
        values := values + [v];
        Whitespace();
        if Peek(']') {
          Advance();
          return Ok(List(values));
        }
        var _ :- Expect(',');
        Whitespace();
        if Peek(']') { return Err(TrailingComma); }
      }
    }

    method ReadMap(depth: nat) returns (r: Res<Value>)
      requires Valid() && At(Rest(), '{')
      modifies this
      ensures Valid()
      ensures r.Ok? ==> ReadObject(true, old(Rest())[1..], depth) == Ok((r.value, Rest()))
      ensures r.Err? ==> ReadObject(true, old(Rest())[1..], depth) == Err(r.error)
      decreases |input| - offset, 0
    {
      hide ReadValue, Skip, Chars;
      Advance();
      ghost var whole := ReadObject(true, Rest(), depth);
      Whitespace();
      var values: seq<(Value, Value)> := [];
      if Peek('}') {
        Advance();
        return Ok(Object(values));
      }
      while true
        invariant Valid() && offset > old(offset) && ReadMembers(true, Rest(), depth, values) == whole
        decreases |input| - offset
      {
        if !Peek('"') { return Err(KeyNotString); }
        var key :- ReadString();
        Whitespace();
        var _ :- Expect(':');
        var v :- ReadAny(depth);
        if HasKey(values, key) { return Err(DuplicateKey); }
        values := values + [(Text(key), v)];
        Whitespace();
        if Peek('}') {
          Advance();
          return Ok(Object(values));
        }
        var _ :- Expect(',');
        Whitespace();
        if Peek('}') { return Err(TrailingComma); }
      }
    }
  }

  function Unescaped(e: char): char
    requires e in "\"\\/bfnrt"
  {
    match e
    case 'b' => 8 as char
    case 'f' => 12 as char
    case 'n' => '\n'
    case 'r' => '\r'
    case 't' => '\t'
    case _ => e
  }

  /** Whatever the parser accepts can be written in either layout and read again. */
  method ReadText(source: string) returns (r: Res<Value>)
    ensures r == Read(source)
    ensures r.Ok? ==> Writable(r.value) && Read(Print(r.value, 0, false)) == Ok(r.value) == Read(Print(r.value, 0, true))
  {
    var parser := new Parser(source);
    assert parser.Rest() == source;
    if Read(source).Ok? {
      ReadCanBeWritten(source, false);
      ReadCanBeWritten(source, true);
    }
    hide ReadValue, Print;
    var v :- parser.ReadAny(0);
    parser.Whitespace();
    if parser.offset < |parser.input| { return Err(TrailingContent); }
    r := Ok(v);
  }
}
