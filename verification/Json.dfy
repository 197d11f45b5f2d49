/**
 JSON text (core/rust/src/json.rs): what the printers write and the parser reads, over the
 remaining input.  Sections 4 to 7 of RFC 8259, integers only.
 */
module Json {
  import opened Results
  import opened Words
  import opened Decimal

  const MAX_DEPTH := 256

  /** Integers of both widths are one kind here; `Other` stands for the values JSON has no form for. */
  datatype Value =
    | Nil
    | Bool(truth: bool)
    | Int(n: int)
    | Text(chars: string)
    | List(items: seq<Value>)
    | Object(entries: seq<(Value, Value)>)
    | Other

  datatype JsonError =
    | TooDeep | ExpectedValue | InvalidToken | LeadingZero | NotAnInteger | Expected(wanted: char)
    | TrailingComma | KeyNotString | DuplicateKey | Unterminated | ControlCharacter | InvalidEscape
    | IncompleteUnicode | InvalidUnicode | TrailingContent

  type Res<+T> = Result<T, JsonError>

  // ----- printing -----

  function Escape(c: char): string {
    if c == '"' then "\\\""
    else if c == '\\' then "\\\\"
    else if c as int == 8 then "\\b"
    else if c as int == 12 then "\\f"
    else if c == '\n' then "\\n"
    else if c == '\r' then "\\r"
    else if c == '\t' then "\\t"
    else if c as int <= 0x1f then "\\u00" + [HexDigit(c as int / 16), HexDigit(c as int % 16)]
    else [c]
  }

  function Escaped(s: string): string { if s == "" then "" else Escape(s[0]) + Escaped(s[1..]) }

  function Quoted(s: string): string { "\"" + Escaped(s) + "\"" }

  function DigitChar(d: int): char
    requires Digit(d)
  {
    "0123456789"[d]
  }

  function DigitText(ds: seq<int>): string
    requires forall d :: d in ds ==> Digit(d)
  {
    seq(|ds|, i requires 0 <= i < |ds| => assert ds[i] in ds; DigitChar(ds[i]))
  }

  function NumberText(n: int): string {
    if n < 0 then "-" + DigitText(Digits(-n)) else DigitText(Digits(n))
  }

  function Spaces(depth: nat): string { if depth == 0 then "" else "  " + Spaces(depth - 1) }

  function Newline(depth: nat): string { "\n" + Spaces(depth) }

  /** What stands before item `i` of a container whose items are at `depth`. */
  function Lead(i: nat, depth: nat, pretty: bool): string {
    (if i > 0 then "," else "") + (if pretty then Newline(depth) else "")
  }

  function Close(empty: bool, depth: nat, pretty: bool, c: char): string {
    (if pretty && !empty then Newline(depth) else "") + [c]
  }

  function Colon(pretty: bool): string { if pretty then ": " else ":" }

  /** The values the printers accept: every key a string, and nothing JSON has no form for. */
  predicate Writable(v: Value) {
    match v
    case List(items) => forall i :: 0 <= i < |items| ==> Writable(items[i])
    case Object(entries) => forall i :: 0 <= i < |entries| ==> entries[i].0.Text? && Writable(entries[i].1)
    case Other => false
    case _ => true
  }

  function Print(v: Value, depth: nat, pretty: bool): string
    requires Writable(v)
    decreases v, 1, 0
  {
    match v
    case Nil => "null"
    case Bool(b) => if b then "true" else "false"
    case Int(n) => NumberText(n)
    case Text(s) => Quoted(s)
    case List(items) => "[" + ItemsFrom(v, 0, depth + 1, pretty) + Close(items == [], depth, pretty, ']')
    case Object(entries) => "{" + MembersFrom(v, 0, depth + 1, pretty) + Close(entries == [], depth, pretty, '}')
  }

  function ItemsFrom(v: Value, i: nat, depth: nat, pretty: bool): string
    requires v.List? && Writable(v) && i <= |v.items|
    decreases v, 0, |v.items| - i
  {
    if i == |v.items| then ""
    else Lead(i, depth, pretty) + Print(v.items[i], depth, pretty) + ItemsFrom(v, i + 1, depth, pretty)
  }

  function MembersFrom(v: Value, i: nat, depth: nat, pretty: bool): string
    requires v.Object? && Writable(v) && i <= |v.entries|
    decreases v, 0, |v.entries| - i
  {
    if i == |v.entries| then ""
    else
      var (key, value) := v.entries[i];
      Lead(i, depth, pretty) + Quoted(key.chars) + Colon(pretty) + Print(value, depth, pretty)
      + MembersFrom(v, i + 1, depth, pretty)
  }

  // ----- reading -----

  predicate Blank(c: char) { c == ' ' || c == '\t' || c == '\n' || c == '\r' }

  function Skip(s: string): (r: string)
    ensures |r| <= |s|
  {
    if s != "" && Blank(s[0]) then Skip(s[1..]) else s
  }

  predicate At(s: string, c: char) { s != "" && s[0] == c }

  predicate DigitAt(s: string) { s != "" && '0' <= s[0] <= '9' }

  function Literal(s: string, text: string, v: Value): (r: Res<(Value, string)>)
    ensures r.Ok? && text != "" ==> |r.value.1| < |s|
  {
    if text <= s then Ok((v, s[|text|..])) else Err(InvalidToken)
  }

  function Run(s: string): (n: nat)
    ensures n <= |s|
    ensures forall i :: 0 <= i < n ==> '0' <= s[i] <= '9'
    ensures n < |s| ==> !('0' <= s[n] <= '9')
  {
    if DigitAt(s) then 1 + Run(s[1..]) else 0
  }

  function DigitsOf(s: string): seq<int> { seq(|s|, i requires 0 <= i < |s| => s[i] as int - '0' as int) }

  /** The digits of a number, and what follows them. */
  function Magnitude(s: string): (r: Res<(int, string)>)
    ensures r.Ok? ==> |r.value.1| < |s|
  {
    if !DigitAt(s) then Err(ExpectedValue)
    else if s[0] == '0' && DigitAt(s[1..]) then Err(LeadingZero)
    else
      var k := if s[0] == '0' then 1 else Run(s);
      var rest := s[k..];
      if rest != "" && (rest[0] == '.' || rest[0] == 'e' || rest[0] == 'E') then Err(NotAnInteger)
      else Ok((FromDigits(DigitsOf(s[..k])), rest))
  }

  function Number(s: string): (r: Res<(Value, string)>)
    ensures r.Ok? ==> |r.value.1| < |s|
  {
    if At(s, '-') then
      var (n, rest) :- Magnitude(s[1..]);
      Ok((Int(-n), rest))
    else
      var (n, rest) :- Magnitude(s);
      Ok((Int(n), rest))
  }

  function HexValue(c: char): Res<int> {
    if '0' <= c <= '9' then Ok(c as int - '0' as int)
    else if 'a' <= c <= 'f' then Ok(c as int - 'a' as int + 10)
    else if 'A' <= c <= 'F' then Ok(c as int - 'A' as int + 10)
    else Err(InvalidUnicode)
  }

  /** Up to `k` more hexadecimal digits of a number read so far. */
  function Hex(s: string, k: nat, n: nat): (r: Res<(nat, string)>)
    ensures r.Ok? ==> |r.value.1| == |s| - k
  {
    if k == 0 then Ok((n, s))
    else if s == "" then Err(IncompleteUnicode)
    else
      var d :- HexValue(s[0]);
      Hex(s[1..], k - 1, n * 16 + d)
  }

  /** The character an escape stands for, after its backslash. */
  function Unescape(s: string): (r: Res<(char, string)>)
    ensures r.Ok? ==> |r.value.1| < |s|
  {
    if s == "" then Err(InvalidEscape)
    else
      match s[0]
      case '"' => Ok(('"', s[1..]))
      case '\\' => Ok(('\\', s[1..]))
      case '/' => Ok(('/', s[1..]))
      case 'b' => Ok((8 as char, s[1..]))
      case 'f' => Ok((12 as char, s[1..]))
      case 'n' => Ok(('\n', s[1..]))
      case 'r' => Ok(('\r', s[1..]))
      case 't' => Ok(('\t', s[1..]))
      case 'u' =>
        var (n, after) :- Hex(s[1..], 4, 0);
        if Scalar(n) then Ok((n as char, after)) else Err(InvalidUnicode)
      case _ => Err(InvalidEscape)
  }

  /** The characters of a string up to its closing quote. */
  function Chars(s: string, acc: string): (r: Res<(string, string)>)
    ensures r.Ok? ==> |r.value.1| < |s|
    decreases |s|
  {
    if s == "" then Err(Unterminated)
    else if s[0] == '"' then Ok((acc, s[1..]))
    else if (s[0] as int) < 0x20 then Err(ControlCharacter)
    else if s[0] == '\\' then
      var (c, rest) :- Unescape(s[1..]);
      Chars(rest, acc + [c])
    else Chars(s[1..], acc + [s[0]])
  }

  /** The parser, with its depth limit on (`b`) or off. */
  function ReadValue(b: bool, s: string, depth: nat): (r: Res<(Value, string)>)
    ensures r.Ok? ==> |r.value.1| < |s|
    decreases |s|, 0
  {
    if b && depth > MAX_DEPTH then Err(TooDeep)
    else
      var t := Skip(s);
      if t == "" then Err(ExpectedValue)
      else if t[0] == 'n' then Literal(t, "null", Nil)
      else if t[0] == 't' then Literal(t, "true", Bool(true))
      else if t[0] == 'f' then Literal(t, "false", Bool(false))
      else if t[0] == '"' then
        var (text, rest) :- Chars(t[1..], "");
        Ok((Text(text), rest))
      else if t[0] == '[' then ReadArray(b, t[1..], depth + 1)
      else if t[0] == '{' then ReadObject(b, t[1..], depth + 1)
      else Number(t)
  }

  function ReadArray(b: bool, s: string, depth: nat): (r: Res<(Value, string)>)
    ensures r.Ok? ==> |r.value.1| <= |s|
    decreases |s|, 2
  {
    var t := Skip(s);
    if At(t, ']') then Ok((List([]), t[1..])) else ReadItems(b, t, depth, [])
  }

  function ReadItems(b: bool, s: string, depth: nat, acc: seq<Value>): (r: Res<(Value, string)>)
    ensures r.Ok? ==> |r.value.1| <= |s|
    decreases |s|, 1
  {
    var (v, rest) :- ReadValue(b, s, depth);
    var t := Skip(rest);
    if At(t, ']') then Ok((List(acc + [v]), t[1..]))
    else if !At(t, ',') then Err(Expected(','))
    else
      var u := Skip(t[1..]);
      if At(u, ']') then Err(TrailingComma) else ReadItems(b, u, depth, acc + [v])
  }

  function ReadObject(b: bool, s: string, depth: nat): (r: Res<(Value, string)>)
    ensures r.Ok? ==> |r.value.1| <= |s|
    decreases |s|, 2
  {
    var t := Skip(s);
    if At(t, '}') then Ok((Object([]), t[1..])) else ReadMembers(b, t, depth, [])
  }

  predicate HasKey(entries: seq<(Value, Value)>, key: string) {
    exists i :: 0 <= i < |entries| && entries[i].0 == Text(key)
  }

  function ReadMembers(b: bool, s: string, depth: nat, acc: seq<(Value, Value)>): (r: Res<(Value, string)>)
    ensures r.Ok? ==> |r.value.1| <= |s|
    decreases |s|, 1
  {
    if !At(s, '"') then Err(KeyNotString)
    else
      var (key, afterKey) :- Chars(s[1..], "");
      var colon := Skip(afterKey);
      if !At(colon, ':') then Err(Expected(':'))
      else
        var (v, rest) :- ReadValue(b, colon[1..], depth);
        if HasKey(acc, key) then Err(DuplicateKey)
        else
          var t := Skip(rest);
          var entries := acc + [(Text(key), v)];
          if At(t, '}') then Ok((Object(entries), t[1..]))
          else if !At(t, ',') then Err(Expected(','))
          else
            var u := Skip(t[1..]);
            if At(u, '}') then Err(TrailingComma) else ReadMembers(b, u, depth, entries)
  }

  function Read(source: string): Res<Value> {
    var (v, rest) :- ReadValue(true, source, 0);
    if Skip(rest) == "" then Ok(v) else Err(TrailingContent)
  }
}
