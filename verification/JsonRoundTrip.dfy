/** The JSON parser undoes both printers, and everything it reads can be written. */
module JsonRoundTrip {
  import opened Results
  import opened Words
  import opened Sequences
  import opened Decimal
  import opened Json

  /** No object repeats a key. */
  ghost predicate Unique(v: Value) {
    match v
    case List(items) => forall i :: 0 <= i < |items| ==> Unique(items[i])
    case Object(entries) =>
      && (forall i, j :: 0 <= i < j < |entries| ==> entries[i].0 != entries[j].0)
      && forall i :: 0 <= i < |entries| ==> Unique(entries[i].1)
    case _ => true
  }

  /** Nested no deeper than the parser goes, if it has a limit. */
  ghost predicate Fits(b: bool, v: Value, depth: nat) {
    && (b ==> depth <= MAX_DEPTH)
    && match v
       case List(items) => forall i :: 0 <= i < |items| ==> Fits(b, items[i], depth + 1)
       case Object(entries) => forall i :: 0 <= i < |entries| ==> Fits(b, entries[i].1, depth + 1)
       case _ => true
  }

  /** A text that cannot continue a number. */
  predicate Ends(s: string) { s == "" || (!DigitAt(s) && s[0] != '.' && s[0] != 'e' && s[0] != 'E') }

  predicate Starts(c: char) {
    c == 'n' || c == 't' || c == 'f' || c == '"' || c == '[' || c == '{' || c == '-' || '0' <= c <= '9'
  }

  // ----- characters -----

  lemma EscapeReads(c: char, rest: string, acc: string)
    ensures Chars(Escape(c) + rest, acc) == Chars(rest, acc + [c])
  {
    var e := Escape(c);
    var s := e + rest;
    if |e| == 1 {
      assert s[1..] == rest;
    } else {
      EscapeUnescapes(c, rest);
      hide Unescape;
      assert s[0] == '\\';
    }
  }

  lemma EscapeUnescapes(c: char, rest: string)
    requires |Escape(c)| > 1
    ensures Unescape((Escape(c) + rest)[1..]) == Ok((c, rest))
  {
    var s := (Escape(c) + rest)[1..];
    if |Escape(c)| == 2 {
      assert s[1..] == rest;
    } else {
      var n := c as int;
      var a, b := HexDigit(n / 16), HexDigit(n % 16);
      assert s[1..] == "00" + [a, b] + rest;
      HexPair(a, b, rest, n);
    }
  }

  lemma HexPair(a: char, b: char, rest: string, n: nat)
    requires n < 32 && a == HexDigit(n / 16) && b == HexDigit(n % 16)
    ensures Hex("00" + [a, b] + rest, 4, 0) == Ok((n, rest))
  {
    var s := "00" + [a, b] + rest;
    assert s[1..] == "0" + [a, b] + rest;
    assert s[1..][1..] == [a, b] + rest;
    assert s[1..][1..][1..] == [b] + rest;
    assert s[1..][1..][1..][1..] == rest;
    assert HexValue(a) == Ok(n / 16) && HexValue(b) == Ok(n % 16);
    assert Hex(s, 4, 0) == Hex(s[1..], 3, 0);
    assert Hex(s[1..], 3, 0) == Hex(s[1..][1..], 2, 0);
    assert Hex(s[1..][1..], 2, 0) == Hex(s[1..][1..][1..], 1, n / 16);
    assert Hex(s[1..][1..][1..], 1, n / 16) == Hex(rest, 0, n / 16 * 16 + n % 16);
  }

  lemma {:induction false} StringReads(text: string, tail: string, acc: string)
    ensures Chars(Escaped(text) + "\"" + tail, acc) == Ok((acc + text, tail))
    decreases |text|
  {
    if text == "" {
      assert Escaped(text) + "\"" + tail == "\"" + tail;
      assert ("\"" + tail)[1..] == tail;
      assert acc + text == acc;
    } else {
      hide Escape, Chars;
      var rest := Escaped(text[1..]) + "\"" + tail;
      assert Escaped(text) + "\"" + tail == Escape(text[0]) + rest;
      EscapeReads(text[0], rest, acc);
      StringReads(text[1..], tail, acc + [text[0]]);
      assert acc + [text[0]] + text[1..] == acc + text;
    }
  }

  lemma QuotedReads(text: string, tail: string)
    ensures var s := Quoted(text) + tail; At(s, '"') && Chars(s[1..], "") == Ok((text, tail))
  {
    StringReads(text, tail, "");
    assert (Quoted(text) + tail)[1..] == Escaped(text) + "\"" + tail;
    assert "" + text == text;
  }

  // ----- numbers -----

  lemma {:induction false} RunOfDigits(ds: seq<int>, tail: string)
    requires (forall d :: d in ds ==> Digit(d)) && !DigitAt(tail)
    ensures Run(DigitText(ds) + tail) == |ds|
    decreases |ds|
  {
    var s := DigitText(ds) + tail;
    if ds == [] {
      assert s == tail;
    } else {
      assert ds[0] in ds && forall d :: d in ds[1..] ==> d in ds;
      assert DigitText(ds[1..]) == DigitText(ds)[1..];
      assert s[1..] == DigitText(ds[1..]) + tail;
      RunOfDigits(ds[1..], tail);
    }
  }

  /** Digits without a leading zero, before anything that cannot continue a number, are read in full. */
  lemma DigitsRead(ds: seq<int>, tail: string)
    requires ds != [] && (forall d :: d in ds ==> Digit(d)) && (|ds| > 1 ==> ds[0] != 0) && Ends(tail)
    ensures Magnitude(DigitText(ds) + tail) == Ok((FromDigits(ds), tail))
  {
    var s := DigitText(ds) + tail;
    assert ds[0] in ds;
    assert s[0] == DigitChar(ds[0]);
    RunOfDigits(ds, tail);
    DigitTextRead(ds);
    assert s[..|ds|] == DigitText(ds) && s[|ds|..] == tail;
    hide Run, DigitText, FromDigits, DigitsOf;
    assert s[0] == '0' <==> ds[0] == 0;
    if |ds| == 1 { assert s[1..] == tail; }
  }

  lemma MagnitudeReads(n: nat, tail: string)
    requires Ends(tail)
    ensures Magnitude(DigitText(Digits(n)) + tail) == Ok((n, tail))
  {
    hide Magnitude, DigitText, FromDigits;
    DigitsNoLeadingZero(n);
    DigitsRead(Digits(n), tail);
    DigitsRoundTrip(n);
  }

  lemma DigitsNoLeadingZero(n: nat)
    ensures |Digits(n)| > 1 ==> Digits(n)[0] != 0
  {
  }

  lemma DigitTextRead(ds: seq<int>)
    requires forall d :: d in ds ==> Digit(d)
    ensures DigitsOf(DigitText(ds)) == ds
  {
    forall i | 0 <= i < |ds| ensures DigitsOf(DigitText(ds))[i] == ds[i] { assert ds[i] in ds; }
  }

  lemma NumberReads(n: int, tail: string)
    requires Ends(tail)
    ensures Number(NumberText(n) + tail) == Ok((Int(n), tail))
    ensures NumberText(n) != "" && (NumberText(n)[0] == '-' || '0' <= NumberText(n)[0] <= '9')
  {
    hide Magnitude, Digits, DigitText;
    var ds := Digits(if n < 0 then -n else n);
    DigitTextStarts(ds);
    if n < 0 {
      MagnitudeReads(-n, tail);
      assert (NumberText(n) + tail)[1..] == DigitText(ds) + tail;
    } else {
      MagnitudeReads(n, tail);
    }
  }

  lemma DigitTextStarts(ds: seq<int>)
    requires ds != [] && forall d :: d in ds ==> Digit(d)
    ensures DigitText(ds) != "" && '0' <= DigitText(ds)[0] <= '9'
  {
    assert ds[0] in ds && DigitText(ds)[0] == DigitChar(ds[0]);
  }

  // ----- layout -----

  lemma {:induction false} SkipSpaces(depth: nat, s: string)
    ensures Skip(Spaces(depth) + s) == Skip(s)
    decreases depth
  {
    if depth == 0 {
      assert Spaces(depth) + s == s;
    } else {
      var t := Spaces(depth) + s;
      assert t[1..] == " " + (Spaces(depth - 1) + s);
      assert t[1..][1..] == Spaces(depth - 1) + s;
      SkipSpaces(depth - 1, s);
    }
  }

  function Indent(depth: nat, pretty: bool): string { if pretty then Newline(depth) else "" }

  lemma SkipIndent(depth: nat, pretty: bool, s: string)
    ensures Skip(Indent(depth, pretty) + s) == Skip(s)
  {
    if pretty {
      assert (Newline(depth) + s)[1..] == Spaces(depth) + s;
      SkipSpaces(depth, s);
    } else {
      assert Indent(depth, pretty) + s == s;
    }
  }

  lemma CloseReads(depth: nat, empty: bool, pretty: bool, c: char, tail: string)
    requires c == ']' || c == '}'
    ensures Skip(Close(empty, depth, pretty, c) + tail) == [c] + tail
    ensures Ends(Close(empty, depth, pretty, c) + tail)
  {
    hide Spaces;
    if pretty && !empty {
      SkipIndent(depth, true, [c] + tail);
      assert Close(empty, depth, pretty, c) + tail == Indent(depth, true) + ([c] + tail);
    } else {
      assert Close(empty, depth, pretty, c) + tail == [c] + tail;
    }
  }

  lemma PrintStarts(v: Value, depth: nat, pretty: bool)
    requires Writable(v)
    ensures Print(v, depth, pretty) != "" && Starts(Print(v, depth, pretty)[0])
  {
    if v.Int? { NumberReads(v.n, ""); }
  }

  lemma ReadSkips(b: bool, s: string, t: string, depth: nat)
    requires Skip(s) == Skip(t)
    ensures ReadValue(b, s, depth) == ReadValue(b, t, depth)
  {
    hide ReadArray, ReadObject, Chars, Literal, Number;
  }

  // ----- values -----

  /** What the parser makes of printed text: the value, unless it is nested too deep. */
  ghost function Outcome(fits: bool, v: Value, tail: string): Res<(Value, string)> {
    if fits then Ok((v, tail)) else Err(TooDeep)
  }

  /** Reading printed text gives the value back and stops exactly where it ends. */
  lemma {:induction false} ReadsBack(b: bool, v: Value, depth: nat, at: nat, pretty: bool, tail: string)
    requires Writable(v) && Unique(v) && Ends(tail)
    ensures ReadValue(b, Print(v, at, pretty) + tail, depth) == Outcome(Fits(b, v, depth), v, tail)
    decreases v, 1, 0
  {
    if v.List? {
      ArrayReads(b, v, depth + 1, at, pretty, tail);
    } else if v.Object? {
      ObjectReads(b, v, depth + 1, at, pretty, tail);
    } else {
      ScalarReads(b, v, depth, at, pretty, tail);
    }
  }

  lemma ScalarReads(b: bool, v: Value, depth: nat, at: nat, pretty: bool, tail: string)
    requires Writable(v) && !v.List? && !v.Object? && Ends(tail)
    ensures ReadValue(b, Print(v, at, pretty) + tail, depth) == Outcome(b ==> depth <= MAX_DEPTH, v, tail)
  {
    var s := Print(v, at, pretty) + tail;
    PrintStarts(v, at, pretty);
    assert Skip(s) == s;
    hide Chars, Number, ReadArray, ReadObject, NumberText, Quoted;
    match v
    case Nil => assert s[4..] == tail;
    case Bool(b) => assert s[if b then 4 else 5..] == tail;
    case Int(n) => NumberReads(n, tail);
    case Text(t) => QuotedReads(t, tail);
  }

  // ----- arrays -----

  /** Item `i` and all that follows it. */
  ghost function FromItem(v: Value, i: nat, depth: nat, pretty: bool, end: string): string
    requires v.List? && Writable(v) && i < |v.items|
  {
    Print(v.items[i], depth, pretty) + (ItemsFrom(v, i + 1, depth, pretty) + end)
  }

  lemma ItemsUnfold(v: Value, i: nat, depth: nat, pretty: bool, end: string)
    requires v.List? && Writable(v) && i < |v.items|
    ensures ItemsFrom(v, i, depth, pretty) + end
         == (if i > 0 then "," else "") + (Indent(depth, pretty) + FromItem(v, i, depth, pretty, end))
  {
    var p, more := Print(v.items[i], depth, pretty), ItemsFrom(v, i + 1, depth, pretty);
    assert ItemsFrom(v, i, depth, pretty) == Lead(i, depth, pretty) + p + more;
    hide Print, ItemsFrom, Newline;
    JoinedFive(if i > 0 then "," else "", Indent(depth, pretty), p, more, end);
  }

  lemma ArrayText(v: Value, at: nat, pretty: bool, tail: string)
    requires v.List? && Writable(v)
    ensures Print(v, at, pretty) + tail
         == "[" + (ItemsFrom(v, 0, at + 1, pretty) + (Close(v.items == [], at, pretty, ']') + tail))
  {
    var items, close := ItemsFrom(v, 0, at + 1, pretty), Close(v.items == [], at, pretty, ']');
    assert Print(v, at, pretty) == "[" + items + close;
    hide Print, ItemsFrom, Close;
    JoinedFour("[", items, close, tail);
  }

  lemma ItemStarts(v: Value, i: nat, depth: nat, pretty: bool, end: string)
    requires v.List? && Writable(v) && i < |v.items|
    ensures var u := FromItem(v, i, depth, pretty, end);
            Skip(Indent(depth, pretty) + u) == u && Skip(u) == u && !At(u, ']') && u != ""
  {
    PrintStarts(v.items[i], depth, pretty);
    hide Print, ItemsFrom, Indent;
    SkipIndent(depth, pretty, FromItem(v, i, depth, pretty, end));
  }

  lemma ArrayReads(b: bool, v: Value, depth: nat, at: nat, pretty: bool, tail: string)
    requires v.List? && Writable(v) && Unique(v) && 0 < depth && Ends(tail)
    ensures var s := Print(v, at, pretty) + tail;
            ReadValue(b, s, depth - 1) == Outcome(Fits(b, v, depth - 1), v, tail)
    decreases v, 0, |v.items| + 1
  {
    var end := Close(v.items == [], at, pretty, ']') + tail;
    var s := Print(v, at, pretty) + tail;
    ArrayText(v, at, pretty, tail);
    assert At(s, '[') && Skip(s) == s;
    if b && depth > MAX_DEPTH + 1 { return; }
    assert ReadValue(b, s, depth - 1) == ReadArray(b, s[1..], depth);
    hide ReadValue;
    CloseReads(at, v.items == [], pretty, ']', tail);
    if v.items == [] {
      assert s[1..] == end;
      assert ("]" + tail)[1..] == tail;
    } else {
      ItemsRead(b, v, 0, depth, at + 1, pretty, end, tail);
      AllFit(b, v, 0, depth);
      hide Print, ReadItems, FromItem, ItemsFrom, Close, Fits, FitFrom, Skip, Indent;
      ItemsUnfold(v, 0, at + 1, pretty, end);
      ItemStarts(v, 0, at + 1, pretty, end);
      var t := FromItem(v, 0, at + 1, pretty, end);
      assert s[1..] == Indent(at + 1, pretty) + t;
      assert v.items[..0] == [];
    }
  }

  lemma AllFit(b: bool, v: Value, i: nat, depth: nat)
    requires v.List? && i == 0 && 0 < depth && (b ==> depth <= MAX_DEPTH + 1)
    ensures FitFrom(b, v, i, depth) <==> Fits(b, v, depth - 1)
  {
  }

  ghost predicate FitFrom(b: bool, v: Value, i: nat, depth: nat)
    requires v.List?
  {
    forall k :: i <= k < |v.items| ==> Fits(b, v.items[k], depth)
  }

  /** One item read: the rest of the array is then read from where its text ends. */
  lemma ItemReads(b: bool, x: Value, s: string, more: string, depth: nat, acc: seq<Value>)
    requires ReadValue(b, s, depth) == Outcome(Fits(b, x, depth), x, more)
    ensures var t := Skip(more);
            ReadItems(b, s, depth, acc) ==
            if !Fits(b, x, depth) then Err(TooDeep)
            else if At(t, ']') then Ok((List(acc + [x]), t[1..]))
            else if !At(t, ',') then Err(Expected(','))
            else if At(Skip(t[1..]), ']') then Err(TrailingComma)
            else ReadItems(b, Skip(t[1..]), depth, acc + [x])
  {
    hide ReadValue, Skip, Fits;
  }

  lemma {:induction false} ItemsRead(b: bool, v: Value, i: nat, depth: nat, at: nat, pretty: bool, end: string, tail: string)
    requires v.List? && Writable(v) && Unique(v) && i < |v.items|
    requires Skip(end) == "]" + tail && Ends(end)
    ensures ReadItems(b, FromItem(v, i, at, pretty, end), depth, v.items[..i]) == Outcome(FitFrom(b, v, i, depth), v, tail)
    decreases v, 0, |v.items| - i
  {
    var x := v.items[i];
    var text, more := Print(x, at, pretty), ItemsFrom(v, i + 1, at, pretty) + end;
    MoreItems(v, i + 1, at, pretty, end);
    ReadsBack(b, x, depth, at, pretty, more);
    if i + 1 < |v.items| { ItemsRead(b, v, i + 1, depth, at, pretty, end, tail); }
    hide ReadItems, ReadValue, Print, Fits, ItemsFrom, Skip, Ends, Writable, Unique, FitFrom;
    if i + 1 == |v.items| {
      LastItem(b, v, i, depth, text + more, more, tail);
    } else {
      NextItem(b, v, i, depth, text + more, more, FromItem(v, i + 1, at, pretty, end), tail);
    }
  }

  lemma LastItem(b: bool, v: Value, i: nat, depth: nat, s: string, more: string, tail: string)
    requires v.List? && i + 1 == |v.items| && Skip(more) == "]" + tail
    requires ReadValue(b, s, depth) == Outcome(Fits(b, v.items[i], depth), v.items[i], more)
    ensures ReadItems(b, s, depth, v.items[..i]) == Outcome(FitFrom(b, v, i, depth), v, tail)
  {
    hide ReadItems, ReadValue, Fits, Skip;
    ItemReads(b, v.items[i], s, more, depth, v.items[..i]);
    assert ("]" + tail)[1..] == tail;
    assert v.items[..i] + [v.items[i]] == v.items;
  }

  lemma NextItem(b: bool, v: Value, i: nat, depth: nat, s: string, more: string, u: string, tail: string)
    requires v.List? && i + 1 < |v.items| && At(Skip(more), ',') && Skip(Skip(more)[1..]) == u && !At(u, ']')
    requires ReadValue(b, s, depth) == Outcome(Fits(b, v.items[i], depth), v.items[i], more)
    requires ReadItems(b, u, depth, v.items[..i + 1]) == Outcome(FitFrom(b, v, i + 1, depth), v, tail)
    ensures ReadItems(b, s, depth, v.items[..i]) == Outcome(FitFrom(b, v, i, depth), v, tail)
  {
    hide ReadItems, ReadValue, Fits, Skip;
    ItemReads(b, v.items[i], s, more, depth, v.items[..i]);
    assert v.items[..i] + [v.items[i]] == v.items[..i + 1];
    assert FitFrom(b, v, i, depth) <==> Fits(b, v.items[i], depth) && FitFrom(b, v, i + 1, depth);
  }

  /** What follows an item: the end of the array, or a comma and the next item. */
  lemma MoreItems(v: Value, i: nat, at: nat, pretty: bool, end: string)
    requires v.List? && Writable(v) && i <= |v.items| && i > 0 && Ends(end)
    ensures var more := ItemsFrom(v, i, at, pretty) + end;
            && Ends(more)
            && (i == |v.items| ==> more == end)
            && (i < |v.items| ==>
                  var u := FromItem(v, i, at, pretty, end);
                  Skip(more) == more && At(more, ',') && Skip(more[1..]) == u && !At(u, ']'))
  {
    var more := ItemsFrom(v, i, at, pretty) + end;
    if i == |v.items| {
      assert more == end;
    } else {
      ItemsUnfold(v, i, at, pretty, end);
      ItemStarts(v, i, at, pretty, end);
      hide Indent, ItemsFrom, FromItem;
      assert more[1..] == Indent(at, pretty) + FromItem(v, i, at, pretty, end);
    }
  }

  // ----- objects -----

  ghost function FromMember(v: Value, i: nat, depth: nat, pretty: bool, end: string): string
    requires v.Object? && Writable(v) && i < |v.entries|
  {
    Quoted(v.entries[i].0.chars)
    + (Colon(pretty) + (Print(v.entries[i].1, depth, pretty) + (MembersFrom(v, i + 1, depth, pretty) + end)))
  }

  lemma MembersUnfold(v: Value, i: nat, depth: nat, pretty: bool, end: string)
    requires v.Object? && Writable(v) && i < |v.entries|
    ensures MembersFrom(v, i, depth, pretty) + end
         == (if i > 0 then "," else "") + (Indent(depth, pretty) + FromMember(v, i, depth, pretty, end))
  {
    var k, p, more := Quoted(v.entries[i].0.chars), Print(v.entries[i].1, depth, pretty), MembersFrom(v, i + 1, depth, pretty);
    assert MembersFrom(v, i, depth, pretty) == Lead(i, depth, pretty) + k + Colon(pretty) + p + more;
    hide Print, MembersFrom, Quoted, Colon, Newline;
    var comma := if i > 0 then "," else "";
    JoinedFive(comma, Indent(depth, pretty), k, Colon(pretty), p + (more + end));
    JoinedFive(comma + Indent(depth, pretty) + k, Colon(pretty), p, more, end);
    JoinedFour(comma + Indent(depth, pretty) + k, Colon(pretty), p, more + end);
  }

  ghost predicate MembersFit(b: bool, v: Value, i: nat, depth: nat)
    requires v.Object?
  {
    forall k :: i <= k < |v.entries| ==> Fits(b, v.entries[k].1, depth)
  }

  lemma AllMembersFit(b: bool, v: Value, i: nat, depth: nat)
    requires v.Object? && i == 0 && 0 < depth && (b ==> depth <= MAX_DEPTH + 1)
    ensures MembersFit(b, v, i, depth) <==> Fits(b, v, depth - 1)
  {
  }

  lemma ObjectText(v: Value, at: nat, pretty: bool, tail: string)
    requires v.Object? && Writable(v)
    ensures Print(v, at, pretty) + tail
         == "{" + (MembersFrom(v, 0, at + 1, pretty) + (Close(v.entries == [], at, pretty, '}') + tail))
  {
    var members, close := MembersFrom(v, 0, at + 1, pretty), Close(v.entries == [], at, pretty, '}');
    assert Print(v, at, pretty) == "{" + members + close;
    hide Print, MembersFrom, Close;
    JoinedFour("{", members, close, tail);
  }

  lemma MemberStarts(v: Value, i: nat, depth: nat, pretty: bool, end: string)
    requires v.Object? && Writable(v) && i < |v.entries|
    ensures var u := FromMember(v, i, depth, pretty, end);
            Skip(Indent(depth, pretty) + u) == u && Skip(u) == u && At(u, '"')
  {
    hide Print, MembersFrom, Indent, Escaped;
    SkipIndent(depth, pretty, FromMember(v, i, depth, pretty, end));
  }

  lemma ObjectReads(b: bool, v: Value, depth: nat, at: nat, pretty: bool, tail: string)
    requires v.Object? && Writable(v) && Unique(v) && 0 < depth && Ends(tail)
    ensures var s := Print(v, at, pretty) + tail;
            ReadValue(b, s, depth - 1) == Outcome(Fits(b, v, depth - 1), v, tail)
    decreases v, 0, |v.entries| + 1
  {
    var end := Close(v.entries == [], at, pretty, '}') + tail;
    var s := Print(v, at, pretty) + tail;
    ObjectText(v, at, pretty, tail);
    assert At(s, '{') && Skip(s) == s;
    if b && depth > MAX_DEPTH + 1 { return; }
    assert ReadValue(b, s, depth - 1) == ReadObject(b, s[1..], depth);
    hide ReadValue;
    CloseReads(at, v.entries == [], pretty, '}', tail);
    if v.entries == [] {
      assert s[1..] == end;
      assert ("}" + tail)[1..] == tail;
    } else {
      MembersRead(b, v, 0, depth, at + 1, pretty, end, tail);
      AllMembersFit(b, v, 0, depth);
      hide Print, ReadMembers, FromMember, MembersFrom, Close, Fits, MembersFit, Skip, Indent;
      MembersUnfold(v, 0, at + 1, pretty, end);
      MemberStarts(v, 0, at + 1, pretty, end);
      var t := FromMember(v, 0, at + 1, pretty, end);
      assert s[1..] == Indent(at + 1, pretty) + t;
      assert v.entries[..0] == [];
    }
  }

  lemma KeyReads(b: bool, key: string, pretty: bool, rest: string, depth: nat)
    ensures var s := Quoted(key) + (Colon(pretty) + rest);
            && At(s, '"') && Chars(s[1..], "") == Ok((key, Colon(pretty) + rest))
            && Skip(Colon(pretty) + rest) == Colon(pretty) + rest && At(Colon(pretty) + rest, ':')
            && ReadValue(b, (Colon(pretty) + rest)[1..], depth) == ReadValue(b, rest, depth)
  {
    var after := Colon(pretty) + rest;
    QuotedReads(key, after);
    if pretty {
      assert after[1..] == " " + rest;
      assert (" " + rest)[1..] == rest;
    } else {
      assert after[1..] == rest;
    }
    ReadSkips(b, after[1..], rest, depth);
  }

  /** The text of a member: its key, a colon and a text that is read as `x` in front of `more`. */
  ghost predicate MemberAt(b: bool, key: string, x: Value, s: string, more: string, depth: nat) {
    && At(s, '"') && Chars(s[1..], "").Ok? && Chars(s[1..], "").value.0 == key
    && At(Skip(Chars(s[1..], "").value.1), ':')
    && ReadValue(b, Skip(Chars(s[1..], "").value.1)[1..], depth) == Outcome(Fits(b, x, depth), x, more)
  }

  /** One member read: the rest of the object is then read from where its text ends. */
  lemma MemberReads(b: bool, key: string, x: Value, s: string, more: string, depth: nat, acc: seq<(Value, Value)>)
    requires MemberAt(b, key, x, s, more, depth) && !HasKey(acc, key)
    ensures var t, entries := Skip(more), acc + [(Text(key), x)];
            ReadMembers(b, s, depth, acc) ==
            if !Fits(b, x, depth) then Err(TooDeep)
            else if At(t, '}') then Ok((Object(entries), t[1..]))
            else if !At(t, ',') then Err(Expected(','))
            else if At(Skip(t[1..]), '}') then Err(TrailingComma)
            else ReadMembers(b, Skip(t[1..]), depth, entries)
  {
    hide Chars, ReadValue, Skip, Fits;
  }

  lemma {:induction false} MembersRead(b: bool, v: Value, i: nat, depth: nat, at: nat, pretty: bool, end: string, tail: string)
    requires v.Object? && Writable(v) && Unique(v) && i < |v.entries|
    requires Skip(end) == "}" + tail && Ends(end)
    ensures ReadMembers(b, FromMember(v, i, at, pretty, end), depth, v.entries[..i])
         == Outcome(MembersFit(b, v, i, depth), v, tail)
    decreases v, 0, |v.entries| - i
  {
    var (k, x) := v.entries[i];
    var text, more := Print(x, at, pretty), MembersFrom(v, i + 1, at, pretty) + end;
    MoreMembers(v, i + 1, at, pretty, end);
    ReadsBack(b, x, depth, at, pretty, more);
    KeyReads(b, k.chars, pretty, text + more, depth);
    assert !HasKey(v.entries[..i], k.chars);
    if i + 1 < |v.entries| { MembersRead(b, v, i + 1, depth, at, pretty, end, tail); }
    hide ReadMembers, ReadValue, Print, Fits, MembersFrom, Skip, Ends, Writable, Unique, HasKey, Quoted, Colon, MembersFit, Chars;
    var s := FromMember(v, i, at, pretty, end);
    if i + 1 == |v.entries| {
      LastMember(b, v, i, depth, s, more, tail);
    } else {
      NextMember(b, v, i, depth, s, more, FromMember(v, i + 1, at, pretty, end), tail);
    }
  }

  lemma LastMember(b: bool, v: Value, i: nat, depth: nat, s: string, more: string, tail: string)
    requires v.Object? && i + 1 == |v.entries| && v.entries[i].0.Text? && Skip(more) == "}" + tail
    requires !HasKey(v.entries[..i], v.entries[i].0.chars)
    requires MemberAt(b, v.entries[i].0.chars, v.entries[i].1, s, more, depth)
    ensures ReadMembers(b, s, depth, v.entries[..i]) == Outcome(MembersFit(b, v, i, depth), v, tail)
  {
    hide ReadMembers, Fits, Skip, HasKey, MemberAt;
    var (k, x) := v.entries[i];
    MemberReads(b, k.chars, x, s, more, depth, v.entries[..i]);
    assert ("}" + tail)[1..] == tail;
    assert v.entries[..i] + [(Text(k.chars), x)] == v.entries;
  }

  lemma NextMember(b: bool, v: Value, i: nat, depth: nat, s: string, more: string, u: string, tail: string)
    requires v.Object? && i + 1 < |v.entries| && v.entries[i].0.Text? && !HasKey(v.entries[..i], v.entries[i].0.chars)
    requires At(Skip(more), ',') && Skip(Skip(more)[1..]) == u && !At(u, '}')
    requires MemberAt(b, v.entries[i].0.chars, v.entries[i].1, s, more, depth)
    requires ReadMembers(b, u, depth, v.entries[..i + 1]) == Outcome(MembersFit(b, v, i + 1, depth), v, tail)
    ensures ReadMembers(b, s, depth, v.entries[..i]) == Outcome(MembersFit(b, v, i, depth), v, tail)
  {
    hide ReadMembers, Fits, Skip, HasKey, MemberAt;
    var (k, x) := v.entries[i];
    MemberReads(b, k.chars, x, s, more, depth, v.entries[..i]);
    assert v.entries[..i] + [(Text(k.chars), x)] == v.entries[..i + 1];
    assert MembersFit(b, v, i, depth) <==> Fits(b, x, depth) && MembersFit(b, v, i + 1, depth);
  }

  lemma MoreMembers(v: Value, i: nat, at: nat, pretty: bool, end: string)
    requires v.Object? && Writable(v) && i <= |v.entries| && i > 0 && Ends(end)
    ensures var more := MembersFrom(v, i, at, pretty) + end;
            && Ends(more)
            && (i == |v.entries| ==> more == end)
            && (i < |v.entries| ==>
                  var u := FromMember(v, i, at, pretty, end);
                  Skip(more) == more && At(more, ',') && Skip(more[1..]) == u && !At(u, '}'))
  {
    var more := MembersFrom(v, i, at, pretty) + end;
    if i == |v.entries| {
      assert more == end;
    } else {
      MembersUnfold(v, i, at, pretty, end);
      MemberStarts(v, i, at, pretty, end);
      hide Indent, MembersFrom, FromMember;
      assert more[1..] == Indent(at, pretty) + FromMember(v, i, at, pretty, end);
    }
  }

  // ----- main results -----

  /** Both printers are undone by the parser exactly on values nested no deeper than it goes. */
  lemma PrintedReadsBack(v: Value, pretty: bool)
    requires Writable(v) && Unique(v)
    ensures Read(Print(v, 0, pretty)) == if Fits(true, v, 0) then Ok(v) else Err(TooDeep)
  {
    ReadsBack(true, v, 0, 0, pretty, "");
    assert Print(v, 0, pretty) + "" == Print(v, 0, pretty);
    hide ReadValue, Print, Fits;
  }

  lemma {:induction false} NoLimit(v: Value, depth: nat)
    ensures Fits(false, v, depth)
    decreases v
  {
    match v
    case List(items) => forall i | 0 <= i < |items| ensures Fits(false, items[i], depth + 1) { NoLimit(items[i], depth + 1); }
    case Object(entries) =>
      forall i | 0 <= i < |entries| ensures Fits(false, entries[i].1, depth + 1) { NoLimit(entries[i].1, depth + 1); }
    case _ =>
  }

  /** Different values are printed differently, however deep they are and whatever the layouts. */
  lemma PrintersInjective(v: Value, w: Value, p: bool, q: bool)
    requires Writable(v) && Unique(v) && Writable(w) && Unique(w)
    requires Print(v, 0, p) == Print(w, 0, q)
    ensures v == w
  {
    hide ReadValue, Print, Fits;
    ReadsBack(false, v, 0, 0, p, "");
    ReadsBack(false, w, 0, 0, q, "");
    NoLimit(v, 0);
    NoLimit(w, 0);
    assert Print(v, 0, p) + "" == Print(w, 0, q) + "";
  }

  // ----- what is read can be written -----

  ghost predicate Sound(v: Value, depth: nat) { Writable(v) && Unique(v) && Fits(true, v, depth) }

  ghost predicate SoundItems(items: seq<Value>, depth: nat) {
    forall i :: 0 <= i < |items| ==> Sound(items[i], depth)
  }

  ghost predicate SoundMembers(entries: seq<(Value, Value)>, depth: nat) {
    && (forall i :: 0 <= i < |entries| ==> entries[i].0.Text? && Sound(entries[i].1, depth))
    && (forall i, j :: 0 <= i < j < |entries| ==> entries[i].0 != entries[j].0)
  }

  lemma {:induction false} ReadIsSound(s: string, depth: nat)
    requires ReadValue(true, s, depth).Ok?
    ensures Sound(ReadValue(true, s, depth).value.0, depth)
    decreases |s|, 0
  {
    hide Chars, Number, Literal, ReadItems, ReadMembers;
    var t := Skip(s);
    if t[0] == '[' {
      assert ReadValue(true, s, depth) == ReadArray(true, t[1..], depth + 1);
      var u := Skip(t[1..]);
      if !At(u, ']') { ItemsAreSound(u, depth + 1, []); }
    } else if t[0] == '{' {
      assert ReadValue(true, s, depth) == ReadObject(true, t[1..], depth + 1);
      var u := Skip(t[1..]);
      if !At(u, '}') { MembersAreSound(u, depth + 1, []); }
    } else {
      ScalarIsSound(s, depth);
    }
  }

  lemma ScalarIsSound(s: string, depth: nat)
    requires ReadValue(true, s, depth).Ok? && !At(Skip(s), '[') && !At(Skip(s), '{')
    ensures Sound(ReadValue(true, s, depth).value.0, depth)
  {
    hide Chars, Magnitude;
  }

  lemma {:induction false} ItemsAreSound(s: string, depth: nat, acc: seq<Value>)
    requires depth > 0 && SoundItems(acc, depth) && ReadItems(true, s, depth, acc).Ok?
    ensures Sound(ReadItems(true, s, depth, acc).value.0, depth - 1)
    decreases |s|, 1
  {
    ReadIsSound(s, depth);
    hide ReadValue, Skip;
    var (v, rest) := ReadValue(true, s, depth).value;
    var t := Skip(rest);
    assert SoundItems(acc + [v], depth);
    if !At(t, ']') { ItemsAreSound(Skip(t[1..]), depth, acc + [v]); }
  }

  lemma {:induction false} MembersAreSound(s: string, depth: nat, acc: seq<(Value, Value)>)
    requires depth > 0 && SoundMembers(acc, depth) && ReadMembers(true, s, depth, acc).Ok?
    ensures Sound(ReadMembers(true, s, depth, acc).value.0, depth - 1)
    decreases |s|, 1
  {
    hide Chars, Skip;
    var (key, afterKey) := Chars(s[1..], "").value;
    var colon := Skip(afterKey);
    ReadIsSound(colon[1..], depth);
    hide ReadValue;
    var (v, rest) := ReadValue(true, colon[1..], depth).value;
    var t := Skip(rest);
    var entries := acc + [(Text(key), v)];
    assert SoundMembers(entries, depth);
    if !At(t, '}') { MembersAreSound(Skip(t[1..]), depth, entries); }
  }

  /** Whatever was read can be written in either layout and read again. */
  lemma ReadCanBeWritten(source: string, pretty: bool)
    requires Read(source).Ok?
    ensures var v := Read(source).value;
            Writable(v) && Read(Print(v, 0, pretty)) == Ok(v)
  {
    ReadIsSound(source, 0);
    PrintedReadsBack(Read(source).value, pretty);
  }
}
