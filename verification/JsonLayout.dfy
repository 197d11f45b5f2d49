/** The text both printers write, exactly: compact text is the shortest spelling, and pretty text is compact text laid out. */
module JsonLayout {
  import opened Results
  import opened Words
  import opened Sequences
  import opened Decimal
  import opened Json
  import opened JsonRoundTrip
  import opened JsonSpelling

  // ----- layout of a text -----

  predicate Opening(c: char) { c == '[' || c == '{' }
  predicate Closing(c: char) { c == ']' || c == '}' }

  /** A new line and two blanks for every level. */
  function Break(level: nat): string { seq(1 + 2 * level, i => if i == 0 then '\n' else ' ') }

  /**
   A text laid out: outside strings, a blank follows every colon, and a new line comes after an
   opening bracket, after a comma, and before a closing bracket, but not inside empty brackets.
   */
  function Laid(s: string, level: nat): string
    decreases |s|
  {
    if s == "" then ""
    else if s[0] == '"' then "\"" + Copied(s[1..], level)
    else if Opening(s[0]) && |s| > 1 && Closing(s[1]) then [s[0], s[1]] + Laid(s[2..], level)
    else if Opening(s[0]) then [s[0]] + (Break(level + 1) + Laid(s[1..], level + 1))
    else if Closing(s[0]) then
      var out := if level > 0 then level - 1 else 0;
      Break(out) + ([s[0]] + Laid(s[1..], out))
    else if s[0] == ',' then "," + (Break(level) + Laid(s[1..], level))
    else if s[0] == ':' then ": " + Laid(s[1..], level)
    else [s[0]] + Laid(s[1..], level)
  }

  /** The same from inside a string, which is copied up to its closing quote. */
  function Copied(s: string, level: nat): string
    decreases |s|
  {
    if s == "" then ""
    else if s[0] == '"' then "\"" + Laid(s[1..], level)
    else if s[0] == '\\' && |s| > 1 then s[..2] + Copied(s[2..], level)
    else [s[0]] + Copied(s[1..], level)
  }

  lemma {:induction false} SpacesAre(depth: nat)
    ensures |Spaces(depth)| == 2 * depth && forall i :: 0 <= i < 2 * depth ==> Spaces(depth)[i] == ' '
  {
    if depth > 0 { SpacesAre(depth - 1); }
  }

  lemma BreakIsNewline(level: nat)
    ensures Break(level) == Newline(level)
  {
    SpacesAre(level);
  }

  // ----- characters that stay as they are -----

  predicate Ordinary(c: char) { c != '"' && !Opening(c) && !Closing(c) && c != ',' && c != ':' }

  lemma {:induction false} OrdinaryLaid(s: string, rest: string, level: nat)
    requires forall i :: 0 <= i < |s| ==> Ordinary(s[i])
    ensures Laid(s + rest, level) == s + Laid(rest, level)
    decreases |s|
  {
    if s == "" {
      assert s + rest == rest;
    } else {
      assert (s + rest)[1..] == s[1..] + rest;
      OrdinaryLaid(s[1..], rest, level);
    }
  }

  lemma HexDigitPlain(n: int)
    requires 0 <= n < 16
    ensures HexDigit(n) != '"' && HexDigit(n) != '\\'
  {
  }

  lemma {:induction false} PlainCopied(s: string, rest: string, level: nat)
    requires forall i :: 0 <= i < |s| ==> s[i] != '"' && s[i] != '\\'
    ensures Copied(s + rest, level) == s + Copied(rest, level)
    decreases |s|
  {
    if s == "" {
      assert s + rest == rest;
    } else {
      assert (s + rest)[1..] == s[1..] + rest;
      PlainCopied(s[1..], rest, level);
    }
  }

  lemma EscapeCopied(c: char, rest: string, level: nat)
    ensures Copied(Escape(c) + rest, level) == Escape(c) + Copied(rest, level)
  {
    var e, s := Escape(c), Escape(c) + rest;
    if |e| == 1 {
      assert s[1..] == rest;
    } else if |e| == 2 {
      assert s[..2] == e && s[2..] == rest;
    } else {
      var n := c as int;
      HexDigitPlain(n / 16);
      HexDigitPlain(n % 16);
      assert s[..2] == e[..2] && s[2..] == e[2..] + rest;
      assert e[2..] == ['0', '0', HexDigit(n / 16), HexDigit(n % 16)];
      PlainCopied(e[2..], rest, level);
    }
  }

  lemma QuoteEnds(rest: string, level: nat)
    ensures Copied("\"" + rest, level) == "\"" + Laid(rest, level)
  {
    assert ("\"" + rest)[1..] == rest;
  }

  lemma {:induction false} EscapedCopied(text: string, rest: string, level: nat)
    ensures Copied(Escaped(text) + ("\"" + rest), level) == Escaped(text) + ("\"" + Laid(rest, level))
    decreases |text|
  {
    hide Escape, Copied, Laid;
    if text == "" {
      assert Escaped(text) + ("\"" + rest) == "\"" + rest && Escaped(text) + ("\"" + Laid(rest, level)) == "\"" + Laid(rest, level);
      QuoteEnds(rest, level);
    } else {
      var more := Escaped(text[1..]) + ("\"" + rest);
      assert Escaped(text) + ("\"" + rest) == Escape(text[0]) + more;
      EscapeCopied(text[0], more, level);
      EscapedCopied(text[1..], rest, level);
      Joined(Escape(text[0]), Escaped(text[1..]), "\"" + Laid(rest, level));
    }
  }

  lemma QuotedLaid(text: string, rest: string, level: nat)
    ensures Laid(Quoted(text) + rest, level) == Quoted(text) + Laid(rest, level)
  {
    EscapedCopied(text, rest, level);
    hide Escaped, Copied;
    var s := Quoted(text) + rest;
    assert s[0] == '"' && s[1..] == Escaped(text) + ("\"" + rest);
    assert Quoted(text) + Laid(rest, level) == "\"" + (Escaped(text) + ("\"" + Laid(rest, level)));
  }

  lemma NumberOrdinary(n: int)
    ensures forall i :: 0 <= i < |NumberText(n)| ==> Ordinary(NumberText(n)[i])
  {
    hide Digits;
    var ds := Digits(if n < 0 then -n else n);
    forall i | 0 <= i < |ds| ensures Ordinary(DigitText(ds)[i]) { assert ds[i] in ds && DigitText(ds)[i] == DigitChar(ds[i]); }
  }

  // ----- pretty text is compact text laid out -----

  lemma {:induction false} ValueLaid(v: Value, level: nat, rest: string)
    requires Writable(v)
    ensures Laid(Print(v, level, false) + rest, level) == Print(v, level, true) + Laid(rest, level)
    decreases v, 1, 0
  {
    match v
    case List(_) => ArrayLaid(v, level, rest);
    case Object(_) => ObjectLaid(v, level, rest);
    case Text(s) => QuotedLaid(s, rest, level);
    case Int(n) => NumberOrdinary(n); OrdinaryLaid(NumberText(n), rest, level);
    case Nil => OrdinaryLaid("null", rest, level);
    case Bool(b) => OrdinaryLaid(if b then "true" else "false", rest, level);
  }

  lemma ArrayOpens(v: Value, level: nat, pretty: bool, rest: string)
    requires v.List? && Writable(v) && v.items != []
    ensures Print(v, level, pretty) + rest
         == "[" + (Indent(level + 1, pretty) + FromItem(v, 0, level + 1, pretty, Close(false, level, pretty, ']') + rest))
  {
    ArrayText(v, level, pretty, rest);
    hide Print, ItemsFrom, FromItem, Close, Indent;
    ItemsUnfold(v, 0, level + 1, pretty, Close(false, level, pretty, ']') + rest);
    var x := Indent(level + 1, pretty) + FromItem(v, 0, level + 1, pretty, Close(false, level, pretty, ']') + rest);
    assert "" + x == x;
  }

  lemma EmptyArray(v: Value, level: nat, pretty: bool)
    requires v.List? && v.items == []
    ensures Print(v, level, pretty) == "[]"
  {
    assert ItemsFrom(v, 0, level + 1, pretty) == "";
    assert Print(v, level, pretty) == "[" + ItemsFrom(v, 0, level + 1, pretty) + Close(true, level, pretty, ']');
  }

  lemma ArrayLaid(v: Value, level: nat, rest: string)
    requires v.List? && Writable(v)
    ensures Laid(Print(v, level, false) + rest, level) == Print(v, level, true) + Laid(rest, level)
    decreases v, 0, |v.items| + 1
  {
    if v.items == [] {
      EmptyLaid('[', ']', rest, level);
      EmptyArray(v, level, false);
      EmptyArray(v, level, true);
      hide Laid, Print;
    } else {
      var end, laidEnd := Close(false, level, false, ']') + rest, Close(false, level, true, ']') + Laid(rest, level);
      PrintStarts(v.items[0], level + 1, false);
      assert FromItem(v, 0, level + 1, false, end)[0] == Print(v.items[0], level + 1, false)[0];
      hide Print, Close, Laid, FromItem;
      CloseLaid(']', level, rest);
      ItemsLaid(v, 0, level + 1, end, laidEnd);
      ArrayOpens(v, level, false, rest);
      ArrayOpens(v, level, true, Laid(rest, level));
      assert "" + FromItem(v, 0, level + 1, false, end) == FromItem(v, 0, level + 1, false, end);
      OpenLaid('[', FromItem(v, 0, level + 1, false, end), level);
    }
  }

  lemma CloseLaid(c: char, level: nat, rest: string)
    requires Closing(c)
    ensures Laid(Close(false, level, false, c) + rest, level + 1) == Close(false, level, true, c) + Laid(rest, level)
  {
    BreakIsNewline(level);
    hide Newline, Break;
    var s := Close(false, level, false, c) + rest;
    assert s == [c] + rest && s[1..] == rest;
    assert Close(false, level, true, c) + Laid(rest, level) == Newline(level) + ([c] + Laid(rest, level));
  }

  lemma OpenLaid(c: char, t: string, level: nat)
    requires Opening(c) && t != "" && !Closing(t[0])
    ensures Laid([c] + t, level) == [c] + (Newline(level + 1) + Laid(t, level + 1))
  {
    BreakIsNewline(level + 1);
    assert ([c] + t)[1..] == t && ([c] + t)[1] == t[0];
  }

  lemma EmptyLaid(c: char, d: char, rest: string, level: nat)
    requires Opening(c) && Closing(d)
    ensures Laid([c, d] + rest, level) == [c, d] + Laid(rest, level)
  {
    assert ([c, d] + rest)[2..] == rest;
  }

  lemma CommaLaid(t: string, level: nat)
    ensures Laid("," + t, level) == "," + (Newline(level) + Laid(t, level))
  {
    BreakIsNewline(level);
    assert ("," + t)[1..] == t;
  }

  lemma {:induction false} ItemsLaid(v: Value, i: nat, level: nat, end: string, laidEnd: string)
    requires v.List? && Writable(v) && i < |v.items| && Laid(end, level) == laidEnd
    ensures Laid(FromItem(v, i, level, false, end), level) == FromItem(v, i, level, true, laidEnd)
    decreases v, 0, |v.items| - i
  {
    var more, laidMore := ItemsFrom(v, i + 1, level, false) + end, ItemsFrom(v, i + 1, level, true) + laidEnd;
    ValueLaid(v.items[i], level, more);
    if i + 1 == |v.items| {
      assert more == end && laidMore == laidEnd;
    } else {
      ItemsLaid(v, i + 1, level, end, laidEnd);
      ItemsUnfold(v, i + 1, level, false, end);
      ItemsUnfold(v, i + 1, level, true, laidEnd);
      hide Print, ItemsFrom, FromItem, Laid;
      CommaLaid(FromItem(v, i + 1, level, false, end), level);
      assert "" + FromItem(v, i + 1, level, false, end) == FromItem(v, i + 1, level, false, end);
    }
  }

  lemma ObjectOpens(v: Value, level: nat, pretty: bool, rest: string)
    requires v.Object? && Writable(v) && v.entries != []
    ensures Print(v, level, pretty) + rest
         == "{" + (Indent(level + 1, pretty) + FromMember(v, 0, level + 1, pretty, Close(false, level, pretty, '}') + rest))
  {
    ObjectText(v, level, pretty, rest);
    hide Print, MembersFrom, FromMember, Close, Indent;
    MembersUnfold(v, 0, level + 1, pretty, Close(false, level, pretty, '}') + rest);
    var x := Indent(level + 1, pretty) + FromMember(v, 0, level + 1, pretty, Close(false, level, pretty, '}') + rest);
    assert "" + x == x;
  }

  lemma EmptyObject(v: Value, level: nat, pretty: bool)
    requires v.Object? && v.entries == []
    ensures Print(v, level, pretty) == "{}"
  {
    assert MembersFrom(v, 0, level + 1, pretty) == "";
    assert Print(v, level, pretty) == "{" + MembersFrom(v, 0, level + 1, pretty) + Close(true, level, pretty, '}');
  }

  lemma ObjectLaid(v: Value, level: nat, rest: string)
    requires v.Object? && Writable(v)
    ensures Laid(Print(v, level, false) + rest, level) == Print(v, level, true) + Laid(rest, level)
    decreases v, 0, |v.entries| + 1
  {
    if v.entries == [] {
      EmptyLaid('{', '}', rest, level);
      hide Laid;
      EmptyObject(v, level, false);
      EmptyObject(v, level, true);
      hide Print;
    } else {
      var end, laidEnd := Close(false, level, false, '}') + rest, Close(false, level, true, '}') + Laid(rest, level);
      MemberStarts(v, 0, level + 1, false, end);
      hide Print, Close, Laid, FromMember, Skip;
      CloseLaid('}', level, rest);
      MembersLaid(v, 0, level + 1, end, laidEnd);
      ObjectOpens(v, level, false, rest);
      ObjectOpens(v, level, true, Laid(rest, level));
      assert "" + FromMember(v, 0, level + 1, false, end) == FromMember(v, 0, level + 1, false, end);
      OpenLaid('{', FromMember(v, 0, level + 1, false, end), level);
    }
  }

  lemma {:induction false} MembersLaid(v: Value, i: nat, level: nat, end: string, laidEnd: string)
    requires v.Object? && Writable(v) && i < |v.entries| && Laid(end, level) == laidEnd
    ensures Laid(FromMember(v, i, level, false, end), level) == FromMember(v, i, level, true, laidEnd)
    decreases v, 0, |v.entries| - i
  {
    var (key, x) := v.entries[i];
    var more, laidMore := MembersFrom(v, i + 1, level, false) + end, MembersFrom(v, i + 1, level, true) + laidEnd;
    ValueLaid(x, level, more);
    assert Laid(more, level) == laidMore by {
      if i + 1 == |v.entries| {
        assert more == end && laidMore == laidEnd;
      } else {
        MembersLaid(v, i + 1, level, end, laidEnd);
        MembersUnfold(v, i + 1, level, false, end);
        MembersUnfold(v, i + 1, level, true, laidEnd);
        hide Print, MembersFrom, FromMember, Laid;
        CommaLaid(FromMember(v, i + 1, level, false, end), level);
        assert "" + FromMember(v, i + 1, level, false, end) == FromMember(v, i + 1, level, false, end);
      }
    }
    hide Print, MembersFrom, Quoted;
    var text := Print(x, level, false) + more;
    ColonLaid(text, level);
    hide Laid;
    QuotedLaid(key.chars, Colon(false) + text, level);
  }

  lemma ColonLaid(t: string, level: nat)
    ensures Laid(Colon(false) + t, level) == Colon(true) + Laid(t, level)
  {
    assert (":" + t)[1..] == t;
  }

  /** Pretty text is compact text, laid out. */
  lemma PrettyIsLaid(v: Value)
    requires Writable(v)
    ensures Print(v, 0, true) == Laid(Print(v, 0, false), 0)
  {
    ValueLaid(v, 0, "");
    hide Print;
    assert Print(v, 0, false) + "" == Print(v, 0, false) && Print(v, 0, true) + Laid("", 0) == Print(v, 0, true);
  }

  // ----- compact text is the shortest spelling -----

  /** Hexadecimal digits in lower case, as the printers write them. */
  predicate LowerHex(c: char) { '0' <= c <= '9' || 'a' <= c <= 'f' }

  predicate LowerLetter(l: Letter) {
    l.Numbered? ==> LowerHex(l.a) && LowerHex(l.b) && LowerHex(l.c3) && LowerHex(l.d)
  }

  predicate LowerLetters(ls: seq<Letter>) { forall i :: 0 <= i < |ls| ==> LowerLetter(ls[i]) }

  ghost predicate Lower(sp: Spelling) {
    match sp
    case Quote(ls) => LowerLetters(ls)
    case Array(_, items) => forall i :: 0 <= i < |items| ==> Lower(items[i].spelling)
    case Braces(_, members) => forall i :: 0 <= i < |members| ==> LowerLetters(members[i].key) && Lower(members[i].item.spelling)
    case _ => true
  }

  /** At least as long as `t`, and `t` itself when as short and in lower case. */
  ghost predicate Shortest(s: string, t: string, lower: bool) { |t| <= |s| && (lower && |s| == |t| ==> s == t) }

  lemma LetterShort(l: Letter)
    requires LetterOk(l)
    ensures Shortest(LetterText(l), Escape(Meaning(l)), LowerLetter(l))
  {
    if l.Numbered? {
      NumberedShort(l);
    }
  }

  lemma EscapeLength(c: char)
    ensures |Escape(c)| <= 6
    ensures |Escape(c)| == 6 ==> c as int < 32 && Escape(c) == ['\\', 'u', '0', '0', HexDigit(c as int / 16), HexDigit(c as int % 16)]
  {
  }

  lemma NumberedShort(l: Letter)
    requires l.Numbered? && LetterOk(l)
    ensures Shortest(LetterText(l), Escape(Meaning(l)), LowerLetter(l))
  {
    hide HexOf, HexDigit, LowerHex, Escape, HexDigitChar;
    EscapeLength(Meaning(l));
    if LowerLetter(l) && |Escape(Meaning(l))| == 6 {
      HexDigitOf(l.a);
      HexDigitOf(l.b);
      HexDigitOf(l.c3);
      HexDigitOf(l.d);
      SmallNumber(HexOf(l.a), HexOf(l.b), HexOf(l.c3), HexOf(l.d));
      ZeroDigit();
    }
  }

  lemma SmallNumber(a: int, b: int, c: int, d: int)
    requires 0 <= a < 16 && 0 <= b < 16 && 0 <= c < 16 && 0 <= d < 16
    ensures var n := a * 4096 + b * 256 + c * 16 + d; n < 32 ==> a == 0 && b == 0 && c == n / 16 && d == n % 16
  {
  }

  lemma ZeroDigit()
    ensures HexDigit(0) == '0'
  {
  }

  lemma HexDigitOf(c: char)
    requires LowerHex(c)
    ensures HexDigitChar(c) && 0 <= HexOf(c) < 16 && HexDigit(HexOf(c)) == c
  {
  }

  lemma {:induction false} LettersShort(ls: seq<Letter>, rest: string)
    requires LettersOk(ls)
    ensures Shortest(LettersText(ls, rest), Escaped(Meanings(ls)) + ("\"" + rest), LowerLetters(ls))
    decreases |ls|
  {
    if ls == [] {
      assert Escaped(Meanings(ls)) + ("\"" + rest) == "\"" + rest;
    } else {
      LetterShort(ls[0]);
      LettersShort(ls[1..], rest);
      hide LetterText, Meaning, Escape, LetterOk, LowerLetter;
      assert Meanings(ls)[0] == Meaning(ls[0]) && Meanings(ls)[1..] == Meanings(ls[1..]);
      assert Escaped(Meanings(ls)) == Escape(Meaning(ls[0])) + Escaped(Meanings(ls[1..]));
      Joined(Escape(Meaning(ls[0])), Escaped(Meanings(ls[1..])), "\"" + rest);
    }
  }

  lemma NextDigit(n: nat, front: seq<int>, last: int)
    requires Digit(last) && front != [] && front[0] != 0 && Digits(n) == front
    ensures n > 0 && Digits(n * 10 + last) == front + [last]
  {
  }

  lemma {:induction false} DigitsShort(ds: seq<int>)
    requires DigitsOk(ds)
    ensures FromDigits(ds) >= 0 && Digits(FromDigits(ds)) == ds
    decreases |ds|
  {
    var front, last := ds[..|ds| - 1], ds[|ds| - 1];
    assert ds == front + [last] && last in ds && ds[0] in ds;
    if front == [] {
      assert FromDigits(front) == 0;
    } else {
      assert DigitsOk(front) by { assert forall d :: d in front ==> d in ds; }
      DigitsShort(front);
      assert front[0] == ds[0] != 0;
      NextDigit(FromDigits(front), front, last);
    }
  }

  lemma SignedText(negative: bool, ds: seq<int>)
    requires DigitsOk(ds)
    ensures var n := FromDigits(ds);
            n >= 0 && NumberText(if negative then -n else n) == (if negative && n > 0 then "-" else "") + DigitText(ds)
  {
    hide Digits, FromDigits, DigitText;
    DigitsShort(ds);
    var n := FromDigits(ds);
    if negative && n > 0 {
      assert NumberText(-n) == "-" + DigitText(Digits(n));
    } else {
      assert NumberText(n) == DigitText(ds);
      assert "" + DigitText(ds) == DigitText(ds);
    }
  }

  lemma SignShort(sign: string, less: string, t: string, rest: string)
    requires less == sign || less == ""
    ensures Shortest(sign + (t + rest), less + t + rest, true)
  {
    Joined(sign, t, rest);
    assert "" + t == t;
  }

  lemma IntegerShort(negative: bool, ds: seq<int>, rest: string)
    requires DigitsOk(ds)
    ensures Shortest((if negative then "-" else "") + (DigitText(ds) + rest),
                     NumberText(if negative then -FromDigits(ds) else FromDigits(ds)) + rest, true)
  {
    hide FromDigits, DigitText, NumberText, Shortest;
    SignedText(negative, ds);
    SignShort(if negative then "-" else "", if negative && FromDigits(ds) > 0 then "-" else "", DigitText(ds), rest);
  }

  lemma {:induction false} SaidIsWritable(sp: Spelling)
    requires Proper(sp)
    ensures Writable(Said(sp))
    decreases sp
  {
    match sp
    case Array(_, items) =>
      forall i | 0 <= i < |items| ensures Writable(Said(sp).items[i]) { SaidIsWritable(items[i].spelling); }
    case Braces(_, members) =>
      forall i | 0 <= i < |members| ensures Said(sp).entries[i].0.Text? && Writable(Said(sp).entries[i].1) {
        SaidIsWritable(members[i].item.spelling);
      }
    case _ =>
  }

  /** Any spelling of a value is at least as long as its compact text, and is that text if it is as short. */
  lemma {:induction false} SpellingShort(sp: Spelling, depth: nat, rest: string)
    requires Proper(sp) && Writable(Said(sp))
    ensures Shortest(Written(sp, rest), Print(Said(sp), depth, false) + rest, Lower(sp))
    decreases sp, 1, 0
  {
    if sp.Array? {
      ArrayShort(sp, depth, rest);
    } else if sp.Braces? {
      BracesShort(sp, depth, rest);
    } else {
      WordShort(sp, depth, rest);
    }
  }

  lemma WordShort(sp: Spelling, depth: nat, rest: string)
    requires Proper(sp) && !sp.Array? && !sp.Braces?
    ensures Shortest(Written(sp, rest), Print(Said(sp), depth, false) + rest, Lower(sp))
  {
    hide Meanings, Escaped, LettersText, DigitText, FromDigits, NumberText, LettersOk, DigitsOk;
    match sp
    case Quote(ls) => QuoteShort(ls, rest);
    case Integer(negative, ds) => IntegerShort(negative, ds, rest);
    case _ =>
  }

  lemma QuoteShort(ls: seq<Letter>, rest: string)
    requires LettersOk(ls)
    ensures Shortest("\"" + LettersText(ls, rest), Quoted(Meanings(ls)) + rest, LowerLetters(ls))
  {
    hide Meanings, Escaped, LettersText, LettersOk, LowerLetters;
    LettersShort(ls, rest);
    AfterMark("\"", LettersText(ls, rest), Escaped(Meanings(ls)) + ("\"" + rest), LowerLetters(ls));
    assert Quoted(Meanings(ls)) + rest == "\"" + (Escaped(Meanings(ls)) + ("\"" + rest));
  }

  lemma WeakerCase(s: string, t: string, lower: bool, all: bool)
    requires Shortest(s, t, lower) && (all ==> lower)
    ensures Shortest(s, t, all)
  {
  }

  lemma AfterBlanks(blank: string, s: string, t: string, lower: bool)
    requires Shortest(s, t, lower)
    ensures Shortest(blank + s, t, lower)
  {
    assert |blank| == 0 ==> blank + s == s;
  }

  lemma AfterMark(mark: string, s: string, t: string, lower: bool)
    requires Shortest(s, t, lower)
    ensures Shortest(mark + s, mark + t, lower)
  {
  }

  /** Shorter text behind a shortest text. */
  lemma WithShorter(s: string, front: string, more: string, less: string, lower: bool)
    requires Shortest(s, front + more, lower) && Shortest(more, less, lower)
    ensures Shortest(s, front + less, lower)
  {
  }

  lemma EmptyShort(open: string, close: string, blank: string, rest: string, lower: bool)
    ensures Shortest(open + (blank + (close + rest)), open + close + rest, lower)
  {
    AfterBlanks(blank, close + rest, close + rest, lower);
    AfterMark(open, blank + (close + rest), close + rest, lower);
    Joined(open, close, rest);
  }

  lemma FilledShort(open: string, s: string, t: string, lower: bool)
    requires Shortest(s, t, lower)
    ensures Shortest(open + s, open + ("" + t), lower)
  {
    AfterMark(open, s, t, lower);
    assert "" + t == t;
  }

  lemma ArrayWritten(sp: Spelling, rest: string)
    requires sp.Array? && Proper(sp)
    ensures Said(sp).List? && |Said(sp).items| == |sp.items|
    ensures Written(sp, rest) == "[" + if sp.items == [] then sp.blank + ("]" + rest) else ItemsText(sp, 0, rest)
  {
  }

  lemma ArrayShort(sp: Spelling, depth: nat, rest: string)
    requires sp.Array? && Proper(sp) && Writable(Said(sp))
    ensures Shortest(Written(sp, rest), Print(Said(sp), depth, false) + rest, Lower(sp))
    decreases sp, 0, |sp.items| + 1
  {
    var v, end := Said(sp), "]" + rest;
    hide Proper, Said, Lower, Print, Shortest, Written, ItemsText, FromItem;
    ArrayWritten(sp, rest);
    if sp.items == [] {
      EmptyArray(v, depth, false);
      EmptyShort("[", "]", sp.blank, rest, Lower(sp));
    } else {
      ItemsShort(sp, 0, depth + 1, end, rest);
      ArrayOpens(v, depth, false, rest);
      assert Close(false, depth, false, ']') + rest == end;
      FilledShort("[", ItemsText(sp, 0, rest), FromItem(v, 0, depth + 1, false, end), Lower(sp));
    }
  }

  /** From item `i` on. */
  lemma {:induction false} ItemsShort(sp: Spelling, i: nat, depth: nat, end: string, rest: string)
    requires sp.Array? && Proper(sp) && Writable(Said(sp)) && i < |sp.items| && end == "]" + rest
    ensures Shortest(ItemsText(sp, i, rest), FromItem(Said(sp), i, depth, false, end), Lower(sp))
    decreases sp, 0, |sp.items| - i
  {
    var v, x, low := Said(sp), sp.items[i], Lower(sp);
    var more, less := AfterItem(sp, i, rest), ItemsFrom(v, i + 1, depth, false) + end;
    assert v.items[i] == Said(x.spelling);
    SpellingShort(x.spelling, depth, more);
    assert Shortest(more, less, low) by {
      if i + 1 < |sp.items| {
        ItemsShort(sp, i + 1, depth, end, rest);
        ItemsUnfold(v, i + 1, depth, false, end);
        hide Shortest, Written, ItemsText, FromItem, ItemsFrom, Print, Said, Lower;
        var next := FromItem(v, i + 1, depth, false, end);
        assert "" + next == next;
        AfterMark(",", ItemsText(sp, i + 1, rest), next, low);
        AfterBlanks(x.after, "," + ItemsText(sp, i + 1, rest), less, low);
      } else {
        assert less == end;
        AfterBlanks(x.after, end, end, low);
      }
    }
    assert low ==> Lower(x.spelling);
    assert ItemsText(sp, i, rest) == x.before + Written(x.spelling, more);
    hide Shortest, Written, ItemsText, ItemsFrom, Print, Said, Lower;
    var p, s := Print(v.items[i], depth, false), Written(x.spelling, more);
    WeakerCase(s, p + more, Lower(x.spelling), low);
    WithShorter(s, p, more, less, low);
    AfterBlanks(x.before, s, p + less, low);
  }

  lemma BracesWritten(sp: Spelling, rest: string)
    requires sp.Braces? && Proper(sp)
    ensures Said(sp).Object? && |Said(sp).entries| == |sp.members|
    ensures Written(sp, rest) == "{" + if sp.members == [] then sp.blank + ("}" + rest) else MembersText(sp, 0, rest)
  {
  }

  lemma BracesShort(sp: Spelling, depth: nat, rest: string)
    requires sp.Braces? && Proper(sp) && Writable(Said(sp))
    ensures Shortest(Written(sp, rest), Print(Said(sp), depth, false) + rest, Lower(sp))
    decreases sp, 0, |sp.members| + 1
  {
    var v, end := Said(sp), "}" + rest;
    hide Proper, Said, Lower, Print, Shortest, Written, MembersText, FromMember;
    BracesWritten(sp, rest);
    if sp.members == [] {
      EmptyObject(v, depth, false);
      EmptyShort("{", "}", sp.blank, rest, Lower(sp));
    } else {
      MembersShort(sp, 0, depth + 1, end, rest);
      ObjectOpens(v, depth, false, rest);
      assert Close(false, depth, false, '}') + rest == end;
      FilledShort("{", MembersText(sp, 0, rest), FromMember(v, 0, depth + 1, false, end), Lower(sp));
    }
  }

  /** From member `i` on. */
  lemma {:induction false} MembersShort(sp: Spelling, i: nat, depth: nat, end: string, rest: string)
    requires sp.Braces? && Proper(sp) && Writable(Said(sp)) && i < |sp.members| && end == "}" + rest
    ensures Shortest(MembersText(sp, i, rest), FromMember(Said(sp), i, depth, false, end), Lower(sp))
    decreases sp, 0, |sp.members| - i
  {
    var v, m, low := Said(sp), sp.members[i], Lower(sp);
    var x := m.item;
    var more, less := AfterMember(sp, i, rest), MembersFrom(v, i + 1, depth, false) + end;
    assert v.entries[i] == (Text(Meanings(m.key)), Said(x.spelling));
    SpellingShort(x.spelling, depth, more);
    assert Shortest(more, less, low) by {
      if i + 1 < |sp.members| {
        MembersShort(sp, i + 1, depth, end, rest);
        MembersUnfold(v, i + 1, depth, false, end);
        hide Shortest, Written, MembersText, FromMember, MembersFrom, Print, Said, Lower;
        var next := FromMember(v, i + 1, depth, false, end);
        assert "" + next == next;
        AfterMark(",", MembersText(sp, i + 1, rest), next, low);
        AfterBlanks(x.after, "," + MembersText(sp, i + 1, rest), less, low);
      } else {
        assert less == end;
        AfterBlanks(x.after, end, end, low);
      }
    }
    assert low ==> Lower(x.spelling) && LowerLetters(m.key);
    assert MembersText(sp, i, rest) == m.before + ("\"" + LettersText(m.key, m.between + (":" + AfterKey(sp, i, rest))));
    hide Shortest, Written, MembersText, MembersFrom, Print, Said, Lower, LettersText, Meanings, Escaped, LowerLetters;
    var p, s := Print(v.entries[i].1, depth, false), Written(x.spelling, more);
    WeakerCase(s, p + more, Lower(x.spelling), low);
    WithShorter(s, p, more, less, low);
    AfterBlanks(x.before, s, p + less, low);
    KeyShort(m, AfterKey(sp, i, rest), p + less, low);
    assert Quoted(Meanings(m.key)) + (Colon(false) + (p + less)) == FromMember(v, i, depth, false, end);
  }

  lemma KeyShort(m: Member, s: string, t: string, low: bool)
    requires LettersOk(m.key) && Shortest(s, t, low) && (low ==> LowerLetters(m.key))
    ensures Shortest(m.before + ("\"" + LettersText(m.key, m.between + (":" + s))),
                     Quoted(Meanings(m.key)) + (Colon(false) + t), low)
  {
    hide Shortest, LettersText, Meanings, Escaped, LowerLetters;
    var after, key := m.between + (":" + s), Escaped(Meanings(m.key));
    AfterMark(":", s, t, low);
    AfterBlanks(m.between, ":" + s, ":" + t, low);
    AfterMark("\"", after, ":" + t, low);
    LettersShort(m.key, after);
    WeakerCase(LettersText(m.key, after), key + ("\"" + after), LowerLetters(m.key), low);
    WithShorter(LettersText(m.key, after), key, "\"" + after, "\"" + (":" + t), low);
    AfterMark("\"", LettersText(m.key, after), key + ("\"" + (":" + t)), low);
    AfterBlanks(m.before, "\"" + LettersText(m.key, after), "\"" + (key + ("\"" + (":" + t))), low);
    assert Quoted(Meanings(m.key)) + (Colon(false) + t) == "\"" + (key + ("\"" + (":" + t)));
  }

  /** Compact text is the shortest text that spells its value, and the only one as short with lower-case escapes. */
  lemma CompactIsShortest(s: string, v: Value, before: string, sp: Spelling, after: string)
    requires SpelledBy(s, v, before, sp, after)
    ensures Writable(v) && |Print(v, 0, false)| <= |s|
    ensures Lower(sp) && |s| == |Print(v, 0, false)| ==> s == Print(v, 0, false)
  {
    SaidIsWritable(sp);
    SpellingShort(sp, 0, after);
    hide Print, Written, Lower;
    assert |after| == 0 ==> Print(v, 0, false) + after == Print(v, 0, false);
    assert |before| == 0 ==> before + Written(sp, after) == Written(sp, after);
  }
}
