/**
 What JSON texts say.  A spelling is a syntax tree of sections 2 to 7 of RFC 8259 with its blanks
 and escapes, without what the parser refuses of it: fractions, exponents and escaped surrogates.
 The parser accepts exactly the texts that spell a value within its depth limit, and returns
 that value.
 */
module JsonSpelling {
  import opened Results
  import opened Words
  import opened Sequences
  import opened Decimal
  import opened Json
  import opened JsonRoundTrip

  // ----- spellings -----

  /** One character of a string: as it is, as a two-character escape, or by its number. */
  datatype Letter = Plain(c: char) | Short(e: char) | Numbered(a: char, b: char, c3: char, d: char)

  datatype Spelling =
    | NullWord
    | TruthWord(truth: bool)
    | Integer(negative: bool, digits: seq<int>)
    | Quote(letters: seq<Letter>)
    | Array(blank: string, items: seq<Item>)
    | Braces(blank: string, members: seq<Member>)

  /** A value with the blanks around it. */
  datatype Item = Item(before: string, spelling: Spelling, after: string)
  datatype Member = Member(before: string, key: seq<Letter>, between: string, item: Item)

  predicate Blanks(s: string) { forall i :: 0 <= i < |s| ==> Blank(s[i]) }

  predicate HexDigitChar(c: char) { HexValue(c).Ok? }

  function HexOf(c: char): int
    requires HexDigitChar(c)
  {
    HexValue(c).value
  }

  function NumberOf(l: Letter): int
    requires l.Numbered? && HexDigitChar(l.a) && HexDigitChar(l.b) && HexDigitChar(l.c3) && HexDigitChar(l.d)
  {
    HexOf(l.a) * 4096 + HexOf(l.b) * 256 + HexOf(l.c3) * 16 + HexOf(l.d)
  }

  predicate LetterOk(l: Letter) {
    match l
    case Plain(c) => c as int >= 0x20 && c != '"' && c != '\\'
    case Short(e) => e in "\"\\/bfnrt"
    case Numbered(a, b, c, d) =>
      HexDigitChar(a) && HexDigitChar(b) && HexDigitChar(c) && HexDigitChar(d) && Scalar(NumberOf(l))
  }

  function Meaning(l: Letter): char
    requires LetterOk(l)
  {
    match l
    case Plain(c) => c
    case Numbered(_, _, _, _) => NumberOf(l) as char
    case Short(e) =>
      if e == 'b' then 8 as char else if e == 'f' then 12 as char else if e == 'n' then '\n'
      else if e == 'r' then '\r' else if e == 't' then '\t' else e
  }

  predicate LettersOk(ls: seq<Letter>) { forall i :: 0 <= i < |ls| ==> LetterOk(ls[i]) }

  function Meanings(ls: seq<Letter>): string
    requires LettersOk(ls)
  {
    seq(|ls|, i requires 0 <= i < |ls| => Meaning(ls[i]))
  }

  predicate DigitsOk(ds: seq<int>) { ds != [] && (forall d :: d in ds ==> Digit(d)) && (|ds| > 1 ==> ds[0] != 0) }

  ghost predicate Proper(sp: Spelling) {
    match sp
    case Integer(_, ds) => DigitsOk(ds)
    case Quote(ls) => LettersOk(ls)
    case Array(blank, items) =>
      Blanks(blank) && forall i :: 0 <= i < |items| ==> Blanks(items[i].before) && Blanks(items[i].after) && Proper(items[i].spelling)
    case Braces(blank, members) =>
      && Blanks(blank)
      && (forall i :: 0 <= i < |members| ==>
            && Blanks(members[i].before) && LettersOk(members[i].key) && Blanks(members[i].between)
            && Blanks(members[i].item.before) && Blanks(members[i].item.after) && Proper(members[i].item.spelling))
      && (forall i, j :: 0 <= i < j < |members| ==> Meanings(members[i].key) != Meanings(members[j].key))
    case _ => true
  }

  ghost function Said(sp: Spelling): Value
    requires Proper(sp)
  {
    match sp
    case NullWord => Nil
    case TruthWord(b) => Bool(b)
    case Integer(negative, ds) => Int(if negative then -FromDigits(ds) else FromDigits(ds))
    case Quote(ls) => Text(Meanings(ls))
    case Array(_, items) => List(seq(|items|, i requires 0 <= i < |items| => Said(items[i].spelling)))
    case Braces(_, members) =>
      Object(seq(|members|, i requires 0 <= i < |members| => (Text(Meanings(members[i].key)), Said(members[i].item.spelling))))
  }

  // ----- texts, each in front of what follows it -----

  function LetterText(l: Letter): string {
    match l
    case Plain(c) => [c]
    case Short(e) => ['\\', e]
    case Numbered(a, b, c, d) => ['\\', 'u', a, b, c, d]
  }

  function LettersText(ls: seq<Letter>, rest: string): string {
    if ls == [] then "\"" + rest else LetterText(ls[0]) + LettersText(ls[1..], rest)
  }

  ghost function Written(sp: Spelling, rest: string): string
    requires Proper(sp)
    decreases sp, 1, 0
  {
    match sp
    case NullWord => "null" + rest
    case TruthWord(b) => (if b then "true" else "false") + rest
    case Integer(negative, ds) => (if negative then "-" else "") + (DigitText(ds) + rest)
    case Quote(ls) => "\"" + LettersText(ls, rest)
    case Array(blank, items) => "[" + (if items == [] then blank + ("]" + rest) else ItemsText(sp, 0, rest))
    case Braces(blank, members) => "{" + (if members == [] then blank + ("}" + rest) else MembersText(sp, 0, rest))
  }

  ghost function ItemsText(sp: Spelling, i: nat, rest: string): string
    requires sp.Array? && Proper(sp) && i < |sp.items|
    decreases sp, 0, |sp.items| - i
  {
    var x := sp.items[i];
    x.before + Written(x.spelling, x.after + (if i + 1 == |sp.items| then "]" + rest else "," + ItemsText(sp, i + 1, rest)))
  }

  ghost function MembersText(sp: Spelling, i: nat, rest: string): string
    requires sp.Braces? && Proper(sp) && i < |sp.members|
    decreases sp, 0, |sp.members| - i
  {
    var m := sp.members[i];
    var more := if i + 1 == |sp.members| then "}" + rest else "," + MembersText(sp, i + 1, rest);
    m.before + ("\"" + LettersText(m.key, m.between + (":" + (m.item.before + Written(m.item.spelling, m.item.after + more)))))
  }

  /** The text `s` spells `v`. */
  ghost predicate Spells(s: string, v: Value) {
    exists before, sp, after :: SpelledBy(s, v, before, sp, after)
  }

  ghost predicate SpelledBy(s: string, v: Value, before: string, sp: Spelling, after: string) {
    Blanks(before) && Blanks(after) && Proper(sp) && Said(sp) == v && s == before + Written(sp, after)
  }

  // ----- blanks -----

  lemma {:induction false} SkipBlanks(blank: string, s: string)
    requires Blanks(blank)
    ensures Skip(blank + s) == Skip(s)
    decreases |blank|
  {
    if blank == "" {
      assert blank + s == s;
    } else {
      assert (blank + s)[1..] == blank[1..] + s;
      SkipBlanks(blank[1..], s);
    }
  }

  lemma {:induction false} SkipSplits(s: string) returns (blank: string)
    ensures Blanks(blank) && s == blank + Skip(s) && (Skip(s) != "" ==> !Blank(Skip(s)[0]))
    decreases |s|
  {
    if s != "" && Blank(s[0]) {
      var more := SkipSplits(s[1..]);
      blank := [s[0]] + more;
    } else {
      blank := "";
    }
  }

  /** After blanks, a closing bracket, brace, comma or nothing cannot continue a number. */
  lemma EndsAfter(blank: string, s: string)
    requires Blanks(blank) && Ends(s)
    ensures Ends(blank + s)
  {
    if blank == "" { assert blank + s == s; } else { assert (blank + s)[0] == blank[0]; }
  }

  // ----- letters -----

  lemma LetterReads(l: Letter, rest: string, acc: string)
    requires LetterOk(l)
    ensures Chars(LetterText(l) + rest, acc) == Chars(rest, acc + [Meaning(l)])
  {
    var s := LetterText(l) + rest;
    match l
    case Plain(c) => assert s[1..] == rest;
    case Short(e) => assert s[1..][1..] == rest;
    case Numbered(a, b, c, d) =>
      NumberedReads(l, rest);
      assert s[1..] == ['u', a, b, c, d] + rest && s[1..][1..] == [a, b, c, d] + rest;
      hide Hex;
  }

  lemma NumberedReads(l: Letter, rest: string)
    requires l.Numbered? && LetterOk(l)
    ensures Hex([l.a, l.b, l.c3, l.d] + rest, 4, 0) == Ok((NumberOf(l), rest))
  {
    var s := [l.a, l.b, l.c3, l.d] + rest;
    var s1, s2, s3 := [l.b, l.c3, l.d] + rest, [l.c3, l.d] + rest, [l.d] + rest;
    assert s[1..] == s1 && s1[1..] == s2 && s2[1..] == s3 && s3[1..] == rest;
    var n1 := HexOf(l.a);
    var n2 := n1 * 16 + HexOf(l.b);
    var n3 := n2 * 16 + HexOf(l.c3);
    assert Hex(s, 4, 0) == Hex(s1, 3, n1);
    assert Hex(s1, 3, n1) == Hex(s2, 2, n2);
    assert Hex(s2, 2, n2) == Hex(s3, 1, n3);
    assert Hex(s3, 1, n3) == Hex(rest, 0, n3 * 16 + HexOf(l.d));
  }

  lemma {:induction false} LettersRead(ls: seq<Letter>, rest: string, acc: string)
    requires LettersOk(ls)
    ensures Chars(LettersText(ls, rest), acc) == Ok((acc + Meanings(ls), rest))
    decreases |ls|
  {
    hide LetterText, Meaning, LetterOk;
    if ls == [] {
      assert ("\"" + rest)[1..] == rest;
      assert acc + Meanings(ls) == acc;
    } else {
      LetterReads(ls[0], LettersText(ls[1..], rest), acc);
      LettersRead(ls[1..], rest, acc + [Meaning(ls[0])]);
      assert Meanings(ls) == [Meaning(ls[0])] + Meanings(ls[1..]);
      assert acc + [Meaning(ls[0])] + Meanings(ls[1..]) == acc + Meanings(ls);
    }
  }

  /** What an escape was, given what it was read as. */
  lemma EscapeSpelled(s: string) returns (l: Letter)
    requires Unescape(s).Ok?
    ensures LetterOk(l) && Meaning(l) == Unescape(s).value.0 && ['\\'] + s == LetterText(l) + Unescape(s).value.1
  {
    var rest := Unescape(s).value.1;
    if s[0] == 'u' {
      l := HexSpelled(s[1..]);
      assert s == ['u', l.a, l.b, l.c3, l.d] + rest;
    } else {
      l := Short(s[0]);
      assert s == [s[0]] + s[1..];
    }
  }

  lemma HexSpelled(s: string) returns (l: Letter)
    requires Hex(s, 4, 0).Ok? && Scalar(Hex(s, 4, 0).value.0)
    ensures l.Numbered? && LetterOk(l) && NumberOf(l) == Hex(s, 4, 0).value.0
    ensures s == [l.a, l.b, l.c3, l.d] + Hex(s, 4, 0).value.1
  {
    var s1, s2, s3 := s[1..], s[1..][1..], s[1..][1..][1..];
    var n1 := HexValue(s[0]).value;
    assert Hex(s, 4, 0) == Hex(s1, 3, n1);
    var n2 := n1 * 16 + HexValue(s1[0]).value;
    assert Hex(s1, 3, n1) == Hex(s2, 2, n2);
    var n3 := n2 * 16 + HexValue(s2[0]).value;
    assert Hex(s2, 2, n2) == Hex(s3, 1, n3);
    var n4 := n3 * 16 + HexValue(s3[0]).value;
    assert Hex(s3, 1, n3) == Hex(s3[1..], 0, n4);
    l := Numbered(s[0], s1[0], s2[0], s3[0]);
    assert s == [s[0]] + s1 && s1 == [s1[0]] + s2 && s2 == [s2[0]] + s3 && s3 == [s3[0]] + s3[1..];
  }

  lemma {:induction false} LettersSpelled(s: string, acc: string) returns (ls: seq<Letter>)
    requires Chars(s, acc).Ok?
    ensures LettersOk(ls) && Chars(s, acc).value.0 == acc + Meanings(ls) && s == LettersText(ls, Chars(s, acc).value.1)
    decreases |s|
  {
    hide LetterText, Meaning, Unescape;
    if s[0] == '"' {
      ls := [];
      assert acc + Meanings([]) == acc;
    } else {
      var l, rest := OneSpelled(s, acc);
      var more := LettersSpelled(rest, acc + [Meaning(l)]);
      ls := [l] + more;
      assert ls[1..] == more;
      assert Meanings(ls) == [Meaning(l)] + Meanings(more);
      assert acc + [Meaning(l)] + Meanings(more) == acc + Meanings(ls);
    }
  }

  lemma OneSpelled(s: string, acc: string) returns (l: Letter, rest: string)
    requires Chars(s, acc).Ok? && s[0] != '"'
    ensures LetterOk(l) && s == LetterText(l) + rest && |rest| < |s| && Chars(s, acc) == Chars(rest, acc + [Meaning(l)])
  {
    hide Unescape;
    assert s == [s[0]] + s[1..];
    if s[0] == '\\' {
      l := EscapeSpelled(s[1..]);
      rest := Unescape(s[1..]).value.1;
    } else {
      l, rest := Plain(s[0]), s[1..];
    }
  }

  // ----- integers -----

  lemma IntegerReads(negative: bool, ds: seq<int>, rest: string)
    requires DigitsOk(ds) && Ends(rest)
    ensures var s := (if negative then "-" else "") + (DigitText(ds) + rest);
            && Number(s) == Ok((Int(if negative then -FromDigits(ds) else FromDigits(ds)), rest))
            && s != "" && (s[0] == '-' || '0' <= s[0] <= '9')
  {
    hide Magnitude, Number, DigitText, FromDigits, Ends;
    DigitsRead(ds, rest);
    DigitTextStarts(ds);
    Signed(negative, DigitText(ds) + rest, FromDigits(ds), rest);
  }

  lemma Signed(negative: bool, s: string, n: int, rest: string)
    requires DigitAt(s) && Magnitude(s) == Ok((n, rest))
    ensures var t := (if negative then "-" else "") + s;
            Number(t) == Ok((Int(if negative then -n else n), rest)) && (At(t, '-') || DigitAt(t))
  {
    hide Magnitude;
    if negative { assert ("-" + s)[1..] == s; } else { assert "" + s == s; }
  }

  lemma IntegerSpelled(s: string) returns (sp: Spelling)
    requires Number(s).Ok?
    ensures sp.Integer? && Proper(sp) && Said(sp) == Number(s).value.0 && s == Written(sp, Number(s).value.1)
  {
    if At(s, '-') {
      var ds := DigitsSpelled(s[1..]);
      hide Magnitude, DigitText;
      sp := Integer(true, ds);
      assert s == "-" + s[1..];
    } else {
      var ds := DigitsSpelled(s);
      hide Magnitude, DigitText;
      sp := Integer(false, ds);
      assert "" + (DigitText(ds) + Number(s).value.1) == s;
    }
  }

  lemma DigitsSpelled(s: string) returns (ds: seq<int>)
    requires Magnitude(s).Ok?
    ensures DigitsOk(ds) && FromDigits(ds) == Magnitude(s).value.0 && s == DigitText(ds) + Magnitude(s).value.1
  {
    var k := if s[0] == '0' then 1 else Run(s);
    ds := DigitsOf(s[..k]);
    hide FromDigits;
    forall i | 0 <= i < k ensures Digit(ds[i]) && DigitChar(ds[i]) == s[i] { }
    assert DigitText(ds) == s[..k] by {
      forall i | 0 <= i < k ensures DigitText(ds)[i] == s[i] { assert ds[i] in ds; }
    }
    assert s == s[..k] + s[k..];
  }

  // ----- what is spelled is read -----

  lemma WrittenStarts(sp: Spelling, rest: string)
    requires Proper(sp)
    ensures Written(sp, rest) != "" && Starts(Written(sp, rest)[0])
  {
    if sp.Integer? {
      DigitTextStarts(sp.digits);
      hide DigitText;
    }
  }

  lemma StartsUnskipped(s: string)
    requires s != "" && Starts(s[0])
    ensures Skip(s) == s && !At(s, ']') && !At(s, '}')
  {
  }

  lemma {:induction false} SpelledReads(b: bool, sp: Spelling, depth: nat, rest: string)
    requires Proper(sp) && Ends(rest)
    ensures ReadValue(b, Written(sp, rest), depth) == Outcome(Fits(b, Said(sp), depth), Said(sp), rest)
    decreases sp, 1, 0
  {
    if sp.Array? {
      ArraySpelledReads(b, sp, depth + 1, rest);
    } else if sp.Braces? {
      BracesSpelledReads(b, sp, depth + 1, rest);
    } else {
      WordReads(b, sp, depth, rest);
    }
  }

  lemma WordReads(b: bool, sp: Spelling, depth: nat, rest: string)
    requires Proper(sp) && !sp.Array? && !sp.Braces? && Ends(rest)
    ensures ReadValue(b, Written(sp, rest), depth) == Outcome(b ==> depth <= MAX_DEPTH, Said(sp), rest)
  {
    var s := Written(sp, rest);
    WrittenStarts(sp, rest);
    StartsUnskipped(s);
    hide Chars, Number, ReadArray, ReadObject, LettersText, Meanings, Skip, Starts, DigitText;
    match sp
    case NullWord => assert s[4..] == rest;
    case TruthWord(truth) => assert s[if truth then 4 else 5..] == rest;
    case Integer(negative, ds) => IntegerReads(negative, ds, rest);
    case Quote(ls) => QuoteReads(ls, rest);
  }

  lemma QuoteReads(ls: seq<Letter>, rest: string)
    requires LettersOk(ls)
    ensures var s := "\"" + LettersText(ls, rest); At(s, '"') && Chars(s[1..], "") == Ok((Meanings(ls), rest))
  {
    LettersRead(ls, rest, "");
    assert ("\"" + LettersText(ls, rest))[1..] == LettersText(ls, rest);
    assert "" + Meanings(ls) == Meanings(ls);
  }

  // ----- arrays -----

  /** What follows the value of item `i`. */
  ghost function AfterItem(sp: Spelling, i: nat, rest: string): string
    requires sp.Array? && Proper(sp) && i < |sp.items|
  {
    sp.items[i].after + (if i + 1 == |sp.items| then "]" + rest else "," + ItemsText(sp, i + 1, rest))
  }

  /** The items from the value of item `i` on. */
  ghost function AtItem(sp: Spelling, i: nat, rest: string): string
    requires sp.Array? && Proper(sp) && i < |sp.items|
  {
    Written(sp.items[i].spelling, AfterItem(sp, i, rest))
  }

  lemma ItemsTextSkips(sp: Spelling, i: nat, rest: string)
    requires sp.Array? && Proper(sp) && i < |sp.items|
    ensures var u := AtItem(sp, i, rest); Skip(ItemsText(sp, i, rest)) == u && !At(u, ']')
  {
    var x, u := sp.items[i], AtItem(sp, i, rest);
    assert ItemsText(sp, i, rest) == x.before + u;
    WrittenStarts(x.spelling, AfterItem(sp, i, rest));
    hide Written, ItemsText, Starts;
    SkipBlanks(x.before, u);
    StartsUnskipped(u);
  }

  lemma AfterItemSkips(sp: Spelling, i: nat, rest: string)
    requires sp.Array? && Proper(sp) && i < |sp.items|
    ensures var more := AfterItem(sp, i, rest);
            && Ends(more)
            && (i + 1 == |sp.items| ==> Skip(more) == "]" + rest)
            && (i + 1 < |sp.items| ==>
                  At(Skip(more), ',') && Skip(Skip(more)[1..]) == AtItem(sp, i + 1, rest) && !At(AtItem(sp, i + 1, rest), ']'))
  {
    var after := sp.items[i].after;
    if i + 1 == |sp.items| {
      EndsAfter(after, "]" + rest);
      SkipBlanks(after, "]" + rest);
    } else {
      ItemsTextSkips(sp, i + 1, rest);
      hide AtItem;
      var s := "," + ItemsText(sp, i + 1, rest);
      EndsAfter(after, s);
      SkipBlanks(after, s);
      assert s[1..] == ItemsText(sp, i + 1, rest);
    }
  }

  lemma {:induction false} ItemsSpelledRead(b: bool, sp: Spelling, i: nat, depth: nat, rest: string)
    requires sp.Array? && Proper(sp) && i < |sp.items|
    ensures ReadItems(b, AtItem(sp, i, rest), depth, Said(sp).items[..i]) == Outcome(FitFrom(b, Said(sp), i, depth), Said(sp), rest)
    decreases sp, 0, |sp.items| - i
  {
    var v, more := Said(sp), AfterItem(sp, i, rest);
    AfterItemSkips(sp, i, rest);
    SpelledReads(b, sp.items[i].spelling, depth, more);
    assert v.items[i] == Said(sp.items[i].spelling);
    if i + 1 < |sp.items| { ItemsSpelledRead(b, sp, i + 1, depth, rest); }
    hide ReadItems, ReadValue, Written, Fits, Skip, Ends, Said, Proper, FitFrom, AfterItem;
    if i + 1 == |sp.items| {
      LastItem(b, v, i, depth, AtItem(sp, i, rest), more, rest);
    } else {
      NextItem(b, v, i, depth, AtItem(sp, i, rest), more, AtItem(sp, i + 1, rest), rest);
    }
  }

  lemma ArraySpelledReads(b: bool, sp: Spelling, depth: nat, rest: string)
    requires sp.Array? && Proper(sp) && 0 < depth && Ends(rest)
    ensures ReadValue(b, Written(sp, rest), depth - 1) == Outcome(Fits(b, Said(sp), depth - 1), Said(sp), rest)
    decreases sp, 0, |sp.items| + 1
  {
    var s, v := Written(sp, rest), Said(sp);
    assert At(s, '[') && Skip(s) == s;
    if b && depth > MAX_DEPTH + 1 { return; }
    assert ReadValue(b, s, depth - 1) == ReadArray(b, s[1..], depth);
    hide ReadValue;
    if sp.items == [] {
      assert s[1..] == sp.blank + ("]" + rest);
      SkipBlanks(sp.blank, "]" + rest);
      assert ("]" + rest)[1..] == rest;
      assert v == List([]);
    } else {
      ItemsSpelledRead(b, sp, 0, depth, rest);
      AllFit(b, v, 0, depth);
      ItemsTextSkips(sp, 0, rest);
      assert s[1..] == ItemsText(sp, 0, rest);
      hide Written, ReadItems, ItemsText, AtItem, Fits, FitFrom, Skip;
      assert v.items[..0] == [];
    }
  }

  // ----- objects -----

  ghost function AfterMember(sp: Spelling, i: nat, rest: string): string
    requires sp.Braces? && Proper(sp) && i < |sp.members|
  {
    sp.members[i].item.after + (if i + 1 == |sp.members| then "}" + rest else "," + MembersText(sp, i + 1, rest))
  }

  ghost function AfterKey(sp: Spelling, i: nat, rest: string): string
    requires sp.Braces? && Proper(sp) && i < |sp.members|
  {
    var x := sp.members[i].item;
    x.before + Written(x.spelling, AfterMember(sp, i, rest))
  }

  ghost function AtMember(sp: Spelling, i: nat, rest: string): string
    requires sp.Braces? && Proper(sp) && i < |sp.members|
  {
    "\"" + LettersText(sp.members[i].key, sp.members[i].between + (":" + AfterKey(sp, i, rest)))
  }

  lemma MembersTextSkips(sp: Spelling, i: nat, rest: string)
    requires sp.Braces? && Proper(sp) && i < |sp.members|
    ensures var u := AtMember(sp, i, rest); Skip(MembersText(sp, i, rest)) == u && !At(u, '}')
  {
    var m, u := sp.members[i], AtMember(sp, i, rest);
    assert MembersText(sp, i, rest) == m.before + u;
    assert At(u, '"');
    hide Written, MembersText, AtMember;
    SkipBlanks(m.before, u);
    StartsUnskipped(u);
  }

  lemma AfterMemberSkips(sp: Spelling, i: nat, rest: string)
    requires sp.Braces? && Proper(sp) && i < |sp.members|
    ensures var more := AfterMember(sp, i, rest);
            && Ends(more)
            && (i + 1 == |sp.members| ==> Skip(more) == "}" + rest)
            && (i + 1 < |sp.members| ==>
                  At(Skip(more), ',') && Skip(Skip(more)[1..]) == AtMember(sp, i + 1, rest) && !At(AtMember(sp, i + 1, rest), '}'))
  {
    var after := sp.members[i].item.after;
    if i + 1 == |sp.members| {
      EndsAfter(after, "}" + rest);
      SkipBlanks(after, "}" + rest);
    } else {
      MembersTextSkips(sp, i + 1, rest);
      hide AtMember;
      var s := "," + MembersText(sp, i + 1, rest);
      EndsAfter(after, s);
      SkipBlanks(after, s);
      assert s[1..] == MembersText(sp, i + 1, rest);
    }
  }

  lemma MemberSpelled(b: bool, sp: Spelling, i: nat, depth: nat, rest: string)
    requires sp.Braces? && Proper(sp) && i < |sp.members|
    requires var x, more := sp.members[i].item.spelling, AfterMember(sp, i, rest);
             ReadValue(b, Written(x, more), depth) == Outcome(Fits(b, Said(x), depth), Said(x), more)
    ensures MemberAt(b, Meanings(sp.members[i].key), Said(sp.members[i].item.spelling), AtMember(sp, i, rest), AfterMember(sp, i, rest), depth)
  {
    var m, after := sp.members[i], AfterKey(sp, i, rest);
    QuoteReads(m.key, m.between + (":" + after));
    hide Chars, LettersText, Written, Fits, Meanings, LetterOk;
    SkipBlanks(m.between, ":" + after);
    assert (":" + after)[1..] == after;
    var text := Written(m.item.spelling, AfterMember(sp, i, rest));
    SkipBlanks(m.item.before, text);
    ReadSkips(b, after, text, depth);
    hide ReadValue, Skip;
  }

  lemma FreshKey(sp: Spelling, i: nat)
    requires sp.Braces? && Proper(sp) && i < |sp.members|
    ensures !HasKey(Said(sp).entries[..i], Meanings(sp.members[i].key))
  {
    hide Meanings;
    forall j | 0 <= j < i ensures Said(sp).entries[..i][j].0 != Text(Meanings(sp.members[i].key)) {
      assert Said(sp).entries[j].0 == Text(Meanings(sp.members[j].key));
    }
  }

  lemma {:induction false} MembersSpelledRead(b: bool, sp: Spelling, i: nat, depth: nat, rest: string)
    requires sp.Braces? && Proper(sp) && i < |sp.members|
    ensures ReadMembers(b, AtMember(sp, i, rest), depth, Said(sp).entries[..i])
         == Outcome(MembersFit(b, Said(sp), i, depth), Said(sp), rest)
    decreases sp, 0, |sp.members| - i
  {
    var v, more, s := Said(sp), AfterMember(sp, i, rest), AtMember(sp, i, rest);
    AfterMemberSkips(sp, i, rest);
    SpelledReads(b, sp.members[i].item.spelling, depth, more);
    MemberSpelled(b, sp, i, depth, rest);
    FreshKey(sp, i);
    assert v.entries[i] == (Text(Meanings(sp.members[i].key)), Said(sp.members[i].item.spelling));
    if i + 1 < |sp.members| { MembersSpelledRead(b, sp, i + 1, depth, rest); }
    hide ReadMembers, ReadValue, Written, Fits, Skip, Ends, Said, Proper, MembersFit, AfterMember, MemberAt, AtMember, HasKey, Meanings;
    if i + 1 == |sp.members| {
      LastMember(b, v, i, depth, s, more, rest);
    } else {
      NextMember(b, v, i, depth, s, more, AtMember(sp, i + 1, rest), rest);
    }
  }

  lemma BracesSpelledReads(b: bool, sp: Spelling, depth: nat, rest: string)
    requires sp.Braces? && Proper(sp) && 0 < depth && Ends(rest)
    ensures ReadValue(b, Written(sp, rest), depth - 1) == Outcome(Fits(b, Said(sp), depth - 1), Said(sp), rest)
    decreases sp, 0, |sp.members| + 1
  {
    var s, v := Written(sp, rest), Said(sp);
    assert At(s, '{') && Skip(s) == s;
    if b && depth > MAX_DEPTH + 1 { return; }
    assert ReadValue(b, s, depth - 1) == ReadObject(b, s[1..], depth);
    hide ReadValue;
    if sp.members == [] {
      assert s[1..] == sp.blank + ("}" + rest);
      SkipBlanks(sp.blank, "}" + rest);
      assert ("}" + rest)[1..] == rest;
      assert v == Object([]);
    } else {
      assert s[1..] == MembersText(sp, 0, rest);
      hide Written, ReadMembers, MembersText, AtMember, Fits, MembersFit, Skip, Said;
      MembersSpelledRead(b, sp, 0, depth, rest);
      AllMembersFit(b, v, 0, depth);
      MembersTextSkips(sp, 0, rest);
      assert v.entries[..0] == [];
    }
  }

  // ----- what is read was spelled -----

  lemma {:induction false} ReadIsSpelled(b: bool, s: string, depth: nat) returns (blank: string, sp: Spelling)
    requires ReadValue(b, s, depth).Ok?
    ensures var (v, rest) := ReadValue(b, s, depth).value;
            Blanks(blank) && Proper(sp) && Said(sp) == v && s == blank + Written(sp, rest)
    decreases |s|, 0
  {
    blank := SkipSplits(s);
    var t := Skip(s);
    var (v, rest) := ReadValue(b, s, depth).value;
    hide ReadItems, ReadMembers, Skip, Number, Chars;
    assert t == [t[0]] + t[1..];
    if t[0] == '[' {
      assert ReadValue(b, s, depth) == ReadArray(b, t[1..], depth + 1);
      sp := ArraySpelled(b, t[1..], depth + 1);
    } else if t[0] == '{' {
      assert ReadValue(b, s, depth) == ReadObject(b, t[1..], depth + 1);
      sp := BracesSpelled(b, t[1..], depth + 1);
    } else {
      sp := WordSpelled(b, t, depth);
      ReadSkips(b, s, t, depth);
    }
  }

  lemma WordSpelled(b: bool, t: string, depth: nat) returns (sp: Spelling)
    requires t != "" && !Blank(t[0]) && ReadValue(b, t, depth).Ok? && t[0] != '[' && t[0] != '{'
    ensures var (v, rest) := ReadValue(b, t, depth).value;
            Proper(sp) && Said(sp) == v && t == Written(sp, rest)
  {
    var (v, rest) := ReadValue(b, t, depth).value;
    assert Skip(t) == t;
    hide Skip, Number, Chars, DigitText, Meanings, LettersText;
    if t[0] == 'n' {
      sp := NullWord;
    } else if t[0] == 't' || t[0] == 'f' {
      sp := TruthWord(t[0] == 't');
    } else if t[0] == '"' {
      var ls := LettersSpelled(t[1..], "");
      sp := Quote(ls);
      assert "" + Meanings(ls) == Meanings(ls);
      assert t == "\"" + t[1..];
    } else {
      sp := IntegerSpelled(t);
    }
  }

  lemma ArraySpelled(b: bool, s: string, depth: nat) returns (sp: Spelling)
    requires ReadArray(b, s, depth).Ok?
    ensures var (v, rest) := ReadArray(b, s, depth).value;
            Proper(sp) && Said(sp) == v && "[" + s == Written(sp, rest)
    decreases |s|, 2
  {
    var lead := SkipSplits(s);
    var t := Skip(s);
    hide ReadItems, Skip;
    if At(t, ']') {
      sp := Array(lead, []);
      assert t == "]" + t[1..];
    } else {
      assert Values([]) == [];
      sp := ItemsSpelled(b, t, depth, [], lead);
      assert sp.items != [];
    }
  }

  ghost predicate ItemOk(x: Item) { Blanks(x.before) && Blanks(x.after) && Proper(x.spelling) }

  ghost predicate ItemsOk(items: seq<Item>) { forall i :: 0 <= i < |items| ==> ItemOk(items[i]) }

  ghost function Values(items: seq<Item>): seq<Value>
    requires ItemsOk(items)
  {
    seq(|items|, i requires 0 <= i < |items| => Said(items[i].spelling))
  }

  lemma ArrayOf(items: seq<Item>)
    requires ItemsOk(items)
    ensures Proper(Array("", items)) && Said(Array("", items)) == List(Values(items))
  {
  }

  lemma OneMoreItem(items: seq<Item>, x: Item)
    requires ItemsOk(items) && ItemOk(x)
    ensures ItemsOk(items + [x]) && Values(items + [x]) == Values(items) + [Said(x.spelling)]
  {
  }

  lemma ItemsTextIs(sp: Spelling, i: nat, lead: string, blank: string, s: string, more: string, rest: string)
    requires sp.Array? && Proper(sp) && i < |sp.items| && sp.items[i].before == lead + blank
    requires s == blank + Written(sp.items[i].spelling, more) && more == AfterItem(sp, i, rest)
    ensures lead + s == ItemsText(sp, i, rest)
  {
    hide Written;
    Joined(lead, blank, Written(sp.items[i].spelling, more));
  }

  /** The items of an array: `items` were read before, and `lead` stood in front of the next one. */
  lemma {:induction false} ItemsSpelled(b: bool, s: string, depth: nat, items: seq<Item>, lead: string) returns (sp: Spelling)
    requires Blanks(lead) && ItemsOk(items) && ReadItems(b, s, depth, Values(items)).Ok?
    ensures var (v, rest) := ReadItems(b, s, depth, Values(items)).value;
            && sp.Array? && Proper(sp) && Said(sp) == v && items < sp.items
            && lead + s == ItemsText(sp, |items|, rest)
    decreases |s|, 1
  {
    hide Skip, Written, Said, Values, ItemsText, Proper, ItemsOk;
    var (x, more) := ReadValue(b, s, depth).value;
    var rest := ReadItems(b, s, depth, Values(items)).value.1;
    hide ReadValue;
    var blank, inner := ReadIsSpelled(b, s, depth);
    var after := SkipSplits(more);
    var t := Skip(more);
    var next := Item(lead + blank, inner, after);
    var all := items + [next];
    OneMoreItem(items, next);
    if At(t, ']') {
      sp := Array("", all);
      ArrayOf(all);
      assert t == "]" + rest;
    } else {
      var gap := SkipSplits(t[1..]);
      sp := ItemsSpelled(b, Skip(t[1..]), depth, all, gap);
      assert t == "," + ItemsText(sp, |all|, rest);
      assert sp.items[|items|] == all[|items|];
    }
    ItemsTextIs(sp, |items|, lead, blank, s, more, rest);
  }

  lemma BracesSpelled(b: bool, s: string, depth: nat) returns (sp: Spelling)
    requires ReadObject(b, s, depth).Ok?
    ensures var (v, rest) := ReadObject(b, s, depth).value;
            Proper(sp) && Said(sp) == v && "{" + s == Written(sp, rest)
    decreases |s|, 2
  {
    var lead := SkipSplits(s);
    var t := Skip(s);
    hide ReadMembers, Skip;
    if At(t, '}') {
      sp := Braces(lead, []);
      assert t == "}" + t[1..];
    } else {
      assert Entries([]) == [];
      sp := MembersSpelled(b, t, depth, [], lead);
      assert sp.members != [];
    }
  }

  ghost predicate MemberOk(m: Member) {
    Blanks(m.before) && LettersOk(m.key) && Blanks(m.between) && ItemOk(m.item)
  }

  ghost predicate MembersOk(ms: seq<Member>) {
    && (forall i :: 0 <= i < |ms| ==> MemberOk(ms[i]))
    && (forall i, j :: 0 <= i < j < |ms| ==> Meanings(ms[i].key) != Meanings(ms[j].key))
  }

  ghost function Entries(ms: seq<Member>): seq<(Value, Value)>
    requires MembersOk(ms)
  {
    seq(|ms|, i requires 0 <= i < |ms| => (Text(Meanings(ms[i].key)), Said(ms[i].item.spelling)))
  }

  lemma BracesOf(ms: seq<Member>)
    requires MembersOk(ms)
    ensures Proper(Braces("", ms)) && Said(Braces("", ms)) == Object(Entries(ms))
  {
    hide Meanings;
  }

  lemma OneMoreMember(ms: seq<Member>, m: Member)
    requires MembersOk(ms) && MemberOk(m) && !HasKey(Entries(ms), Meanings(m.key))
    ensures MembersOk(ms + [m]) && Entries(ms + [m]) == Entries(ms) + [(Text(Meanings(m.key)), Said(m.item.spelling))]
  {
    hide Meanings, ItemOk;
    forall i | 0 <= i < |ms| ensures Meanings(ms[i].key) != Meanings(m.key) { assert Entries(ms)[i].0 == Text(Meanings(ms[i].key)); }
  }

  lemma MembersTextIs(sp: Spelling, i: nat, s: string, afterKey: string, s1: string, blank: string, more: string, rest: string)
    requires sp.Braces? && Proper(sp) && i < |sp.members| && sp.members[i].item.before == blank
    requires s == "\"" + LettersText(sp.members[i].key, afterKey) && afterKey == sp.members[i].between + (":" + s1)
    requires s1 == blank + Written(sp.members[i].item.spelling, more) && more == AfterMember(sp, i, rest)
    ensures sp.members[i].before + s == MembersText(sp, i, rest)
  {
    hide Written, LettersText;
  }

  lemma {:induction false} MembersSpelled(b: bool, s: string, depth: nat, ms: seq<Member>, lead: string) returns (sp: Spelling)
    requires Blanks(lead) && MembersOk(ms) && ReadMembers(b, s, depth, Entries(ms)).Ok?
    ensures var (v, rest) := ReadMembers(b, s, depth, Entries(ms)).value;
            && sp.Braces? && Proper(sp) && Said(sp) == v && ms < sp.members
            && lead + s == MembersText(sp, |ms|, rest)
    decreases |s|, 1
  {
    hide Chars, Skip, Written, Said, Entries, MembersText, Proper, MembersOk, Meanings, LettersOk, LettersText, HasKey;
    var (key, afterKey) := Chars(s[1..], "").value;
    var ls := LettersSpelled(s[1..], "");
    assert s == "\"" + s[1..] && "" + Meanings(ls) == Meanings(ls);
    var between := SkipSplits(afterKey);
    var colon := Skip(afterKey);
    assert colon == ":" + colon[1..];
    var (x, more) := ReadValue(b, colon[1..], depth).value;
    var rest := ReadMembers(b, s, depth, Entries(ms)).value.1;
    var blank, inner := ReadIsSpelled(b, colon[1..], depth);
    var after := SkipSplits(more);
    var t := Skip(more);
    var next := Member(lead, ls, between, Item(blank, inner, after));
    var all := ms + [next];
    hide ReadValue;
    OneMoreMember(ms, next);
    if At(t, '}') {
      sp := Braces("", all);
      BracesOf(all);
      assert t == "}" + rest;
    } else {
      var gap := SkipSplits(t[1..]);
      sp := MembersSpelled(b, Skip(t[1..]), depth, all, gap);
      assert t == "," + MembersText(sp, |all|, rest);
      assert sp.members[|ms|] == all[|ms|];
    }
    MembersTextIs(sp, |ms|, s, afterKey, colon[1..], blank, more, rest);
  }

  // ----- main results -----

  /** Text is read as a value exactly when it spells that value, nested no deeper than the parser goes. */
  lemma ReadIffSpelled(s: string, v: Value)
    ensures Read(s) == Ok(v) <==> Spells(s, v) && Fits(true, v, 0)
  {
    if Read(s) == Ok(v) {
      ReadIsSound(s, 0);
      hide ReadValue, Written, Said, Proper, Fits;
      var blank, sp := ReadIsSpelled(true, s, 0);
      var after := SkipSplits(ReadValue(true, s, 0).value.1);
      assert after + "" == after;
      assert SpelledBy(s, v, blank, sp, after);
    }
    if Spells(s, v) && Fits(true, v, 0) {
      var before, sp, after :| SpelledBy(s, v, before, sp, after);
      SpellingRead(s, v, before, sp, after);
    }
  }

  /** A text that spells a value is read as it, or refused for its depth alone. */
  lemma SpellingRead(s: string, v: Value, before: string, sp: Spelling, after: string)
    requires SpelledBy(s, v, before, sp, after)
    ensures Read(s) == if Fits(true, v, 0) then Ok(v) else Err(TooDeep)
  {
    assert after + "" == after;
    EndsAfter(after, "");
    SkipBlanks(after, "");
    SpelledReads(true, sp, 0, after);
    hide ReadValue, Written, Said, Proper, Fits;
    SkipBlanks(before, Written(sp, after));
    ReadSkips(true, s, Written(sp, after), 0);
  }

  /** What either printer writes spells the value, however deep it is. */
  lemma PrintedSpells(v: Value, pretty: bool)
    requires Writable(v) && Unique(v)
    ensures Spells(Print(v, 0, pretty), v)
  {
    var s := Print(v, 0, pretty);
    ReadsBack(false, v, 0, 0, pretty, "");
    NoLimit(v, 0);
    hide ReadValue, Written, Said, Proper, Fits, Print;
    assert s + "" == s;
    var blank, sp := ReadIsSpelled(false, s, 0);
    assert SpelledBy(s, v, blank, sp, "");
  }

  /** A text spells one value at most. */
  lemma SpellsOne(s: string, v: Value, w: Value)
    requires Spells(s, v) && Spells(s, w)
    ensures v == w
  {
    hide ReadValue, Written, Said, Proper, Fits;
    var before, sp, after :| SpelledBy(s, v, before, sp, after);
    var before1, sp1, after1 :| SpelledBy(s, w, before1, sp1, after1);
    ReadsUnlimited(s, v, before, sp, after);
    ReadsUnlimited(s, w, before1, sp1, after1);
  }

  lemma ReadsUnlimited(s: string, v: Value, before: string, sp: Spelling, after: string)
    requires SpelledBy(s, v, before, sp, after)
    ensures ReadValue(false, s, 0) == Ok((v, after))
  {
    assert after + "" == after;
    EndsAfter(after, "");
    SpelledReads(false, sp, 0, after);
    NoLimit(v, 0);
    hide ReadValue, Written, Said, Proper, Fits;
    SkipBlanks(before, Written(sp, after));
    ReadSkips(false, s, Written(sp, after), 0);
  }
}
