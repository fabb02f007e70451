/** What texts are read at all: the grammar of RFC 8259, and that reading accepts
    exactly its texts and gives their values. */
module JsonGrammar {
  import opened Bytes
  import opened Options
  import opened Utf8
  import opened Hexadecimal
  import opened Json
  import opened JsonObjects
  import opened JsonForms

  // ---- the grammar -----------------------------------------------------------------

  /** How a value is written, with the white space inside it. */
  datatype Tree =
    | Word(value: Value) | Numeric(text: Text) | Quoted(text: Text)
    | List(items: seq<Slot>, blank: Text) | Table(pairs: seq<Entry>, blank: Text)

  datatype Slot = Slot(before: Text, tree: Tree, after: Text)

  datatype Entry = Entry(before: Text, key: Text, middle: Text, slot: Slot)

  function Source(t: Tree): Text
    decreases t
  {
    match t
    case Word(v) => if v.Null? then Ascii("null") else if v == Bool(true) then Ascii("true") else Ascii("false")
    case Numeric(text) => text
    case Quoted(text) => Ascii("\"") + text + Ascii("\"")
    case List(items, blank) => Ascii("[") + (if items == [] then blank else ItemsSource(items)) + Ascii("]")
    case Table(pairs, blank) => Ascii("{") + (if pairs == [] then blank else PairsSource(pairs)) + Ascii("}")
  }

  function SlotSource(x: Slot): Text
    decreases x
  {
    x.before + Source(x.tree) + x.after
  }

  function ItemsSource(items: seq<Slot>): Text
    requires items != []
    decreases items
  {
    SlotSource(items[0]) + if |items| == 1 then [] else Ascii(",") + ItemsSource(items[1..])
  }

  function PairSource(p: Entry): Text
    decreases p
  {
    p.before + Ascii("\"") + p.key + Ascii("\"") + p.middle + Ascii(":") + SlotSource(p.slot)
  }

  function PairsSource(pairs: seq<Entry>): Text
    requires pairs != []
    decreases pairs
  {
    PairSource(pairs[0]) + if |pairs| == 1 then [] else Ascii(",") + PairsSource(pairs[1..])
  }

  predicate White(s: Text) {
    forall i | 0 <= i < |s| :: s[i] in {0x20, 0x09, 0x0A, 0x0D}
  }

  /** The characters that stand between two quotes, if they may stand there. */
  function Unquoted(s: Text): Option<Text>
    decreases |s|
  {
    if s == [] then Some([])
    else if s[0] < 0x20 || s[0] == 0x22 then None
    else if s[0] != 0x5C then Prepend([s[0]], Unquoted(s[1..]))
    else if |s| == 1 then None
    else if s[1] == 0x75 then
      var u := CodePoint(s[2..]);
      if u.Failed? then None else Prepend(u.value, Unquoted(u.rest))
    else if Unescaped(s[1]).None? then None
    else Prepend([Unescaped(s[1]).value], Unquoted(s[2..]))
  }

  function Prepend(a: Text, b: Option<Text>): Option<Text> {
    if b.Some? then Some(a + b.value) else None
  }

  predicate Proper(t: Tree)
    decreases t
  {
    match t
    case Word(v) => v.Null? || v.Bool?
    case Numeric(text) =>
      && text != [] && (IsDigit(text[0]) || text[0] == 0x2D) && (forall i | 0 <= i < |text| :: InNumber(text[i]))
      && NumberOf(text).Some?
    case Quoted(text) => Unquoted(text).Some?
    case List(items, blank) => White(blank) && forall x | x in items :: White(x.before) && White(x.after) && Proper(x.tree)
    case Table(pairs, blank) =>
      && White(blank)
      && forall p | p in pairs :: Spaced(p) && Unquoted(p.key).Some? && Proper(p.slot.tree)
  }

  predicate Spaced(p: Entry) {
    White(p.before) && White(p.middle) && White(p.slot.before) && White(p.slot.after)
  }

  function Meaning(t: Tree): Value
    requires Proper(t)
    decreases t
  {
    match t
    case Word(v) => v
    case Numeric(text) => NumberOf(text).value
    case Quoted(text) => String(Unquoted(text).value)
    case List(items, _) => Array(Meanings(items))
    case Table(pairs, _) => Object(Entered(pairs, []))
  }

  function Meanings(items: seq<Slot>): seq<Value>
    requires forall x | x in items :: Proper(x.tree)
    decreases items
  {
    if items == [] then [] else [Meaning(items[0].tree)] + Meanings(items[1..])
  }

  /** The members, each entered into those before it. */
  function Entered(pairs: seq<Entry>, members: seq<Member>): seq<Member>
    requires forall p | p in pairs :: Unquoted(p.key).Some? && Proper(p.slot.tree)
    decreases pairs
  {
    if pairs == [] then members
    else Entered(pairs[1..], Insert(members, Member(Unquoted(pairs[0].key).value, Meaning(pairs[0].slot.tree))))
  }

  // ---- white space and punctuation --------------------------------------------------

  /** Does a text not start with white space? */
  predicate Solid(s: Text) {
    s == [] || !IsSpace(s[0])
  }

  /** Only what follows the white space matters. */
  lemma ValueSkips(a: Text, b: Text)
    requires SkipSpace(a) == SkipSpace(b)
    ensures ValueFrom(a) == ValueFrom(b)
  {
  }

  /** What is next can be taken, and nothing else. */
  lemma ExpectedNext(c: byte, rest: Text)
    requires !IsSpace(c)
    ensures Solid([c] + rest) && forall x: byte :: Expected([c] + rest, x) == if x == c then (true, rest) else (false, [c] + rest)
  {
    assert ([c] + rest)[1..] == rest;
  }

  lemma NotWord(s: Text)
    requires s != [] && s[0] != NULL[0] && s[0] != TRUE[0] && s[0] != FALSE[0]
    ensures !StartsWith(s, NULL) && !StartsWith(s, TRUE) && !StartsWith(s, FALSE)
  {
  }

  lemma ArrayFrom(s: Text)
    requires s != [] && s[0] == OPEN_ARRAY
    ensures ValueFrom(s) == var (empty, u) := Expected(s[1..], CLOSE_ARRAY); if empty then Read(Array([]), u) else ItemsFrom(u, [])
  {
    hide ItemsFrom, MembersFrom, StringFrom, NumberFrom, NumberOf, StartsWith;
    NotWord(s);
    assert SkipSpace(s) == s;
  }

  lemma ObjectFrom(s: Text)
    requires s != [] && s[0] == OPEN_OBJECT
    ensures ValueFrom(s) == var (empty, u) := Expected(s[1..], CLOSE_OBJECT); if empty then Read(Object([]), u) else MembersFrom(u, [])
  {
    hide ItemsFrom, MembersFrom, StringFrom, NumberFrom, NumberOf, StartsWith;
    NotWord(s);
    assert SkipSpace(s) == s;
  }

  /** One item has been read. */
  lemma OneItem(s: Text, before: seq<Value>, item: Value, tail: Text)
    requires ValueFrom(s) == Read(item, tail)
    ensures var (more, t) := Expected(tail, COMMA);
            ItemsFrom(s, before) ==
              if more then ItemsFrom(t, before + [item])
              else var (end, u) := Expected(t, CLOSE_ARRAY); if end then Read(Array(before + [item]), u) else Failed
  {
    hide ValueFrom, Expected;
  }

  lemma {:induction false} SkipWhite(ws: Text, s: Text)
    requires White(ws) && Solid(s)
    ensures SkipSpace(ws + s) == s
  {
    if ws == [] {
      assert ws + s == s;
    } else {
      assert (ws + s)[1..] == ws[1..] + s;
      SkipWhite(ws[1..], s);
    }
  }

  lemma {:induction false} WhiteSkipped(s: Text) returns (ws: Text)
    ensures White(ws) && s == ws + SkipSpace(s)
  {
    ws := [];
    if s != [] && IsSpace(s[0]) {
      ws := WhiteSkipped(s[1..]);
      ws := [s[0]] + ws;
    }
  }

  /** Behind white space a character is taken if it is the one, and otherwise the
      text goes on with it. */
  lemma ExpectedBehind(ws: Text, c: byte, rest: Text)
    requires White(ws) && !IsSpace(c)
    ensures forall x: byte :: Expected(ws + ([c] + rest), x) == if x == c then (true, rest) else (false, [c] + rest)
  {
    SkipWhite(ws, [c] + rest);
    assert ([c] + rest)[1..] == rest;
  }

  lemma ExpectedTaken(s: Text, c: byte) returns (ws: Text)
    ensures White(ws) && s == ws + SkipSpace(s)
    ensures Expected(s, c).0 ==> s == ws + ([c] + Expected(s, c).1)
    ensures !Expected(s, c).0 ==> Expected(s, c).1 == SkipSpace(s) && s == ws + Expected(s, c).1
  {
    ws := WhiteSkipped(s);
  }

  // ---- strings -------------------------------------------------------------------------

  lemma {:induction false} HexFront(x: Text, more: Text, n: nat, before: nat)
    requires n <= |x|
    ensures Hex(x + more, n, before) == if Hex(x, n, before).Failed? then Failed else Read(Hex(x, n, before).value, Hex(x, n, before).rest + more)
  {
    hide HexValue;
    if n > 0 {
      assert (x + more)[0] == x[0] && (x + more)[1..] == x[1..] + more;
      if HexValue(x[0]).Some? {
        HexFront(x[1..], more, n - 1, before * 16 + HexValue(x[0]).value);
      }
    }
  }

  /** What an escape denotes does not depend on what follows it. */
  lemma CodePointFront(x: Text, more: Text)
    requires CodePoint(x).Read?
    ensures CodePoint(x + more) == Read(CodePoint(x).value, CodePoint(x).rest + more)
  {
    hide Hex, Encode;
    HexLong(x);
    HexFront(x, more, 4, 0);
    var r := Hex(x, 4, 0).rest;
    if 0xD800 <= Hex(x, 4, 0).value <= 0xDFFF {
      assert (r + more)[2..] == r[2..] + more;
      HexLong(r[2..]);
      HexFront(r[2..], more, 4, 0);
    }
  }

  lemma HexLong(x: Text)
    requires Hex(x, 4, 0).Read?
    ensures |x| >= 4
  {
  }

  lemma StringEnds(rest: Text, before: Text)
    ensures StringFrom([QUOTE] + rest, before) == Read(before, rest)
  {
  }

  /** The characters of a string are read up to the quote. */
  lemma {:induction false} StringReads(text: Text, rest: Text, before: Text)
    requires Unquoted(text).Some?
    ensures StringFrom(text + ([QUOTE] + rest), before) == Read(before + Unquoted(text).value, rest)
    decreases |text|
  {
    hide CodePoint, Unescaped;
    var s, more := text + ([QUOTE] + rest), [QUOTE] + rest;
    if text == [] {
      assert s == [QUOTE] + rest;
      StringEnds(rest, before);
      assert before + [] == before;
    } else if text[0] != BACKSLASH {
      assert s[0] == text[0] && s[1..] == text[1..] + more;
      StringReads(text[1..], rest, before + [text[0]]);
      assert before + [text[0]] + Unquoted(text[1..]).value == before + ([text[0]] + Unquoted(text[1..]).value);
    } else if text[1] == 0x75 {
      var u := CodePoint(text[2..]);
      assert s[0] == text[0] && s[1] == text[1] && s[2..] == text[2..] + more;
      CodePointFront(text[2..], more);
      StringReads(u.rest, rest, before + u.value);
      assert before + u.value + Unquoted(u.rest).value == before + (u.value + Unquoted(u.rest).value);
    } else {
      assert s[0] == text[0] && s[1] == text[1] && s[2..] == text[2..] + more;
      var c := [Unescaped(text[1]).value];
      StringReads(text[2..], rest, before + c);
      assert before + c + Unquoted(text[2..]).value == before + (c + Unquoted(text[2..]).value);
    }
  }

  lemma {:induction false} HexTaken(s: Text, n: nat, before: nat) returns (x: Text)
    requires Hex(s, n, before).Read?
    ensures |x| == n && s == x + Hex(s, n, before).rest && Hex(x, n, before) == Read(Hex(s, n, before).value, [])
  {
    hide HexValue;
    x := [];
    if n > 0 {
      x := HexTaken(s[1..], n - 1, before * 16 + HexValue(s[0]).value);
      x := [s[0]] + x;
      assert x[1..] + [] == x[1..];
    }
  }

  lemma CodePointTaken(s: Text) returns (x: Text)
    requires CodePoint(s).Read?
    ensures s == x + CodePoint(s).rest && CodePoint(x) == Read(CodePoint(s).value, [])
  {
    hide Hex, Encode;
    x := HexTaken(s, 4, 0);
    var r := Hex(s, 4, 0).rest;
    if 0xD800 <= Hex(s, 4, 0).value <= 0xDFFF {
      var y := HexTaken(r[2..], 4, 0);
      var more := [BACKSLASH, 0x75] + y;
      assert r == more + Hex(r[2..], 4, 0).rest;
      HexFront(x, more, 4, 0);
      assert [] + more == more && more[2..] == y;
      x := x + more;
    }
  }

  /** What is read as a string up to a quote is the characters before it. */
  lemma {:induction false} StringTaken(s: Text, before: Text) returns (text: Text)
    requires StringFrom(s, before).Read?
    ensures var r := StringFrom(s, before);
            s == text + ([QUOTE] + r.rest) && Unquoted(text).Some? && r.value == before + Unquoted(text).value
    decreases |s|
  {
    hide CodePoint, Unescaped;
    var r := StringFrom(s, before);
    text := [];
    if s[0] == QUOTE {
      assert s == [] + ([QUOTE] + r.rest) && before + [] == before;
    } else if s[0] != BACKSLASH {
      text := StringTaken(s[1..], before + [s[0]]);
      Longer(s[0], text, before);
      text := [s[0]] + text;
    } else if s[1] == 0x75 {
      var u := CodePoint(s[2..]);
      var x := CodePointTaken(s[2..]);
      text := StringTaken(u.rest, before + u.value);
      CodePointLonger(x, u.value, text, before);
      assert s == [BACKSLASH, 0x75] + (x + u.rest);
      text := [BACKSLASH, 0x75] + (x + text);
    } else {
      text := StringTaken(s[2..], before + [Unescaped(s[1]).value]);
      EscapeLonger(s[1], text, before);
      assert s == [BACKSLASH, s[1]] + s[2..];
      text := [BACKSLASH, s[1]] + text;
    }
  }

  lemma CodePointLonger(x: Text, v: Text, text: Text, before: Text)
    requires CodePoint(x) == Read(v, []) && Unquoted(text).Some?
    ensures var whole := [BACKSLASH, 0x75] + (x + text);
            Unquoted(whole).Some? && before + v + Unquoted(text).value == before + Unquoted(whole).value
  {
    hide CodePoint, Unquoted;
    var whole := [BACKSLASH, 0x75] + (x + text);
    CodePointFront(x, text);
    assert [] + text == text && whole[2..] == x + text;
    CodePointUnquoted(whole);
    Joins(before, v, Unquoted(text).value);
  }

  lemma CodePointUnquoted(s: Text)
    requires |s| >= 2 && s[0] == BACKSLASH && s[1] == 0x75 && CodePoint(s[2..]).Read?
    ensures Unquoted(s) == Prepend(CodePoint(s[2..]).value, Unquoted(CodePoint(s[2..]).rest))
  {
    hide CodePoint;
  }

  lemma Joins(a: Text, b: Text, c: Text)
    ensures a + b + c == a + (b + c)
  {
  }

  lemma EscapeLonger(c: byte, text: Text, before: Text)
    requires Unescaped(c).Some? && c != 0x75 && Unquoted(text).Some?
    ensures var whole := [BACKSLASH, c] + text;
            Unquoted(whole).Some? && before + [Unescaped(c).value] + Unquoted(text).value == before + Unquoted(whole).value
  {
    hide Unescaped;
    var whole := [BACKSLASH, c] + text;
    assert whole[2..] == text;
    assert Unquoted(whole) == Prepend([Unescaped(c).value], Unquoted(text));
  }

  lemma Longer(c: byte, text: Text, before: Text)
    requires c >= 0x20 && c != QUOTE && c != BACKSLASH && Unquoted(text).Some?
    ensures Unquoted([c] + text).Some? && before + [c] + Unquoted(text).value == before + Unquoted([c] + text).value
  {
    assert ([c] + text)[1..] == text;
  }

  // ---- Unicode escapes -------------------------------------------------------------

  /** The 16-bit unit that four hexadecimal digits denote. */
  function Unit(s: Text): Option<nat> {
    if |s| < 4 || exists i | 0 <= i < 4 :: HexValue(s[i]).None? then None
    else Some(HexValue(s[0]).value * 0x1000 + HexValue(s[1]).value * 0x100 + HexValue(s[2]).value * 0x10 + HexValue(s[3]).value)
  }

  lemma HexIsUnit(s: Text)
    ensures Hex(s, 4, 0) == if Unit(s).Some? then Read(Unit(s).value, s[4..]) else Failed
  {
    hide HexValue;
    if |s| >= 4 {
      assert s[1..][1..] == s[2..] && s[2..][1..] == s[3..] && s[3..][1..] == s[4..];
      HexStep(s, 4, 0);
      if HexValue(s[0]).Some? {
        var a := HexValue(s[0]).value;
        HexStep(s[1..], 3, a);
        if HexValue(s[1]).Some? {
          var b := a * 16 + HexValue(s[1]).value;
          HexStep(s[2..], 2, b);
          if HexValue(s[2]).Some? {
            HexStep(s[3..], 1, b * 16 + HexValue(s[2]).value);
          }
        }
      }
    } else {
      HexShort(s, 4, 0);
    }
  }

  predicate High(u: Option<nat>) {
    u.Some? && 0xD800 <= u.value < 0xDC00
  }

  predicate Low(u: Option<nat>) {
    u.Some? && 0xDC00 <= u.value < 0xE000
  }

  /** Sections 7 of RFC 8259 and 3 of RFC 3629: an escape is accepted exactly if
      it is a unit that is no surrogate, or a whole surrogate pair, and gives the
      UTF-8 of the code point it denotes. */
  lemma EscapeMeans(s: Text)
    ensures var u := Unit(s);
            var paired := High(u) && |s| >= 6 && s[4] == BACKSLASH && s[5] == 0x75 && Low(Unit(s[6..]));
            && (CodePoint(s).Read? <==> u.Some? && (paired || (!High(u) && !Low(u))))
            && (CodePoint(s).Read? ==>
                  && CodePoint(s).rest == s[if paired then 10 else 4..]
                  && Decode(CodePoint(s).value)
                  == Some(if paired then 0x1_0000 + (u.value - 0xD800) * 0x400 + (Unit(s[6..]).value - 0xDC00) else u.value))
  {
    hide Hex, Decode, Encode, Unit;
    HexIsUnit(s);
    if Unit(s).Some? {
      var u := Unit(s).value;
      UnitBound(s);
      if !High(Unit(s)) && !Low(Unit(s)) {
        EncodeDecodes(u, Encode(u));
      } else if |s| >= 6 {
        HexIsUnit(s[6..]);
        if High(Unit(s)) && Low(Unit(s[6..])) {
          UnitBound(s[6..]);
          var pair := Pair(u, Unit(s[6..]).value);
          EncodeDecodes(pair, Encode(pair));
        }
      }
    }
  }

  lemma UnitBound(s: Text)
    requires Unit(s).Some?
    ensures |s| >= 4 && Unit(s).value < 0x1_0000
  {
  }

  // ---- values: every text of the grammar is read ----------------------------------------

  /** Can no number go on here? */
  predicate Ends(s: Text) {
    s == [] || !InNumber(s[0])
  }

  lemma {:induction false} NumberRead(d: Text, rest: Text, before: Text)
    requires Ends(rest) && forall i | 0 <= i < |d| :: InNumber(d[i])
    ensures NumberFrom(d + rest, before) == (before + d, rest)
  {
    if d == [] {
      assert d + rest == rest && before + d == before;
    } else {
      assert (d + rest)[1..] == d[1..] + rest;
      NumberRead(d[1..], rest, before + [d[0]]);
      assert before + [d[0]] + d[1..] == before + d;
    }
  }

  /** How a value may start. */
  lemma SourceStarts(t: Tree)
    requires Proper(t)
    ensures var s := Source(t); s != [] && !IsSpace(s[0]) && s[0] != CLOSE_ARRAY && s[0] != CLOSE_OBJECT && s[0] != COMMA
  {
    hide PairsSource, ItemsSource;
  }

  lemma {:induction false} ValueReads(ws: Text, t: Tree, rest: Text)
    requires White(ws) && Proper(t) && (t.Numeric? ==> Ends(rest))
    ensures ValueFrom(ws + (Source(t) + rest)) == Read(Meaning(t), rest)
    decreases t, 1
  {
    hide ValueFrom, Source, Meaning, InNumber, SkipSpace, Proper;
    SourceStarts(t);
    SkipWhite(ws, Source(t) + rest);
    SkipWhite([], Source(t) + rest);
    assert [] + (Source(t) + rest) == Source(t) + rest;
    ValueSkips(ws + (Source(t) + rest), Source(t) + rest);
    match t
    case Word(v) => WordReads(t, rest);
    case Numeric(_) => NumberReads(t, rest);
    case Quoted(_) => QuotedReads(t, rest);
    case List(_, _) => ListReads(t, rest);
    case Table(_, _) => TableReads(t, rest);
  }

  lemma WordReads(t: Tree, rest: Text)
    requires t.Word? && Proper(t)
    ensures ValueFrom(Source(t) + rest) == Read(Meaning(t), rest)
  {
    hide ItemsFrom, MembersFrom, StringFrom, NumberFrom, NumberOf;
    Words();
    var d := Source(t);
    var s := d + rest;
    assert s[0] == d[0] && SkipSpace(s) == s;
    assert s[..|d|] == d && s[|d|..] == rest;
    FirstOf(s, NULL);
    FirstOf(s, FALSE);
  }

  lemma Words()
    ensures Ascii("null") == NULL && Ascii("true") == TRUE && Ascii("false") == FALSE
  {
  }

  lemma FirstOf(s: Text, p: Text)
    requires p != []
    ensures StartsWith(s, p) ==> s != [] && s[0] == p[0]
  {
  }

  lemma NumberReads(t: Tree, rest: Text)
    requires t.Numeric? && Proper(t) && Ends(rest)
    ensures ValueFrom(Source(t) + rest) == Read(Meaning(t), rest)
  {
    hide NumberOf, NumberFrom, ItemsFrom, MembersFrom, StringFrom, InNumber;
    var d, s := t.text, t.text + rest;
    assert s[0] == d[0] && SkipSpace(s) == s;
    NotWord(s);
    assert s[1..] == d[1..] + rest;
    NumberRead(d[1..], rest, [d[0]]);
    assert [d[0]] + d[1..] == d;
  }

  lemma QuotedReads(t: Tree, rest: Text)
    requires t.Quoted? && Proper(t)
    ensures ValueFrom(Source(t) + rest) == Read(Meaning(t), rest)
  {
    hide ItemsFrom, MembersFrom, StringFrom, NumberFrom, NumberOf, Unquoted;
    var s := Source(t) + rest;
    assert s[0] == QUOTE && SkipSpace(s) == s;
    NotWord(s);
    assert s[1..] == t.text + ([QUOTE] + rest);
    StringReads(t.text, rest, []);
    assert [] + Unquoted(t.text).value == Unquoted(t.text).value;
  }

  lemma WhiteEnds(ws: Text, c: byte, rest: Text)
    requires White(ws) && !InNumber(c)
    ensures Ends(ws + ([c] + rest))
  {
  }

  lemma {:induction false} SkipTwice(s: Text)
    ensures SkipSpace(SkipSpace(s)) == SkipSpace(s)
  {
    if s != [] && IsSpace(s[0]) {
      SkipTwice(s[1..]);
    }
  }

  // ---- arrays ------------------------------------------------------------------------------

  /** What follows the first item. */
  function ItemsTail(items: seq<Slot>, rest: Text): Text
    requires items != []
  {
    items[0].after + if |items| == 1 then [CLOSE_ARRAY] + rest else [COMMA] + (ItemsSource(items[1..]) + ([CLOSE_ARRAY] + rest))
  }

  lemma ItemsFirst(items: seq<Slot>, rest: Text)
    requires items != []
    ensures ItemsSource(items) + ([CLOSE_ARRAY] + rest) == items[0].before + (Source(items[0].tree) + ItemsTail(items, rest))
  {
    hide Source;
    Punctuation();
    assert ItemsSource(items) == SlotSource(items[0]) + if |items| == 1 then [] else Ascii(",") + ItemsSource(items[1..]);
    hide ItemsSource;
  }

  lemma ItemsSkip(a: Text, b: Text, before: seq<Value>)
    requires SkipSpace(a) == SkipSpace(b)
    ensures ItemsFrom(a, before) == ItemsFrom(b, before)
  {
    hide ValueFrom, Expected, SkipSpace;
    ValueSkips(a, b);
  }

  lemma {:induction false} ItemsReads(items: seq<Slot>, rest: Text, before: seq<Value>)
    requires items != [] && forall x | x in items :: White(x.before) && White(x.after) && Proper(x.tree)
    ensures ItemsFrom(ItemsSource(items) + ([CLOSE_ARRAY] + rest), before) == Read(Array(before + Meanings(items)), rest)
    decreases items, 0
  {
    hide ItemsFrom, ValueFrom, Expected, Source, ItemsSource, Meaning, InNumber, Proper, White;
    var x, tail, v := items[0], ItemsTail(items, rest), Meaning(items[0].tree);
    var last := |items| == 1;
    var next := if last then rest else ItemsSource(items[1..]) + ([CLOSE_ARRAY] + rest);
    var s := ItemsSource(items) + ([CLOSE_ARRAY] + rest);
    ItemsFirst(items, rest);
    NotInNumber();
    WhiteEnds(x.after, if last then CLOSE_ARRAY else COMMA, next);
    ValueReads(x.before, x.tree, tail);
    OneItem(s, before, v, tail);
    ExpectedBehind(x.after, if last then CLOSE_ARRAY else COMMA, next);
    if last {
      ExpectedNext(CLOSE_ARRAY, rest);
      NoMeanings();
      assert items[1..] == [] && [v] + Meanings([]) == [v];
    } else {
      ItemsReads(items[1..], rest, before + [v]);
      assert before + [v] + Meanings(items[1..]) == before + ([v] + Meanings(items[1..]));
    }
  }

  lemma NotInNumber()
    ensures !InNumber(CLOSE_ARRAY) && !InNumber(CLOSE_OBJECT) && !InNumber(COMMA)
  {
  }

  lemma ListSource(t: Tree, rest: Text)
    requires t.List?
    ensures var s := Source(t) + rest;
            && s != [] && s[0] == OPEN_ARRAY
            && s[1..] == if t.items == [] then t.blank + ([CLOSE_ARRAY] + rest) else ItemsSource(t.items) + ([CLOSE_ARRAY] + rest)
  {
    hide ItemsSource;
    Punctuation();
  }

  /** Where items begin there is no bracket. */
  lemma ItemsOpen(items: seq<Slot>, rest: Text)
    requires items != [] && White(items[0].before) && Proper(items[0].tree)
    ensures var s := ItemsSource(items) + ([CLOSE_ARRAY] + rest); Expected(s, CLOSE_ARRAY) == (false, SkipSpace(s))
  {
    hide ItemsSource, Source, Proper, White, ItemsTail, SkipSpace;
    var u := Source(items[0].tree) + ItemsTail(items, rest);
    SourceStarts(items[0].tree);
    ItemsFirst(items, rest);
    SkipWhite(items[0].before, u);
  }

  lemma {:induction false} ListReads(t: Tree, rest: Text)
    requires t.List? && Proper(t)
    ensures ValueFrom(Source(t) + rest) == Read(Meaning(t), rest)
    decreases t, 0
  {
    hide ItemsFrom, SkipSpace, Expected, ValueFrom, Source, ItemsSource, Meanings;
    var items := t.items;
    ListSource(t, rest);
    ArrayFrom(Source(t) + rest);
    if items == [] {
      ExpectedBehind(t.blank, CLOSE_ARRAY, rest);
      NoMeanings();
    } else {
      var s := ItemsSource(items) + ([CLOSE_ARRAY] + rest);
      ItemsOpen(items, rest);
      SkipTwice(s);
      ItemsSkip(SkipSpace(s), s, []);
      ItemsReads(items, rest, []);
      assert [] + Meanings(items) == Meanings(items);
    }
  }

  lemma NoMeanings()
    ensures Meanings([]) == []
  {
  }

  // ---- objects -----------------------------------------------------------------------------

  /** What follows the first member. */
  function PairsTail(pairs: seq<Entry>, rest: Text): Text
    requires pairs != []
  {
    pairs[0].slot.after + if |pairs| == 1 then [CLOSE_OBJECT] + rest else [COMMA] + (PairsSource(pairs[1..]) + ([CLOSE_OBJECT] + rest))
  }

  /** What follows the first key and its colon. */
  function ValueTail(pairs: seq<Entry>, rest: Text): Text
    requires pairs != []
  {
    pairs[0].slot.before + (Source(pairs[0].slot.tree) + PairsTail(pairs, rest))
  }

  lemma Flat(a: Text, b: Text, c: Text, d: Text, e: Text, f: Text, g: Text, h: Text)
    ensures a + b + c + d + e + f + g + h == a + (b + (c + (d + (e + (f + (g + h))))))
  {
  }

  lemma SlotFlat(x: Slot, rest: Text)
    ensures SlotSource(x) + rest == x.before + (Source(x.tree) + (x.after + rest))
  {
    hide Source;
  }

  lemma PairsFirst(pairs: seq<Entry>, rest: Text)
    requires pairs != []
    ensures PairsSource(pairs) + ([CLOSE_OBJECT] + rest)
         == pairs[0].before + ([QUOTE] + (pairs[0].key + ([QUOTE] + (pairs[0].middle + ([COLON] + ValueTail(pairs, rest))))))
  {
    hide PairsSource, PairSource, SlotSource, Source;
    var p, end := pairs[0], [CLOSE_OBJECT] + rest;
    var after := if |pairs| == 1 then end else [COMMA] + (PairsSource(pairs[1..]) + end);
    PairsMore(pairs, end);
    PairFlat(p, after);
    SlotFlat(p.slot, after);
  }

  lemma PairsMore(pairs: seq<Entry>, end: Text)
    requires pairs != []
    ensures PairsSource(pairs) + end == PairSource(pairs[0]) + if |pairs| == 1 then end else [COMMA] + (PairsSource(pairs[1..]) + end)
  {
    hide PairSource;
    Marks();
  }

  lemma PairFlat(p: Entry, rest: Text)
    ensures PairSource(p) + rest
         == p.before + ([QUOTE] + (p.key + ([QUOTE] + (p.middle + ([COLON] + (SlotSource(p.slot) + rest))))))
  {
    hide SlotSource;
    Marks();
    Flat(p.before, [QUOTE], p.key, [QUOTE], p.middle, [COLON], SlotSource(p.slot), rest);
  }

  lemma Marks()
    ensures Ascii("\"") == [QUOTE] && Ascii(",") == [COMMA] && Ascii(":") == [COLON]
  {
  }

  lemma MembersSkip(a: Text, b: Text, before: seq<Member>)
    requires SkipSpace(a) == SkipSpace(b)
    ensures MembersFrom(a, before) == MembersFrom(b, before)
  {
    hide ValueFrom, SkipSpace, StringFrom;
  }

  /** The first key and its colon have been read. */
  lemma KeyReads(pairs: seq<Entry>, rest: Text)
    requires pairs != [] && White(pairs[0].before) && White(pairs[0].middle) && Unquoted(pairs[0].key).Some?
    ensures KeyFrom(PairsSource(pairs) + ([CLOSE_OBJECT] + rest)) == Read(Unquoted(pairs[0].key).value, ValueTail(pairs, rest))
  {
    hide PairsSource, ValueTail, StringFrom, Unquoted, Expected, White;
    var p, v := pairs[0], Unquoted(pairs[0].key).value;
    var colon := p.middle + ([COLON] + ValueTail(pairs, rest));
    PairsFirst(pairs, rest);
    ExpectedBehind(p.before, QUOTE, p.key + ([QUOTE] + colon));
    StringReads(p.key, colon, []);
    assert [] + v == v;
    ExpectedBehind(p.middle, COLON, ValueTail(pairs, rest));
  }

  /** One member has been read. */
  lemma OneMember(s: Text, before: seq<Member>, m: Member, t: Text, tail: Text)
    requires KeyFrom(s) == Read(m.key, t) && ValueFrom(t) == Read(m.value, tail)
    ensures var (more, t) := Expected(tail, COMMA);
            MembersFrom(s, before) ==
              if more then MembersFrom(t, Insert(before, m))
              else var (end, u) := Expected(t, CLOSE_OBJECT); if end then Read(Object(Insert(before, m)), u) else Failed
  {
    hide KeyFrom, ValueFrom, Expected, Insert;
  }

  lemma {:induction false} PairsReads(pairs: seq<Entry>, rest: Text, before: seq<Member>)
    requires pairs != [] && forall p | p in pairs :: Spaced(p) && Unquoted(p.key).Some? && Proper(p.slot.tree)
    ensures MembersFrom(PairsSource(pairs) + ([CLOSE_OBJECT] + rest), before) == Read(Object(Entered(pairs, before)), rest)
    decreases pairs, 0
  {
    hide MembersFrom, ValueFrom, KeyFrom, Expected, Source, PairsSource, Meaning, InNumber, Proper, White, Unquoted, Insert;
    var x, tail := pairs[0].slot, PairsTail(pairs, rest);
    var m := Member(Unquoted(pairs[0].key).value, Meaning(x.tree));
    var last := |pairs| == 1;
    var next := if last then rest else PairsSource(pairs[1..]) + ([CLOSE_OBJECT] + rest);
    NotInNumber();
    WhiteEnds(x.after, if last then CLOSE_OBJECT else COMMA, next);
    KeyReads(pairs, rest);
    ValueReads(x.before, x.tree, tail);
    OneMember(PairsSource(pairs) + ([CLOSE_OBJECT] + rest), before, m, ValueTail(pairs, rest), tail);
    ExpectedBehind(x.after, if last then CLOSE_OBJECT else COMMA, next);
    if last {
      ExpectedNext(CLOSE_OBJECT, rest);
      NoneEntered(Insert(before, m));
      assert pairs[1..] == [];
    } else {
      PairsReads(pairs[1..], rest, Insert(before, m));
    }
  }

  lemma NoneEntered(members: seq<Member>)
    ensures Entered([], members) == members
  {
  }

  lemma TableSource(t: Tree, rest: Text)
    requires t.Table?
    ensures var s := Source(t) + rest;
            && s != [] && s[0] == OPEN_OBJECT
            && s[1..] == if t.pairs == [] then t.blank + ([CLOSE_OBJECT] + rest) else PairsSource(t.pairs) + ([CLOSE_OBJECT] + rest)
  {
    hide PairsSource;
    Punctuation();
  }

  lemma PairsOpen(pairs: seq<Entry>, rest: Text)
    requires pairs != [] && White(pairs[0].before)
    ensures var s := PairsSource(pairs) + ([CLOSE_OBJECT] + rest); Expected(s, CLOSE_OBJECT) == (false, SkipSpace(s))
  {
    hide PairsSource, White, ValueTail, SkipSpace;
    var p := pairs[0];
    var u := [QUOTE] + (p.key + ([QUOTE] + (p.middle + ([COLON] + ValueTail(pairs, rest)))));
    PairsFirst(pairs, rest);
    SkipWhite(p.before, u);
  }

  lemma {:induction false} TableReads(t: Tree, rest: Text)
    requires t.Table? && Proper(t)
    ensures ValueFrom(Source(t) + rest) == Read(Meaning(t), rest)
    decreases t, 0
  {
    hide MembersFrom, SkipSpace, Expected, ValueFrom, Source, PairsSource, Entered;
    var pairs := t.pairs;
    TableSource(t, rest);
    ObjectFrom(Source(t) + rest);
    if pairs == [] {
      ExpectedBehind(t.blank, CLOSE_OBJECT, rest);
      NoneEntered([]);
    } else {
      var s := PairsSource(pairs) + ([CLOSE_OBJECT] + rest);
      PairsOpen(pairs, rest);
      SkipTwice(s);
      MembersSkip(SkipSpace(s), s, []);
      PairsReads(pairs, rest, []);
    }
  }

  // ---- values: whatever is read is a text of the grammar ---------------------------------

  /** Is `s` the value `v`, written as in `t` behind the white space `ws`, and then
      `rest`? A number goes on as long as it can. */
  predicate Writes(s: Text, v: Value, rest: Text, ws: Text, t: Tree) {
    White(ws) && Proper(t) && s == ws + (Source(t) + rest) && Meaning(t) == v && (t.Numeric? ==> Ends(rest))
  }

  lemma {:induction false} NumberTaken(s: Text, before: Text) returns (d: Text)
    ensures var (text, rest) := NumberFrom(s, before);
            text == before + d && s == d + rest && Ends(rest) && forall i | 0 <= i < |d| :: InNumber(d[i])
  {
    hide InNumber;
    d := [];
    if s != [] && InNumber(s[0]) {
      d := NumberTaken(s[1..], before + [s[0]]);
      d := [s[0]] + d;
      assert s == [s[0]] + s[1..];
    } else {
      assert before + [] == before && s == [] + s;
    }
  }

  lemma {:induction false} ValueTree(s: Text) returns (ws: Text, t: Tree)
    requires ValueFrom(s).Read?
    ensures Writes(s, ValueFrom(s).value, ValueFrom(s).rest, ws, t)
    decreases |s|, 2
  {
    hide ValueFrom, Writes, StringFrom, NumberFrom, NumberOf, ItemsFrom, MembersFrom, Expected, SkipSpace, StartsWith;
    ws := WhiteSkipped(s);
    var u := SkipSpace(s);
    SkipTwice(s);
    ValueSkips(s, u);
    t := SolidTree(u, |s|);
    Behind(ws, u, ValueFrom(s).value, ValueFrom(s).rest, t);
  }

  lemma Behind(ws: Text, u: Text, v: Value, rest: Text, t: Tree)
    requires White(ws) && Writes(u, v, rest, [], t)
    ensures Writes(ws + u, v, rest, ws, t)
  {
    hide Proper, Source, Meaning;
  }

  lemma {:induction false} SolidTree(u: Text, n: nat) returns (t: Tree)
    requires SkipSpace(u) == u && ValueFrom(u).Read? && |u| <= n
    ensures Writes(u, ValueFrom(u).value, ValueFrom(u).rest, [], t)
    decreases n, 1
  {
    hide Writes, StringFrom, NumberFrom, NumberOf, ItemsFrom, MembersFrom, Expected, SkipSpace, StartsWith;
    if StartsWith(u, NULL) || StartsWith(u, FALSE) || StartsWith(u, TRUE) {
      t := WordTree(u);
    } else if u[0] == QUOTE {
      t := QuotedTree(u);
    } else if u[0] == OPEN_ARRAY {
      t := ListTree(u, n);
    } else if u[0] == OPEN_OBJECT {
      t := TableTree(u, n);
    } else {
      t := NumericTree(u);
    }
  }

  lemma WordTree(u: Text) returns (t: Tree)
    requires SkipSpace(u) == u && (StartsWith(u, NULL) || StartsWith(u, FALSE) || StartsWith(u, TRUE))
    ensures ValueFrom(u).Read? && Writes(u, ValueFrom(u).value, ValueFrom(u).rest, [], t)
  {
    hide StringFrom, NumberFrom, NumberOf, ItemsFrom, MembersFrom, Expected, SkipSpace;
    Words();
    t := Word(ValueFrom(u).value);
    var d := Source(t);
    assert u == d + u[|d|..];
  }

  lemma QuotedTree(u: Text) returns (t: Tree)
    requires u != [] && SkipSpace(u) == u && u[0] == QUOTE && ValueFrom(u).Read?
    ensures Writes(u, ValueFrom(u).value, ValueFrom(u).rest, [], t)
  {
    hide StringFrom, NumberFrom, NumberOf, ItemsFrom, MembersFrom, Expected, SkipSpace, Unquoted;
    NotWord(u);
    var r := StringFrom(u[1..], []);
    var text := StringTaken(u[1..], []);
    t := Quoted(text);
    Marks();
    assert [] + Unquoted(text).value == Unquoted(text).value;
    assert u == [QUOTE] + u[1..];
    assert Source(t) + r.rest == [QUOTE] + (text + ([QUOTE] + r.rest));
    assert [] + (Source(t) + r.rest) == Source(t) + r.rest;
  }

  lemma NumericTree(u: Text) returns (t: Tree)
    requires SkipSpace(u) == u && ValueFrom(u).Read?
    requires u != [] && u[0] != QUOTE && u[0] != OPEN_ARRAY && u[0] != OPEN_OBJECT
    requires !StartsWith(u, NULL) && !StartsWith(u, FALSE) && !StartsWith(u, TRUE)
    ensures Writes(u, ValueFrom(u).value, ValueFrom(u).rest, [], t)
  {
    hide NumberOf, ItemsFrom, MembersFrom, Expected, SkipSpace, StartsWith, NumberFrom, StringFrom, Ends;
    var d := NumberTaken(u[1..], [u[0]]);
    t := Numeric([u[0]] + d);
    var rest := ValueFrom(u).rest;
    assert u == [u[0]] + u[1..];
    assert [] + (Source(t) + rest) == u;
  }

  lemma {:induction false} ListTree(u: Text, n: nat) returns (t: Tree)
    requires u != [] && SkipSpace(u) == u && u[0] == OPEN_ARRAY && ValueFrom(u).Read? && |u| <= n
    ensures Writes(u, ValueFrom(u).value, ValueFrom(u).rest, [], t)
    decreases n, 0
  {
    hide ItemsFrom, SkipSpace, Expected, ValueFrom, ItemsSource, Meanings, Source, Proper;
    var s, v, rest := u[1..], ValueFrom(u).value, ValueFrom(u).rest;
    ArrayFrom(u);
    var ws := ExpectedTaken(s, CLOSE_ARRAY);
    if Expected(s, CLOSE_ARRAY).0 {
      t := List([], ws);
      NoMeanings();
    } else {
      SkipTwice(s);
      ItemsSkip(SkipSpace(s), s, []);
      var items := ItemsTree(s, []);
      t := List(items, []);
      assert [] + Meanings(items) == Meanings(items);
    }
    ListSource(t, rest);
    assert u == [OPEN_ARRAY] + s && Source(t) + rest == [OPEN_ARRAY] + s;
    assert [] + (Source(t) + rest) == Source(t) + rest;
    ListProper(t);
  }

  lemma ListProper(t: Tree)
    requires t.List? && White(t.blank) && forall x | x in t.items :: White(x.before) && White(x.after) && Proper(x.tree)
    ensures Proper(t) && Meaning(t) == Array(Meanings(t.items))
  {
    hide White;
  }

  lemma {:induction false} ItemsTree(s: Text, before: seq<Value>) returns (items: seq<Slot>)
    requires ItemsFrom(s, before).Read?
    ensures items != [] && forall x | x in items :: White(x.before) && White(x.after) && Proper(x.tree)
    ensures ItemsFrom(s, before).value == Array(before + Meanings(items))
    ensures s == ItemsSource(items) + ([CLOSE_ARRAY] + ItemsFrom(s, before).rest)
    decreases |s|, 3
  {
    hide ItemsFrom, SkipSpace, Expected, ValueFrom, ItemsSource, Source, Proper, White;
    ItemStep(s, before);
    var item, rest := ValueFrom(s), ItemsFrom(s, before).rest;
    var ws, tree := ValueTree(s);
    var (more, t) := Expected(item.rest, COMMA);
    var after := ExpectedTaken(item.rest, COMMA);
    var x := Slot(ws, tree, after);
    var others := [];
    if more {
      others := ItemsTree(t, before + [item.value]);
    } else {
      SkipTwice(item.rest);
      var none := ExpectedTaken(t, CLOSE_ARRAY);
      NoWhite(none, t);
    }
    items := [x] + others;
    OneMore(x, others, before, rest);
  }

  lemma OneMore(x: Slot, others: seq<Slot>, before: seq<Value>, rest: Text)
    requires Proper(x.tree) && forall y | y in others :: Proper(y.tree)
    ensures before + Meanings([x] + others) == before + [Meaning(x.tree)] + (if others == [] then [] else Meanings(others))
    ensures before + [Meaning(x.tree)] + [] == before + [Meaning(x.tree)]
    ensures ItemsSource([x] + others) + ([CLOSE_ARRAY] + rest)
         == x.before + (Source(x.tree) + (x.after + if others == [] then [CLOSE_ARRAY] + rest
                                                     else [COMMA] + (ItemsSource(others) + ([CLOSE_ARRAY] + rest))))
  {
    hide Source, ItemsSource, Proper, Meaning;
    var items := [x] + others;
    assert items[1..] == others;
    ItemsFirst(items, rest);
    NoMeanings();
  }

  lemma NoWhite(ws: Text, s: Text)
    requires s == ws + SkipSpace(s) && SkipSpace(s) == s
    ensures ws == []
  {
    hide SkipSpace;
    assert |s| == |ws| + |s|;
  }

  /** The first step of reading items. */
  lemma ItemStep(s: Text, before: seq<Value>)
    requires ItemsFrom(s, before).Read?
    ensures ValueFrom(s).Read?
    ensures var item := ValueFrom(s);
            var (more, t) := Expected(item.rest, COMMA);
            && |t| < |s|
            && if more then ItemsFrom(t, before + [item.value]) == ItemsFrom(s, before)
               else Expected(t, CLOSE_ARRAY).0 && ItemsFrom(s, before) == Read(Array(before + [item.value]), Expected(t, CLOSE_ARRAY).1)
  {
    hide ValueFrom, Expected;
  }

  lemma {:induction false} TableTree(u: Text, n: nat) returns (t: Tree)
    requires u != [] && SkipSpace(u) == u && u[0] == OPEN_OBJECT && ValueFrom(u).Read? && |u| <= n
    ensures Writes(u, ValueFrom(u).value, ValueFrom(u).rest, [], t)
    decreases n, 0
  {
    hide MembersFrom, SkipSpace, Expected, ValueFrom, PairsSource, Entered, Source, Proper;
    var s, v, rest := u[1..], ValueFrom(u).value, ValueFrom(u).rest;
    ObjectFrom(u);
    var ws := ExpectedTaken(s, CLOSE_OBJECT);
    if Expected(s, CLOSE_OBJECT).0 {
      t := Table([], ws);
      NoneEntered([]);
    } else {
      SkipTwice(s);
      MembersSkip(SkipSpace(s), s, []);
      var pairs := PairsTree(s, []);
      t := Table(pairs, []);
    }
    TableSource(t, rest);
    assert u == [OPEN_OBJECT] + s && Source(t) + rest == [OPEN_OBJECT] + s;
    assert [] + (Source(t) + rest) == Source(t) + rest;
    TableProper(t);
  }

  lemma TableProper(t: Tree)
    requires t.Table? && White(t.blank) && forall p | p in t.pairs :: Spaced(p) && Unquoted(p.key).Some? && Proper(p.slot.tree)
    ensures Proper(t) && Meaning(t) == Object(Entered(t.pairs, []))
  {
    hide White, Spaced, Unquoted;
  }

  lemma {:induction false} PairsTree(s: Text, before: seq<Member>) returns (pairs: seq<Entry>)
    requires MembersFrom(s, before).Read?
    ensures pairs != [] && forall p | p in pairs :: Spaced(p) && Unquoted(p.key).Some? && Proper(p.slot.tree)
    ensures MembersFrom(s, before).value == Object(Entered(pairs, before))
    ensures s == PairsSource(pairs) + ([CLOSE_OBJECT] + MembersFrom(s, before).rest)
    decreases |s|, 3
  {
    hide MembersFrom, SkipSpace, Expected, ValueFrom, KeyFrom, PairsSource, Source, Proper, White, Insert, Unquoted;
    MemberStep(s, before);
    var key, rest := KeyFrom(s), MembersFrom(s, before).rest;
    var value := ValueFrom(key.rest);
    var m := Member(key.value, value.value);
    var first, text, middle := KeyTaken(s);
    var ws, tree := ValueTree(key.rest);
    var (more, t) := Expected(value.rest, COMMA);
    var after := ExpectedTaken(value.rest, COMMA);
    var p := Entry(first, text, middle, Slot(ws, tree, after));
    var others := [];
    if more {
      others := PairsTree(t, Insert(before, m));
    } else {
      SkipTwice(value.rest);
      var none := ExpectedTaken(t, CLOSE_OBJECT);
      NoWhite(none, t);
      NoneEntered(Insert(before, m));
    }
    pairs := [p] + others;
    assert pairs[1..] == others;
    PairsFirst(pairs, rest);
    assert PairsTail(pairs, rest) == value.rest;
    assert ValueTail(pairs, rest) == key.rest;
  }

  /** A key, the quotes around it and the colon. */
  lemma KeyTaken(s: Text) returns (before: Text, text: Text, middle: Text)
    requires KeyFrom(s).Read?
    ensures White(before) && White(middle) && Unquoted(text) == Some(KeyFrom(s).value)
    ensures s == before + ([QUOTE] + (text + ([QUOTE] + (middle + ([COLON] + KeyFrom(s).rest)))))
  {
    hide StringFrom, Unquoted, Expected, White, SkipSpace;
    before := ExpectedTaken(s, QUOTE);
    var t := Expected(s, QUOTE).1;
    text := StringTaken(t, []);
    assert [] + Unquoted(text).value == Unquoted(text).value;
    middle := ExpectedTaken(StringFrom(t, []).rest, COLON);
  }

  /** The first step of reading members. */
  lemma MemberStep(s: Text, before: seq<Member>)
    requires MembersFrom(s, before).Read?
    ensures KeyFrom(s).Read? && ValueFrom(KeyFrom(s).rest).Read?
    ensures var value := ValueFrom(KeyFrom(s).rest);
            var m := Member(KeyFrom(s).value, value.value);
            var (more, t) := Expected(value.rest, COMMA);
            && |t| < |s|
            && if more then MembersFrom(t, Insert(before, m)) == MembersFrom(s, before)
               else Expected(t, CLOSE_OBJECT).0 && MembersFrom(s, before) == Read(Object(Insert(before, m)), Expected(t, CLOSE_OBJECT).1)
  {
    hide ValueFrom, Expected, KeyFrom, Insert;
  }

  // ---- the grammar and the reader --------------------------------------------------------

  /** A text is read, with that value and that rest, exactly if it is so written. */
  lemma ReadExactly(s: Text, v: Value, rest: Text)
    ensures ValueFrom(s) == Read(v, rest) <==> exists ws, t :: Writes(s, v, rest, ws, t)
  {
    hide ValueFrom, Source, Proper, Meaning;
    if ValueFrom(s) == Read(v, rest) {
      var ws, t := ValueTree(s);
    }
    if ws, t :| Writes(s, v, rest, ws, t) {
      ValueReads(ws, t, rest);
    }
  }
}
